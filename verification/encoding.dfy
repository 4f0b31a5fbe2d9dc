/**
 The bit encoder of the detector: every character of the input text becomes its
 code point written in binary, most significant bit first, zero-padded on the
 left to at least eight digits (Python's `format(ord(c), '08b')`), and the
 numerals are concatenated in text order. The detector then keeps only a short
 prefix of the result.

 Characters are modelled by their code points (natural numbers), and bit
 strings as strings of '0' and '1' characters, as the program holds them.
 */
module Encoding {

  /** Width of one encoded character when its code fits in a byte. */
  const ByteWidth: nat := 8

  /** A string made only of the binary digits '0' and '1'. */
  predicate IsBitString(s: string) {
    forall i :: 0 <= i < |s| ==> s[i] == '0' || s[i] == '1'
  }

  /** Every code point of the text fits in one byte. */
  predicate IsByteText(text: seq<nat>) {
    forall i :: 0 <= i < |text| ==> text[i] < 256
  }

  function Pow2(k: nat): (r: nat)
    ensures r >= 1
  {
    if k == 0 then 1 else 2 * Pow2(k - 1)
  }

  function Max(a: nat, b: nat): nat {
    if a < b then b else a
  }

  function Min(a: nat, b: nat): nat {
    if a < b then a else b
  }

  function Digit(b: nat): char
    requires b < 2
  {
    if b == 0 then '0' else '1'
  }

  function DigitValue(c: char): nat
    requires c == '0' || c == '1'
  {
    if c == '0' then 0 else 1
  }

  /** The number a bit string denotes, read most significant bit first. */
  function Value(s: string): (v: nat)
    requires IsBitString(s)
    ensures v < Pow2(|s|)
  {
    if |s| == 0 then 0 else 2 * Value(s[..|s| - 1]) + DigitValue(s[|s| - 1])
  }

  /** The minimal binary numeral of `n` (`format(n, 'b')`): "0" for zero and
      otherwise no leading zero. */
  function Binary(n: nat): (r: string)
    ensures IsBitString(r)
    ensures 1 <= |r|
    ensures |r| > 1 ==> r[0] == '1'
    ensures Value(r) == n
    ensures |r| > 1 ==> Pow2(|r| - 1) <= n
    decreases n
  {
    if n < 2 then [Digit(n)]
    else
      var hi := Binary(n / 2);
      var r := hi + [Digit(n % 2)];
      assert r[..|r| - 1] == hi;
      r
  }

  function Zeros(k: nat): (r: string)
    ensures |r| == k
    ensures IsBitString(r)
  {
    seq(k, _ => '0')
  }

  /** `format(n, '08b')` generalised to any width: the minimal numeral of `n`,
      left-padded with zeros up to `width` digits and never truncated. */
  function PadBinary(n: nat, width: nat): (r: string)
    ensures IsBitString(r)
    ensures |r| == Max(width, |Binary(n)|)
    ensures Value(r) == n
    ensures width >= 1 && n < Pow2(width) ==> |r| == width
  {
    var b := Binary(n);
    BinaryFits(n, width);
    if |b| < width then
      LeadingZeros(width - |b|, b);
      Zeros(width - |b|) + b
    else b
  }

  /** The numeral of one character, `format(ord(c), '08b')`. */
  function Format08b(code: nat): (r: string)
    ensures IsBitString(r)
    ensures |r| >= ByteWidth
    ensures Value(r) == code
    ensures code < 256 <==> |r| == ByteWidth
  {
    BinaryFits(code, ByteWidth);
    PadBinary(code, ByteWidth)
  }

  /** `text_to_bits`: the numerals of the characters joined in text order. */
  function TextToBits(text: seq<nat>): (r: string)
    ensures IsBitString(r)
    ensures |r| >= ByteWidth * |text|
    ensures IsByteText(text) ==> |r| == ByteWidth * |text|
  {
    if |text| == 0 then ""
    else
      var rest := TextToBits(text[1..]);
      ByteTextTail(text);
      Format08b(text[0]) + rest
  }

  /** `bit_string[:max_bits]`: at most the first `maxBits` digits. */
  function Truncate(bits: string, maxBits: nat): (r: string)
    ensures |r| == Min(|bits|, maxBits)
    ensures r <= bits
  {
    if |bits| <= maxBits then bits else bits[..maxBits]
  }

  /** Reading a string back eight digits at a time: the inverse of
      `TextToBits` on byte texts. */
  function BitsToText(bits: string): (r: seq<nat>)
    requires IsBitString(bits)
    requires |bits| % ByteWidth == 0
    ensures |r| == |bits| / ByteWidth
    ensures IsByteText(r)
  {
    if |bits| == 0 then []
    else
      assert IsBitString(bits[ByteWidth..]);
      assert IsBitString(bits[..ByteWidth]);
      [Value(bits[..ByteWidth])] + BitsToText(bits[ByteWidth..])
  }

  // ---------------------------------------------------------------------------
  // Lemmas
  // ---------------------------------------------------------------------------

  lemma ByteTextTail(text: seq<nat>)
    requires |text| > 0
    ensures IsByteText(text) ==> IsByteText(text[1..])
  {
    if IsByteText(text) {
      forall i | 0 <= i < |text[1..]| ensures text[1..][i] < 256 {
        assert text[1..][i] == text[i + 1];
      }
    }
  }

  /** A numeral fits in `width` digits exactly when its number is below
      2^width (for a positive width). */
  lemma BinaryFits(n: nat, width: nat)
    ensures width >= 1 ==> (|Binary(n)| <= width <==> n < Pow2(width))
    ensures |Binary(n)| <= width ==> n < Pow2(width)
  {
    var b := Binary(n);
    if |b| <= width {
      PowMonotone(|b|, width);
    }
    if width >= 1 && n < Pow2(width) && |b| > width {
      PowMonotone(width, |b| - 1);
    }
  }

  lemma {:induction false} PowMonotone(a: nat, b: nat)
    requires a <= b
    ensures Pow2(a) <= Pow2(b)
    decreases b
  {
    if a < b {
      PowMonotone(a, b - 1);
    }
  }

  /** Leading zeros do not change the value of a numeral. */
  lemma {:induction false} LeadingZeros(k: nat, s: string)
    requires IsBitString(s)
    ensures IsBitString(Zeros(k) + s)
    ensures Value(Zeros(k) + s) == Value(s)
    decreases |s|
  {
    var z := Zeros(k) + s;
    if |s| == 0 {
      assert z == Zeros(k);
      ZerosValue(k);
    } else {
      var s' := s[..|s| - 1];
      assert z[..|z| - 1] == Zeros(k) + s';
      LeadingZeros(k, s');
    }
  }

  lemma {:induction false} ZerosValue(k: nat)
    ensures Value(Zeros(k)) == 0
  {
    if k > 0 {
      assert Zeros(k)[..k - 1] == Zeros(k - 1);
      ZerosValue(k - 1);
    }
  }

  /** Two numerals of the same length with the same value are the same
      string. */
  lemma {:induction false} ValueInjective(a: string, b: string)
    requires IsBitString(a) && IsBitString(b)
    requires |a| == |b|
    requires Value(a) == Value(b)
    ensures a == b
    decreases |a|
  {
    if |a| > 0 {
      var n := |a| - 1;
      assert DigitValue(a[n]) == Value(a) % 2 == DigitValue(b[n]);
      ValueInjective(a[..n], b[..n]);
      assert a == a[..n] + [a[n]];
      assert b == b[..n] + [b[n]];
    }
  }

  /** The numeral of a byte is the only eight-digit string with its value. */
  lemma Format08bUnique(code: nat, s: string)
    requires IsBitString(s) && |s| == ByteWidth
    requires Value(s) == code
    ensures Format08b(code) == s
  {
    ValueInjective(Format08b(code), s);
  }

  /** Chunk `j` of the encoding of a byte text is the eight-digit numeral of
      character `j`. */
  lemma {:induction false} ChunkIsCharacter(text: seq<nat>, j: nat)
    requires IsByteText(text)
    requires j < |text|
    ensures ByteWidth * (j + 1) <= |TextToBits(text)|
    ensures TextToBits(text)[ByteWidth * j .. ByteWidth * (j + 1)] == Format08b(text[j])
    decreases j
  {
    var head := Format08b(text[0]);
    var rest := TextToBits(text[1..]);
    assert TextToBits(text) == head + rest;
    assert |head| == ByteWidth;
    if j == 0 {
      assert (head + rest)[0 .. ByteWidth] == head;
    } else {
      ByteTextTail(text);
      ChunkIsCharacter(text[1..], j - 1);
      var lo := ByteWidth * (j - 1);
      assert ByteWidth * j == lo + ByteWidth;
      assert ByteWidth * (j + 1) == lo + 2 * ByteWidth;
      assert (head + rest)[lo + ByteWidth .. lo + 2 * ByteWidth] == rest[lo .. lo + ByteWidth];
    }
  }

  /** Decoding the encoding of a byte text gives the text back. */
  lemma {:induction false} DecodeEncode(text: seq<nat>)
    requires IsByteText(text)
    ensures BitsToText(TextToBits(text)) == text
    decreases |text|
  {
    if |text| > 0 {
      var bits := TextToBits(text);
      var head := Format08b(text[0]);
      var rest := TextToBits(text[1..]);
      assert bits == head + rest;
      assert bits[..ByteWidth] == head;
      assert bits[ByteWidth..] == rest;
      ByteTextTail(text);
      DecodeEncode(text[1..]);
      assert text == [text[0]] + text[1..];
    }
  }

  /** Encoding the decoding of a whole number of bytes gives the bits back. */
  lemma {:induction false} EncodeDecode(bits: string)
    requires IsBitString(bits)
    requires |bits| % ByteWidth == 0
    ensures TextToBits(BitsToText(bits)) == bits
    decreases |bits|
  {
    if |bits| > 0 {
      var chunk := bits[..ByteWidth];
      var tail := bits[ByteWidth..];
      assert IsBitString(chunk);
      assert IsBitString(tail);
      var text := BitsToText(bits);
      assert text[0] == Value(chunk);
      assert text[1..] == BitsToText(tail);
      Format08bUnique(Value(chunk), chunk);
      EncodeDecode(tail);
      assert bits == chunk + tail;
    }
  }

  /** Keeping the first eight digits keeps the first character's numeral, cut
      to eight digits when the character is wider than a byte. */
  lemma LeadingByte(text: seq<nat>)
    requires |text| > 0
    ensures Truncate(TextToBits(text), ByteWidth) == Format08b(text[0])[..ByteWidth]
    ensures text[0] < 256 ==> Truncate(TextToBits(text), ByteWidth) == Format08b(text[0])
  {
    var head := Format08b(text[0]);
    assert TextToBits(text) == head + TextToBits(text[1..]);
    assert (head + TextToBits(text[1..]))[..ByteWidth] == head[..ByteWidth];
  }
}

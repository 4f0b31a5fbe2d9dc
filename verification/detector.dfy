/**
 The detection pipeline of the program's `main`, without its file handling and
 console output: encode the text, keep the first eight bits, build the clean
 and the tampered circuit, simulate both, compare the final states by
 fidelity, and report tampering when the fidelity is below 0.95.
 */
module Detector {
  import opened Encoding
  import opened Circuits
  import opened Semantics

  /** How many leading bits are turned into qubits (`max_bits`). */
  const MaxBits: nat := 8

  /** Fidelity below this value is reported as tampering. */
  const Threshold: real := 95.0 / 100.0

  /** The text written to the demo file when it does not exist yet. */
  const SampleText: string := "Hello Quantum World!"

  datatype Verdict = TamperingDetected | Clean

  /** Why the simulator or `state_fidelity` refuses a pair of circuits. */
  datatype CompareError = QubitOutOfRange | NoSavedState | DimensionMismatch

  datatype Comparison = Compared(fidelity: real) | Refused(error: CompareError)

  /** What one run of the detector reports. */
  datatype Report = Report(
    originalLength: nat,   // length of the full bit string
    bits: string,          // the bits turned into qubits
    fidelity: real,        // fidelity between the clean and tampered states
    verdict: Verdict)

  /** The code points of a string (`ord` of every character): each is a
      Unicode scalar value, and `chr` of it gives the character back. */
  function Ord(s: string): (r: seq<nat>)
    ensures |r| == |s|
    ensures forall i :: 0 <= i < |s| ==>
      && r[i] < 0x11_0000
      && !(0xD800 <= r[i] < 0xE000)
      && r[i] as char == s[i]
  {
    seq(|s|, i requires 0 <= i < |s| => s[i] as nat)
  }

  /** `ord` loses nothing: different strings have different code points. */
  lemma OrdInjective(s: string, t: string)
    requires Ord(s) == Ord(t)
    ensures s == t
  {
    forall i | 0 <= i < |s| ensures s[i] == t[i] {
      assert Ord(s)[i] as char == s[i];
      assert Ord(t)[i] as char == t[i];
    }
  }

  /** The decision `if fidelity < 0.95`. */
  function Classify(fidelity: real): (v: Verdict)
    ensures v == Clean <==> 95.0 / 100.0 <= fidelity
  {
    if fidelity < Threshold then TamperingDetected else Clean
  }

  /** Simulate both circuits and compute the fidelity of their saved states.
      A circuit touching a qubit outside its register cannot be built, a
      circuit must save its state once, as its last operation, for the state
      read back to be its final state, and states of different dimensions
      cannot be compared. */
  function CompareCircuits(a: Circuit, b: Circuit): (r: Comparison)
    ensures r.Compared? <==>
      && WellFormed(a) && WellFormed(b)
      && SavesOnceAtEnd(a) && SavesOnceAtEnd(b)
      && a.qubits == b.qubits
    ensures r.Compared? ==> 0.0 <= r.fidelity <= 1.0
    ensures r.Compared? ==> (r.fidelity == 1.0 <==> EqualUpToGlobalPhase(Run(a), Run(b)))
  {
    if !WellFormed(a) || !WellFormed(b) then Refused(QubitOutOfRange)
    else if !SavesOnceAtEnd(a) || !SavesOnceAtEnd(b) then Refused(NoSavedState)
    else if a.qubits != b.qubits then Refused(DimensionMismatch)
    else
      FidelityOneIff(Run(a), Run(b));
      Compared(Fidelity(Run(a), Run(b)))
  }

  /** The detection steps of `main` on the file's text, with `k` the tamper
      position drawn for the tampered circuit (a non-empty text always yields
      eight qubits, an empty one none, and then no position is drawn).
      Whatever the text and the position, the fidelity is exactly one and the
      verdict is clean. */
  function Detect(text: seq<nat>, k: nat): (r: Report)
    requires |text| == 0 || k < MaxBits
    ensures r.originalLength == |TextToBits(text)|
    ensures r.originalLength >= ByteWidth * |text|
    ensures IsByteText(text) ==> r.originalLength == ByteWidth * |text|
    ensures |r.bits| == Min(r.originalLength, MaxBits)
    ensures r.bits <= TextToBits(text)
    ensures r.fidelity == 1.0
    ensures r.verdict == Clean
  {
    var full := TextToBits(text);
    var bits := Truncate(full, MaxBits);
    var clean := MakeCircuit(bits, false, k);
    var tampered := MakeCircuit(bits, true, k);
    TamperedFidelityIsOne(bits, k);
    var fidelity := CompareCircuits(clean, tampered).fidelity;
    Report(|full|, bits, fidelity, Classify(fidelity))
  }

  // ---------------------------------------------------------------------------
  // Lemmas
  // ---------------------------------------------------------------------------

  /** The threshold itself is on the clean side, and so is every higher
      fidelity; every lower one is reported as tampering. */
  lemma ClassifyThreshold(f: real, g: real)
    ensures Classify(95.0 / 100.0) == Clean
    ensures Classify(1.0) == Clean
    ensures f < 95.0 / 100.0 ==> Classify(f) == TamperingDetected
    ensures f <= g && Classify(f) == Clean ==> Classify(g) == Clean
  {
  }

  /** Two comparable circuits are classified clean exactly when their final
      states are equal up to a global sign. */
  lemma VerdictOfEquivalentStates(a: Circuit, b: Circuit)
    requires CompareCircuits(a, b).Compared?
    ensures Classify(CompareCircuits(a, b).fidelity) == Clean <==> EqualUpToGlobalPhase(Run(a), Run(b))
  {
    FidelityOneIff(Run(a), Run(b));
  }

  /** The eight-digit numeral of 'H' (code 72). */
  lemma NumeralOfH()
    ensures Format08b(72) == "01001000"
  {
    var s := "01001000";
    assert IsBitString(s);
    assert Value(s[..1]) == 0;
    assert s[..2][..1] == s[..1];
    assert Value(s[..2]) == 1;
    assert s[..3][..2] == s[..2];
    assert Value(s[..3]) == 2;
    assert s[..4][..3] == s[..3];
    assert Value(s[..4]) == 4;
    assert s[..5][..4] == s[..4];
    assert Value(s[..5]) == 9;
    assert s[..6][..5] == s[..5];
    assert Value(s[..6]) == 18;
    assert s[..7][..6] == s[..6];
    assert Value(s[..7]) == 36;
    assert Value(s) == 72;
    Format08bUnique(72, s);
  }

  /** On the demo text the first eight bits are the numeral of 'H'. */
  lemma SampleBits()
    ensures Ord(SampleText)[0] == 72
    ensures Truncate(TextToBits(Ord(SampleText)), MaxBits) == "01001000"
  {
    var text := Ord(SampleText);
    assert text[0] == 'H' as nat == 72;
    LeadingByte(text);
    NumeralOfH();
  }

  /** On the demo text, the detector reports the byte of 'H' as its qubits
      and a clean file, wherever the phase flip lands. */
  lemma SampleReport(k: nat)
    requires k < MaxBits
    ensures var r := Detect(Ord(SampleText), k);
      && r.originalLength == 160
      && r.bits == "01001000"
      && r.verdict == Clean
  {
    var text := Ord(SampleText);
    SampleBits();
    // every character of the demo text is ASCII
    assert IsByteText(text) by {
      forall i | 0 <= i < |text| ensures text[i] < 256 {
        assert SampleText[i] in "Hello QuantmWrd!";
      }
    }
    assert |TextToBits(text)| == 160;
  }
}

/**
 The circuit builder of the detector (`make_quantum_circuit`). A circuit is
 a qubit count and the list of operations appended to it: one basis flip X(i)
 for every position of the bit string holding '1', optionally one phase flip
 Z(k) at the tamper position, and a final marker that saves the state vector.

 The tamper position, drawn at random by the program, is a parameter here.
 */
module Circuits {

  datatype Op = X(qubit: nat) | Z(qubit: nat) | Save

  datatype Circuit = Circuit(qubits: nat, ops: seq<Op>)

  /** The operation only touches qubits of an `n`-qubit register. */
  predicate InRange(op: Op, n: nat) {
    match op
    case X(q) => q < n
    case Z(q) => q < n
    case Save => true
  }

  predicate WellFormed(c: Circuit) {
    forall i :: 0 <= i < |c.ops| ==> InRange(c.ops[i], c.qubits)
  }

  /** Where the random tamper position may fall: anywhere in the register,
      and nowhere is drawn for an empty register. */
  predicate ValidTamperIndex(n: nat, k: nat) {
    n == 0 || k < n
  }

  /** The state vector is saved exactly once, by the last operation. */
  predicate SavesOnceAtEnd(c: Circuit) {
    && |c.ops| >= 1
    && c.ops[|c.ops| - 1] == Save
    && (forall i :: 0 <= i < |c.ops| - 1 ==> c.ops[i] != Save)
  }

  /** Reference description of the encoding operations for `bits`: only basis
      flips, on qubits of the register, in strictly increasing qubit order, and
      qubit `i` is flipped exactly when digit `i` is '1'. */
  predicate EncodesBits(ops: seq<Op>, bits: string) {
    && SortedFlips(ops)
    && (forall i :: 0 <= i < |ops| ==> ops[i].qubit < |bits|)
    && (forall i :: 0 <= i < |bits| ==> (X(i) in ops <==> bits[i] == '1'))
  }

  /** The operations the encoding loop appends: one X(i) for each position i
      holding '1', in increasing i. */
  function EncodeOps(bits: string): (r: seq<Op>)
    ensures EncodesBits(r, bits)
  {
    if |bits| == 0 then []
    else
      var n := |bits| - 1;
      var prev := EncodeOps(bits[..n]);
      var r := prev + (if bits[n] == '1' then [X(n)] else []);
      assert forall i :: 0 <= i < n ==> bits[..n][i] == bits[i];
      assert forall i :: 0 <= i < n ==> (X(i) in r <==> X(i) in prev);
      r
  }

  /** Number of phase flips in an operation list. */
  function CountZ(ops: seq<Op>): nat {
    if |ops| == 0 then 0
    else CountZ(ops[..|ops| - 1]) + (if ops[|ops| - 1].Z? then 1 else 0)
  }

  /** `make_quantum_circuit(bit_string, tampered)`, with `k` standing for the
      value `random.randint(0, n - 1)` returns. */
  function MakeCircuit(bits: string, tampered: bool, k: nat): (c: Circuit)
    requires tampered ==> ValidTamperIndex(|bits|, k)
    ensures c.qubits == |bits|
    ensures WellFormed(c)
    ensures SavesOnceAtEnd(c)
    ensures CountZ(c.ops) == (if tampered && |bits| > 0 then 1 else 0)
  {
    var enc := EncodeOps(bits);
    var tail := if tampered && |bits| > 0 then [Z(k), Save] else [Save];
    NoPhaseFlips(enc);
    CountZAppend(enc, tail);
    assert CountZ([Z(k), Save]) == 1 by {
      assert [Z(k)][..0] == [];
      assert CountZ([Z(k)]) == 1;
      assert [Z(k), Save][..1] == [Z(k)];
    }
    assert CountZ([Save]) == 0 by {
      assert [Save][..0] == [];
    }
    var ops := enc + tail;
    Circuit(|bits|, ops)
  }

  // ---------------------------------------------------------------------------
  // Lemmas
  // ---------------------------------------------------------------------------

  lemma {:induction false} NoPhaseFlips(ops: seq<Op>)
    requires forall i :: 0 <= i < |ops| ==> ops[i].X?
    ensures CountZ(ops) == 0
    decreases |ops|
  {
    if |ops| > 0 {
      NoPhaseFlips(ops[..|ops| - 1]);
    }
  }

  lemma {:induction false} CountZAppend(a: seq<Op>, b: seq<Op>)
    ensures CountZ(a + b) == CountZ(a) + CountZ(b)
    decreases |b|
  {
    if |b| == 0 {
      assert a + b == a;
    } else {
      var n := |b| - 1;
      assert (a + b)[..|a + b| - 1] == a + b[..n];
      CountZAppend(a, b[..n]);
    }
  }

  /** The encoding operations are determined by the reference description:
      any list that meets it is the one the builder produces. */
  lemma EncodeOpsUnique(ops: seq<Op>, bits: string)
    requires EncodesBits(ops, bits)
    ensures ops == EncodeOps(bits)
  {
    var enc := EncodeOps(bits);
    forall q: nat ensures X(q) in ops <==> X(q) in enc {
      if X(q) in ops {
        var i :| 0 <= i < |ops| && ops[i] == X(q);
      }
      if X(q) in enc {
        var i :| 0 <= i < |enc| && enc[i] == X(q);
      }
    }
    SortedFlipsEqual(ops, enc);
  }

  /** Only basis flips, in strictly increasing qubit order. */
  predicate SortedFlips(a: seq<Op>) {
    && (forall i :: 0 <= i < |a| ==> a[i].X?)
    && (forall i, j :: 0 <= i < j < |a| ==> a[i].qubit < a[j].qubit)
  }

  /** Two lists of basis flips in strictly increasing qubit order that flip
      the same qubits are equal. */
  lemma {:induction false} SortedFlipsEqual(a: seq<Op>, b: seq<Op>)
    requires SortedFlips(a) && SortedFlips(b)
    requires forall q: nat :: X(q) in a <==> X(q) in b
    ensures a == b
    decreases |a| + |b|
  {
    if |a| > 0 {
      FirstFlipMember(a);
    }
    if |b| > 0 {
      FirstFlipMember(b);
    }
    if |a| > 0 && |b| > 0 {
      SameFirst(a, b);
      forall q: nat ensures X(q) in a[1..] <==> X(q) in b[1..] {
        SortedTail(a, q);
        SortedTail(b, q);
      }
      SortedTail(a, 0);
      SortedTail(b, 0);
      SortedFlipsEqual(a[1..], b[1..]);
      assert a == [a[0]] + a[1..];
      assert b == [b[0]] + b[1..];
    }
  }

  lemma FirstFlipMember(a: seq<Op>)
    requires |a| > 0 && SortedFlips(a)
    ensures X(a[0].qubit) in a
  {
    assert a[0] == X(a[0].qubit);
  }

  /** Sorted flip lists over the same qubits start with the same flip. */
  lemma SameFirst(a: seq<Op>, b: seq<Op>)
    requires |a| > 0 && |b| > 0
    requires SortedFlips(a) && SortedFlips(b)
    requires forall q: nat :: X(q) in a <==> X(q) in b
    ensures a[0] == b[0]
  {
    assert a[0] == X(a[0].qubit);
    assert b[0] == X(b[0].qubit);
    assert X(a[0].qubit) in b;
    assert X(b[0].qubit) in a;
    var i :| 0 <= i < |a| && a[i] == b[0];
    var j :| 0 <= j < |b| && b[j] == a[0];
  }

  /** In a sorted list of basis flips, the tail is sorted and flips every
      qubit the list flips except the first one. */
  lemma SortedTail(a: seq<Op>, q: nat)
    requires |a| > 0
    requires SortedFlips(a)
    ensures SortedFlips(a[1..])
    ensures X(q) in a[1..] <==> X(q) in a && q != a[0].qubit
  {
    if X(q) in a[1..] {
      var m :| 0 <= m < |a[1..]| && a[1..][m] == X(q);
      assert a[m + 1] == X(q);
    }
    if X(q) in a && q != a[0].qubit {
      var m :| 0 <= m < |a| && a[m] == X(q);
      assert a[1..][m - 1] == X(q);
    }
  }

  /** Without tampering the circuit is the encoding of the bits followed by
      the save marker. */
  lemma CleanCircuitShape(bits: string, k: nat)
    ensures var c := MakeCircuit(bits, false, k);
      && c.ops[|c.ops| - 1] == Save
      && EncodesBits(c.ops[..|c.ops| - 1], bits)
  {
  }

  /** With tampering on a non-empty register the circuit is the clean one
      with exactly one phase flip at the tamper position inserted before the
      save marker; on an empty register tampering adds nothing. */
  lemma TamperedCircuitShape(bits: string, k: nat)
    requires ValidTamperIndex(|bits|, k)
    ensures var clean := MakeCircuit(bits, false, k);
            var tampered := MakeCircuit(bits, true, k);
      && tampered.qubits == clean.qubits
      && (|bits| > 0 ==>
            && |tampered.ops| == |clean.ops| + 1
            && tampered.ops == clean.ops[..|clean.ops| - 1] + [Z(k), Save])
      && (|bits| == 0 ==> tampered == clean)
  {
  }

  /** The untampered circuit does not depend on the tamper position. */
  lemma CleanIgnoresTamperIndex(bits: string, k: nat, k': nat)
    ensures MakeCircuit(bits, false, k) == MakeCircuit(bits, false, k')
  {
  }
}

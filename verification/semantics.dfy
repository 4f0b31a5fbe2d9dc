/**
 Exact semantics of the detector's circuits. Starting from the all-zero
 register, basis flips and phase flips only ever produce a computational basis
 state multiplied by a global sign, so a state is a sign and one bit per
 qubit: X(i) flips bit i, Z(i) negates the sign when bit i is set, and the save
 marker changes nothing. Fidelity between two such states is the squared
 magnitude of their inner product, which is the product of their signs when the
 bit strings agree and zero otherwise.
 */
module Semantics {
  import opened Circuits

  datatype Phase = Plus | Minus

  function Negate(p: Phase): Phase {
    if p == Plus then Minus else Plus
  }

  function Sign(p: Phase): int {
    if p == Plus then 1 else -1
  }

  /** The basis state |basis> multiplied by the global sign `phase`. */
  datatype State = State(phase: Phase, basis: seq<bool>)

  /** The register a fresh circuit starts in: every qubit |0>, sign +1. */
  function Ground(n: nat): State {
    State(Plus, seq(n, _ => false))
  }

  /** The basis string a bit string is encoded into: qubit i is |1> exactly
      when digit i is '1'. */
  function BitsOf(bits: string): (r: seq<bool>)
    ensures |r| == |bits|
    ensures forall i :: 0 <= i < |bits| ==> (r[i] <==> bits[i] == '1')
  {
    seq(|bits|, i requires 0 <= i < |bits| => bits[i] == '1')
  }

  function Apply(s: State, op: Op): (t: State)
    requires InRange(op, |s.basis|)
    ensures |t.basis| == |s.basis|
    ensures forall i :: 0 <= i < |s.basis| && (op.X? ==> i != op.qubit) ==> t.basis[i] == s.basis[i]
    ensures t.phase != s.phase ==> op.Z? && s.basis[op.qubit]
    ensures op.X? ==> t.basis[op.qubit] == !s.basis[op.qubit] && t.phase == s.phase
    ensures op.Z? ==> t.basis == s.basis && (t.phase != s.phase <==> s.basis[op.qubit])
    ensures op.Save? ==> t == s
  {
    match op
    case X(q) => State(s.phase, s.basis[q := !s.basis[q]])
    case Z(q) => if s.basis[q] then State(Negate(s.phase), s.basis) else s
    case Save => s
  }

  /** The state reached from `s` by applying `ops` in order. */
  function RunOps(s: State, ops: seq<Op>): (t: State)
    requires forall i :: 0 <= i < |ops| ==> InRange(ops[i], |s.basis|)
    ensures |t.basis| == |s.basis|
    ensures (forall i :: 0 <= i < |ops| ==> !ops[i].Z?) ==> t.phase == s.phase
  {
    if |ops| == 0 then s
    else Apply(RunOps(s, ops[..|ops| - 1]), ops[|ops| - 1])
  }

  /** The final state of a circuit (what the simulator's state vector
      describes). */
  function Run(c: Circuit): (t: State)
    requires WellFormed(c)
    ensures |t.basis| == c.qubits
  {
    RunOps(Ground(c.qubits), c.ops)
  }

  /** The inner product of two signed basis states. */
  function Overlap(a: State, b: State): (r: int)
    ensures -1 <= r <= 1
    ensures r != 0 <==> a.basis == b.basis
  {
    if a.basis == b.basis then Sign(a.phase) * Sign(b.phase) else 0
  }

  /** Fidelity of two pure states, |<a|b>|^2. */
  function Fidelity(a: State, b: State): (f: real)
    ensures 0.0 <= f <= 1.0
  {
    var o := Overlap(a, b);
    (o * o) as real
  }

  /** The two states differ at most by a global sign. */
  predicate EqualUpToGlobalPhase(a: State, b: State) {
    a == b || a == State(Negate(b.phase), b.basis)
  }

  // ---------------------------------------------------------------------------
  // Lemmas
  // ---------------------------------------------------------------------------

  lemma RunOpsSnoc(s: State, ops: seq<Op>, op: Op)
    requires forall i :: 0 <= i < |ops| ==> InRange(ops[i], |s.basis|)
    requires InRange(op, |s.basis|)
    ensures RunOps(s, ops + [op]) == Apply(RunOps(s, ops), op)
  {
    assert (ops + [op])[..|ops|] == ops;
  }

  /** An `n`-qubit basis string holding the digits of `p` in its first
      qubits and |0> everywhere else. */
  function Padded(p: string, n: nat): (r: seq<bool>)
    ensures |r| == n
  {
    seq(n, i => 0 <= i < |p| && p[i] == '1')
  }

  lemma EncodeOpsInRange(p: string, n: nat)
    requires |p| <= n
    ensures forall i :: 0 <= i < |EncodeOps(p)| ==> InRange(EncodeOps(p)[i], n)
  {
    var ops := EncodeOps(p);
    forall i | 0 <= i < |ops| ensures InRange(ops[i], n) {
      assert ops[i].X? && ops[i].qubit < |p|;
    }
  }

  /** Running the encoding operations of a prefix `p` of an `n`-qubit
      register sets exactly the qubits of `p` holding '1' and keeps the sign. */
  lemma {:induction false} EncodeRun(p: string, n: nat)
    requires |p| <= n
    ensures RunOps(Ground(n), EncodeOps(p)) == State(Plus, Padded(p, n))
    decreases |p|
  {
    EncodeOpsInRange(p, n);
    if |p| == 0 {
      assert Padded(p, n) == Ground(n).basis;
    } else {
      var m := |p| - 1;
      var p' := p[..m];
      EncodeRun(p', n);
      EncodeOpsInRange(p', n);
      var prevOps := EncodeOps(p');
      var last := if p[m] == '1' then [X(m)] else [];
      assert EncodeOps(p) == prevOps + last;
      var before := Padded(p', n);
      var after := if p[m] == '1' then before[m := true] else before;
      assert after == Padded(p, n) by {
        forall i | 0 <= i < n ensures after[i] == Padded(p, n)[i] {
          if i < m {
            assert p'[i] == p[i];
          }
        }
      }
      if p[m] == '1' {
        assert !before[m];
        RunOpsSnoc(Ground(n), prevOps, X(m));
        assert Apply(State(Plus, before), X(m)) == State(Plus, after);
      } else {
        assert EncodeOps(p) == prevOps;
      }
    }
  }

  /** The untampered circuit prepares |bits> with sign +1. */
  lemma CleanState(bits: string, k: nat)
    ensures Run(MakeCircuit(bits, false, k)) == State(Plus, BitsOf(bits))
  {
    var enc := EncodeOps(bits);
    EncodeRun(bits, |bits|);
    assert Padded(bits, |bits|) == BitsOf(bits);
    RunOpsSnoc(Ground(|bits|), enc, Save);
  }

  /** The tampered circuit prepares the same basis state |bits>; its sign is
      -1 exactly when the phase flip hit a qubit holding '1'. */
  lemma TamperedState(bits: string, k: nat)
    requires ValidTamperIndex(|bits|, k)
    ensures var t := Run(MakeCircuit(bits, true, k));
      && t.basis == BitsOf(bits)
      && (t.phase == Minus <==> |bits| > 0 && bits[k] == '1')
  {
    if |bits| == 0 {
      CleanState(bits, k);
    } else {
      var enc := EncodeOps(bits);
      var g := Ground(|bits|);
      EncodeRun(bits, |bits|);
      assert Padded(bits, |bits|) == BitsOf(bits);
      RunOpsSnoc(g, enc, Z(k));
      RunOpsSnoc(g, enc + [Z(k)], Save);
      assert enc + [Z(k)] + [Save] == enc + [Z(k), Save];
    }
  }

  /** Fidelity is one exactly for states equal up to a global sign, and zero
      for every other pair. */
  lemma FidelityOneIff(a: State, b: State)
    ensures Fidelity(a, b) == 1.0 <==> EqualUpToGlobalPhase(a, b)
    ensures !EqualUpToGlobalPhase(a, b) ==> Fidelity(a, b) == 0.0
  {
  }

  lemma FidelitySymmetric(a: State, b: State)
    ensures Fidelity(a, b) == Fidelity(b, a)
  {
  }

  /** Tampering never changes the prepared state beyond a global sign, so the
      fidelity between the clean and the tampered state is exactly one, even
      when the sign did change. */
  lemma TamperedFidelityIsOne(bits: string, k: nat)
    requires ValidTamperIndex(|bits|, k)
    ensures var clean := Run(MakeCircuit(bits, false, k));
            var tampered := Run(MakeCircuit(bits, true, k));
      && EqualUpToGlobalPhase(tampered, clean)
      && (tampered == clean <==> |bits| == 0 || bits[k] != '1')
      && Fidelity(clean, tampered) == 1.0
  {
    CleanState(bits, k);
    TamperedState(bits, k);
    FidelityOneIff(Run(MakeCircuit(bits, false, k)), Run(MakeCircuit(bits, true, k)));
  }
}

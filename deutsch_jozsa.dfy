/**
 * The Deutsch-Jozsa demo: the `apply_oracle!` gate synthesis for a balanced
 * or a constant hidden function on the query qubits and an ancilla, the
 * circuit `main` builds around it, and what the oracle computes on basis states.
 */
module DeutschJozsa {
  import opened Bits
  import opened Circuit

  /** Number of query qubits. */
  const N: nat := 10

  datatype Case = Balanced | Constant

  /** The menu lists [Balanced, Constant]: index 0 is Balanced, any other index Constant. */
  function CaseOf(selection: nat): (c: Case)
    ensures c == Balanced <==> selection == 0
  {
    if selection == 0 then Balanced else Constant
  }

  /** One Hadamard on each qubit, in register order. */
  function HLayer(qs: seq<Qubit>): (ops: seq<Op>)
    ensures |ops| == |qs|
    ensures forall i :: 0 <= i < |qs| ==> ops[i] == H([qs[i]])
  {
    if qs == [] then [] else HLayer(qs[..|qs| - 1]) + [H([qs[|qs| - 1]])]
  }

  /** The conditional X layer: X on query qubit i only where character i of the hidden value is '1'. */
  function XIf(qs: seq<Qubit>, chars: string): (ops: seq<Op>)
    requires |qs| <= |chars|
    ensures forall op :: op in ops ==> op.X? && op.q in qs
  {
    if qs == [] then []
    else EmitIf(chars[|qs| - 1] == '1', XIf(qs[..|qs| - 1], chars), X(qs[|qs| - 1]))
  }

  /** A CNOT from every query qubit into the ancilla, in register order, whatever the hidden value. */
  function CnotLayer(qs: seq<Qubit>, a: Qubit): (ops: seq<Op>)
    ensures |ops| == |qs|
    ensures forall i :: 0 <= i < |qs| ==> ops[i] == Cnot(qs[i], a)
  {
    if qs == [] then [] else CnotLayer(qs[..|qs| - 1], a) + [Cnot(qs[|qs| - 1], a)]
  }

  /** The Balanced branch after the Hadamards: the CNOT layer conjugated by the conditional X layer. */
  function BalancedCore(qs: seq<Qubit>, a: Qubit, chars: string): seq<Op>
    requires |qs| <= |chars|
  {
    XIf(qs, chars) + CnotLayer(qs, a) + XIf(qs, chars)
  }

  /** The Constant branch: X on the ancilla when the hidden value is 1, nothing otherwise. */
  function ConstantCore(a: Qubit, b: nat): (ops: seq<Op>)
  {
    EmitIf(b == 1, [], X(a))
  }

  /** Everything `apply_oracle!` issues, for hidden value b formatted to |qs| binary digits. */
  function OracleOps(c: Case, b: nat, qs: seq<Qubit>, a: Qubit): seq<Op>
  {
    HLayer(qs) + [H([a])] + CoreOps(c, b, qs, a)
  }

  /** The case-dependent part of the oracle, after the Hadamards. */
  function CoreOps(c: Case, b: nat, qs: seq<Qubit>, a: Qubit): seq<Op>
  {
    match c
    case Balanced => BalancedCore(qs, a, FormatBinary(b, |qs|))
    case Constant => ConstantCore(a, b)
  }

  /** Issues a Hadamard on each query qubit. */
  method ApplyHLayer(l: Builder, qs: seq<Qubit>)
    requires l.Valid() && Fits(qs, l.width)
    modifies l
    ensures l.Valid() && l.width == old(l.width)
    ensures l.ops == old(l.ops) + HLayer(qs)
  {
    var i := 0;
    while i < |qs|
      invariant 0 <= i <= |qs|
      invariant l.Valid() && l.width == old(l.width)
      invariant l.ops == old(l.ops) + HLayer(qs[..i])
    {
      l.ApplyH([qs[i]]);
      assert qs[..i + 1][..i] == qs[..i];
      i := i + 1;
    }
    assert qs[..|qs|] == qs;
  }

  /** Issues the conditional X layer. */
  method ApplyXIf(l: Builder, qs: seq<Qubit>, chars: string)
    requires l.Valid() && Fits(qs, l.width) && |qs| <= |chars|
    modifies l
    ensures l.Valid() && l.width == old(l.width)
    ensures l.ops == old(l.ops) + XIf(qs, chars)
  {
    var i := 0;
    while i < |qs|
      invariant 0 <= i <= |qs|
      invariant l.Valid() && l.width == old(l.width)
      invariant l.ops == old(l.ops) + XIf(qs[..i], chars)
    {
      if chars[i] == '1' {
        l.ApplyX(qs[i]);
      }
      assert qs[..i + 1][..i] == qs[..i];
      i := i + 1;
    }
    assert qs[..|qs|] == qs;
  }

  /** Issues the CNOT layer. */
  method ApplyCnotLayer(l: Builder, qs: seq<Qubit>, a: Qubit)
    requires l.Valid() && Fits(qs, l.width) && a < l.width && a !in qs
    modifies l
    ensures l.Valid() && l.width == old(l.width)
    ensures l.ops == old(l.ops) + CnotLayer(qs, a)
  {
    var i := 0;
    while i < |qs|
      invariant 0 <= i <= |qs|
      invariant l.Valid() && l.width == old(l.width)
      invariant l.ops == old(l.ops) + CnotLayer(qs[..i], a)
    {
      assert qs[i] in qs;
      l.ApplyCnot(qs[i], a);
      assert qs[..i + 1][..i] == qs[..i];
      i := i + 1;
    }
    assert qs[..|qs|] == qs;
  }

  /** The Balanced branch: X layer, CNOT layer, X layer again. */
  method ApplyBalancedCore(l: Builder, qs: seq<Qubit>, a: Qubit, chars: string)
    requires l.Valid() && Fits(qs, l.width) && a < l.width && a !in qs && |qs| <= |chars|
    modifies l
    ensures l.Valid() && l.width == old(l.width)
    ensures l.ops == old(l.ops) + BalancedCore(qs, a, chars)
  {
    ApplyXIf(l, qs, chars);
    ApplyCnotLayer(l, qs, a);
    ApplyXIf(l, qs, chars);
  }

  /** The Constant branch: X on the ancilla when the hidden value is 1, nothing otherwise. */
  method ApplyConstantCore(l: Builder, a: Qubit, b: nat)
    requires l.Valid() && a < l.width
    modifies l
    ensures l.Valid() && l.width == old(l.width)
    ensures l.ops == old(l.ops) + ConstantCore(a, b)
  {
    if b == 1 {
      l.ApplyX(a);
    }
  }

  /**
   * `apply_oracle!`: issues the oracle for case c into the builder and
   * returns the query qubits merged into one register, in order, together
   * with the ancilla. The hidden value b is what the sampler would draw.
   */
  method ApplyOracle(l: Builder, c: Case, b: nat, qs: seq<Qubit>, a: Qubit) returns (q: Register, anc: Qubit)
    requires l.Valid()
    requires 1 <= |qs| && a !in qs
    requires a < l.width && Fits(qs, l.width)
    requires c == Balanced ==> 1 <= b < Pow2(|qs|)
    requires c == Constant ==> b <= 1
    modifies l
    ensures l.Valid() && l.width == old(l.width)
    ensures l.ops == old(l.ops) + OracleOps(c, b, qs, a)
    ensures q == qs && anc == a
  {
    ghost var before := l.ops;
    ApplyHLayer(l, qs);
    ghost var layered := l.ops;
    l.ApplyH([a]);
    ghost var prepared := l.ops;
    match c {
      case Balanced => ApplyBalancedCore(l, qs, a, FormatBinary(b, |qs|));
      case Constant => ApplyConstantCore(l, a, b);
    }
    AppendThree(before, HLayer(qs), [H([a])], CoreOps(c, b, qs, a));
    q := qs;
    anc := a;
  }

  /** One allocation per qubit, in order. */
  function Allocations(qs: seq<Qubit>): (ops: seq<Op>)
  {
    seq(|qs|, i requires 0 <= i < |qs| => Alloc(qs[i]))
  }

  /**
   * What `main` issues: query qubits 0..N-1, the ancilla N set to |1> by X,
   * the oracle, then a Hadamard on the merged query register.
   */
  function ProgramOps(c: Case, b: nat): seq<Op>
  {
    Allocations(Range(0, N)) + [Alloc(N), X(N)] + OracleOps(c, b, Range(0, N), N) + [H(Range(0, N))]
  }

  /** Ten query allocations, then the ancilla's allocation and X on it. */
  method Prepare(l: Builder) returns (qs: seq<Qubit>, a: Qubit)
    requires l.Valid() && l.ops == [] && l.width == 0
    modifies l
    ensures l.Valid() && l.width == N + 1
    ensures l.ops == Allocations(Range(0, N)) + [Alloc(N), X(N)]
    ensures qs == Range(0, N) && a == N
  {
    var q1 := l.NewQubit();
    var q2 := l.NewQubit();
    var q3 := l.NewQubit();
    var q4 := l.NewQubit();
    var q5 := l.NewQubit();
    assert l.ops == [Alloc(0), Alloc(1), Alloc(2), Alloc(3), Alloc(4)];
    var q6 := l.NewQubit();
    var q7 := l.NewQubit();
    var q8 := l.NewQubit();
    var q9 := l.NewQubit();
    var q10 := l.NewQubit();
    qs := [q1, q2, q3, q4, q5, q6, q7, q8, q9, q10];
    TenAllocations();
    a := l.NewQubit();
    l.ApplyX(a);
  }

  /** The ten query qubits written out, as `main` allocates them. */
  lemma TenAllocations()
    ensures Range(0, N) == [0, 1, 2, 3, 4, 5, 6, 7, 8, 9]
    ensures Allocations(Range(0, N)) == [Alloc(0), Alloc(1), Alloc(2), Alloc(3), Alloc(4), Alloc(5), Alloc(6), Alloc(7), Alloc(8), Alloc(9)]
  {
  }

  /** The build phase of `main`, for menu index `selection` and hidden value b. */
  method BuildCircuit(selection: nat, b: nat) returns (l: Builder, q: Register)
    requires CaseOf(selection) == Balanced ==> 1 <= b < Pow2(N)
    requires CaseOf(selection) == Constant ==> b <= 1
    ensures fresh(l) && l.Valid() && l.width == N + 1
    ensures l.ops == ProgramOps(CaseOf(selection), b)
    ensures q == Range(0, N)
  {
    var c := CaseOf(selection);
    l := new Builder();
    var qs, a := Prepare(l);
    ghost var prepared := l.ops;
    assert a !in qs;
    var anc;
    q, anc := ApplyOracle(l, c, b, qs, a);
    ghost var oracle := l.ops;
    l.ApplyH(q);
    assert l.ops == prepared + OracleOps(c, b, qs, a) + [H(q)];
  }

  // ---------------------------------------------------------------------------
  // Basis-state meaning of the oracle

  /** The function the Balanced oracle computes: the parity of x xor the hidden bits. */
  function BalancedFunction(x: seq<bool>, flags: seq<bool>): bool
    requires |x| <= |flags|
  {
    Parity(Xor(x, flags))
  }

  /** The X layer flips query bit i exactly when character i is '1', and changes nothing else. */
  lemma {:induction false} XIfRun(qs: seq<Qubit>, chars: string, s: seq<bool>)
    requires Distinct(qs) && |qs| <= |chars|
    requires Fits(qs, |s|)
    ensures Runnable(XIf(qs, chars), |s|)
    ensures forall i :: 0 <= i < |qs| ==> Run(XIf(qs, chars), s)[qs[i]] == (s[qs[i]] != (chars[i] == '1'))
    ensures forall j :: 0 <= j < |s| && j !in qs ==> Run(XIf(qs, chars), s)[j] == s[j]
  {
    if qs != [] {
      var n := |qs|;
      var p, q := qs[..n - 1], qs[n - 1];
      assert qs == p + [q];
      assert q !in p;
      XIfRun(p, chars, s);
      var front := XIf(p, chars);
      var t := Run(front, s);
      if chars[n - 1] == '1' {
        assert XIf(qs, chars) == front + [X(q)];
        RunSnoc(front, X(q), s);
      } else {
        assert XIf(qs, chars) == front;
      }
      XIfStep(p, q, chars, s, t, Run(XIf(qs, chars), s));
    }
  }

  /** One more conditional X extends what the X layer is known to do by one qubit. */
  lemma XIfStep(p: seq<Qubit>, q: Qubit, chars: string, s: seq<bool>, t: seq<bool>, u: seq<bool>)
    requires |p| + 1 <= |chars| && q < |s| && q !in p && Fits(p, |s|) && |t| == |s|
    requires forall i :: 0 <= i < |p| ==> t[p[i]] == (s[p[i]] != (chars[i] == '1'))
    requires forall j :: 0 <= j < |s| && j !in p ==> t[j] == s[j]
    requires u == if chars[|p|] == '1' then t[q := !t[q]] else t
    ensures forall i :: 0 <= i < |p| + 1 ==> u[(p + [q])[i]] == (s[(p + [q])[i]] != (chars[i] == '1'))
    ensures forall j :: 0 <= j < |s| && j !in p + [q] ==> u[j] == s[j]
  {
    forall i | 0 <= i < |p| + 1
      ensures u[(p + [q])[i]] == (s[(p + [q])[i]] != (chars[i] == '1'))
    {
      if i < |p| {
        assert (p + [q])[i] == p[i];
        assert p[i] != q;
      }
    }
  }

  /** The parity of a register read is the parity of all but its last qubit, flipped by the last one. */
  lemma ReadParitySnoc(s: seq<bool>, qs: seq<Qubit>)
    requires qs != [] && Fits(qs, |s|)
    ensures Parity(Read(s, qs)) == (Parity(Read(s, qs[..|qs| - 1])) != s[qs[|qs| - 1]])
  {
    var r := Read(s, qs);
    assert r[..|qs| - 1] == Read(s, qs[..|qs| - 1]);
  }

  /** The CNOT layer xors the parity of the query bits into the ancilla and changes nothing else. */
  lemma {:induction false} CnotLayerRun(qs: seq<Qubit>, a: Qubit, s: seq<bool>)
    requires a < |s| && a !in qs
    requires Fits(qs, |s|)
    ensures Runnable(CnotLayer(qs, a), |s|)
    ensures Run(CnotLayer(qs, a), s) == s[a := s[a] != Parity(Read(s, qs))]
  {
    if qs == [] {
      assert Read(s, qs) == [];
    } else {
      var n := |qs|;
      var p, q := qs[..n - 1], qs[n - 1];
      assert q in qs;
      CnotLayerRun(p, a, s);
      CnotLayerStep(p, q, a, s);
      ReadParitySnoc(s, qs);
    }
  }

  /** One more CNOT into the ancilla xors the control bit in. */
  lemma CnotLayerStep(p: seq<Qubit>, q: Qubit, a: Qubit, s: seq<bool>)
    requires a < |s| && q < |s| && q != a
    requires Runnable(CnotLayer(p, a), |s|)
    requires Fits(p, |s|)
    requires Run(CnotLayer(p, a), s) == s[a := s[a] != Parity(Read(s, p))]
    ensures Runnable(CnotLayer(p + [q], a), |s|)
    ensures Run(CnotLayer(p + [q], a), s) == s[a := (s[a] != Parity(Read(s, p))) != s[q]]
  {
    var front := CnotLayer(p, a);
    assert (p + [q])[..|p|] == p;
    assert CnotLayer(p + [q], a) == front + [Cnot(q, a)];
    RunSnoc(front, Cnot(q, a), s);
  }

  /** After the X layer the query register reads x xor the flags. */
  lemma XIfRead(qs: seq<Qubit>, chars: string, s: seq<bool>)
    requires Distinct(qs) && |qs| <= |chars| && Fits(qs, |s|)
    ensures Runnable(XIf(qs, chars), |s|)
    ensures Read(Run(XIf(qs, chars), s), qs) == Xor(Read(s, qs), Flags(chars))
  {
    XIfRun(qs, chars, s);
    var t := Run(XIf(qs, chars), s);
    var x, flags := Read(s, qs), Flags(chars);
    var lhs, rhs := Read(t, qs), Xor(x, flags);
    assert |lhs| == |rhs|;
    forall i | 0 <= i < |qs|
      ensures lhs[i] == rhs[i]
    {
      assert lhs[i] == t[qs[i]] == (s[qs[i]] != (chars[i] == '1'));
      assert x[i] == s[qs[i]] && flags[i] == (chars[i] == '1');
      assert rhs[i] == (x[i] != flags[i]);
    }
  }

  /** Running the X layer twice around a change of the ancilla only leaves that change. */
  lemma XIfUndo(qs: seq<Qubit>, chars: string, s: seq<bool>, a: Qubit, v: bool)
    requires Distinct(qs) && |qs| <= |chars| && Fits(qs, |s|)
    requires a < |s| && a !in qs
    ensures Runnable(XIf(qs, chars), |s|)
    ensures Run(XIf(qs, chars), Run(XIf(qs, chars), s)[a := v]) == s[a := v]
  {
    XIfRun(qs, chars, s);
    var t := Run(XIf(qs, chars), s)[a := v];
    XIfRun(qs, chars, t);
    var w := Run(XIf(qs, chars), t);
    forall j | 0 <= j < |s|
      ensures w[j] == s[a := v][j]
    {
      if j in qs {
        var i :| 0 <= i < |qs| && qs[i] == j;
        assert w[j] == (t[j] != (chars[i] == '1'));
      }
    }
  }

  /**
   * On basis states the Balanced oracle leaves every query bit as it found
   * it and xors parity(x xor b) into the ancilla.
   */
  lemma BalancedCoreRun(qs: seq<Qubit>, a: Qubit, chars: string, s: seq<bool>)
    requires Distinct(qs) && a !in qs && |qs| <= |chars|
    requires a < |s| && Fits(qs, |s|)
    ensures Runnable(BalancedCore(qs, a, chars), |s|)
    ensures Run(BalancedCore(qs, a, chars), s) == s[a := s[a] != BalancedFunction(Read(s, qs), Flags(chars))]
  {
    var xs := XIf(qs, chars);
    var cs := CnotLayer(qs, a);
    XIfRead(qs, chars, s);
    XIfRun(qs, chars, s);
    var t := Run(xs, s);
    CnotLayerRun(qs, a, t);
    var f := BalancedFunction(Read(s, qs), Flags(chars));
    var v := s[a] != f;
    assert Run(cs, t) == t[a := v];
    XIfUndo(qs, chars, s, a, v);
    RunAppend(xs, cs, s);
    RunAppend(xs + cs, xs, s);
  }

  /** On basis states the Constant oracle xors b == 1 into the ancilla. */
  lemma ConstantCoreRun(a: Qubit, b: nat, s: seq<bool>)
    requires a < |s|
    ensures Runnable(ConstantCore(a, b), |s|)
    ensures Run(ConstantCore(a, b), s) == s[a := s[a] != (b == 1)]
  {
    var ops := ConstantCore(a, b);
    if b == 1 {
      assert ops == [X(a)];
      RunSingle(X(a), s);
    } else {
      assert ops == [];
      assert s[a := s[a]] == s;
    }
  }

  /**
   * The ancilla output of the oracle's basis-state part, with query qubits
   * 0..|x|-1 holding x and the ancilla |x| holding 0.
   */
  function AncillaOutput(c: Case, b: nat, x: seq<bool>): bool
  {
    var n := |x|;
    var s := x + [false];
    match c
    case Balanced =>
      var chars := FormatBinary(b, n);
      BalancedCoreRun(Range(0, n), n, chars, s);
      Run(BalancedCore(Range(0, n), n, chars), s)[n]
    case Constant =>
      ConstantCoreRun(n, b, s);
      Run(ConstantCore(n, b), s)[n]
  }

  /** On input x the Balanced oracle outputs parity(x xor b), b written with |x| binary digits. */
  lemma BalancedAncilla(b: nat, x: seq<bool>)
    ensures |x| <= |Flags(FormatBinary(b, |x|))|
    ensures AncillaOutput(Balanced, b, x) == BalancedFunction(x, Flags(FormatBinary(b, |x|)))
  {
    var n := |x|;
    var s := x + [false];
    BalancedCoreRun(Range(0, n), n, FormatBinary(b, n), s);
    assert Read(s, Range(0, n)) == x;
  }

  /** The Balanced oracle computes a balanced function: 1 on exactly 2^(n-1) of the 2^n inputs. */
  lemma BalancedOracleIsBalanced(b: nat, n: nat)
    requires 1 <= n
    ensures Count(Inputs(n), x => AncillaOutput(Balanced, b, x)) == Pow2(n - 1)
  {
    var flags := Flags(FormatBinary(b, n));
    var p := x => |x| <= |flags| && Parity(Xor(x, flags));
    forall x | x in Inputs(n)
      ensures AncillaOutput(Balanced, b, x) == p(x)
    {
      var i :| 0 <= i < |Inputs(n)| && Inputs(n)[i] == x;
      assert |x| == n;
      BalancedAncilla(b, x);
    }
    CountAgree(Inputs(n), x => AncillaOutput(Balanced, b, x), p);
    XorParityBalanced(flags, n);
  }

  /** The Constant oracle computes a constant function: b == 1 on every input. */
  lemma ConstantOracleIsConstant(b: nat, n: nat)
    ensures forall x :: AncillaOutput(Constant, b, x) == (b == 1)
    ensures Count(Inputs(n), x => AncillaOutput(Constant, b, x)) == if b == 1 then Pow2(n) else 0
  {
    forall x
      ensures AncillaOutput(Constant, b, x) == (b == 1)
    {
      ConstantCoreRun(|x|, b, x + [false]);
    }
    CountConstant(Inputs(n), x => AncillaOutput(Constant, b, x), b == 1);
  }

  /** X(q_i) is issued in the Balanced X layer exactly when b_chars[i] == '1'. */
  lemma {:induction false} XIfEmits(qs: seq<Qubit>, chars: string, i: nat)
    requires Distinct(qs) && |qs| <= |chars| && i < |qs|
    ensures X(qs[i]) in XIf(qs, chars) <==> chars[i] == '1'
  {
    var n := |qs|;
    var p := qs[..n - 1];
    assert forall k :: 0 <= k < n - 1 ==> p[k] == qs[k];
    if i < n - 1 {
      XIfEmits(p, chars, i);
      assert X(qs[i]) != X(qs[n - 1]);
    } else {
      assert qs[i] !in p;
      assert X(qs[i]) !in XIf(p, chars);
    }
  }

  lemma {:induction false} HLayerOccurrences(qs: seq<Qubit>, q: Qubit)
    requires Distinct(qs)
    ensures Occurrences(HLayer(qs), H([q])) == if q in qs then 1 else 0
  {
    if qs != [] {
      var n := |qs|;
      var p, last := qs[..n - 1], qs[n - 1];
      assert qs == p + [last];
      assert q in qs <==> q in p || q == last;
      assert last !in p;
      HLayerOccurrences(p, q);
      var front := HLayer(p);
      var ops := front + [H([last])];
      assert HLayer(qs) == ops;
      assert ops[..|ops| - 1] == front;
      assert H([q]) == H([last]) <==> q == last;
    }
  }

  /** Before the oracle proper, every query qubit and the ancilla get exactly one Hadamard. */
  lemma OracleHadamardsOnce(qs: seq<Qubit>, a: Qubit, q: Qubit)
    requires Distinct(qs) && a !in qs
    requires q in qs || q == a
    ensures Occurrences(HLayer(qs) + [H([a])], H([q])) == 1
  {
    HLayerOccurrences(qs, q);
    assert (HLayer(qs) + [H([a])])[..|qs|] == HLayer(qs);
  }

  /** Allocating qubits lo..lo+n-1 resets exactly those bits to 0. */
  lemma {:induction false} AllocationsRun(lo: nat, n: nat, s: seq<bool>)
    requires lo + n <= |s|
    ensures Runnable(Allocations(Range(lo, n)), |s|)
    ensures Run(Allocations(Range(lo, n)), s) == s[..lo] + seq(n, _ => false) + s[lo + n..]
  {
    if n > 0 {
      AllocationsRun(lo, n - 1, s);
      assert Allocations(Range(lo, n)) == Allocations(Range(lo, n - 1)) + [Alloc(lo + n - 1)];
    } else {
      assert Allocations(Range(lo, n)) == [];
      assert s[..lo] + seq(n, _ => false) + s[lo + n..] == s;
    }
  }

  /** Whatever the state, main's first operations leave the query qubits at |0> and the ancilla at |1>. */
  lemma PreparationRun(s: seq<bool>)
    requires |s| == N + 1
    ensures Runnable(Allocations(Range(0, N)) + [Alloc(N), X(N)], |s|)
    ensures Run(Allocations(Range(0, N)) + [Alloc(N), X(N)], s) == seq(N, _ => false) + [true]
  {
    var allocs := Allocations(Range(0, N));
    AllocationsRun(0, N, s);
    RunAppend(allocs, [Alloc(N), X(N)], s);
    var t := Run(allocs, s);
    assert [Alloc(N), X(N)][..1] == [Alloc(N)];
    assert [Alloc(N)][..0] == [];
    assert Run([Alloc(N)], t) == t[N := false];
    assert Run([Alloc(N), X(N)], t) == t[N := false][N := true];
    assert t[N := false][N := true] == seq(N, _ => false) + [true];
  }
}

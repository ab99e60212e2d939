/**
 * The Bernstein-Vazirani demo: the `bernstein_vazirani!` macro (ancilla and
 * query preparation, the conditional CNOT oracle for the secret, the merge of
 * the query qubits into one register and the final Hadamard), what the oracle
 * computes on basis states, and the bit reversal `main` applies to the
 * measured value.
 */
module BernsteinVazirani {
  import opened Bits
  import opened Circuit

  /** Number of query qubits, and of binary digits of the secret. */
  const N: nat := 20

  /** The ancilla is the first qubit allocated. */
  const Ancilla: Qubit := 0

  /** Query qubit Q (Q = 0 .. N-1) is the (Q + 1)-th qubit allocated. */
  function Queries(): (qs: seq<Qubit>)
    ensures |qs| == N
    ensures forall i :: 0 <= i < N ==> qs[i] == i + 1
  {
    Range(1, N)
  }

  /** The query preparation: each query qubit in turn is allocated and then given a Hadamard. */
  function QueryPrep(qs: seq<Qubit>): (ops: seq<Op>)
    ensures |ops| == 2 * |qs|
  {
    if qs == [] then []
    else QueryPrep(qs[..|qs| - 1]) + [Alloc(qs[|qs| - 1]), H([qs[|qs| - 1]])]
  }

  /** The preparation: the ancilla is allocated, set to |1> by X and given H; then the query qubits. */
  function PrepOps(): seq<Op>
  {
    [Alloc(Ancilla), X(Ancilla), H([Ancilla])] + QueryPrep(Queries())
  }

  /** The oracle's conditional CNOTs: for each query qubit in turn, a CNOT into the ancilla only where the matching digit is '1'. */
  function CnotIf(qs: seq<Qubit>, a: Qubit, chars: string): (ops: seq<Op>)
    requires |qs| <= |chars|
    ensures forall op :: op in ops ==> op.Cnot? && op.control in qs && op.target == a
  {
    if qs == [] then []
    else EmitIf(chars[|qs| - 1] == '1', CnotIf(qs[..|qs| - 1], a, chars), Cnot(qs[|qs| - 1], a))
  }

  /** The oracle for the secret b, written with N binary digits, most significant first. */
  function OracleOps(b: nat): seq<Op>
  {
    var chars := FormatBinary(b, N);
    CnotIf(Queries(), Ancilla, chars)
  }

  /** Everything the macro issues: preparation, oracle, then H on the merged query register. */
  function ProgramOps(b: nat): seq<Op>
  {
    PrepOps() + OracleOps(b) + [H(Queries())]
  }

  /** The first half of the macro: the ancilla, then the N query qubits, each allocated and given one H. */
  method Prepare(l: Builder) returns (a: Qubit, qs: seq<Qubit>)
    requires l.Valid() && l.ops == [] && l.width == 0
    modifies l
    ensures l.Valid() && l.width == N + 1
    ensures l.ops == PrepOps()
    ensures a == Ancilla && qs == Queries()
  {
    a := l.NewQubit();
    l.ApplyX(a);
    l.ApplyH([a]);
    qs := PrepareQueries(l, N);
  }

  /** The n query qubits after the qubits already allocated, each allocated and then given H. */
  method PrepareQueries(l: Builder, n: nat) returns (qs: seq<Qubit>)
    requires l.Valid()
    modifies l
    ensures l.Valid() && l.width == old(l.width) + n
    ensures qs == Range(old(l.width), n)
    ensures l.ops == old(l.ops) + QueryPrep(qs)
  {
    ghost var head := l.ops;
    var lo := l.width;
    qs := [];
    for k := 0 to n
      invariant l.Valid() && l.width == lo + k
      invariant qs == Range(lo, k)
      invariant l.ops == head + QueryPrep(qs)
    {
      var q := PrepareQuery(l);
      QueryPrepSnoc(qs, q);
      RangeSnoc(lo, k);
      qs := qs + [q];
    }
  }

  /** One query qubit: its allocation, then a Hadamard on it. */
  method PrepareQuery(l: Builder) returns (q: Qubit)
    requires l.Valid()
    modifies l
    ensures l.Valid() && q == old(l.width) && l.width == old(l.width) + 1
    ensures l.ops == old(l.ops) + [Alloc(q), H([q])]
  {
    q := l.NewQubit();
    l.ApplyH([q]);
  }

  lemma QueryPrepSnoc(p: seq<Qubit>, q: Qubit)
    ensures QueryPrep(p + [q]) == QueryPrep(p) + [Alloc(q), H([q])]
  {
    assert (p + [q])[..|p|] == p;
  }

  /** The oracle block: one conditional CNOT per query qubit, in order. */
  method ApplyCnotIf(l: Builder, qs: seq<Qubit>, a: Qubit, chars: string)
    requires l.Valid() && Fits(qs, l.width) && a < l.width && a !in qs && |qs| <= |chars|
    modifies l
    ensures l.Valid() && l.width == old(l.width)
    ensures l.ops == old(l.ops) + CnotIf(qs, a, chars)
  {
    var i := 0;
    while i < |qs|
      invariant 0 <= i <= |qs|
      invariant l.Valid() && l.width == old(l.width)
      invariant l.ops == old(l.ops) + CnotIf(qs[..i], a, chars)
    {
      if chars[i] == '1' {
        assert qs[i] in qs;
        l.ApplyCnot(qs[i], a);
      }
      assert qs[..i + 1][..i] == qs[..i];
      i := i + 1;
    }
    assert qs[..|qs|] == qs;
  }

  /** The vector of query qubits built by pushing them one at a time and then merged into one register. */
  method MergeInOrder(qs: seq<Qubit>) returns (q: Register)
    ensures q == qs
  {
    q := [];
    for k := 0 to |qs|
      invariant q == qs[..k]
    {
      q := q + [qs[k]];
    }
    assert qs[..|qs|] == qs;
  }

  /**
   * `bernstein_vazirani!(l)` on a fresh builder, for the secret b the
   * sampler would draw: returns the merged query register and `b_str`.
   */
  method BernsteinVaziraniMacro(l: Builder, b: nat) returns (q: Register, bStr: string)
    requires l.Valid() && l.ops == [] && l.width == 0
    requires b < Pow2(N)
    modifies l
    ensures l.Valid() && l.width == N + 1
    ensures l.ops == ProgramOps(b)
    ensures q == Queries()
    ensures bStr == FormatBinary(b, N) && |bStr| == N
  {
    var a, qs := Prepare(l);
    bStr := FormatBinary(b, N);
    FormatBinaryBits(b, N);
    ghost var prepared := l.ops;
    assert a !in qs;
    ApplyCnotIf(l, qs, a, bStr);
    q := MergeInOrder(qs);
    l.ApplyH(q);
    assert l.ops == prepared + OracleOps(b) + [H(q)];
  }

  // ---------------------------------------------------------------------------
  // What the oracle issues

  /** CNOT(q_i, a) is issued exactly when character i of the secret string is '1'. */
  lemma {:induction false} CnotIfEmits(qs: seq<Qubit>, a: Qubit, chars: string, i: nat)
    requires Distinct(qs) && |qs| <= |chars| && i < |qs|
    ensures Cnot(qs[i], a) in CnotIf(qs, a, chars) <==> chars[i] == '1'
  {
    var n := |qs|;
    var p := qs[..n - 1];
    assert forall k :: 0 <= k < n - 1 ==> p[k] == qs[k];
    if i < n - 1 {
      CnotIfEmits(p, a, chars, i);
      assert Cnot(qs[i], a) != Cnot(qs[n - 1], a);
    } else {
      assert qs[i] !in p;
      assert Cnot(qs[i], a) !in CnotIf(p, a, chars);
    }
  }

  /** Every query qubit and the ancilla get exactly one Hadamard before the oracle. */
  lemma PrepHadamardsOnce(q: Qubit)
    requires q <= N
    ensures Occurrences(PrepOps(), H([q])) == 1
  {
    var head := [Alloc(Ancilla), X(Ancilla), H([Ancilla])];
    OccurrencesAppend(head, QueryPrep(Queries()), H([q]));
    QueryPrepHadamards(Queries(), q);
    assert head[..2][..1][..0] == [];
    assert head[..2][..1] == [Alloc(Ancilla)];
    assert head[..2] == [Alloc(Ancilla), X(Ancilla)];
    assert H([Ancilla]) == H([q]) <==> q == Ancilla by {
      if q != Ancilla {
        assert [Ancilla][0] != [q][0];
      }
    }
    assert Occurrences(head[..2][..1], H([q])) == 0;
    assert Occurrences(head[..2], H([q])) == 0;
    assert Occurrences(head, H([q])) == if q == Ancilla then 1 else 0;
    assert q in Queries() <==> q != Ancilla by {
      if q != Ancilla {
        assert Queries()[q - 1] == q;
      }
    }
  }

  /** The query preparation gives H to the qubits it allocates, once each, and to no other. */
  lemma {:induction false} QueryPrepHadamards(qs: seq<Qubit>, q: Qubit)
    requires Distinct(qs)
    ensures Occurrences(QueryPrep(qs), H([q])) == if q in qs then 1 else 0
  {
    if qs != [] {
      var n := |qs|;
      var p, last := qs[..n - 1], qs[n - 1];
      assert qs == p + [last];
      assert q in qs <==> q in p || q == last;
      assert last !in p;
      QueryPrepHadamards(p, q);
      var front := QueryPrep(p);
      assert QueryPrep(qs) == front + [Alloc(last), H([last])];
      OccurrencesAppend(front, [Alloc(last), H([last])], H([q]));
      PairHadamards(last, q);
    }
  }

  /** The pair a query qubit's preparation issues holds one Hadamard, on that qubit. */
  lemma PairHadamards(last: Qubit, q: Qubit)
    ensures Occurrences([Alloc(last), H([last])], H([q])) == if q == last then 1 else 0
  {
    var pair := [Alloc(last), H([last])];
    assert pair[..1] == [Alloc(last)];
    assert [Alloc(last)][..0] == [];
    assert Occurrences(pair[..1], H([q])) == 0;
    assert H([q]) == H([last]) <==> q == last by {
      if q != last {
        assert [q][0] != [last][0];
      }
    }
  }

  // ---------------------------------------------------------------------------
  // Basis-state meaning of the oracle

  /** The inner product of a register read with flags, extended by one more qubit. */
  lemma DotSnoc(s: seq<bool>, qs: seq<Qubit>, flags: seq<bool>)
    requires qs != [] && Fits(qs, |s|) && |qs| <= |flags|
    ensures Dot(Read(s, qs), flags) == (Dot(Read(s, qs[..|qs| - 1]), flags) != (s[qs[|qs| - 1]] && flags[|qs| - 1]))
  {
    var x := And(Read(s, qs), flags);
    assert x[..|qs| - 1] == And(Read(s, qs[..|qs| - 1]), flags);
  }

  /** One more conditional CNOT xors its control bit into the ancilla when the flag is set. */
  lemma CnotIfStep(p: seq<Qubit>, q: Qubit, a: Qubit, chars: string, s: seq<bool>)
    requires a < |s| && q < |s| && q != a && |p| + 1 <= |chars|
    requires Runnable(CnotIf(p, a, chars), |s|)
    ensures Runnable(CnotIf(p + [q], a, chars), |s|)
    ensures Run(CnotIf(p + [q], a, chars), s) ==
      if chars[|p|] == '1' then Step(Cnot(q, a), Run(CnotIf(p, a, chars), s)) else Run(CnotIf(p, a, chars), s)
  {
    var front := CnotIf(p, a, chars);
    assert (p + [q])[..|p|] == p;
    if chars[|p|] == '1' {
      assert CnotIf(p + [q], a, chars) == front + [Cnot(q, a)];
      RunSnoc(front, Cnot(q, a), s);
    } else {
      assert CnotIf(p + [q], a, chars) == front;
    }
  }

  /**
   * On basis states the oracle leaves every query bit unchanged and xors
   * x . flags (mod 2) into the ancilla.
   */
  lemma {:induction false} CnotIfRun(qs: seq<Qubit>, a: Qubit, chars: string, s: seq<bool>)
    requires a < |s| && a !in qs && Fits(qs, |s|) && |qs| <= |chars|
    ensures Runnable(CnotIf(qs, a, chars), |s|)
    ensures Run(CnotIf(qs, a, chars), s) == s[a := s[a] != Dot(Read(s, qs), Flags(chars))]
  {
    if qs == [] {
      assert Read(s, qs) == [];
      assert s[a := s[a]] == s;
    } else {
      var n := |qs|;
      var p, q := qs[..n - 1], qs[n - 1];
      assert qs == p + [q];
      assert q in qs;
      CnotIfRun(p, a, chars, s);
      CnotIfStep(p, q, a, chars, s);
      DotSnoc(s, qs, Flags(chars));
      assert Flags(chars)[n - 1] == (chars[|p|] == '1');
      XorInto(s, a, q, Dot(Read(s, p), Flags(chars)), chars[|p|] == '1');
    }
  }

  /** A CNOT from q into the ancilla, performed when f holds, adds s[q] && f to what was xored in. */
  lemma XorInto(s: seq<bool>, a: Qubit, q: Qubit, d: bool, f: bool)
    requires a < |s| && q < |s| && q != a
    ensures (if f then Step(Cnot(q, a), s[a := s[a] != d]) else s[a := s[a] != d]) == s[a := s[a] != (d != (s[q] && f))]
  {
  }

  /**
   * For a secret below 2^N, the oracle on query bits x and ancilla bit y
   * yields x unchanged and y xor (x . b mod 2), b's bits in the order of `b_str`.
   */
  lemma OracleRun(b: nat, s: seq<bool>)
    requires b < Pow2(N) && |s| == N + 1
    ensures Runnable(OracleOps(b), |s|)
    ensures Run(OracleOps(b), s) == s[Ancilla := s[Ancilla] != Dot(Read(s, Queries()), MsbFirst(b, N))]
  {
    var chars := FormatBinary(b, N);
    FormatBinaryFlags(b, N);
    assert Ancilla !in Queries();
    CnotIfRun(Queries(), Ancilla, chars, s);
  }

  // ---------------------------------------------------------------------------
  // Reading the result

  /** The measured value written with N binary digits, most significant first, then reversed. */
  function Decode(result: nat): string
  {
    Reverse(FormatBinary(result, N))
  }

  /** For result < 2^N the decoded string has N characters and character i is bit i of result. */
  lemma DecodeBits(result: nat)
    requires result < Pow2(N)
    ensures |Decode(result)| == N
    ensures forall i :: 0 <= i < N ==> Decode(result)[i] == Digit(Bit(result, i))
  {
    FormatBinaryBits(result, N);
  }

  /** Reversing the decoded string again gives the most-significant-first formatting, which reads back as result. */
  lemma DecodeRoundTrip(result: nat)
    ensures Reverse(Decode(result)) == FormatBinary(result, N)
    ensures ParseBinary(Reverse(Decode(result))) == result
  {
    ReverseReverse(FormatBinary(result, N));
    FormatBinaryRoundTrip(result, N);
  }

  lemma DigitInjective(d: nat, e: nat)
    requires d < 2 && e < 2
    ensures Digit(d) == Digit(e) <==> d == e
  {
  }

  /** Digits agree exactly where bits agree. */
  lemma DigitsAgree(result: nat, b: nat, i: nat)
    requires result < Pow2(N) && b < Pow2(N) && i < N
    ensures |Decode(result)| == N && |FormatBinary(b, N)| == N
    ensures Decode(result)[i] == FormatBinary(b, N)[i] <==> Bit(result, i) == Bit(b, N - 1 - i)
  {
    DecodeBits(result);
    FormatBinaryBits(b, N);
    DigitInjective(Bit(result, i), Bit(b, N - 1 - i));
  }

  /**
   * The printed measurement equals the printed expectation `b_str` exactly
   * when bit i of result is bit N-1-i of the secret for every i.
   */
  lemma DecodeMatchesSecret(result: nat, b: nat)
    requires result < Pow2(N) && b < Pow2(N)
    ensures Decode(result) == FormatBinary(b, N) <==> forall i :: 0 <= i < N ==> Bit(result, i) == Bit(b, N - 1 - i)
  {
    var d, e := Decode(result), FormatBinary(b, N);
    DigitsAgree(result, b, 0);
    if d == e {
      forall i | 0 <= i < N
        ensures Bit(result, i) == Bit(b, N - 1 - i)
      {
        DigitsAgree(result, b, i);
      }
    } else {
      var i :| 0 <= i < N && d[i] != e[i];
      DigitsAgree(result, b, i);
    }
  }

  // ---------------------------------------------------------------------------
  // The order of the measured bits

  /**
   * A register's bits as a number, its first qubit the most significant bit:
   * the order in which the Deutsch demo's `U(f)` needs the merged register.
   */
  function FirstQubitHigh(bits: seq<bool>): nat
  {
    ParseBinary(seq(|bits|, i requires 0 <= i < |bits| => if bits[i] then '1' else '0'))
  }

  /** The bits of b, most significant first, read with the first qubit high, are b. */
  lemma {:induction false} FirstQubitHighMsbFirst(b: nat, width: nat)
    requires 1 <= width && b < Pow2(width)
    ensures FirstQubitHigh(MsbFirst(b, width)) == b
  {
    var bits := MsbFirst(b, width);
    var d := seq(width, i requires 0 <= i < width => if bits[i] then '1' else '0');
    FormatBinaryBits(b, width);
    assert d == FormatBinary(b, width);
    FormatBinaryRoundTrip(b, width);
  }

  /**
   * Query qubit Q ends holding character Q of `b_str`, that is bit N-1-Q of
   * the secret; read with the first qubit high, the measured value is b.
   */
  lemma MeasuredIsSecret(b: nat)
    requires b < Pow2(N)
    ensures FirstQubitHigh(MsbFirst(b, N)) == b
  {
    FirstQubitHighMsbFirst(b, N);
  }

  /**
   * As written, with that order: secret 1 is measured as 1 and printed
   * reversed, starting with '1', while `b_str` starts with '0'.
   */
  lemma ReversedPrintDiffers()
    ensures FirstQubitHigh(MsbFirst(1, N)) == 1
    ensures Decode(1) != FormatBinary(1, N)
  {
    MeasuredIsSecret(1);
    DecodeBits(1);
    FormatBinaryBits(1, N);
    Pow2Monotone(1, N - 1);
    BitAboveWidth(1, N - 1);
    assert Decode(1)[0] == '1';
    assert FormatBinary(1, N)[0] == '0';
  }

  /** The measured value printed with N binary digits, most significant first, without the reversal. */
  function DecodeInOrder(result: nat): (s: string)
    ensures |s| >= N
  {
    FormatBinary(result, N)
  }

  /** Printed without the reversal, the measurement matches `b_str` exactly when it is the secret. */
  lemma DecodeInOrderMatchesSecret(result: nat, b: nat)
    ensures DecodeInOrder(result) == FormatBinary(b, N) <==> result == b
  {
    FormatBinaryRoundTrip(result, N);
    FormatBinaryRoundTrip(b, N);
  }

  /** With the first qubit high, the unreversed print of the measured value is `b_str`. */
  lemma InOrderPrintMatches(b: nat)
    requires b < Pow2(N)
    ensures DecodeInOrder(FirstQubitHigh(MsbFirst(b, N))) == FormatBinary(b, N)
  {
    MeasuredIsSecret(b);
  }
}

/**
 * The circuit builder as the demos use it: a log of the operations issued so
 * far (qubit allocations and gates, in order) and the number of qubits
 * allocated. Qubit handles are the indices of the qubits in allocation order.
 *
 * Gates carry their textbook basis-state meaning where they have one: a new
 * qubit is |0>, X flips a bit and CNOT xors its control bit into its target.
 * A Hadamard has no basis-state meaning, so `Run` is defined on logs without one.
 */
module Circuit {
  import opened Conditional

  type Qubit = nat
  type Register = seq<Qubit>

  datatype Op =
    | Alloc(q: Qubit)
    | H(reg: Register)
    | X(q: Qubit)
    | Cnot(control: Qubit, target: Qubit)

  /** The operation only names qubits below `width`, and a CNOT names two different ones. */
  predicate Within(op: Op, width: nat)
  {
    match op
    case Alloc(q) => q < width
    case H(reg) => Fits(reg, width)
    case X(q) => q < width
    case Cnot(c, t) => c < width && t < width && c != t
  }

  predicate Classical(op: Op)
  {
    !op.H?
  }

  /** Every operation of the log has a basis-state meaning on `width` bits. */
  predicate Runnable(ops: seq<Op>, width: nat)
  {
    forall k :: 0 <= k < |ops| ==> Classical(ops[k]) && Within(ops[k], width)
  }

  /** Every qubit of the register is below `width`. */
  predicate Fits(qs: seq<Qubit>, width: nat)
  {
    forall i :: 0 <= i < |qs| ==> qs[i] < width
  }

  predicate Distinct(qs: seq<Qubit>)
  {
    forall i, j :: 0 <= i < j < |qs| ==> qs[i] != qs[j]
  }

  /** The qubits lo, lo + 1, ..., lo + n - 1, in that order. */
  function Range(lo: nat, n: nat): (qs: seq<Qubit>)
  {
    seq(n, i requires 0 <= i < n => lo + i)
  }

  lemma RangeSnoc(lo: nat, n: nat)
    ensures Range(lo, n + 1) == Range(lo, n) + [lo + n]
  {
  }

  function Step(op: Op, s: seq<bool>): (s': seq<bool>)
    requires Classical(op) && Within(op, |s|)
    ensures |s'| == |s|
  {
    match op
    case Alloc(q) => s[q := false]
    case X(q) => s[q := !s[q]]
    case Cnot(c, t) => s[t := s[t] != s[c]]
  }

  /** The basis state reached from s by performing the operations in order. */
  function Run(ops: seq<Op>, s: seq<bool>): (s': seq<bool>)
    requires Runnable(ops, |s|)
    ensures |s'| == |s|
    decreases |ops|
  {
    if ops == [] then s else Step(ops[|ops| - 1], Run(ops[..|ops| - 1], s))
  }

  lemma {:induction false} RunAppend(a: seq<Op>, b: seq<Op>, s: seq<bool>)
    requires Runnable(a + b, |s|)
    ensures Runnable(a, |s|) && Runnable(b, |s|)
    ensures Run(a + b, s) == Run(b, Run(a, s))
    decreases |b|
  {
    assert forall k :: 0 <= k < |a| ==> (a + b)[k] == a[k];
    assert forall k :: 0 <= k < |b| ==> (a + b)[|a| + k] == b[k];
    if b == [] {
      assert a + b == a;
    } else {
      assert (a + b)[..|a + b| - 1] == a + b[..|b| - 1];
      RunAppend(a, b[..|b| - 1], s);
    }
  }

  /** Regrouping a log built in three appends. */
  lemma AppendThree(p: seq<Op>, x: seq<Op>, y: seq<Op>, z: seq<Op>)
    ensures p + (x + y + z) == p + x + y + z
  {
  }

  /** Running one more operation after a log. */
  lemma RunSnoc(front: seq<Op>, op: Op, s: seq<bool>)
    requires Runnable(front, |s|) && Classical(op) && Within(op, |s|)
    ensures Runnable(front + [op], |s|)
    ensures Run(front + [op], s) == Step(op, Run(front, s))
  {
    var ops := front + [op];
    forall k | 0 <= k < |ops|
      ensures Classical(ops[k]) && Within(ops[k], |s|)
    {
      if k < |front| {
        assert ops[k] == front[k];
      }
    }
    assert ops[..|front|] == front;
  }

  lemma RunSingle(op: Op, s: seq<bool>)
    requires Classical(op) && Within(op, |s|)
    ensures Runnable([op], |s|) && Run([op], s) == Step(op, s)
  {
    assert [op][..0] == [];
  }

  /** The bits of s at the given qubits, in register order. */
  function Read(s: seq<bool>, qs: seq<Qubit>): (x: seq<bool>)
    requires Fits(qs, |s|)
  {
    seq(|qs|, i requires 0 <= i < |qs| => s[qs[i]])
  }

  /**
   * The log after a gate guarded by `apply_if!`: only the branch chosen is
   * evaluated, so the operation is appended when cond holds and nothing is
   * issued otherwise.
   */
  function EmitIf(cond: bool, log: seq<Op>, op: Op): (r: seq<Op>)
    ensures r == log + (if cond then [op] else [])
  {
    ApplyIf(cond, log + [op], log)
  }

  /** How many times op occurs in the log. */
  function Occurrences(ops: seq<Op>, op: Op): nat
  {
    if ops == [] then 0 else Occurrences(ops[..|ops| - 1], op) + (if ops[|ops| - 1] == op then 1 else 0)
  }

  lemma {:induction false} OccurrencesAppend(a: seq<Op>, b: seq<Op>, op: Op)
    ensures Occurrences(a + b, op) == Occurrences(a, op) + Occurrences(b, op)
    decreases |b|
  {
    if b == [] {
      assert a + b == a;
    } else {
      assert (a + b)[..|a + b| - 1] == a + b[..|b| - 1];
      OccurrencesAppend(a, b[..|b| - 1], op);
    }
  }

  /** Recording model of the builder the demos thread their qubits through. */
  class Builder {
    var ops: seq<Op>
    var width: nat

    ghost predicate Valid()
      reads this
    {
      forall k :: 0 <= k < |ops| ==> Within(ops[k], width)
    }

    constructor ()
      ensures Valid() && ops == [] && width == 0
    {
      ops := [];
      width := 0;
    }

    /** Allocation of a fresh qubit, whose handle is the next index. */
    method NewQubit() returns (q: Qubit)
      requires Valid()
      modifies this
      ensures Valid()
      ensures q == old(width) && width == old(width) + 1
      ensures ops == old(ops) + [Alloc(q)]
    {
      q := width;
      width := width + 1;
      ops := ops + [Alloc(q)];
    }

    /** An X gate on an allocated qubit. */
    method ApplyX(q: Qubit)
      requires Valid() && q < width
      modifies this
      ensures Valid() && width == old(width)
      ensures ops == old(ops) + [X(q)]
    {
      ops := ops + [X(q)];
    }

    /** A Hadamard on a single qubit or on a merged register. */
    method ApplyH(reg: Register)
      requires Valid() && Fits(reg, width)
      modifies this
      ensures Valid() && width == old(width)
      ensures ops == old(ops) + [H(reg)]
    {
      ops := ops + [H(reg)];
    }

    /** A CNOT; the two handles are different qubits, as moved handles always are. */
    method ApplyCnot(control: Qubit, target: Qubit)
      requires Valid() && control < width && target < width && control != target
      modifies this
      ensures Valid() && width == old(width)
      ensures ops == old(ops) + [Cnot(control, target)]
    {
      ops := ops + [Cnot(control, target)];
    }
  }
}

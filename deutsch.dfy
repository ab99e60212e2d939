/**
 * Deutsch's algorithm: the one-bit function chosen by f(0) and f(1), the
 * 4x4 oracle matrix U(f) built from it, the copy of a real matrix into a
 * complex one, the verdict printed after measurement, and an exact
 * reference for the circuit `main` runs, with unnormalised integer
 * amplitudes in place of the simulator's floating-point ones.
 */
module Deutsch {

  /** A complex number with integer parts: every entry of U(f) and every amplitude here is one. */
  datatype Complex = Complex(re: int, im: int)

  const Zero := Complex(0, 0)
  const One := Complex(1, 0)

  function CAdd(a: Complex, b: Complex): Complex
  {
    Complex(a.re + b.re, a.im + b.im)
  }

  function CSub(a: Complex, b: Complex): Complex
  {
    Complex(a.re - b.re, a.im - b.im)
  }

  function CMul(a: Complex, b: Complex): Complex
  {
    Complex(a.re * b.re - a.im * b.im, a.re * b.im + a.im * b.re)
  }

  // ---------------------------------------------------------------------------
  // The function under test

  /** The closure `f`: input 0 gives f0, every other input gives f1. */
  function Oracle(f0: nat, f1: nat): (f: nat -> nat)
    ensures f(0) == f0
    ensures forall x :: x != 0 ==> f(x) == f1
  {
    x => if x == 0 then f0 else f1
  }

  /** f(0) and f(1) are selection indices into the menu [0, 1]. */
  predicate OneBit(f: nat -> nat)
  {
    f(0) <= 1 && f(1) <= 1
  }

  /** f is constant on {0, 1}. */
  predicate IsConstant(f: nat -> nat)
  {
    f(0) == f(1)
  }

  /** The closure built from two menu choices is a one-bit function, constant exactly when the choices agree. */
  lemma OracleIsOneBit(f0: nat, f1: nat)
    requires f0 <= 1 && f1 <= 1
    ensures OneBit(Oracle(f0, f1))
    ensures IsConstant(Oracle(f0, f1)) <==> f0 == f1
  {
  }

  // ---------------------------------------------------------------------------
  // Real to complex

  /** Entry i of the result is mat[i] + 0i. */
  function ToComplex(mat: seq<int>): (m: seq<Complex>)
  {
    seq(|mat|, i requires 0 <= i < |mat| => Complex(mat[i], 0))
  }

  /**
   * `real_mat_to_complex_mat`: a buffer of |mat| zeros, then entry i set to
   * mat[i] + 0i for every i in order.
   */
  method RealMatToComplexMat(mat: seq<int>) returns (m: seq<Complex>)
    ensures |m| == |mat|
    ensures forall i :: 0 <= i < |mat| ==> m[i].re == mat[i] && m[i].im == 0
    ensures m == ToComplex(mat)
  {
    var buffer := new Complex[|mat|](_ => Zero);
    for i := 0 to |mat|
      invariant forall j :: 0 <= j < i ==> buffer[j] == Complex(mat[j], 0)
    {
      buffer[i] := Complex(mat[i], 0);
    }
    m := buffer[..];
  }

  // ---------------------------------------------------------------------------
  // The oracle matrix

  /**
   * Entry k of the real matrix in `U`: row r = k / 4 and column c = k % 4
   * lie in the same 2x2 block x = r / 2; there the diagonal holds 1 - f(x)
   * and the off-diagonal f(x); outside the blocks everything is 0.
   */
  function RealEntry(f0: int, f1: int, k: nat): int
  {
    var r, c := k / 4, k % 4;
    var fx := if r < 2 then f0 else f1;
    if r / 2 != c / 2 then 0 else if r % 2 == c % 2 then 1 - fx else fx
  }

  /** The 16 real entries of U(f), row by row. */
  function RealEntries(f0: int, f1: int): (mat: seq<int>)
    ensures |mat| == 16
  {
    seq(16, k requires 0 <= k < 16 => RealEntry(f0, f1, k))
  }

  /** The entries are the array literal of `U`. */
  lemma RealEntriesLiteral(f0: int, f1: int)
    ensures RealEntries(f0, f1) ==
      [1 - f0, f0, 0, 0,
       f0, 1 - f0, 0, 0,
       0, 0, 1 - f1, f1,
       0, 0, f1, 1 - f1]
  {
  }

  /** `U(f)`: the complex 4x4 matrix, row-major. */
  function UMat(f: nat -> nat): (u: seq<Complex>)
    ensures |u| == 16
  {
    ToComplex(RealEntries(f(0), f(1)))
  }

  /** `U(f)` as the program computes it, through the copy loop. */
  method U(f: nat -> nat) returns (u: seq<Complex>)
    ensures u == UMat(f)
    ensures |u| == 16
  {
    var f0, f1 := f(0), f(1);
    u := RealMatToComplexMat(RealEntries(f0, f1));
  }

  /** Row r, column c of a row-major 4x4 matrix. */
  function Entry(m: seq<Complex>, r: nat, c: nat): Complex
    requires |m| == 16 && r < 4 && c < 4
  {
    m[4 * r + c]
  }

  function XorBit(y: nat, v: nat): (r: nat)
    requires y <= 1 && v <= 1
    ensures r <= 1
    ensures r == 0 <==> y == v
  {
    if y == v then 0 else 1
  }

  /** The basis index |x, y> with x = r / 2, y = r % 2 goes to |x, y xor f(x)>. */
  function Target(f: nat -> nat, r: nat): (t: nat)
    requires OneBit(f) && r < 4
    ensures t < 4 && t / 2 == r / 2
  {
    2 * (r / 2) + XorBit(r % 2, f(r / 2))
  }

  /** Target is an involution, so it is a bijection of {0, 1, 2, 3}. */
  lemma TargetInvolution(f: nat -> nat, r: nat)
    requires OneBit(f) && r < 4
    ensures Target(f, Target(f, r)) == r
  {
    var t := Target(f, r);
    assert t % 2 == XorBit(r % 2, f(r / 2));
  }

  lemma ToComplexAt(mat: seq<int>, i: nat)
    requires i < |mat|
    ensures ToComplex(mat)[i] == Complex(mat[i], 0)
  {
  }

  /**
   * U(f) realises |x, y> |-> |x, y xor f(x)>: in row r the entry at column
   * Target(f, r) is 1 and every other entry is 0.
   */
  lemma UEntry(f: nat -> nat, r: nat, c: nat)
    requires OneBit(f) && r < 4 && c < 4
    ensures Entry(UMat(f), r, c) == if c == Target(f, r) then One else Zero
  {
    var t := Target(f, r);
    ToComplexAt(RealEntries(f(0), f(1)), 4 * r + c);
    RealEntryAt(f(0), f(1), r, c);
    assert t / 2 == r / 2 && t % 2 == XorBit(r % 2, f(r / 2));
    assert c == t <==> c / 2 == t / 2 && c % 2 == t % 2;
  }

  /** Entry (r, c) of the real matrix is 1 exactly at column 2x + (y xor f(x)) for r = 2x + y. */
  lemma RealEntryAt(f0: nat, f1: nat, r: nat, c: nat)
    requires f0 <= 1 && f1 <= 1 && r < 4 && c < 4
    ensures RealEntries(f0, f1)[4 * r + c] ==
      if c / 2 == r / 2 && c % 2 == XorBit(r % 2, if r < 2 then f0 else f1) then 1 else 0
  {
    var k := 4 * r + c;
    assert k / 4 == r && k % 4 == c;
    assert RealEntries(f0, f1)[k] == RealEntry(f0, f1, k);
  }

  /** Every entry of U(f) is 0 or 1, with no imaginary part. */
  lemma UEntriesAreBits(f: nat -> nat)
    requires OneBit(f)
    ensures forall i :: 0 <= i < 16 ==> UMat(f)[i] == Zero || UMat(f)[i] == One
  {
    forall i | 0 <= i < 16
      ensures UMat(f)[i] == Zero || UMat(f)[i] == One
    {
      UEntry(f, i / 4, i % 4);
    }
  }

  /** U(f) is block-diagonal: nothing links x = 0 (rows and columns 0, 1) with x = 1 (2, 3). */
  lemma UBlockDiagonal(f: nat -> nat, r: nat, c: nat)
    requires OneBit(f) && r < 4 && c < 4 && r / 2 != c / 2
    ensures Entry(UMat(f), r, c) == Zero
  {
    UEntry(f, r, c);
  }

  /** U(f) is a permutation matrix: each row and each column holds exactly one 1, the rest 0. */
  lemma UIsPermutation(f: nat -> nat, r: nat, c: nat)
    requires OneBit(f) && r < 4 && c < 4
    ensures Entry(UMat(f), r, c) == One <==> c == Target(f, r)
    ensures Entry(UMat(f), r, c) == One <==> r == Target(f, c)
    ensures Entry(UMat(f), r, c) != One ==> Entry(UMat(f), r, c) == Zero
  {
    UEntry(f, r, c);
    TargetInvolution(f, r);
    TargetInvolution(f, c);
  }

  /** U(f) is symmetric. */
  lemma USymmetric(f: nat -> nat, r: nat, c: nat)
    requires OneBit(f) && r < 4 && c < 4
    ensures Entry(UMat(f), r, c) == Entry(UMat(f), c, r)
  {
    UIsPermutation(f, r, c);
    UIsPermutation(f, c, r);
  }

  /** Amplitudes of two qubits: a<2x+y> is the amplitude of |x, y>, x the first qubit. */
  datatype State = State(a0: Complex, a1: Complex, a2: Complex, a3: Complex)

  /** The amplitude (or vector entry) at index i. */
  function Amp(v: State, i: nat): Complex
    requires i < 4
  {
    if i == 0 then v.a0 else if i == 1 then v.a1 else if i == 2 then v.a2 else v.a3
  }

  /** Row r of the row-major 4x4 matrix m times the vector v. */
  function RowTimes(m: seq<Complex>, r: nat, v: State): Complex
    requires |m| == 16 && r < 4
  {
    CAdd(CAdd(CMul(m[4 * r], v.a0), CMul(m[4 * r + 1], v.a1)),
         CAdd(CMul(m[4 * r + 2], v.a2), CMul(m[4 * r + 3], v.a3)))
  }

  /** Column c of a row-major 4x4 matrix, as a vector. */
  function ColumnOf(m: seq<Complex>, c: nat): State
    requires |m| == 16 && c < 4
  {
    State(m[c], m[4 + c], m[8 + c], m[12 + c])
  }

  /** A row that is the basis vector at t picks entry t out of any vector. */
  lemma OneHotRow(m: seq<Complex>, r: nat, t: nat, v: State)
    requires |m| == 16 && r < 4 && t < 4
    requires forall c :: 0 <= c < 4 ==> Entry(m, r, c) == if c == t then One else Zero
    ensures RowTimes(m, r, v) == Amp(v, t)
  {
    assert Entry(m, r, 0) == m[4 * r] && Entry(m, r, 1) == m[4 * r + 1];
    assert Entry(m, r, 2) == m[4 * r + 2] && Entry(m, r, 3) == m[4 * r + 3];
  }

  /** Row r of U(f) picks the entry at Target(f, r) out of any vector. */
  lemma URowTimes(f: nat -> nat, r: nat, v: State)
    requires OneBit(f) && r < 4
    ensures RowTimes(UMat(f), r, v) == Amp(v, Target(f, r))
  {
    forall c | 0 <= c < 4
      ensures Entry(UMat(f), r, c) == if c == Target(f, r) then One else Zero
    {
      UEntry(f, r, c);
    }
    OneHotRow(UMat(f), r, Target(f, r), v);
  }

  /** Row-major product of two 4x4 matrices. */
  function MatMul(a: seq<Complex>, b: seq<Complex>): (p: seq<Complex>)
    requires |a| == 16 && |b| == 16
    ensures |p| == 16
  {
    seq(16, k requires 0 <= k < 16 => RowTimes(a, k / 4, ColumnOf(b, k % 4)))
  }

  function Identity(): (m: seq<Complex>)
    ensures |m| == 16
  {
    seq(16, k => if k / 4 == k % 4 then One else Zero)
  }

  /** Entry t of column c is the matrix entry at row t, column c. */
  lemma ColumnAt(m: seq<Complex>, c: nat, t: nat)
    requires |m| == 16 && c < 4 && t < 4
    ensures Amp(ColumnOf(m, c), t) == Entry(m, t, c)
  {
  }

  /** Entry (r, c) of U(f) U(f) is 1 on the diagonal and 0 elsewhere. */
  lemma USquaredEntry(f: nat -> nat, r: nat, c: nat)
    requires OneBit(f) && r < 4 && c < 4
    ensures RowTimes(UMat(f), r, ColumnOf(UMat(f), c)) == if r == c then One else Zero
  {
    var u := UMat(f);
    var t := Target(f, r);
    URowTimes(f, r, ColumnOf(u, c));
    ColumnAt(u, c, t);
    UEntry(f, t, c);
    TargetInvolution(f, r);
  }

  /** U(f) is its own inverse: U(f) U(f) = I. */
  lemma USelfInverse(f: nat -> nat)
    requires OneBit(f)
    ensures MatMul(UMat(f), UMat(f)) == Identity()
  {
    var u := UMat(f);
    var p := MatMul(u, u);
    forall k | 0 <= k < 16
      ensures p[k] == Identity()[k]
    {
      USquaredEntry(f, k / 4, k % 4);
    }
  }

  /** For the constant function 0, U(f) is the identity. */
  lemma UConstantZero(f: nat -> nat)
    requires f(0) == 0 && f(1) == 0
    ensures UMat(f) == Identity()
  {
    forall k | 0 <= k < 16
      ensures UMat(f)[k] == Identity()[k]
    {
      UEntry(f, k / 4, k % 4);
    }
  }

  // ---------------------------------------------------------------------------
  // The verdict and the circuit it interprets

  /** The word printed for the measured first qubit: 0 reads "constant", anything else "balanced". */
  function Verdict(result: nat): (verdict: string)
    ensures verdict == "constant" <==> result == 0
    ensures result != 0 ==> verdict == "balanced"
  {
    if result == 0 then "constant" else "balanced"
  }

  /** |x = 0, y = 1>: both qubits allocated, then X on the second. */
  const Prepared := State(Zero, One, Zero, Zero)

  /** |+>|->, without normalisation: the register after H on both qubits of Prepared. */
  const Superposition := State(One, Complex(-1, 0), One, Complex(-1, 0))

  /** Hadamard on the first qubit, without the factor 1/sqrt 2. */
  function HadamardFirst(v: State): State
  {
    State(CAdd(v.a0, v.a2), CAdd(v.a1, v.a3), CSub(v.a0, v.a2), CSub(v.a1, v.a3))
  }

  /** Hadamard on the second qubit, without the factor 1/sqrt 2. */
  function HadamardSecond(v: State): State
  {
    State(CAdd(v.a0, v.a1), CSub(v.a0, v.a1), CAdd(v.a2, v.a3), CSub(v.a2, v.a3))
  }

  /** `apply_matrix`: the 4x4 matrix m applied to the amplitudes of the merged register. */
  function ApplyMatrix(m: seq<Complex>, v: State): State
    requires |m| == 16
  {
    State(RowTimes(m, 0, v), RowTimes(m, 1, v), RowTimes(m, 2, v), RowTimes(m, 3, v))
  }

  /**
   * |x, y> |-> |x, y xor f(x)> on amplitudes: when f(x) = 1 the two
   * amplitudes with first qubit x swap places.
   */
  function Permute(f0: nat, f1: nat, v: State): State
  {
    State(if f0 == 0 then v.a0 else v.a1, if f0 == 0 then v.a1 else v.a0,
          if f1 == 0 then v.a2 else v.a3, if f1 == 0 then v.a3 else v.a2)
  }

  /** Permute moves the amplitude at Target(f, r) to r. */
  lemma PermuteTarget(f: nat -> nat, v: State, r: nat)
    requires OneBit(f) && r < 4
    ensures Amp(Permute(f(0), f(1), v), r) == Amp(v, Target(f, r))
  {
  }

  /** The state `main` measures for f(0) = f0, f(1) = f1: U(f) on |+>|->, then H on the first qubit. */
  function FinalState(f0: nat, f1: nat): State
  {
    HadamardFirst(Permute(f0, f1, Superposition))
  }

  /**
   * Reading the first qubit as x has probability 0: both amplitudes with
   * first qubit x are 0 (the probability is the sum of their squared moduli).
   */
  predicate Impossible(v: State, x: nat)
  {
    if x == 0 then v.a0 == Zero && v.a1 == Zero else v.a2 == Zero && v.a3 == Zero
  }

  /** Applying the matrix U(f) is Permute: a permutation matrix only moves amplitudes. */
  lemma ApplyU(f: nat -> nat, v: State)
    requires OneBit(f)
    ensures ApplyMatrix(UMat(f), v) == Permute(f(0), f(1), v)
  {
    URowTimes(f, 0, v);
    URowTimes(f, 1, v);
    URowTimes(f, 2, v);
    URowTimes(f, 3, v);
    PermuteTarget(f, v, 0);
    PermuteTarget(f, v, 1);
    PermuteTarget(f, v, 2);
    PermuteTarget(f, v, 3);
  }

  /** After H on both qubits of |0, 1> the register holds |+>|->. */
  lemma Superposed()
    ensures HadamardSecond(HadamardFirst(Prepared)) == Superposition
  {
    assert HadamardFirst(Prepared) == State(Zero, One, Zero, One);
  }

  /** FinalState is the circuit `main` builds: H on both qubits of |0, 1>, U(f) through `apply_matrix`, H on the first. */
  lemma FinalStateApplies(f: nat -> nat)
    requires OneBit(f)
    ensures FinalState(f(0), f(1)) == HadamardFirst(ApplyMatrix(UMat(f), HadamardSecond(HadamardFirst(Prepared))))
  {
    Superposed();
    ApplyU(f, Superposition);
  }

  /** (-1)^v: the phase U(f) kicks back onto |x> when the second qubit holds |->. */
  function Sign(v: nat): int
  {
    if v == 0 then 1 else -1
  }

  /** U(f) on |+>|-> gives (-1)^f(0) |0>|-> + (-1)^f(1) |1>|->. */
  lemma Kickback(f0: nat, f1: nat)
    requires f0 <= 1 && f1 <= 1
    ensures var s0, s1 := Sign(f0), Sign(f1);
      Permute(f0, f1, Superposition) == State(Complex(s0, 0), Complex(-s0, 0), Complex(s1, 0), Complex(-s1, 0))
  {
  }

  /**
   * The final amplitudes are sums and differences of the two signs the
   * oracle kicked back.
   */
  lemma PhaseKickback(f0: nat, f1: nat)
    requires f0 <= 1 && f1 <= 1
    ensures var s0, s1 := Sign(f0), Sign(f1);
      FinalState(f0, f1) == State(Complex(s0 + s1, 0), Complex(-(s0 + s1), 0), Complex(s0 - s1, 0), Complex(s1 - s0, 0))
  {
    Kickback(f0, f1);
  }

  /** For constant f the first qubit reads 0 with certainty. */
  lemma ConstantReadsZero(f0: nat, f1: nat)
    requires f0 <= 1 && f1 <= 1 && f0 == f1
    ensures Impossible(FinalState(f0, f1), 1) && !Impossible(FinalState(f0, f1), 0)
  {
  }

  /** For balanced f the first qubit reads 1 with certainty. */
  lemma BalancedReadsOne(f0: nat, f1: nat)
    requires f0 <= 1 && f1 <= 1 && f0 != f1
    ensures Impossible(FinalState(f0, f1), 0) && !Impossible(FinalState(f0, f1), 1)
  {
  }

  /**
   * Deutsch's algorithm decides f with one query: the verdict printed for
   * any outcome of the first qubit that can occur is right.
   */
  lemma DeutschDecides(f: nat -> nat, result: nat)
    requires OneBit(f) && result <= 1
    requires !Impossible(FinalState(f(0), f(1)), result)
    ensures Verdict(result) == "constant" <==> IsConstant(f)
  {
    if IsConstant(f) {
      ConstantReadsZero(f(0), f(1));
    } else {
      BalancedReadsOne(f(0), f(1));
    }
  }

  /**
   * The demo end to end: for the two menu choices f0 and f1, every outcome
   * the circuit can produce prints "constant" exactly when f0 == f1, and
   * "balanced" otherwise.
   */
  lemma MainDecides(f0: nat, f1: nat, result: nat)
    requires f0 <= 1 && f1 <= 1 && result <= 1
    requires !Impossible(FinalState(f0, f1), result)
    ensures Verdict(result) == "constant" <==> f0 == f1
    ensures Verdict(result) == "balanced" <==> f0 != f1
  {
    var f := Oracle(f0, f1);
    OracleIsOneBit(f0, f1);
    DeutschDecides(f, result);
  }
}

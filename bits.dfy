/**
 * Bit-level helpers shared by the oracles: the `{:0width$b}` binary
 * formatting of a hidden value, string reversal, parity and inner products
 * over bit vectors, and the enumeration of all inputs of a given width.
 */
module Bits {

  /** 2^n. */
  function Pow2(n: nat): (r: nat)
    ensures r >= 1
  {
    if n == 0 then 1 else 2 * Pow2(n - 1)
  }

  lemma {:induction false} Pow2Monotone(m: nat, n: nat)
    requires m <= n
    ensures Pow2(m) <= Pow2(n)
  {
    if m < n {
      Pow2Monotone(m, n - 1);
    }
  }

  /** Bit i of b, bit 0 being the least significant. */
  function Bit(b: nat, i: nat): (r: nat)
    ensures r < 2
  {
    if i == 0 then b % 2 else Bit(b / 2, i - 1)
  }

  /** A value below 2^i has no bit set at position i or above. */
  lemma {:induction false} BitAboveWidth(b: nat, i: nat)
    requires b < Pow2(i)
    ensures Bit(b, i) == 0
  {
    if i > 0 {
      BitAboveWidth(b / 2, i - 1);
    }
  }

  function Digit(d: nat): char
    requires d < 2
  {
    if d == 0 then '0' else '1'
  }

  /** The binary digits of b, most significant first, with no leading zero ("0" for zero). */
  function Binary(b: nat): (s: string)
    ensures |s| >= 1
    decreases b
  {
    if b < 2 then [Digit(b)] else Binary(b / 2) + [Digit(b % 2)]
  }

  /**
   * Rust's `format!("{:0width$b}", b, width = width)`: the binary digits of b,
   * left-padded with '0' to at least `width` characters (never truncated).
   */
  function FormatBinary(b: nat, width: nat): (s: string)
    ensures |s| >= width
  {
    var digits := Binary(b);
    if |digits| >= width then digits else seq(width - |digits|, _ => '0') + digits
  }

  lemma {:induction false} BinaryBound(b: nat)
    ensures b < Pow2(|Binary(b)|)
    decreases b
  {
    if b >= 2 {
      BinaryBound(b / 2);
    }
  }

  lemma {:induction false} BinaryFits(b: nat, width: nat)
    requires 1 <= width && b < Pow2(width)
    ensures |Binary(b)| <= width
    decreases b
  {
    if b >= 2 {
      BinaryFits(b / 2, width - 1);
    }
  }

  lemma {:induction false} BinaryDigits(b: nat, k: nat)
    requires k < |Binary(b)|
    ensures Binary(b)[k] == Digit(Bit(b, |Binary(b)| - 1 - k))
    decreases b
  {
    if b >= 2 && k < |Binary(b)| - 1 {
      BinaryDigits(b / 2, k);
    }
  }

  /**
   * For 0 <= b < 2^width the formatted value has exactly `width` characters,
   * and character j is bit width-1-j of b (most significant first).
   */
  lemma FormatBinaryBits(b: nat, width: nat)
    requires 1 <= width && b < Pow2(width)
    ensures |FormatBinary(b, width)| == width
    ensures forall j :: 0 <= j < width ==> FormatBinary(b, width)[j] == Digit(Bit(b, width - 1 - j))
  {
    var d := Binary(b);
    BinaryFits(b, width);
    BinaryBound(b);
    var pad := width - |d|;
    forall j | 0 <= j < width
      ensures FormatBinary(b, width)[j] == Digit(Bit(b, width - 1 - j))
    {
      if j < pad {
        Pow2Monotone(|d|, width - 1 - j);
        BitAboveWidth(b, width - 1 - j);
      } else {
        BinaryDigits(b, j - pad);
      }
    }
  }

  /** The value of a string of binary digits read most significant first. */
  function ParseBinary(s: string): nat
  {
    if s == [] then 0 else 2 * ParseBinary(s[..|s| - 1]) + (if s[|s| - 1] == '1' then 1 else 0)
  }

  lemma {:induction false} ParseBinaryDigits(b: nat)
    ensures ParseBinary(Binary(b)) == b
    decreases b
  {
    if b >= 2 {
      var s := Binary(b);
      assert s[..|s| - 1] == Binary(b / 2);
      ParseBinaryDigits(b / 2);
    }
  }

  lemma {:induction false} ParseZeros(z: string)
    requires forall i :: 0 <= i < |z| ==> z[i] == '0'
    ensures ParseBinary(z) == 0
  {
    if z != [] {
      ParseZeros(z[..|z| - 1]);
    }
  }

  lemma {:induction false} ParseLeadingZeros(z: string, d: string)
    requires forall i :: 0 <= i < |z| ==> z[i] == '0'
    ensures ParseBinary(z + d) == ParseBinary(d)
  {
    if d == [] {
      assert z + d == z;
      ParseZeros(z);
    } else {
      assert (z + d)[..|z + d| - 1] == z + d[..|d| - 1];
      ParseLeadingZeros(z, d[..|d| - 1]);
    }
  }

  /** Formatting loses nothing: reading the digits back gives b, whatever the width. */
  lemma FormatBinaryRoundTrip(b: nat, width: nat)
    ensures ParseBinary(FormatBinary(b, width)) == b
  {
    var d := Binary(b);
    ParseBinaryDigits(b);
    if |d| < width {
      ParseLeadingZeros(seq(width - |d|, _ => '0'), d);
    }
  }

  /** The characters of s in reverse order. */
  function Reverse<T>(s: seq<T>): (r: seq<T>)
    ensures |r| == |s|
    ensures forall i :: 0 <= i < |s| ==> r[i] == s[|s| - 1 - i]
  {
    if s == [] then [] else [s[|s| - 1]] + Reverse(s[..|s| - 1])
  }

  lemma ReverseReverse<T>(s: seq<T>)
    ensures Reverse(Reverse(s)) == s
  {
  }

  /** Exclusive or of all the bits (false for none). */
  function Parity(x: seq<bool>): bool
  {
    if x == [] then false else Parity(x[..|x| - 1]) != x[|x| - 1]
  }

  /** The number of set bits. */
  function Ones(x: seq<bool>): nat
  {
    if x == [] then 0 else Ones(x[..|x| - 1]) + (if x[|x| - 1] then 1 else 0)
  }

  /** Parity is "an odd number of ones". */
  lemma {:induction false} ParityIsOddOnes(x: seq<bool>)
    ensures Parity(x) <==> Ones(x) % 2 == 1
  {
    if x != [] {
      ParityIsOddOnes(x[..|x| - 1]);
    }
  }

  lemma {:induction false} ParityCons(v: bool, x: seq<bool>)
    ensures Parity([v] + x) == (v != Parity(x))
  {
    if x != [] {
      assert ([v] + x)[..|x|] == [v] + x[..|x| - 1];
      ParityCons(v, x[..|x| - 1]);
    }
  }

  /** Pointwise exclusive or of x with the first |x| bits of y. */
  function Xor(x: seq<bool>, y: seq<bool>): (r: seq<bool>)
    requires |x| <= |y|
  {
    seq(|x|, i requires 0 <= i < |x| => x[i] != y[i])
  }

  /** Pointwise conjunction of x with the first |x| bits of y. */
  function And(x: seq<bool>, y: seq<bool>): (r: seq<bool>)
    requires |x| <= |y|
  {
    seq(|x|, i requires 0 <= i < |x| => x[i] && y[i])
  }

  /** The inner product x . y mod 2. */
  function Dot(x: seq<bool>, y: seq<bool>): bool
    requires |x| <= |y|
  {
    Parity(And(x, y))
  }

  /** For every position, whether the character there is '1'. */
  function Flags(chars: string): (r: seq<bool>)
    ensures |r| == |chars|
    ensures forall i :: 0 <= i < |chars| ==> r[i] == (chars[i] == '1')
  {
    seq(|chars|, i requires 0 <= i < |chars| => chars[i] == '1')
  }

  /** The low `width` bits of b as flags, most significant first. */
  function MsbFirst(b: nat, width: nat): (bits: seq<bool>)
    ensures |bits| == width
  {
    seq(width, j requires 0 <= j < width => Bit(b, width - 1 - j) == 1)
  }

  /** The flags of a formatted value are its bits, most significant first. */
  lemma FormatBinaryFlags(b: nat, width: nat)
    requires 1 <= width && b < Pow2(width)
    ensures Flags(FormatBinary(b, width)) == MsbFirst(b, width)
  {
    FormatBinaryBits(b, width);
    var f := Flags(FormatBinary(b, width));
    assert forall j :: 0 <= j < width ==> f[j] == MsbFirst(b, width)[j];
  }

  /** Every vector of the list with v put in front. */
  function Prepend(v: bool, xs: seq<seq<bool>>): (r: seq<seq<bool>>)
  {
    seq(|xs|, i requires 0 <= i < |xs| => [v] + xs[i])
  }

  /** All bit vectors of length n: those starting with false, then those starting with true. */
  function Inputs(n: nat): (r: seq<seq<bool>>)
    ensures |r| == Pow2(n)
    ensures forall i :: 0 <= i < |r| ==> |r[i]| == n
  {
    if n == 0 then [[]] else Prepend(false, Inputs(n - 1)) + Prepend(true, Inputs(n - 1))
  }

  /** Entry k of Inputs(n): its first bit says which half k is in, the rest is the entry of Inputs(n - 1) there. */
  lemma InputsAt(n: nat, k: nat)
    requires 1 <= n && k < Pow2(n)
    ensures var half := Pow2(n - 1);
      Pow2(n) == 2 * half &&
      Inputs(n)[k] == [k >= half] + Inputs(n - 1)[if k < half then k else k - half]
  {
    var rest := Inputs(n - 1);
    var lo, hi := Prepend(false, rest), Prepend(true, rest);
    assert Inputs(n) == lo + hi;
    if k < |rest| {
      assert (lo + hi)[k] == lo[k];
    } else {
      assert (lo + hi)[k] == hi[k - |rest|];
    }
  }

  /** The position of a vector among Inputs(|x|): its bits read as a binary number, first bit most significant. */
  function Rank(x: seq<bool>): (r: nat)
    ensures r < Pow2(|x|)
  {
    if x == [] then 0 else (if x[0] then Pow2(|x| - 1) else 0) + Rank(x[1..])
  }

  lemma RankCons(v: bool, y: seq<bool>)
    ensures Rank([v] + y) == (if v then Pow2(|y|) else 0) + Rank(y)
  {
    assert ([v] + y)[1..] == y;
  }

  /** Rank undoes Inputs: entry k sits at position k. */
  lemma {:induction false} InputsRank(n: nat, k: nat)
    requires k < Pow2(n)
    ensures |Inputs(n)[k]| == n && Rank(Inputs(n)[k]) == k
  {
    if n > 0 {
      var half := Pow2(n - 1);
      var k' := if k < half then k else k - half;
      InputsAt(n, k);
      InputsRank(n - 1, k');
      RankCons(k >= half, Inputs(n - 1)[k']);
    } else {
      assert Pow2(0) == 1;
      assert Inputs(0) == [[]];
      assert Inputs(0)[k] == [];
    }
  }

  /** A non-empty x sits in Inputs(|x|) as its first bit followed by where the rest of it sits one size down. */
  lemma InputsCons(x: seq<bool>)
    requires x != []
    ensures Rank(x) < Pow2(|x|) && Rank(x[1..]) < Pow2(|x| - 1)
    ensures Inputs(|x|)[Rank(x)] == [x[0]] + Inputs(|x| - 1)[Rank(x[1..])]
  {
    var n := |x|;
    var k := Rank(x);
    assert k == (if x[0] then Pow2(n - 1) else 0) + Rank(x[1..]);
    InputsAt(n, k);
  }

  /** Inputs undoes Rank: every vector of length n is among Inputs(n), at position Rank(x). */
  lemma {:induction false} InputsComplete(x: seq<bool>)
    ensures Rank(x) < |Inputs(|x|)| && Inputs(|x|)[Rank(x)] == x
  {
    if x != [] {
      var y := x[1..];
      assert [x[0]] + y == x;
      InputsComplete(y);
      InputsCons(x);
    } else {
      assert Inputs(0) == [[]];
      assert Rank(x) == 0;
    }
  }

  /** Inputs(n) lists no vector twice, so it holds exactly 2^n different inputs. */
  lemma InputsDistinct(n: nat, i: nat, j: nat)
    requires i < j < Pow2(n)
    ensures Inputs(n)[i] != Inputs(n)[j]
  {
    InputsRank(n, i);
    InputsRank(n, j);
  }

  /** The number of vectors of xs on which p holds. */
  function Count(xs: seq<seq<bool>>, p: seq<bool> -> bool): nat
  {
    if xs == [] then 0 else (if p(xs[0]) then 1 else 0) + Count(xs[1..], p)
  }

  lemma {:induction false} CountAppend(xs: seq<seq<bool>>, ys: seq<seq<bool>>, p: seq<bool> -> bool)
    ensures Count(xs + ys, p) == Count(xs, p) + Count(ys, p)
  {
    if xs != [] {
      assert (xs + ys)[1..] == xs[1..] + ys;
      CountAppend(xs[1..], ys, p);
    } else {
      assert xs + ys == ys;
    }
  }

  lemma {:induction false} CountAgree(xs: seq<seq<bool>>, p: seq<bool> -> bool, q: seq<bool> -> bool)
    requires forall x :: x in xs ==> p(x) == q(x)
    ensures Count(xs, p) == Count(xs, q)
  {
    if xs != [] {
      CountAgree(xs[1..], p, q);
    }
  }

  lemma {:induction false} CountPrepend(v: bool, xs: seq<seq<bool>>, p: seq<bool> -> bool, q: seq<bool> -> bool)
    requires forall x :: x in xs ==> q(x) == p([v] + x)
    ensures Count(Prepend(v, xs), p) == Count(xs, q)
  {
    if xs != [] {
      assert Prepend(v, xs)[1..] == Prepend(v, xs[1..]);
      CountPrepend(v, xs[1..], p, q);
    }
  }

  /** Whatever p is, it and its negation split the list between them. */
  lemma {:induction false} CountComplement(xs: seq<seq<bool>>, p: seq<bool> -> bool, q: seq<bool> -> bool)
    requires forall x :: x in xs ==> q(x) == !p(x)
    ensures Count(xs, p) + Count(xs, q) == |xs|
  {
    if xs != [] {
      CountComplement(xs[1..], p, q);
    }
  }

  lemma {:induction false} CountConstant(xs: seq<seq<bool>>, p: seq<bool> -> bool, v: bool)
    requires forall x :: x in xs ==> p(x) == v
    ensures Count(xs, p) == if v then |xs| else 0
  {
    if xs != [] {
      CountConstant(xs[1..], p, v);
    }
  }

  lemma XorParityCons(v: bool, y: seq<bool>, c: seq<bool>)
    requires |y| + 1 <= |c|
    ensures Parity(Xor([v] + y, c)) == ((v != c[0]) != Parity(Xor(y, c[1..])))
  {
    assert Xor([v] + y, c) == [v != c[0]] + Xor(y, c[1..]);
    ParityCons(v != c[0], Xor(y, c[1..]));
  }

  /**
   * x |-> parity(x xor c) is balanced: for 1 <= n <= |c| it is true on
   * exactly half of the 2^n inputs of length n, whatever c is.
   */
  lemma XorParityBalanced(c: seq<bool>, n: nat)
    requires 1 <= n <= |c|
    ensures Count(Inputs(n), x => |x| <= |c| && Parity(Xor(x, c))) == Pow2(n - 1)
  {
    var p := x => |x| <= |c| && Parity(Xor(x, c));
    var rest := Inputs(n - 1);
    var tail := c[1..];
    var g := y => |y| <= |tail| && (c[0] != Parity(Xor(y, tail)));
    var h := y => |y| <= |tail| && !(c[0] != Parity(Xor(y, tail)));
    forall y | y in rest
      ensures p([false] + y) == g(y) && p([true] + y) == h(y)
    {
      XorParityCons(false, y, c);
      XorParityCons(true, y, c);
    }
    CountAppend(Prepend(false, rest), Prepend(true, rest), p);
    CountPrepend(false, rest, p, g);
    CountPrepend(true, rest, p, h);
    CountComplement(rest, g, h);
  }
}

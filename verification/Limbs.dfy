/** Little-endian limb vectors over an arbitrary base, and the two in-place helpers that the
    multi-precision routines are built on. The base `b` (two to the limb width) is a parameter. */
module Limbs {
  import opened Arith

  /** The integer that a vector of limbs stands for: the sum of s[i] * b^i. */
  function Val(s: seq<nat>, b: nat): int {
    if s == [] then 0 else Val(s[..|s| - 1], b) + s[|s| - 1] * Pow(b, |s| - 1)
  }

  ghost predicate IsLimbs(s: seq<nat>, b: nat) {
    forall i :: 0 <= i < |s| ==> s[i] < b
  }

  /** Unsigned machine addition: wraps at the base. */
  function WrapAdd(x: nat, y: nat, b: nat): (r: nat)
    requires x < b && y < b
    ensures r < b && (r == x + y || r == x + y - b)
    ensures r < y <==> x + y >= b
  {
    if x + y < b then x + y else x + y - b
  }

  /** Unsigned machine subtraction: wraps at the base. */
  function WrapSub(x: nat, y: nat, b: nat): (r: nat)
    requires x < b && y < b
    ensures r < b && (r == x - y || r == x - y + b)
  {
    if x >= y then x - y else x - y + b
  }

  // ----- the value of a limb vector

  lemma {:induction false} ValUpdate(s: seq<nat>, i: nat, x: nat, b: nat)
    requires i < |s|
    ensures Val(s[i := x], b) == Val(s, b) + (x - s[i]) * Pow(b, i)
  {
    var n := |s| - 1;
    MulDistr(x, s[i], Pow(b, i));
    if i == n {
      assert s[i := x][..n] == s[..n];
    } else {
      ValUpdate(s[..n], i, x, b);
      assert s[i := x][..n] == s[..n][i := x];
    }
  }

  lemma {:induction false} ValSplit(s: seq<nat>, k: nat, b: nat)
    requires k <= |s|
    ensures Val(s, b) == Val(s[..k], b) + Pow(b, k) * Val(s[k..], b)
  {
    if k == |s| {
      assert s[..k] == s;
    } else {
      var n := |s| - 1;
      ValSplit(s[..n], k, b);
      assert s[..n][..k] == s[..k] && s[..n][k..] == s[k..][..n - k];
      PowAdd(b, k, n - k);
      assert s[k..][n - k] == s[n] && s[k..][..n - k] == s[k..n];
      Distribute(Pow(b, k), Val(s[k..n], b), s[n], Pow(b, n - k));
    }
  }

  lemma Distribute(p: int, v: int, x: int, q: int)
    ensures p * (v + x * q) == p * v + x * (p * q)
  {
    MulAssoc(x, p, q);
    MulAssoc(p, x, q);
  }

  lemma {:induction false} ValBound(s: seq<nat>, b: nat)
    requires IsLimbs(s, b) && b > 0
    ensures 0 <= Val(s, b) < Pow(b, |s|)
  {
    if s != [] {
      var n := |s| - 1;
      ValBound(s[..n], b);
      MulMono(0, s[n], Pow(b, n));
      MulMono(s[n], b - 1, Pow(b, n));
      assert (b - 1) * Pow(b, n) == b * Pow(b, n) - Pow(b, n);
    }
  }

  lemma {:induction false} ValZero(s: seq<nat>, b: nat)
    requires forall i :: 0 <= i < |s| ==> s[i] == 0
    ensures Val(s, b) == 0
  {
    if s != [] { ValZero(s[..|s| - 1], b); }
  }

  /** Leading zero limbs do not matter. */
  lemma ValTrim(s: seq<nat>, k: nat, b: nat)
    requires k <= |s| && forall i :: k <= i < |s| ==> s[i] == 0
    ensures Val(s, b) == Val(s[..k], b)
  {
    ValSplit(s, k, b);
    ValZero(s[k..], b);
  }

  /** A value below b^k has no limb at or above position k. */
  lemma {:induction false} ValHighZero(s: seq<nat>, k: nat, b: nat)
    requires IsLimbs(s, b) && b > 0 && k <= |s| && Val(s, b) < Pow(b, k)
    ensures forall i :: k <= i < |s| ==> s[i] == 0
  {
    if k < |s| {
      var n := |s| - 1;
      ValBound(s[..n], b);
      if s[n] > 0 {
        PowMono(b, k, n);
        MulMono(1, s[n], Pow(b, n));
        assert false;
      }
      ValHighZero(s[..n], k, b);
      assert forall i :: k <= i < n ==> s[i] == s[..n][i];
    }
  }

  lemma ValSnoc(s: seq<nat>, k: nat, b: nat)
    requires k < |s|
    ensures Val(s[..k + 1], b) == Val(s[..k], b) + s[k] * Pow(b, k)
  {
    assert s[..k + 1][..k] == s[..k];
  }

  /** The top limb dominates: vectors that agree above k compare like their limbs at k. */
  lemma ValCompare(s: seq<nat>, t: seq<nat>, k: nat, b: nat)
    requires IsLimbs(s, b) && IsLimbs(t, b) && b > 0
    requires k < |s| && k < |t| && s[k] < t[k]
    ensures Val(s[..k + 1], b) < Val(t[..k + 1], b)
  {
    ValSnoc(s, k, b);
    ValSnoc(t, k, b);
    ValBound(s[..k], b);
    ValBound(t[..k], b);
    MulMono(s[k] + 1, t[k], Pow(b, k));
    assert (s[k] + 1) * Pow(b, k) == s[k] * Pow(b, k) + Pow(b, k);
  }

  /** Number of limbs without the leading zeros. */
  method Significant(p: seq<nat>) returns (j: nat)
    ensures j <= |p| && (j > 0 ==> p[j - 1] != 0)
    ensures forall k :: j <= k < |p| ==> p[k] == 0
  {
    j := |p|;
    while j > 0 && p[j - 1] == 0
      invariant 0 <= j <= |p|
      invariant forall k :: j <= k < |p| ==> p[k] == 0
    {
      j := j - 1;
    }
  }

  /** What the significant limbs say about the value. */
  lemma SignificantValue(s: seq<nat>, j: nat, b: nat)
    requires b >= 2 && IsLimbs(s, b) && j <= |s|
    requires forall k :: j <= k < |s| ==> s[k] == 0
    ensures Val(s, b) == Val(s[..j], b) && 0 <= Val(s, b) < Pow(b, j)
    ensures j > 0 && s[j - 1] != 0 ==> Val(s, b) >= Pow(b, j - 1)
  {
    ValTrim(s, j, b);
    ValBound(s[..j], b);
    if j > 0 && s[j - 1] != 0 {
      ValSnoc(s, j - 1, b);
      ValBound(s[..j - 1], b);
      MulMono(1, s[j - 1], Pow(b, j - 1));
    }
  }

  /** Three-way comparison, from the top limbs down; the lengths may differ. */
  method CmpLimbs(s: seq<nat>, t: seq<nat>, ghost b: nat) returns (r: int)
    requires b >= 2 && IsLimbs(s, b) && IsLimbs(t, b)
    ensures r == if Val(s, b) > Val(t, b) then 1 else if Val(s, b) < Val(t, b) then -1 else 0
  {
    hide Val, Pow;
    var i := Significant(s);
    var j := Significant(t);
    SignificantValue(s, i, b);
    SignificantValue(t, j, b);
    if i > j { PowMono(b, j, i - 1); return 1; }
    if j > i { PowMono(b, i, j - 1); return -1; }
    ghost var n := i;
    while i > 0
      invariant 0 <= i <= n
      invariant Val(s, b) - Val(s[..i], b) == Val(t, b) - Val(t[..i], b)
    {
      if s[i - 1] > t[i - 1] { ValCompare(t, s, i - 1, b); return 1; }
      if s[i - 1] < t[i - 1] { ValCompare(s, t, i - 1, b); return -1; }
      ValSnoc(s, i - 1, b);
      ValSnoc(t, i - 1, b);
      i := i - 1;
    }
    assert s[..0] == t[..0];
    return 0;
  }

  // ----- mpi_sub_hlp

  /** One borrow step changes the total by exactly the subtracted limb, up to the borrow. */
  lemma BorrowStep(v: seq<nat>, i: nat, x: nat, y: nat, c: nat, c': nat, b: nat)
    requires i < |v| && v[i] - y - c == x - c' * b
    ensures Val(v[i := x], b) - c' * Pow(b, i + 1) == Val(v, b) - c * Pow(b, i) - y * Pow(b, i)
  {
    ValUpdate(v, i, x, b);
    var p := Pow(b, i);
    MulAssoc(c', b, p);
    assert (x - v[i]) * p == (c' * b - y - c) * p == (c' * b) * p - y * p - c * p;
  }

  /** Subtracts y and the borrow c from limb i; the second comparison tells the new borrow. */
  method SubBorrow(d: array<nat>, i: nat, y: nat, c: nat, b: nat) returns (c': nat)
    requires b >= 2 && i < d.Length && IsLimbs(d[..], b) && y < b && c <= 1
    modifies d
    ensures IsLimbs(d[..], b) && c' <= 1
    ensures Val(d[..], b) - c' * Pow(b, i + 1) == old(Val(d[..], b)) - c * Pow(b, i) - y * Pow(b, i)
  {
    ghost var v := d[..];
    var z := if d[i] < c then 1 else 0;
    d[i] := WrapSub(d[i], c, b);
    c' := (if d[i] < y then 1 else 0) + z;
    d[i] := WrapSub(d[i], y, b);
    assert d[..] == v[i := d[i]];
    BorrowStep(v, i, d[i], y, c, c', b);
  }

  /** In-place subtraction of the low n limbs of `s` from `d`: exact whenever the difference is
      not negative, and then the borrow dies inside `d`. */
  method SubHlp(n: nat, s: seq<nat>, d: array<nat>, b: nat)
    requires b >= 2 && n <= |s| && n <= d.Length && IsLimbs(s, b) && IsLimbs(d[..], b)
    requires Val(s[..n], b) <= Val(d[..], b)
    modifies d
    ensures IsLimbs(d[..], b)
    ensures Val(d[..], b) == old(Val(d[..], b)) - Val(s[..n], b)
  {
    ghost var was := d[..];
    var c, i := 0, 0;
    while i < n
      invariant 0 <= i <= n && 0 <= c <= 1 && IsLimbs(d[..], b)
      invariant Val(d[..], b) - c * Pow(b, i) == Val(was, b) - Val(s[..i], b)
    {
      c := SubBorrow(d, i, s[i], c, b);
      ValSnoc(s, i, b);
      i := i + 1;
    }
    ghost var target := Val(was, b) - Val(s[..n], b);
    while c != 0
      invariant n <= i <= d.Length && 0 <= c <= 1 && IsLimbs(d[..], b)
      invariant Val(d[..], b) - c * Pow(b, i) == target
      decreases d.Length - i, c
    {
      ValBound(d[..], b);
      assert i < d.Length;
      c := SubBorrow(d, i, 0, c, b);
      i := i + 1;
    }
  }

  // ----- mpi_mul_hlp

  /** One multiply-accumulate step: adds y * m to limb i, with carries in and out. */
  lemma CarryStep(v: seq<nat>, i: nat, x: nat, y: int, c: nat, c': nat, b: nat)
    requires i < |v| && v[i] + y + c == x + c' * b
    ensures Val(v[i := x], b) + c' * Pow(b, i + 1) == Val(v, b) + c * Pow(b, i) + y * Pow(b, i)
  {
    ValUpdate(v, i, x, b);
    var p := Pow(b, i);
    MulAssoc(c', b, p);
    assert (x - v[i]) * p == (y + c - c' * b) * p == y * p + c * p - (c' * b) * p;
  }

  /** The double-width product-and-sum of one step fits: its high half is a limb again. */
  lemma MulAddBound(x: nat, y: nat, m: nat, c: nat, b: nat)
    requires b >= 2 && x < b && y < b && m < b && c < b
    ensures 0 <= x + y * m + c < b * b
  {
    MulMono(y, b - 1, m);
    MulMono(m, b - 1, b - 1);
    assert (b - 1) * m == m * (b - 1);
    assert (b - 1) * (b - 1) == b * b - 2 * b + 1;
  }

  /** Splitting a double-width word. */
  method SplitWord(t: nat, b: nat) returns (lo: nat, hi: nat)
    requires b >= 2 && t < b * b
    ensures lo < b && hi < b && t == lo + hi * b
  {
    lo, hi := t % b, t / b;
    assert t == (t / b) * b + t % b;
    if hi >= b { MulMono(b, hi, b); assert false; }
  }

  /** One exact limb multiply-accumulate: d[i] += y * m + c, returning the new carry. */
  method MulAddCore(d: array<nat>, i: nat, y: nat, m: nat, c: nat, b: nat) returns (c': nat)
    requires b >= 2 && i < d.Length && IsLimbs(d[..], b) && y < b && m < b && c < b
    modifies d
    ensures IsLimbs(d[..], b) && c' < b
    ensures forall k :: 0 <= k < d.Length && k != i ==> d[k] == old(d[k])
    ensures Val(d[..], b) + c' * Pow(b, i + 1) == old(Val(d[..], b)) + c * Pow(b, i) + (y * m) * Pow(b, i)
  {
    ghost var v := d[..];
    MulAddBound(d[i], y, m, c, b);
    var t: nat := d[i] + y * m + c;
    var lo;
    lo, c' := SplitWord(t, b);
    d[i] := lo;
    assert d[..] == v[i := lo];
    CarryStep(v, i, lo, y * m, c, c', b);
  }

  /** d[off..] += s[..n] * m, in place. The carry chain after the n products runs on until it
      dies, which is inside `d` as long as the exact result fits. */
  method MulHlp(n: nat, s: seq<nat>, d: array<nat>, off: nat, m: nat, b: nat)
    requires b >= 2 && n <= |s| && off + n < d.Length && m < b
    requires IsLimbs(s, b) && IsLimbs(d[..], b)
    requires Val(d[..], b) + (Val(s[..n], b) * m) * Pow(b, off) < Pow(b, d.Length)
    modifies d
    ensures IsLimbs(d[..], b) && d[..off] == old(d[..off])
    ensures Val(d[..], b) == old(Val(d[..], b)) + (Val(s[..n], b) * m) * Pow(b, off)
  {
    ghost var was := d[..];
    var c, k := 0, 0;
    while k < n
      invariant 0 <= k <= n && 0 <= c < b && IsLimbs(d[..], b) && d[..off] == was[..off]
      invariant Val(d[..], b) + c * Pow(b, off + k) == Val(was, b) + (Val(s[..k], b) * m) * Pow(b, off)
    {
      c := MulAddCore(d, off + k, s[k], m, c, b);
      ProductStep(s, k, m, off, b);
      k := k + 1;
    }
    CarryChain(d, off + n, c, b);
  }

  /** Adds the carry c at limb i, and again until no carry is left. */
  method CarryChain(d: array<nat>, i: nat, c: nat, b: nat)
    requires b >= 2 && c < b && i < d.Length && IsLimbs(d[..], b)
    requires Val(d[..], b) + c * Pow(b, i) < Pow(b, d.Length)
    modifies d
    ensures IsLimbs(d[..], b) && d[..i] == old(d[..i])
    ensures Val(d[..], b) == old(Val(d[..], b)) + c * Pow(b, i)
  {
    ghost var target := Val(d[..], b) + c * Pow(b, i);
    var k := i + 1;
    var c' := AddCarry(d, i, c, b);
    while c' != 0
      invariant i < k <= d.Length && 0 <= c' <= 1 && IsLimbs(d[..], b) && d[..i] == old(d[..i])
      invariant Val(d[..], b) + c' * Pow(b, k) == target
      decreases d.Length - k, c'
    {
      ValBound(d[..], b);
      assert k < d.Length;
      c' := AddCarry(d, k, c', b);
      k := k + 1;
    }
  }

  method AddCarry(d: array<nat>, i: nat, c: nat, b: nat) returns (c': nat)
    requires b >= 2 && c < b && i < d.Length && IsLimbs(d[..], b)
    modifies d
    ensures IsLimbs(d[..], b) && c' <= 1 && (c' == 1 ==> old(d[i]) + c >= b)
    ensures forall k :: 0 <= k < d.Length && k != i ==> d[k] == old(d[k])
    ensures Val(d[..], b) + c' * Pow(b, i + 1) == old(Val(d[..], b)) + c * Pow(b, i)
  {
    ghost var v := d[..];
    d[i] := WrapAdd(d[i], c, b);
    c' := if d[i] < c then 1 else 0;
    assert d[..] == v[i := d[i]];
    CarryStep(v, i, d[i], 0, c, c', b);
  }

  lemma ProductStep(s: seq<nat>, k: nat, m: nat, off: nat, b: nat)
    requires k < |s|
    ensures (Val(s[..k + 1], b) * m) * Pow(b, off)
         == (Val(s[..k], b) * m) * Pow(b, off) + (s[k] * m) * Pow(b, off + k)
  {
    ValSnoc(s, k, b);
    PowAdd(b, k, off);
    ScaledSum(Val(s[..k], b), s[k], Pow(b, k), m, Pow(b, off));
  }

  lemma ScaledSum(v: int, x: int, p: int, m: int, q: int)
    ensures ((v + x * p) * m) * q == (v * m) * q + (x * m) * (p * q)
  {
    MulDistr(v, x * p, m);
    MulDistr(v * m, (x * p) * m, q);
    MulAssoc(x * p, m, q);
    MulSwap(x, p, m, q);
  }
}

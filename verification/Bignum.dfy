/** Signed multi-precision integers as objects whose limb buffers are changed in place:
    comparison, unsigned and signed addition and subtraction, and schoolbook multiplication,
    with the aliasing between result and operands that the library allows. Allocation may fail
    at any growth, so every claim about a value is conditional on the returned status. */
module Bignum {
  import opened Arith
  import opened Limbs

  datatype Status = Ok | AllocFailed | NegativeValue

  class Mpi {
    var s: int
    var p: array<nat>

    constructor ()
      ensures s == 1 && p.Length == 0 && fresh(p)
    {
      s := 1;
      p := new nat[0];
    }

    ghost predicate Valid(b: nat)
      reads this, p
    {
      b >= 2 && (s == 1 || s == -1) && IsLimbs(p[..], b)
    }

    ghost function Mag(b: nat): int
      reads this, p
    {
      Val(p[..], b)
    }

    ghost function Value(b: nat): int
      reads this, p
    {
      s * Mag(b)
    }
  }

  /** Distinct objects own distinct buffers. */
  ghost predicate Apart(x: Mpi, y: Mpi)
    reads x, y
  {
    x != y ==> x.p != y.p
  }

  /** Growing may fail, unless there is ample memory. */
  method Grow(x: Mpi, n: nat, ghost b: nat, ample: bool) returns (ok: bool)
    requires x.Valid(b)
    modifies x
    ensures x.Valid(b) && x.Mag(b) == old(x.Mag(b)) && x.s == old(x.s)
    ensures x.p == old(x.p) || fresh(x.p)
    ensures x.p.Length >= old(x.p.Length) && (ok ==> x.p.Length >= n)
    ensures forall i :: 0 <= i < x.p.Length ==> x.p[i] == if i < old(x.p.Length) then old(x.p[i]) else 0
    ensures n <= old(x.p.Length) ==> x.p == old(x.p)
    ensures ample ==> ok
  {
    if !ample {
      if * { return false; }
    }
    if x.p.Length < n {
      var was := x.p;
      var q := new nat[n](i requires 0 <= i < n reads was => if i < was.Length then was[i] else 0);
      assert q[..][..was.Length] == was[..];
      ValTrim(q[..], was.Length, b);
      x.p := q;
    }
    return true;
  }

  method Copy(x: Mpi, y: Mpi, ghost b: nat, ample: bool) returns (ok: bool)
    requires x.Valid(b) && y.Valid(b) && Apart(x, y)
    modifies x, x.p
    ensures x.Valid(b) && (x.p == old(x.p) || fresh(x.p))
    ensures x != y ==> y.p[..] == old(y.p[..])
    ensures ok ==> x.Mag(b) == old(y.Mag(b)) && x.s == old(y.s)
    ensures ample ==> ok
  {
    hide Val, Pow;
    if x == y { return true; }
    var i := Significant(y.p[..]);
    SignificantValue(y.p[..], i, b);
    x.s := y.s;
    ok := Grow(x, i, b, ample);
    if !ok { return; }
    forall k | 0 <= k < x.p.Length { x.p[k] := if k < i then y.p[k] else 0; }
    assert x.p[..][..i] == y.p[..i];
    assert y.p[..][..i] == y.p[..i];
    ValTrim(x.p[..], i, b);
  }

  method CmpAbs(x: Mpi, y: Mpi, ghost b: nat) returns (r: int)
    requires x.Valid(b) && y.Valid(b)
    ensures r == if x.Mag(b) > y.Mag(b) then 1 else if x.Mag(b) < y.Mag(b) then -1 else 0
  {
    r := CmpLimbs(x.p[..], y.p[..], b);
  }

  // ----- addition

  /** X = |A| + |B|. Exact unless all three operands are one object: then every limb is doubled
      on its own, and the carries are lost because the wrapped limb is compared with itself. */
  method AddAbs(x: Mpi, a: Mpi, b: Mpi, base: nat, ample: bool) returns (ok: bool)
    requires x.Valid(base) && a.Valid(base) && b.Valid(base) && Apart(x, a) && Apart(x, b)
    modifies x, x.p
    ensures x.Valid(base) && (x.p == old(x.p) || fresh(x.p))
    ensures ok ==> x.s == 1
    ensures ample ==> ok
    ensures ok && !(x == a == b) ==> x.Mag(base) == old(a.Mag(base)) + old(b.Mag(base))
    ensures ok && x == a == b ==> x.p[..] == DoubledLimbs(old(x.p[..]), base)
  {
    var u, v := a, b;
    if x == b { u, v := x, a; }
    if x != u {
      ok := Copy(x, u, base, ample);
      if !ok { return; }
    }
    ok := AddInto(x, v, base, ample);
  }

  /** X = |X| + |V|. */
  method AddInto(x: Mpi, v: Mpi, base: nat, ample: bool) returns (ok: bool)
    requires x.Valid(base) && v.Valid(base) && Apart(x, v)
    modifies x, x.p
    ensures x.Valid(base) && (x.p == old(x.p) || fresh(x.p)) && x.s == 1
    ensures ample ==> ok
    ensures ok && x != v ==> x.Mag(base) == old(x.Mag(base)) + old(v.Mag(base))
    ensures ok && x == v ==> x.p[..] == DoubledLimbs(old(x.p[..]), base)
  {
    x.s := 1;
    var j := Significant(v.p[..]);
    SignificantValue(v.p[..], j, base);
    ok := Grow(x, j, base, ample);
    if !ok { return; }
    assert v.p[..][..j] == v.p[..j];
    var i, c := AddLimbs(x.p, v.p, j, base);
    if v == x { return; }
    ok := CarryOut(x, i, c, base, ample);
  }

  /** Propagates a carry from limb i on, growing the number when the carry leaves it. */
  method CarryOut(x: Mpi, start: nat, carry: nat, base: nat, ample: bool) returns (ok: bool)
    requires x.Valid(base) && start <= x.p.Length && carry <= 1
    modifies x, x.p
    ensures x.Valid(base) && (x.p == old(x.p) || fresh(x.p)) && x.s == old(x.s)
    ensures ok ==> x.Mag(base) == old(x.Mag(base)) + carry * Pow(base, start)
    ensures ample ==> ok
  {
    ghost var target := x.Mag(base) + carry * Pow(base, start);
    var i: nat, c: nat := start, carry;
    while c != 0
      invariant i <= x.p.Length && c <= 1 && x.Valid(base) && x.s == old(x.s)
      invariant x.p == old(x.p) || fresh(x.p)
      invariant x.Mag(base) + c * Pow(base, i) == target
      decreases c, x.p.Length - i
    {
      if i >= x.p.Length {
        ok := Grow(x, i + 1, base, ample);
        if !ok { return; }
        assert x.p[i] == 0;
      }
      c := AddCarry(x.p, i, c, base);
      i := i + 1;
    }
    ok := true;
  }

  /** What in-place addition of a number to itself stores. */
  ghost function DoubledLimbs(s: seq<nat>, base: nat): seq<nat>
    requires base >= 2 && IsLimbs(s, base)
  {
    seq(|s|, i requires 0 <= i < |s| => WrapAdd(s[i], s[i], base))
  }

  /** The main loop of addition, on the two buffers: they may be one buffer. */
  method AddLimbs(x: array<nat>, o: array<nat>, j: nat, base: nat) returns (i: nat, c: nat)
    requires base >= 2 && j <= x.Length && j <= o.Length && IsLimbs(x[..], base) && IsLimbs(o[..], base)
    requires x == o ==> forall k :: j <= k < x.Length ==> x[k] == 0
    modifies x
    ensures i == j && c <= 1 && IsLimbs(x[..], base)
    ensures x != o ==> Val(x[..], base) + c * Pow(base, j) == old(Val(x[..], base)) + old(Val(o[..j], base))
    ensures x == o ==> c == 0 && x[..] == DoubledLimbs(old(x[..]), base)
  {
    hide Val, Pow;
    ghost var was, q := x[..], o[..];
    i, c := 0, 0;
    assert q[..j] == o[..j];
    assert Val(q[..0], base) == 0 by { ValZero(q[..0], base); }
    while i < j
      invariant 0 <= i <= j && c <= 1 && IsLimbs(x[..], base)
      invariant x != o ==> o[..] == q && Val(x[..], base) + c * Pow(base, i) == Val(was, base) + Val(q[..i], base)
      invariant x == o ==> c == 0 && forall k :: 0 <= k < x.Length ==>
        x[k] == if k < i then WrapAdd(was[k], was[k], base) else was[k]
    {
      ghost var v, c0 := x[..], c;
      x[i] := WrapAdd(x[i], c, base);
      c := if x[i] < c then 1 else 0;
      x[i] := WrapAdd(x[i], o[i], base);
      c := c + if x[i] < o[i] then 1 else 0;
      if x != o {
        assert x[..] == v[i := x[i]];
        CarryStep(v, i, x[i], q[i], c0, c, base);
        ValSnoc(q, i, base);
      }
      i := i + 1;
    }
  }

  /** Doubling limb by limb is doubling exactly when no limb wraps. */
  lemma {:induction false} DoublingExact(s: seq<nat>, base: nat)
    requires base >= 2 && IsLimbs(s, base)
    ensures Val(DoubledLimbs(s, base), base) <= 2 * Val(s, base)
    ensures Val(DoubledLimbs(s, base), base) == 2 * Val(s, base) <==> forall i :: 0 <= i < |s| ==> 2 * s[i] < base
  {
    if s != [] {
      var n := |s| - 1;
      DoublingExact(s[..n], base);
      assert DoubledLimbs(s, base)[..n] == DoubledLimbs(s[..n], base);
      TopDoubled(s[n], WrapAdd(s[n], s[n], base), base, Pow(base, n));
      assert forall i :: 0 <= i < n ==> s[i] == s[..n][i];
    }
  }

  lemma TopDoubled(x: nat, y: nat, base: nat, p: int)
    requires base >= 2 && x < base && y == WrapAdd(x, x, base) && p > 0
    ensures y * p <= 2 * (x * p) && (y * p == 2 * (x * p) <==> 2 * x < base)
  {
    if 2 * x >= base { MulMono(y + 1, 2 * x, p); }
  }

  /** A one-limb witness: adding b/2 to itself in place gives 0. */
  lemma DoublingLosesCarry()
    ensures Val(DoubledLimbs([8], 16), 16) == 0 && 2 * Val([8], 16) == 16
  {
    assert DoubledLimbs([8], 16) == [0];
  }

  // ----- subtraction

  /** An operand that the result may not disturb: a copy when the two are one object. */
  method Detach(x: Mpi, a: Mpi, ghost b: nat, ample: bool) returns (ok: bool, t: Mpi)
    requires x.Valid(b) && a.Valid(b) && Apart(x, a)
    ensures t.Valid(b) && t != x && t.p != x.p
    ensures t == a || (fresh(t) && fresh(t.p))
    ensures ok ==> t.Mag(b) == a.Mag(b) && t.s == a.s
    ensures ample ==> ok
  {
    t := new Mpi();
    assert t.p[..] == [];
    if x == a {
      ok := Copy(t, a, b, ample);
    } else {
      ok, t := true, a;
    }
  }

  /** X = |A| - |B|: fails exactly when |A| < |B|, exact otherwise, under every aliasing. */
  method SubAbs(x: Mpi, a: Mpi, b: Mpi, base: nat, ample: bool) returns (st: Status)
    requires x.Valid(base) && a.Valid(base) && b.Valid(base) && Apart(x, a) && Apart(x, b)
    modifies x, x.p
    ensures x.Valid(base) && (x.p == old(x.p) || fresh(x.p))
    ensures st == NegativeValue <==> old(a.Mag(base)) < old(b.Mag(base))
    ensures st == NegativeValue ==> x.p == old(x.p) && x.p[..] == old(x.p[..]) && x.s == old(x.s)
    ensures st == Ok ==> x.s == 1 && x.Mag(base) == old(a.Mag(base)) - old(b.Mag(base))
    ensures ample ==> st != AllocFailed
  {
    var r := CmpAbs(a, b, base);
    if r < 0 { return NegativeValue; }
    ghost var va, vb := a.Mag(base), b.Mag(base);
    var ok, t := Detach(x, b, base, ample);
    if !ok { return AllocFailed; }
    var ts := t.p[..];
    var n := Significant(t.p[..]);
    if x != a {
      ok := Copy(x, a, base, ample);
      if !ok { return AllocFailed; }
    }
    SubLow(x, n, ts, base);
    return Ok;
  }

  /** X = |X| - B for the n significant limbs of a B that is not larger. */
  method SubLow(x: Mpi, n: nat, t: seq<nat>, base: nat)
    requires x.Valid(base) && IsLimbs(t, base) && n <= |t| && Val(t, base) <= x.Mag(base)
    requires (n > 0 ==> t[n - 1] != 0) && forall k :: n <= k < |t| ==> t[k] == 0
    modifies x, x.p
    ensures x.Valid(base) && x.p == old(x.p) && x.s == 1
    ensures x.Mag(base) == old(x.Mag(base)) - Val(t, base)
  {
    x.s := 1;
    SignificantValue(t, n, base);
    ValBound(x.p[..], base);
    if n > x.p.Length { PowMono(base, x.p.Length, n - 1); assert false; }
    SubHlp(n, t, x.p, base);
  }

  /** X = A + B with signs. As for AddAbs, the three operands must not all be one object. */
  method AddMpi(x: Mpi, a: Mpi, b: Mpi, base: nat, ample: bool) returns (ok: bool)
    requires x.Valid(base) && a.Valid(base) && b.Valid(base) && Apart(x, a) && Apart(x, b)
    modifies x, x.p
    ensures x.Valid(base) && (x.p == old(x.p) || fresh(x.p))
    ensures ample ==> ok
    ensures ok && !(x == a == b) ==> x.Value(base) == old(a.Value(base)) + old(b.Value(base))
    ensures ok && x == a == b ==> x.s == old(x.s) && x.p[..] == DoubledLimbs(old(x.p[..]), base)
  {
    ok := AddSigned(x, a, b, b.s, base, ample);
  }

  /** X = A - B with signs, under every aliasing: X - X never reaches the addition branch. */
  method SubMpi(x: Mpi, a: Mpi, b: Mpi, base: nat, ample: bool) returns (ok: bool)
    requires x.Valid(base) && a.Valid(base) && b.Valid(base) && Apart(x, a) && Apart(x, b)
    modifies x, x.p
    ensures x.Valid(base) && (x.p == old(x.p) || fresh(x.p))
    ensures ample ==> ok
    ensures ok ==> x.Value(base) == old(a.Value(base)) - old(b.Value(base))
  {
    ok := AddSigned(x, a, b, -b.s, base, ample);
  }

  /** The shared case split: opposite signs subtract the smaller magnitude from the larger. */
  method AddSigned(x: Mpi, a: Mpi, b: Mpi, bs: int, base: nat, ample: bool) returns (ok: bool)
    requires x.Valid(base) && a.Valid(base) && b.Valid(base) && Apart(x, a) && Apart(x, b) && (bs == 1 || bs == -1)
    modifies x, x.p
    ensures x.Valid(base) && (x.p == old(x.p) || fresh(x.p))
    ensures ample ==> ok
    ensures ok && !(x == a == b && bs == old(a.s)) ==>
      x.Value(base) == old(a.Value(base)) + bs * old(b.Mag(base))
    ensures ok && x == a == b && bs == old(a.s) ==> x.s == old(x.s) && x.p[..] == DoubledLimbs(old(x.p[..]), base)
  {
    hide Val, Pow;
    var s := a.s;
    if s * bs < 0 {
      var r := CmpAbs(a, b, base);
      if r >= 0 {
        var st := SubAbs(x, a, b, base, ample);
        if st != Ok { return false; }
        x.s := s;
      } else {
        var st := SubAbs(x, b, a, base, ample);
        if st != Ok { return false; }
        x.s := -s;
      }
    } else {
      ok := AddAbs(x, a, b, base, ample);
      if !ok { return; }
      x.s := s;
    }
    ok := true;
  }

  // ----- multiplication

  /** X = A * B by rows, under every aliasing: the product never outgrows the i + j limbs. */
  method MulMpi(x: Mpi, a: Mpi, b: Mpi, base: nat, ample: bool) returns (ok: bool)
    requires x.Valid(base) && a.Valid(base) && b.Valid(base) && Apart(x, a) && Apart(x, b)
    modifies x, x.p
    ensures x.Valid(base) && (x.p == old(x.p) || fresh(x.p))
    ensures ample ==> ok
    ensures ok ==> x.Value(base) == old(a.Value(base)) * old(b.Value(base))
  {
    hide Val, Pow, IsLimbs;
    ghost var va, vb := a.Mag(base), b.Mag(base);
    var ta, tb;
    ok, ta := Detach(x, a, base, ample);
    if !ok { return; }
    ok, tb := Detach(x, b, base, ample);
    if !ok { return; }
    var i := Significant(ta.p[..]);
    var j := Significant(tb.p[..]);
    var sa, sb := ta.p[..], tb.p[..];
    SignificantValue(sa, i, base);
    SignificantValue(sb, j, base);
    var sgn := ta.s * tb.s;
    ok := MulInto(x, i, sa, j, sb, base, ample);
    if !ok { return; }
    SignedProduct(old(a.s), old(b.s), va, vb);
    x.s := sgn;
  }

  method MulInto(x: Mpi, i: nat, a: seq<nat>, j: nat, c: seq<nat>, base: nat, ample: bool) returns (ok: bool)
    requires x.Valid(base) && i <= |a| && j <= |c| && IsLimbs(a, base) && IsLimbs(c, base)
    modifies x, x.p
    ensures x.Valid(base) && (x.p == old(x.p) || fresh(x.p))
    ensures ample ==> ok
    ensures ok ==> x.Mag(base) == Val(a[..i], base) * Val(c[..j], base)
  {
    ok := Grow(x, i + j, base, ample);
    if !ok { return; }
    forall k | 0 <= k < x.p.Length { x.p[k] := 0; }
    MulRows(x.p, i, a, j, c, base);
  }

  lemma SignedProduct(s: int, t: int, va: int, vb: int)
    requires (s == 1 || s == -1) && (t == 1 || t == -1)
    ensures (s * t == 1 || s * t == -1) && (s * t) * (va * vb) == (s * va) * (t * vb)
  {
  }

  method MulRows(d: array<nat>, i: nat, a: seq<nat>, n: nat, c: seq<nat>, base: nat)
    requires base >= 2 && i <= |a| && n <= |c| && IsLimbs(a, base) && IsLimbs(c, base)
    requires i + n <= d.Length && forall k :: 0 <= k < d.Length ==> d[k] == 0
    modifies d
    ensures IsLimbs(d[..], base) && Val(d[..], base) == Val(a[..i], base) * Val(c[..n], base)
  {
    hide Val, Pow;
    ghost var va, vc := Val(a[..i], base), Val(c[..n], base);
    ValZero(d[..], base);
    ProductFits(a[..i], c[..n], d.Length, base);
    assert c[..0] == [] && Val(c[..0], base) == 0 by { ValZero(c[..0], base); }
    var j := n;
    while j > 0
      invariant 0 <= j <= n && IsLimbs(d[..], base)
      invariant Val(d[..], base) == va * (vc - Val(c[..j], base))
    {
      ValSnoc(c, j - 1, base);
      ValBound(c[..j - 1], base);
      ValBound(a[..i], base);
      RowStep(va, vc, Val(c[..j - 1], base), c[j - 1], Pow(base, j - 1));
      MulHlp(i, a, d, j - 1, c[j - 1], base);
      j := j - 1;
    }
  }

  lemma RowStep(va: int, vc: int, w: int, m: int, p: int)
    requires va >= 0 && w >= 0
    ensures va * (vc - (w + m * p)) + (va * m) * p == va * (vc - w) <= va * vc
  {
    MulAssoc(va, m, p);
    assert va * (vc - (w + m * p)) == va * (vc - w) - va * (m * p);
    assert va * w >= 0;
    assert va * (vc - w) == va * vc - va * w;
  }

  lemma MulBelow(x: int, p: int, y: int, q: int)
    requires 0 <= x < p && 0 <= y < q
    ensures x * y < p * q
  {
    MulMono(x, p, y);
    assert p * y < p * q;
  }

  lemma ProductFits(a: seq<nat>, c: seq<nat>, len: nat, base: nat)
    requires base >= 2 && IsLimbs(a, base) && IsLimbs(c, base) && |a| + |c| <= len
    ensures Val(a, base) * Val(c, base) < Pow(base, len)
  {
    ValBound(a, base);
    ValBound(c, base);
    MulBelow(Val(a, base), Pow(base, |a|), Val(c, base), Pow(base, |c|));
    PowAdd(base, |a|, |c|);
    PowMono(base, |a| + |c|, len);
  }
}

/** Jacobian points to affine coordinates, one by one and in a batch that shares one inversion. */
module Normalize {
  import opened Arith
  import opened GcdInverse

  datatype Point = Point(X: int, Y: int, Z: int)

  /** q holds the affine coordinates of p: X/Z^2 and Y/Z^3 modulo P, as residues. */
  ghost predicate IsAffine(q: Point, p: Point, P: int)
    requires P > 0
  {
    && 0 <= q.X < P && Cong(q.X * (p.Z * p.Z), p.X, P)
    && 0 <= q.Y < P && Cong(q.Y * (p.Z * (p.Z * p.Z)), p.Y, P)
  }

  ghost predicate Invertible(z: int, P: int)
    requires P > 0
  {
    exists v: int :: Cong(v * z, 1, P)
  }

  function MulMod(a: int, b: int, P: int): (r: int)
    requires P > 0
    ensures 0 <= r < P && Cong(r, a * b, P)
  {
    CongMod(a * b, P);
    (a * b) % P
  }

  /** There is at most one such point. */
  lemma AffineUnique(q: Point, q': Point, p: Point, P: int)
    requires P > 0 && Invertible(p.Z, P) && IsAffine(q, p, P) && IsAffine(q', p, P)
    ensures q.X == q'.X && q.Y == q'.Y
  {
    var v :| Cong(v * p.Z, 1, P);
    var z := p.Z;
    InverseProduct(v, z, v, z, P);
    InverseProduct(v, z, v * v, z * z, P);
    CongCancel(q.X, q'.X, z * z, v * v, P);
    CongCancel(q.Y, q'.Y, z * (z * z), v * (v * v), P);
    CongSmall(q.X, q'.X, P);
    CongSmall(q.Y, q'.Y, P);
  }

  lemma InverseProduct(v: int, z: int, u: int, y: int, P: int)
    requires P > 0 && Cong(v * z, 1, P) && Cong(u * y, 1, P)
    ensures Cong((v * u) * (z * y), 1, P) && Cong((z * y) * (v * u), 1, P)
  {
    CongMul(v * z, 1, u * y, 1, P);
    MulSwap(v, z, u, y);
    MulComm(v * u, z * y);
  }

  /** Scaling by an inverse of Z: the arithmetic shared by both routines. */
  function Scale(p: Point, zi: int, P: int): Point
    requires P > 0
  {
    var zzi := MulMod(zi, zi, P);
    Point(MulMod(p.X, zzi, P), MulMod(MulMod(p.Y, zzi, P), zi, P), 1)
  }

  lemma ScaleIsAffine(p: Point, zi: int, P: int)
    requires P > 0 && Cong(zi * p.Z, 1, P)
    ensures IsAffine(Scale(p, zi, P), p, P)
  {
    var z, zzi := p.Z, MulMod(zi, zi, P);
    InverseProduct(zi, z, zi, z, P);
    CongMul(zzi, zi * zi, z * z, z * z, P);
    Undo(MulMod(p.X, zzi, P), p.X, zzi, z * z, P);
    var y := MulMod(p.Y, zzi, P);
    Undo(y, p.Y, zzi, z * z, P);
    Undo(MulMod(y, zi, P), y, zi, z, P);
    var r := MulMod(y, zi, P);
    MulAssoc(r, z, z * z);
    CongMul(r * z, y, z * z, z * z, P);
  }

  /** Multiplying by zi and then by z gives back the factor. */
  lemma Undo(r: int, x: int, zi: int, z: int, P: int)
    requires P > 0 && Cong(r, x * zi, P) && Cong(zi * z, 1, P)
    ensures Cong(r * z, x, P)
  {
    CongMul(r, x * zi, z, z, P);
    MulAssoc(x, zi, z);
    CongMul(x, x, zi * z, 1, P);
  }

  /** ecp_normalize_jac: the point at infinity stays, any other point becomes affine with Z = 1. */
  method NormalizeJac(p: Point, P: int) returns (ok: bool, q: Point)
    requires P >= 2
    ensures p.Z == 0 ==> ok && q == p
    ensures p.Z != 0 ==> (ok <==> Invertible(p.Z, P))
    ensures p.Z != 0 && ok ==> IsAffine(q, p, P) && q.Z == 1
    ensures !ok ==> q == p
  {
    if p.Z == 0 { return true, p; }
    var r := InvMod(p.Z, P);
    if !r.Inverse? { return false, p; }
    ScaleIsAffine(p, r.x, P);
    return true, Scale(p, r.x, P);
  }

  // ----- ecp_normalize_jac_many

  /** Product of the first n + 1 Z coordinates. */
  ghost function ZProduct(ps: seq<Point>, n: nat): int
    requires n < |ps|
  {
    if n == 0 then ps[0].Z else ZProduct(ps, n - 1) * ps[n].Z
  }

  lemma {:induction false} ProductInvertible(ps: seq<Point>, n: nat, P: int)
    requires n < |ps| && P > 0
    ensures Invertible(ZProduct(ps, n), P) <==> forall i :: 0 <= i <= n ==> Invertible(ps[i].Z, P)
  {
    hide Cong;
    if n > 0 {
      ProductInvertible(ps, n - 1, P);
      FactorsInvertible(ZProduct(ps, n - 1), ps[n].Z, P);
    }
  }

  lemma FactorsInvertible(x: int, y: int, P: int)
    requires P > 0
    ensures Invertible(x * y, P) <==> Invertible(x, P) && Invertible(y, P)
  {
    if Invertible(x * y, P) {
      var v :| Cong(v * (x * y), 1, P);
      MulAssoc(v, y, x);
      MulAssoc(v, x, y);
      assert Cong((v * y) * x, 1, P) && Cong((v * x) * y, 1, P);
    }
    if Invertible(x, P) && Invertible(y, P) {
      var v :| Cong(v * x, 1, P);
      var u :| Cong(u * y, 1, P);
      InverseProduct(v, x, u, y, P);
      assert Cong((v * u) * (x * y), 1, P);
    }
  }

  /** c[i] = Z_0 * ... * Z_i mod P. */
  method PrefixProducts(ps: seq<Point>, P: int) returns (c: array<int>)
    requires P > 0 && ps != []
    ensures fresh(c) && c.Length == |ps|
    ensures forall i :: 0 <= i < |ps| ==> Cong(c[i], ZProduct(ps, i), P)
  {
    c := new int[|ps|];
    c[0] := ps[0].Z;
    var i := 1;
    while i < |ps|
      invariant 1 <= i <= |ps| && forall k :: 0 <= k < i ==> Cong(c[k], ZProduct(ps, k), P)
    {
      c[i] := MulMod(c[i - 1], ps[i].Z, P);
      CongMul(c[i - 1], ZProduct(ps, i - 1), ps[i].Z, ps[i].Z, P);
      i := i + 1;
    }
  }

  /** One backward step: from u = 1/(Z_0...Z_i) to 1/Z_i and the next u. */
  lemma StepBack(u: int, c: int, prev: int, z: int, zi: int, u': int, P: int)
    requires P > 0 && Cong(u * (prev * z), 1, P) && Cong(c, prev, P)
    requires Cong(zi, u * c, P) && Cong(u', u * z, P)
    ensures Cong(zi * z, 1, P) && Cong(u' * prev, 1, P)
  {
    CongMul(u, u, c, prev, P);
    CongMul(zi, u * prev, z, z, P);
    MulAssoc(u, prev, z);
    CongMul(u', u * z, prev, prev, P);
    MulAssoc(u, z, prev);
    MulComm(prev, z);
  }

  /** All points of the list in place with a single inversion: the coordinates that normalising
      each point alone would give. Fails, with nothing changed, exactly when some Z has no inverse. */
  method NormalizeMany(T: array<Point>, P: int) returns (ok: bool)
    requires P >= 2 && T.Length >= 1
    modifies T
    ensures T.Length >= 2 ==> (ok <==> forall i :: 0 <= i < T.Length ==> Invertible(old(T[i].Z), P))
    ensures T.Length >= 2 && ok ==> forall i :: 0 <= i < T.Length ==> IsAffine(T[i], old(T[i]), P)
    ensures T.Length == 1 && old(T[0].Z) == 0 ==> ok && T[0] == old(T[0])
    ensures T.Length == 1 && old(T[0].Z) != 0 ==>
      (ok <==> Invertible(old(T[0].Z), P)) && (ok ==> IsAffine(T[0], old(T[0]), P))
    ensures !ok ==> T[..] == old(T[..])
  {
    hide Cong, IsAffine, Invertible;
    if T.Length < 2 {
      var q;
      ok, q := NormalizeJac(T[0], P);
      T[0] := q;
      return;
    }
    var ps := T[..];
    var c := PrefixProducts(ps, P);
    var n := T.Length - 1;
    var r := InvMod(c[n], P);
    ProductInvertible(ps, n, P);
    InverseOfResidue(r, c[n], ZProduct(ps, n), P);
    if !r.Inverse? { return false; }
    Backward(T, c, r.x, P);
    return true;
  }

  lemma InverseOfResidue(r: InvResult, c: int, z: int, P: int)
    requires P >= 2 && Cong(c, z, P) && !r.BadInput? && !r.NeverEnds?
    requires r.Inverse? ==> Cong(r.x * c, 1, P)
    requires r.NotAcceptable? ==> forall x: int :: !Cong(x * c, 1, P)
    ensures r.Inverse? ==> Cong(r.x * z, 1, P)
    ensures r.Inverse? <==> Invertible(z, P)
  {
    hide Cong;
    if r.Inverse? {
      CongIntro(r.x, r.x, 0, P);
      CongMul(r.x, r.x, c, z, P);
      CongTrans(r.x * c, r.x * z, 1, P);
    } else if Invertible(z, P) {
      var v :| Cong(v * z, 1, P);
      CongIntro(v, v, 0, P);
      CongMul(v, v, c, z, P);
      CongVia(v * c, v * z, 1, P);
    }
  }

  lemma CongTrans(x: int, y: int, w: int, P: int)
    requires P > 0 && Cong(x, y, P) && Cong(x, w, P)
    ensures Cong(y, w, P)
  {
  }

  lemma CongVia(x: int, y: int, w: int, P: int)
    requires P > 0 && Cong(x, y, P) && Cong(y, w, P)
    ensures Cong(x, w, P)
  {
  }

  method Backward(T: array<Point>, c: array<int>, u0: int, P: int)
    requires P >= 2 && T.Length >= 1 && c.Length == T.Length
    requires forall i :: 0 <= i < c.Length ==> Cong(c[i], ZProduct(T[..], i), P)
    requires Cong(u0 * ZProduct(T[..], T.Length - 1), 1, P)
    modifies T
    ensures forall i :: 0 <= i < T.Length ==> IsAffine(T[i], old(T[i]), P)
  {
    hide Cong, IsAffine;
    ghost var ps := T[..];
    var u := u0;
    var i := T.Length - 1;
    while i > 0
      invariant 0 <= i < T.Length && Cong(u * ZProduct(ps, i), 1, P)
      invariant forall k :: 0 <= k <= i ==> T[k] == ps[k]
      invariant forall k :: i < k < T.Length ==> IsAffine(T[k], ps[k], P)
    {
      var zi := MulMod(u, c[i - 1], P);
      var u' := MulMod(u, T[i].Z, P);
      StepBack(u, c[i - 1], ZProduct(ps, i - 1), ps[i].Z, zi, u', P);
      ScaleIsAffine(ps[i], zi, P);
      T[i] := Scale(T[i], zi, P);
      u := u';
      i := i - 1;
    }
    ScaleIsAffine(ps[0], u, P);
    T[0] := Scale(T[0], u, P);
  }
}

/** Diffie-Hellman key agreement with blinding values that are remembered between calls. */
module Dhm {
  import opened Arith
  import opened GcdInverse

  datatype Outcome = Done | PeerOutOfRange | RandomFailed | AllocFailed

  /** P is a prime above 3: everything below it is invertible. */
  ghost predicate Prime(P: int) {
    P > 3 && forall z: int :: 1 <= z < P ==> IsGcd(1, z, P)
  }

  /** The blinding pair fits the exponent x: blinding by Vi is undone by Vf after raising to x. */
  ghost predicate Fits(vi: int, vf: int, x: nat, P: int)
    requires P > 0
  {
    Cong(Pow(vi, x) * vf, 1, P)
  }

  lemma FitsOne(x: nat, P: int)
    requires P > 0
    ensures Fits(1, 1, x, P)
  {
    PowOne(x);
  }

  /** Squaring both values of a pair that fits gives a pair that fits. */
  lemma FitsSquare(vi: int, vf: int, x: nat, P: int)
    requires P > 0 && Fits(vi, vf, x, P)
    ensures Fits((vi * vi) % P, (vf * vf) % P, x, P)
  {
    CongMod(vi * vi, P);
    CongMod(vf * vf, P);
    CongPow((vi * vi) % P, vi * vi, x, P);
    PowMul(vi, vi, x);
    CongMul(Pow((vi * vi) % P, x), Pow(vi, x) * Pow(vi, x), (vf * vf) % P, vf * vf, P);
    MulSwap(Pow(vi, x), Pow(vi, x), vf, vf);
    CongMul(Pow(vi, x) * vf, 1, Pow(vi, x) * vf, 1, P);
  }

  /** So does raising an inverse to the exponent. */
  lemma FitsFresh(vi: int, inv: int, x: nat, P: int)
    requires P > 0 && Cong(inv * vi, 1, P)
    ensures Fits(vi, Pow(inv, x) % P, x, P)
  {
    hide Pow;
    var p, q := Pow(vi, x), Pow(inv, x);
    CongMod(q, P);
    CongMul(p, p, q % P, q, P);
    PowMul(inv, vi, x);
    CongPow(inv * vi, 1, x, P);
    PowOne(x);
    MulComm(p, q);
  }

  /** The blinded computation gives the plain secret. */
  lemma Unblinded(gy: int, vi: int, vf: int, x: nat, P: int)
    requires P > 0 && Fits(vi, vf, x, P)
    ensures ((Pow((gy * vi) % P, x) % P) * vf) % P == Pow(gy, x) % P
  {
    var b := (gy * vi) % P;
    CongMod(gy * vi, P);
    CongPow(b, gy * vi, x, P);
    CongMod(Pow(b, x), P);
    CongMul(Pow(b, x) % P, Pow(gy * vi, x), vf, vf, P);
    PowMul(gy, vi, x);
    MulAssoc(Pow(gy, x), Pow(vi, x), vf);
    CongMul(Pow(gy, x), Pow(gy, x), Pow(vi, x) * vf, 1, P);
  }

  /** The other way round: for a peer value that is invertible, the blinded computation gives the plain
      secret only if the pair fits. */
  lemma UnblindedOnly(gy: int, inv: int, vi: int, vf: int, x: nat, P: int)
    requires P > 0 && Cong(inv * gy, 1, P)
    requires ((Pow((gy * vi) % P, x) % P) * vf) % P == Pow(gy, x) % P
    ensures Fits(vi, vf, x, P)
  {
    hide Pow, Cong;
    var g, v, i := Pow(gy, x), Pow(vi, x), Pow(inv, x);
    assert Cong(g * (v * vf), g, P) by { BlindedProduct(gy, vi, vf, x, P); }
    assert Cong(i * g, 1, P) by { InversePower(inv, gy, x, P); }
    CancelFactor(i, g, v * vf, P);
  }

  lemma BlindedProduct(gy: int, vi: int, vf: int, x: nat, P: int)
    requires P > 0 && ((Pow((gy * vi) % P, x) % P) * vf) % P == Pow(gy, x) % P
    ensures Cong(Pow(gy, x) * (Pow(vi, x) * vf), Pow(gy, x), P)
  {
    var b := (gy * vi) % P;
    CongMod(gy * vi, P);
    CongPow(b, gy * vi, x, P);
    CongMod(Pow(b, x), P);
    CongMul(Pow(b, x) % P, Pow(gy * vi, x), vf, vf, P);
    PowMul(gy, vi, x);
    MulAssoc(Pow(gy, x), Pow(vi, x), vf);
  }

  lemma CancelFactor(i: int, g: int, w: int, P: int)
    requires P > 0 && Cong(i * g, 1, P) && Cong(g * w, g, P)
    ensures Cong(w, 1, P)
  {
    CongMul(i, i, g * w, g, P);
    MulAssoc(i, g, w);
    CongMul(i * g, 1, w, w, P);
  }

  /** What the shift by single bits brings a random number to. */
  function Below(v: nat, P: nat): (r: nat)
    requires P > 0
    ensures r < P
    decreases v
  {
    if v < P then v else Below(v / 2, P)
  }

  /** An allocation fails, if there is not ample memory. */
  method Fails(ample: bool) returns (b: bool)
    ensures ample ==> !b
  {
    b := *;
    if ample { b := false; }
  }

  class Context {
    const P: nat
    var X: nat
    var GY: nat
    var pX: nat
    var Vi: nat
    var Vf: nat
    var K: nat
    /** A call has failed in its blinding since the remembered exponent was last replaced. */
    ghost var failed: bool

    /** Kept by every call, whatever its outcome. The pair fits the remembered exponent unless a call
        has failed. (0 is remembered only before the first use.) */
    ghost predicate Valid()
      reads this
    {
      Prime(P) && (pX != 0 && !failed ==> Fits(Vi, Vf, pX, P))
    }

    constructor (p: nat)
      requires Prime(p)
      ensures Valid() && P == p && X == 0 && pX == 0 && !failed
    {
      P, X, GY, pX, Vi, Vf, K, failed := p, 0, 0, 0, 0, 0, 0, false;
    }

    /** A new private exponent, as key generation leaves it. */
    method SetPrivate(x: nat)
      requires Valid()
      modifies this`X
      ensures Valid() && X == x
    {
      X := x;
    }

    method ReadPublic(gy: nat)
      requires Valid()
      modifies this`GY
      ensures Valid() && GY == gy
    {
      GY := gy;
    }

    /** A random Vi in [2, P-1] from at most eleven draws; a twelfth is made before giving up, and
        stays in Vi. */
    method DrawVi(draw: nat -> nat, ample: bool) returns (out: Outcome)
      requires P > 3
      modifies this`Vi
      ensures out != PeerOutOfRange && (ample ==> out != AllocFailed)
      ensures out == Done ==> 1 < Vi < P && exists i: nat :: i <= 10 && Below(draw(i), P) > 1
      ensures out == RandomFailed ==> Vi == Below(draw(11), P) && forall i: nat :: i <= 10 ==> Below(draw(i), P) <= 1
    {
      var count := 0;
      while true
        invariant 0 <= count <= 11
        invariant forall i: nat :: i < count ==> Below(draw(i), P) <= 1
        decreases 12 - count
      {
        Vi := draw(count);
        while Vi >= P
          invariant Below(Vi, P) == Below(draw(count), P)
          decreases Vi
        {
          var b := Fails(ample);
          if b { return AllocFailed; }
          Vi := Vi / 2;
        }
        if count > 10 { return RandomFailed; }
        if Vi > 1 { return Done; }
        count := count + 1;
      }
    }

    /** dhm_update_blinding: no blinding for a new exponent, else squares or fresh values. A new exponent
        gives a pair that fits; the pair of an old one keeps fitting. An allocation failure may stop after
        any of the writes. */
    method UpdateBlinding(draw: nat -> nat, ample: bool) returns (out: Outcome)
      requires Valid()
      modifies this`pX, this`Vi, this`Vf, this`failed
      ensures Valid() && out != PeerOutOfRange && (ample ==> out != AllocFailed)
      ensures out == AllocFailed || out == RandomFailed ==> failed
      ensures out == RandomFailed ==>
        X == old(pX) && old(Vi) == 1 && forall i: nat :: i <= 10 ==> Below(draw(i), P) <= 1
      ensures out == Done ==> !(X == old(pX) && old(Vi) == 1 && forall i: nat :: i <= 10 ==> Below(draw(i), P) <= 1)
      ensures out == RandomFailed ==> pX == X && Vi == Below(draw(11), P) && Vf == old(Vf)
      ensures out == Done ==> pX == X
      ensures out == Done && X != old(pX) ==> !failed && Vi == 1 && Vf == 1
      ensures out == Done && X == old(pX) ==> failed == old(failed)
      ensures out == Done && X == old(pX) && old(Vi) != 1 ==>
        Vi == (old(Vi) * old(Vi)) % P && Vf == (old(Vf) * old(Vf)) % P
      ensures out == Done && (X != old(pX) || old(Vi) == 1) ==> Fits(Vi, Vf, X, P)
    {
      hide Fits, Prime;
      PrimeAbove(P);
      if X != pX {
        out := Replace(ample);
      } else if Vi != 1 {
        out := Square(ample);
      } else {
        out := Fresh(draw, ample);
      }
    }

    /** The new exponent is remembered before the pair is reset. */
    method Replace(ample: bool) returns (out: Outcome)
      requires Valid()
      modifies this`pX, this`Vi, this`Vf, this`failed
      ensures Valid() && (out == Done || out == AllocFailed) && (ample ==> out == Done)
      ensures out == AllocFailed ==> failed
      ensures out == Done ==> pX == X && !failed && Vi == 1 && Vf == 1 && Fits(Vi, Vf, X, P)
    {
      hide Fits, Prime;
      PrimeAbove(P);
      failed := true;
      var b := Fails(ample);
      if b { return AllocFailed; }
      pX := X;
      b := Fails(ample);
      if b { return AllocFailed; }
      Vi := 1;
      b := Fails(ample);
      if b { return AllocFailed; }
      Vf := 1;
      FitsOne(X, P);
      failed := false;
      return Done;
    }

    method Square(ample: bool) returns (out: Outcome)
      requires Valid() && X == pX
      modifies this`Vi, this`Vf, this`failed
      ensures Valid() && (out == Done || out == AllocFailed) && (ample ==> out == Done)
      ensures out == AllocFailed ==> failed
      ensures out == Done ==> failed == old(failed)
      ensures out == Done ==> Vi == (old(Vi) * old(Vi)) % P && Vf == (old(Vf) * old(Vf)) % P
    {
      hide Fits, Prime;
      PrimeAbove(P);
      ghost var was := failed;
      if pX != 0 && !failed { FitsSquare(Vi, Vf, X, P); }
      failed := true;
      var b := Fails(ample);
      if b { return AllocFailed; }
      Vi := Vi * Vi;
      b := Fails(ample);
      if b { return AllocFailed; }
      Vi := Vi % P;
      b := Fails(ample);
      if b { return AllocFailed; }
      Vf := Vf * Vf;
      b := Fails(ample);
      if b { return AllocFailed; }
      Vf := Vf % P;
      failed := was;
      return Done;
    }

    method Fresh(draw: nat -> nat, ample: bool) returns (out: Outcome)
      requires Valid() && X == pX && Vi == 1
      modifies this`Vi, this`Vf, this`failed
      ensures Valid() && out != PeerOutOfRange && (ample ==> out != AllocFailed)
      ensures out == AllocFailed || out == RandomFailed ==> failed
      ensures out == RandomFailed ==> Vf == old(Vf) && Vi == Below(draw(11), P)
      ensures out == RandomFailed ==> forall i: nat :: i <= 10 ==> Below(draw(i), P) <= 1
      ensures out == Done ==> exists i: nat :: i <= 10 && Below(draw(i), P) > 1
      ensures out == Done ==> failed == old(failed) && Fits(Vi, Vf, X, P)
    {
      hide Fits, Prime, Below, Pow;
      PrimeAbove(P);
      ghost var was := failed;
      failed := true;
      out := DrawVi(draw, ample);
      if out != Done { return; }
      var b := Fails(ample);
      if b { return AllocFailed; }
      PrimeInvertible(P, Vi);
      var inv := InvMod(Vi, P);
      FitsFresh(Vi, inv.x, X, P);
      Vf := inv.x;
      b := Fails(ample);
      if b { return AllocFailed; }
      Vf := Pow(Vf, X) % P;
      failed := was;
    }

    /** The secret, blinded if there is a random source. From every state that earlier calls leave, it
        is GY^X mod P if and only if the pair used fits X. That is so while no call has failed for this
        exponent, and again as soon as the exponent is replaced. */
    method CalcSecret(rng: Option<nat -> nat>, ample: bool) returns (out: Outcome)
      requires Valid()
      modifies this
      ensures Valid() && X == old(X) && GY == old(GY) && (ample ==> out != AllocFailed)
      ensures out == PeerOutOfRange ==> !(2 <= GY <= P - 2)
      ensures !(2 <= GY <= P - 2) ==> out == PeerOutOfRange || out == AllocFailed
      ensures out == RandomFailed ==> rng.Some? && GivesUp(rng.value, old(pX), old(Vi))
      ensures out == Done && rng.Some? ==> !GivesUp(rng.value, old(pX), old(Vi))
      ensures out == RandomFailed ==> failed && pX == X && Vi == Below(rng.value(11), P) && Vf == old(Vf)
      ensures out == Done && rng.Some? ==> pX == X && K == ((Pow((GY * Vi) % P, X) % P) * Vf) % P
      ensures out == Done ==> (K == Pow(GY, X) % P <==> rng.None? || Fits(Vi, Vf, X, P))
      ensures out == Done && (X != old(pX) || (X != 0 && !old(failed))) ==> K == Pow(GY, X) % P
      ensures out == Done && rng.Some? && X != old(pX) ==> Vi == 1 && Vf == 1 && !failed
      ensures out == Done && rng.Some? && X == old(pX) && old(Vi) != 1 ==>
        Vi == (old(Vi) * old(Vi)) % P && Vf == (old(Vf) * old(Vf)) % P
    {
      hide Fits, Prime, Pow, Below;
      PrimeAbove(P);
      var f := Fails(ample);
      if f { return AllocFailed; }
      if GY < 2 || GY > P - 2 { return PeerOutOfRange; }
      var b := GY;
      if rng.Some? {
        out := UpdateBlinding(rng.value, ample);
        if out != Done { return; }
        b := (GY * Vi) % P;
      }
      f := Fails(ample);
      if f { return AllocFailed; }
      K := Pow(b, X) % P;
      if rng.Some? {
        f := Fails(ample);
        if f { return AllocFailed; }
        K := (K * Vf) % P;
        SecretExact(GY, Vi, Vf, X, P);
      } else {
        assert b == GY;
      }
      return Done;
    }

    /** With this random source, fresh blinding values are needed and are not found. */
    ghost predicate GivesUp(draw: nat -> nat, pX0: nat, vi: nat)
      requires P > 0
      reads this
    {
      X == pX0 && vi == 1 && forall i: nat :: i <= 10 ==> Below(draw(i), P) <= 1
    }
  }

  lemma SecretExact(gy: nat, vi: nat, vf: nat, x: nat, P: nat)
    requires Prime(P) && 2 <= gy <= P - 2
    ensures ((Pow((gy * vi) % P, x) % P) * vf) % P == Pow(gy, x) % P <==> Fits(vi, vf, x, P)
  {
    PrimeInvertible(P, gy);
    var u, v := Coefficients(gy, P);
    CongIntro(u * gy, 1, -v, P);
    if Fits(vi, vf, x, P) { Unblinded(gy, vi, vf, x, P); }
    if ((Pow((gy * vi) % P, x) % P) * vf) % P == Pow(gy, x) % P { UnblindedOnly(gy, u, vi, vf, x, P); }
  }

  lemma PrimeAbove(P: int)
    requires Prime(P)
    ensures P > 3
  {
  }

  lemma PrimeInvertible(P: int, z: nat)
    requires Prime(P) && 1 <= z < P
    ensures IsGcd(1, Abs(z), P)
  {
  }

  // ----- a run that ends with a wrong secret

  lemma PrimeEleven()
    ensures Prime(11)
  {
    forall z: int | 1 <= z < 11
      ensures IsGcd(1, z, 11)
    {
      forall d: int | d > 0
        ensures Common(d, z, 11) <==> Divides(d, 1)
      {
        if Common(d, z, 11) { DivisorOfEleven(d, z); }
      }
    }
  }

  lemma DivisorOfEleven(d: int, z: int)
    requires d > 0 && 1 <= z < 11 && Common(d, z, 11)
    ensures d == 1
  {
    if d > z { DivModUnique(z, d, 0, z); }
    assert 11 % 2 == 1 && 11 % 3 == 2 && 11 % 4 == 3 && 11 % 5 == 1 && 11 % 6 == 5;
    assert 11 % 7 == 4 && 11 % 8 == 3 && 11 % 9 == 2 && 11 % 10 == 1;
  }

  /** Modulo 11 with exponent 3: a first secret, then a call in which eleven draws are 0 and the twelfth,
      2, is kept although the call fails; the next secret for the peer value 2 is 6, not 8. Replacing the
      exponent heals the context. */
  method SpoiledRun() returns (first: nat, spoiled: nat, healed: nat)
    ensures first == 8 == Pow(2, 3) % 11
    ensures spoiled == 6 != Pow(2, 3) % 11
    ensures healed == 5 == Pow(2, 4) % 11
  {
    hide Fits, Prime, Pow, Below;
    SmallNumbers();
    var ctx;
    ctx, first := SpoiledContext();
    var out := ctx.CalcSecret(Some(Late), true);
    assert out == Done && ctx.Vi == 4 && ctx.Vf == 1;
    spoiled := ctx.K;
    ctx.SetPrivate(4);
    out := ctx.CalcSecret(Some(Late), true);
    healed := ctx.K;
  }

  /** The first secret, and the call that fails. */
  method SpoiledContext() returns (ctx: Context, first: nat)
    ensures fresh(ctx) && ctx.Valid() && ctx.P == 11 && ctx.X == 3 == ctx.pX && ctx.GY == 2
    ensures ctx.Vi == 2 && ctx.Vf == 1 && first == 8
  {
    hide Fits, Prime, Pow, Below;
    SmallNumbers();
    ctx := new Context(11);
    ctx.SetPrivate(3);
    ctx.ReadPublic(2);
    var out := ctx.CalcSecret(Some(Late), true);
    assert out == Done && ctx.Vi == 1 && ctx.pX == 3;
    first := ctx.K;
    out := ctx.CalcSecret(Some(Late), true);
    assert out == RandomFailed;
  }

  /** Draws that are useless up to the last. */
  function Late(i: nat): nat {
    if i == 11 then 2 else 0
  }

  lemma SmallNumbers()
    ensures Prime(11) && Pow(2, 3) == 8 && Pow(2, 4) == 16 && Pow(8, 3) == 512
    ensures Below(2, 11) == 2 && forall i: nat :: i <= 10 ==> Below(Late(i), 11) <= 1
  {
    PrimeEleven();
  }
}

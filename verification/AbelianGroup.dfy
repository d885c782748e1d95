/** An arbitrary abelian group, standing for the points of a curve, with integer multiples. */
module AbelianGroup {

  datatype Group<!G> = Group(add: (G, G) -> G, neg: G -> G, zero: G)

  ghost predicate Abelian<G(!new)>(g: Group<G>) {
    && (forall x, y, z :: g.add(g.add(x, y), z) == g.add(x, g.add(y, z)))
    && (forall x, y :: g.add(x, y) == g.add(y, x))
    && (forall x :: g.add(x, g.zero) == x)
    && (forall x :: g.add(x, g.neg(x)) == g.zero)
  }

  lemma Laws<G(!new)>(g: Group<G>, x: G, y: G, z: G)
    requires Abelian(g)
    ensures g.add(g.add(x, y), z) == g.add(x, g.add(y, z)) && g.add(x, y) == g.add(y, x)
    ensures g.add(x, g.zero) == x == g.add(g.zero, x)
    ensures g.add(x, g.neg(x)) == g.zero == g.add(g.neg(x), x)
  {
  }

  ghost function MulNat<G>(g: Group<G>, k: nat, p: G): G {
    if k == 0 then g.zero else g.add(MulNat(g, k - 1, p), p)
  }

  /** k times p, for any integer k. */
  ghost function Mul<G>(g: Group<G>, k: int, p: G): G {
    if k >= 0 then MulNat(g, k, p) else g.neg(MulNat(g, -k, p))
  }

  /** The inverse is the only one. */
  lemma NegUnique<G(!new)>(g: Group<G>, x: G, y: G)
    requires Abelian(g) && g.add(x, y) == g.zero
    ensures y == g.neg(x)
  {
    hide Abelian;
    Laws(g, g.neg(x), x, y);
    Laws(g, x, x, x);
    Laws(g, y, y, y);
    Laws(g, g.neg(x), x, x);
  }

  lemma NegNeg<G(!new)>(g: Group<G>, x: G)
    requires Abelian(g)
    ensures g.neg(g.neg(x)) == x && g.neg(g.zero) == g.zero
  {
    Laws(g, x, x, x);
    NegUnique(g, g.neg(x), x);
    Laws(g, g.zero, g.zero, g.zero);
    NegUnique(g, g.zero, g.zero);
  }

  lemma {:induction false} MulSucc<G(!new)>(g: Group<G>, k: int, p: G)
    requires Abelian(g)
    ensures Mul(g, k + 1, p) == g.add(Mul(g, k, p), p)
  {
    hide Abelian;
    if k < 0 {
      // -(k+1)p + p cancels inside -kp
      var q := MulNat(g, -k - 1, p);
      Laws(g, q, p, g.neg(g.add(q, p)));
      Laws(g, g.add(q, p), g.add(q, p), g.zero);
      var r := g.neg(g.add(q, p));
      Laws(g, p, r, p);
      NegUnique(g, q, g.add(p, r));
      NegNeg(g, q);
    }
  }

  lemma {:induction false} MulAdd<G(!new)>(g: Group<G>, a: int, b: int, p: G)
    requires Abelian(g)
    ensures Mul(g, a + b, p) == g.add(Mul(g, a, p), Mul(g, b, p))
    decreases if b >= 0 then b else -b
  {
    hide Abelian, Mul;
    if b == 0 {
      MulZero(g, p);
      Laws(g, Mul(g, a, p), p, p);
    } else if b > 0 {
      MulAdd(g, a, b - 1, p);
      MulSucc(g, a + b - 1, p);
      MulSucc(g, b - 1, p);
      Laws(g, Mul(g, a, p), Mul(g, b - 1, p), p);
    } else {
      MulAdd(g, a, b + 1, p);
      MulSucc(g, a + b, p);
      MulSucc(g, b, p);
      Laws(g, Mul(g, a, p), Mul(g, b, p), p);
      CancelRight(g, Mul(g, a + b, p), g.add(Mul(g, a, p), Mul(g, b, p)), p);
    }
  }

  lemma MulZero<G(!new)>(g: Group<G>, p: G)
    requires Abelian(g)
    ensures Mul(g, 0, p) == g.zero && Mul(g, 1, p) == p
  {
    hide Abelian;
    Laws(g, p, p, p);
    assert MulNat(g, 1, p) == g.add(MulNat(g, 0, p), p);
  }

  lemma CancelRight<G(!new)>(g: Group<G>, x: G, y: G, p: G)
    requires Abelian(g) && g.add(x, p) == g.add(y, p)
    ensures x == y
  {
    hide Abelian;
    Laws(g, x, p, g.neg(p));
    Laws(g, y, p, g.neg(p));
    Laws(g, p, p, p);
  }

  lemma MulNeg<G(!new)>(g: Group<G>, k: int, p: G)
    requires Abelian(g)
    ensures Mul(g, -k, p) == g.neg(Mul(g, k, p))
  {
    hide Abelian, Mul;
    MulAdd(g, k, -k, p);
    MulZero(g, p);
    NegUnique(g, Mul(g, k, p), Mul(g, -k, p));
  }

  lemma {:induction false} MulMul<G(!new)>(g: Group<G>, a: int, b: int, p: G)
    requires Abelian(g)
    ensures Mul(g, a, Mul(g, b, p)) == Mul(g, a * b, p)
    decreases if a >= 0 then a else -a
  {
    hide Abelian, Mul;
    if a == 0 {
      MulZero(g, p);
      MulZero(g, Mul(g, b, p));
    } else if a > 0 {
      MulMul(g, a - 1, b, p);
      MulSucc(g, a - 1, Mul(g, b, p));
      MulAdd(g, (a - 1) * b, b, p);
      assert (a - 1) * b + b == a * b;
    } else {
      MulMul(g, a + 1, b, p);
      MulSucc(g, a, Mul(g, b, p));
      MulAdd(g, a * b, b, p);
      assert (a + 1) * b == a * b + b;
      CancelRight(g, Mul(g, a, Mul(g, b, p)), Mul(g, a * b, p), Mul(g, b, p));
    }
  }

  /** Multiples by numbers that agree modulo the order of p are equal. */
  lemma MulOrder<G(!new)>(g: Group<G>, a: int, b: int, k: int, n: int, p: G)
    requires Abelian(g) && Mul(g, n, p) == g.zero && a == b + k * n
    ensures Mul(g, a, p) == Mul(g, b, p)
  {
    hide Abelian, Mul;
    MulAdd(g, b, k * n, p);
    MulMul(g, k, n, p);
    MulOfZero(g, k);
    Laws(g, Mul(g, b, p), p, p);
  }

  lemma {:induction false} MulOfZero<G(!new)>(g: Group<G>, k: int)
    requires Abelian(g)
    ensures Mul(g, k, g.zero) == g.zero
    decreases if k >= 0 then k else -k
  {
    hide Abelian;
    if k > 0 {
      MulOfZero(g, k - 1);
      MulSucc(g, k - 1, g.zero);
      Laws(g, g.zero, g.zero, g.zero);
    } else if k < 0 {
      MulOfZero(g, k + 1);
      MulSucc(g, k, g.zero);
      Laws(g, Mul(g, k, g.zero), g.zero, g.zero);
    }
  }
}

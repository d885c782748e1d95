/** Powers and modular congruence over the unbounded integers: the vocabulary in which the
    multi-precision routines are specified. `Cong(a, b, n)` is stated on remainders, so that
    reflexivity, symmetry and transitivity come for free. */
module Arith {

  datatype Option<+T> = None | Some(value: T)

  function Pow(b: int, e: nat): (r: int)
    ensures b > 0 ==> r > 0
  {
    if e == 0 then 1 else
      var p := Pow(b, e - 1);
      assert b > 0 && p > 0 ==> b * p > 0;
      b * p
  }

  ghost predicate Cong(a: int, b: int, n: int)
    requires n > 0
  {
    a % n == b % n
  }

  function Abs(x: int): nat {
    if x < 0 then -x else x
  }

  /** The remainder, under a name that proofs can hide. */
  function Rem(v: nat, p: int): (r: nat)
    requires p > 0
    ensures r < p
  {
    v % p
  }

  /** The number of bits of v. */
  function BitLen(v: nat): nat {
    if v == 0 then 0 else 1 + BitLen(v / 2)
  }

  lemma MulMono(x: int, y: int, z: int)
    requires x <= y && 0 <= z
    ensures x * z <= y * z
  {
  }

  lemma PowNext(b: int, e: nat)
    ensures Pow(b, 0) == 1 && Pow(b, e + 1) == b * Pow(b, e)
  {
  }

  lemma {:induction false} PowAdd(b: int, e: nat, f: nat)
    ensures Pow(b, e + f) == Pow(b, e) * Pow(b, f)
  {
    if e > 0 {
      PowAdd(b, e - 1, f);
      MulAssoc(b, Pow(b, e - 1), Pow(b, f));
    }
  }

  lemma {:induction false} PowPow(b: int, e: nat, f: nat)
    ensures Pow(Pow(b, e), f) == Pow(b, e * f)
    decreases f
  {
    if f > 0 {
      PowPow(b, e, f - 1);
      MulDistr(f - 1, 1, e);
      PowAdd(b, e, e * (f - 1));
    } else {
      assert e * f == 0;
    }
  }

  lemma {:induction false} PowMul(x: int, y: int, e: nat)
    ensures Pow(x * y, e) == Pow(x, e) * Pow(y, e)
  {
    if e > 0 {
      PowMul(x, y, e - 1);
      MulSwap(x, y, Pow(x, e - 1), Pow(y, e - 1));
    }
  }

  lemma MulComm(x: int, y: int)
    ensures x * y == y * x
  {
  }

  lemma MulDistr(x: int, y: int, z: int)
    ensures (x + y) * z == x * z + y * z && (x - y) * z == x * z - y * z
  {
  }

  lemma MulAssoc(x: int, y: int, z: int)
    ensures (x * y) * z == x * (y * z)
  {
  }

  lemma MulSwap(x: int, y: int, p: int, q: int)
    ensures (x * y) * (p * q) == (x * p) * (y * q)
  {
    MulAssoc(x, y, p * q);
    MulAssoc(y, p, q);
    MulAssoc(p, y, q);
    MulAssoc(x, p, y * q);
  }

  lemma {:induction false} PowOne(e: nat)
    ensures Pow(1, e) == 1
  {
    if e > 0 { PowOne(e - 1); }
  }

  lemma {:induction false} PowMono(b: int, e: nat, f: nat)
    requires b >= 1 && e <= f
    ensures Pow(b, e) <= Pow(b, f)
    decreases f
  {
    if e < f {
      PowMono(b, e, f - 1);
      MulMono(1, b, Pow(b, f - 1));
    }
  }

  lemma MulCancel(p: int, x: int, y: int)
    requires p > 0 && p * x == p * y
    ensures x == y
  {
    if x < y { MulLess'(p, x, y); }
    if y < x { MulLess'(p, y, x); }
  }

  lemma MulLess'(p: int, x: int, y: int)
    requires p > 0 && x < y
    ensures p * x < p * y
  {
    MulMono(x + 1, y, p);
    MulDistr(x, 1, p);
  }

  lemma MulLess(p: int, x: int, y: int)
    requires p > 0 && p * x < p * y
    ensures x < y
  {
    if x >= y { MulMono(y, x, p); }
  }

  // ----- quotients and remainders

  lemma DivModUnique(a: int, n: int, q: int, r: int)
    requires n > 0 && 0 <= r < n && a == q * n + r
    ensures a / n == q && a % n == r
  {
    var q', r' := a / n, a % n;
    assert a == q' * n + r';
    assert (q - q') * n == r' - r;
    if q > q' { MulMono(1, q - q', n); assert false; }
    if q < q' { MulMono(q - q', -1, n); assert false; }
  }

  lemma CongIntro(a: int, b: int, k: int, n: int)
    requires n > 0 && a == b + k * n
    ensures Cong(a, b, n)
  {
    var q, r := b / n, b % n;
    assert b == q * n + r;
    assert (q + k) * n == q * n + k * n;
    DivModUnique(a, n, q + k, r);
  }

  lemma CongWitness(a: int, b: int, n: int) returns (k: int)
    requires n > 0 && Cong(a, b, n)
    ensures a == b + k * n
  {
    k := a / n - b / n;
    assert a == (a / n) * n + a % n && b == (b / n) * n + b % n;
    assert (a / n - b / n) * n == (a / n) * n - (b / n) * n;
  }

  lemma CongMod(a: int, n: int)
    requires n > 0
    ensures Cong(a % n, a, n)
  {
    CongIntro(a, a % n, a / n, n);
  }

  lemma CongAdd(a: int, a': int, b: int, b': int, n: int)
    requires n > 0 && Cong(a, a', n) && Cong(b, b', n)
    ensures Cong(a + b, a' + b', n) && Cong(a - b, a' - b', n)
  {
    var k := CongWitness(a, a', n);
    var l := CongWitness(b, b', n);
    assert (k + l) * n == k * n + l * n && (k - l) * n == k * n - l * n;
    CongIntro(a + b, a' + b', k + l, n);
    CongIntro(a - b, a' - b', k - l, n);
  }

  lemma CongMul(a: int, a': int, b: int, b': int, n: int)
    requires n > 0 && Cong(a, a', n) && Cong(b, b', n)
    ensures Cong(a * b, a' * b', n)
  {
    hide Cong;
    var k := CongWitness(a, a', n);
    var l := CongWitness(b, b', n);
    ProductWitness(a, a', b, b', k, l, n);
    CongIntro(a * b, a' * b', k * b + a' * l, n);
  }

  lemma ProductWitness(a: int, a': int, b: int, b': int, k: int, l: int, n: int)
    requires a == a' + k * n && b == b' + l * n
    ensures a * b == a' * b' + (k * b + a' * l) * n
  {
    MulDistr(a', k * n, b);
    MulDistr(b', l * n, a');
    MulComm(a', b);
    MulComm(a', b');
    MulComm(a', l * n);
    MulDistr(k * b, a' * l, n);
    MulAssoc(a', l, n);
    MulAssoc(k, n, b);
    MulComm(n, b);
    MulAssoc(k, b, n);
  }

  lemma {:induction false} CongPow(a: int, a': int, e: nat, n: int)
    requires n > 0 && Cong(a, a', n)
    ensures Cong(Pow(a, e), Pow(a', e), n)
  {
    if e > 0 {
      CongPow(a, a', e - 1, n);
      CongMul(a, a', Pow(a, e - 1), Pow(a', e - 1), n);
    }
  }

  /** Powers of inverses are inverses. */
  lemma InversePower(inv: int, z: int, x: nat, P: int)
    requires P > 0 && Cong(inv * z, 1, P)
    ensures Cong(Pow(inv, x) * Pow(z, x), 1, P)
  {
    PowMul(inv, z, x);
    CongPow(inv * z, 1, x, P);
    PowOne(x);
  }

  /** A factor with an inverse can be cancelled. */
  lemma CongCancel(a: int, b: int, c: int, inv: int, n: int)
    requires n > 0 && Cong(c * inv, 1, n) && Cong(a * c, b * c, n)
    ensures Cong(a, b, n)
  {
    CongMul(a * c, b * c, inv, inv, n);
    assert (a * c) * inv == a * (c * inv) && (b * c) * inv == b * (c * inv);
    CongMul(a, a, c * inv, 1, n);
    CongMul(b, b, c * inv, 1, n);
  }

  /** Two remainders that agree modulo n are equal. */
  lemma CongSmall(a: int, b: int, n: int)
    requires n > 0 && 0 <= a < n && 0 <= b < n && Cong(a, b, n)
    ensures a == b
  {
    DivModUnique(a, n, 0, a);
    DivModUnique(b, n, 0, b);
  }

  lemma FloorBounds(v: int, p: int)
    requires p > 0
    ensures (v / p) * p <= v < (v / p) * p + p && (v >= 0 ==> v / p >= 0)
  {
    if v >= 0 && v / p < 0 { MulMono(v / p, -1, p); }
  }
}

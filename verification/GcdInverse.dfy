/** Binary greatest common divisor and binary modular inverse. */
module GcdInverse {
  import opened Arith

  datatype InvResult = BadInput | NotAcceptable | NeverEnds | Inverse(x: nat)

  ghost predicate Divides(d: int, a: int)
    requires d > 0
  {
    a % d == 0
  }

  ghost predicate Common(d: int, x: int, y: int)
    requires d > 0
  {
    Divides(d, x) && Divides(d, y)
  }

  /** g is the greatest common divisor: its divisors are exactly the common divisors. */
  ghost predicate IsGcd(g: int, x: int, y: int) {
    g > 0 && forall d: int :: d > 0 ==> (Common(d, x, y) <==> Divides(d, g))
  }

  /** The two pairs have the same common divisors. */
  ghost predicate SameDivisors(x: int, y: int, x': int, y': int) {
    forall d: int :: d > 0 ==> (Common(d, x, y) <==> Common(d, x', y'))
  }

  /** Right shift of a sign-and-magnitude number: rounds toward zero. */
  function ShiftR(v: int): int {
    if v >= 0 then v / 2 else -((-v) / 2)
  }

  /** Position of the lowest set bit; 0 for the number 0. */
  function Lsb(v: nat): nat
    decreases v
  {
    if v == 0 || v % 2 == 1 then 0 else 1 + Lsb(v / 2)
  }

  // ----- divisibility

  lemma DividesWitness(d: int, a: int) returns (k: int)
    requires d > 0 && Divides(d, a)
    ensures a == k * d
  {
    k := a / d;
  }

  lemma DividesIntro(d: int, a: int, k: int)
    requires d > 0 && a == k * d
    ensures Divides(d, a)
  {
    DivModUnique(a, d, k, 0);
  }

  lemma DividesLinear(d: int, x: int, y: int, u: int, v: int)
    requires d > 0 && Common(d, x, y)
    ensures Divides(d, u * x + v * y)
  {
    var k := DividesWitness(d, x);
    var l := DividesWitness(d, y);
    MulAssoc(u, k, d);
    MulAssoc(v, l, d);
    MulDistr(u * k, v * l, d);
    DividesIntro(d, u * x + v * y, u * k + v * l);
  }

  lemma DividesDouble(d: int, x: int)
    requires d > 0 && Divides(d, x)
    ensures Divides(d, 2 * x)
  {
    DividesLinear(d, x, x, 1, 1);
  }

  /** An odd divisor of 2x divides x. */
  lemma OddDivisor(d: int, x: int)
    requires d > 0 && d % 2 == 1 && Divides(d, 2 * x)
    ensures Divides(d, x)
  {
    var k := DividesWitness(d, 2 * x);
    var e, h := d / 2, k / 2;
    assert d == 2 * e + 1;
    if k % 2 == 1 {
      OddTimesOdd(k, d);
    }
    assert k == 2 * h;
    MulAssoc(2, h, d);
    DividesIntro(d, x, h);
  }

  lemma OddTimesOdd(k: int, d: int)
    requires k % 2 == 1 && d % 2 == 1
    ensures (k * d) % 2 == 1
  {
    CongIntro(k, 1, k / 2, 2);
    CongIntro(d, 1, d / 2, 2);
    CongMul(k, 1, d, 1, 2);
  }

  lemma DivisorOfOdd(d: int, y: int)
    requires d > 0 && y % 2 == 1 && Divides(d, y)
    ensures d % 2 == 1
  {
    if d % 2 == 0 {
      var k := DividesWitness(d, y);
      var e := d / 2;
      MulAssoc(k, e, 2);
      DivModUnique(y, 2, k * e, 0);
      assert false;
    }
  }

  /** Halving one number of a pair whose other number is odd keeps the common divisors. */
  lemma HalveKeeps(x: int, y: int)
    requires y % 2 == 1
    ensures SameDivisors(2 * x, y, x, y) && SameDivisors(y, 2 * x, y, x)
  {
    hide Divides;
    forall d: int | d > 0
      ensures Common(d, 2 * x, y) <==> Common(d, x, y)
      ensures Common(d, y, 2 * x) <==> Common(d, y, x)
    {
      if Common(d, 2 * x, y) { DivisorOfOdd(d, y); OddDivisor(d, x); }
      if Common(d, x, y) { DividesDouble(d, x); }
    }
  }

  lemma SubtractKeeps(x: int, y: int)
    ensures SameDivisors(x, y, x - y, y) && SameDivisors(x, y, x, y - x)
  {
    forall d: int | d > 0
      ensures Common(d, x, y) <==> Common(d, x - y, y)
      ensures Common(d, x, y) <==> Common(d, x, y - x)
    {
      if Common(d, x, y) { DividesLinear(d, x, y, 1, -1); DividesLinear(d, x, y, -1, 1); }
      if Common(d, x - y, y) { DividesLinear(d, x - y, y, 1, 1); }
      if Common(d, x, y - x) { DividesLinear(d, x, y - x, 1, 1); }
    }
  }

  /** Common factors of two come out in front. */
  lemma DoubleGcd(g: int, x: int, y: int)
    requires IsGcd(g, x, y)
    ensures IsGcd(2 * g, 2 * x, 2 * y)
  {
    forall d: int | d > 0
      ensures Common(d, 2 * x, 2 * y) <==> Divides(d, 2 * g)
    {
      if d % 2 == 1 {
        if Common(d, 2 * x, 2 * y) { OddDivisor(d, x); OddDivisor(d, y); DividesDouble(d, g); }
        if Divides(d, 2 * g) { OddDivisor(d, g); DividesDouble(d, x); DividesDouble(d, y); }
      } else {
        HalfDivides(d / 2, x);
        HalfDivides(d / 2, y);
        HalfDivides(d / 2, g);
      }
    }
  }

  lemma HalfDivides(e: int, x: int)
    requires e > 0
    ensures Divides(2 * e, 2 * x) <==> Divides(e, x)
  {
    if Divides(e, x) {
      var k := DividesWitness(e, x);
      MulAssoc(2, k, e);
      DividesIntro(2 * e, 2 * x, k);
    }
    if Divides(2 * e, 2 * x) {
      var k := DividesWitness(2 * e, 2 * x);
      MulAssoc(k, 2, e);
      DividesIntro(e, x, k);
    }
  }

  lemma DoubleTimes(x: int, p: int)
    ensures x * (2 * p) == 2 * (x * p)
  {
  }

  lemma {:induction false} ScaledGcd(g: int, x: int, y: int, k: nat)
    requires IsGcd(g, x, y)
    ensures IsGcd(g * Pow(2, k), x * Pow(2, k), y * Pow(2, k))
    decreases k
  {
    hide IsGcd;
    if k > 0 {
      ScaledGcd(g, x, y, k - 1);
      DoubleGcd(g * Pow(2, k - 1), x * Pow(2, k - 1), y * Pow(2, k - 1));
      DoubleTimes(g, Pow(2, k - 1));
      DoubleTimes(x, Pow(2, k - 1));
      DoubleTimes(y, Pow(2, k - 1));
    } else {
      assert g * 1 == g && x * 1 == x && y * 1 == y;
    }
  }

  // ----- mbedtls_mpi_gcd

  lemma GcdSymmetric(g: int, x: int, y: int)
    requires IsGcd(g, x, y)
    ensures IsGcd(g, y, x)
  {
    assert forall d: int :: d > 0 ==> (Common(d, y, x) <==> Common(d, x, y));
  }

  /** Coprime numbers have Bezout coefficients. */
  lemma Coefficients(a: nat, n: nat) returns (u: int, v: int)
    requires 0 < a < n && IsGcd(1, a, n)
    ensures 1 == u * a + v * n
  {
    u, v := Euclid(n, a);
    u, v := v, u;
  }

  lemma {:induction false} Euclid(a: nat, b: nat) returns (u: int, v: int)
    requires a > 0 && IsGcd(1, a, b)
    ensures 1 == u * a + v * b
    decreases b
  {
    if b == 0 {
      DividesIntro(a, 0, 0);
      DividesIntro(a, a, 1);
      assert Common(a, a, 0) && Divides(a, 1);
      if a > 1 { DivModUnique(1, a, 0, 1); }
      return 1, 0;
    }
    var q, r := a / b, a % b;
    assert a == q * b + r;
    forall d: int | d > 0
      ensures Common(d, b, r) <==> Common(d, a, b)
    {
      if Common(d, b, r) { DividesLinear(d, b, r, q, 1); }
      if Common(d, a, b) { DividesLinear(d, a, b, 1, -q); }
    }
    var x, y := Euclid(b, r);
    u, v := y, x - q * y;
    assert v * b == x * b - (q * y) * b;
    MulAssoc(y, q, b);
  }

  /** Shifting out all factors of two. */
  method StripTwos(x: nat) returns (r: nat)
    ensures x == 0 ==> r == 0
    ensures x > 0 ==> 0 < r <= x && r % 2 == 1
    ensures x % 2 == 1 ==> r == x
    ensures SameWithOdd(x, r)
  {
    hide Divides, Common;
    r := x;
    var k := Lsb(x);
    while k > 0
      invariant k == Lsb(r) && (x == 0 ==> r == 0) && (x > 0 ==> 0 < r <= x) && (x % 2 == 1 ==> r == x)
      invariant SameWithOdd(x, r)
      decreases k
    {
      StripOne(x, r / 2);
      r := r / 2;
      k := k - 1;
    }
  }

  /** Paired with any odd number, x and r have the same common divisors. */
  ghost predicate SameWithOdd(x: int, r: int) {
    forall y: int :: y % 2 == 1 ==> SameDivisors(x, y, r, y) && SameDivisors(y, x, y, r)
  }

  lemma StripOne(x: int, h: int)
    requires SameWithOdd(x, 2 * h)
    ensures SameWithOdd(x, h)
  {
    hide Divides, Common;
    forall y: int | y % 2 == 1
      ensures SameDivisors(x, y, h, y) && SameDivisors(y, x, y, h)
    {
      HalveKeeps(h, y);
      assert SameDivisors(x, y, 2 * h, y) && SameDivisors(y, x, y, 2 * h);
    }
  }

  lemma {:induction false} LsbShift(v: nat, k: nat)
    requires k <= Lsb(v)
    ensures v == (v / Pow(2, k)) * Pow(2, k) && v / Pow(2, k) >= 0
    ensures v > 0 && k == Lsb(v) ==> (v / Pow(2, k)) % 2 == 1
    decreases k
  {
    if k > 0 {
      var h, p := v / 2, Pow(2, k - 1);
      assert v == 2 * h && Lsb(v) == 1 + Lsb(h);
      LsbShift(h, k - 1);
      DoubleTimes(h / p, p);
      DivModUnique(v, 2 * p, h / p, 0);
    } else {
      assert v / 1 == v;
    }
  }

  /** One pass on two numbers of which one is odd (or both are zero-extended): strip, subtract, halve. */
  method GcdStep(a: nat, b: nat) returns (a': nat, b': nat)
    requires a > 0 && b > 0 && (a % 2 == 1 || b % 2 == 1)
    ensures a' + b' < a + b && b' > 0 && (a' % 2 == 1 || b' % 2 == 1)
    ensures SameDivisors(a, b, a', b')
  {
    hide Divides, Common;
    var x := StripTwos(a);
    var y := StripTwos(b);
    if b % 2 == 1 { assert SameDivisors(a, b, x, b); } else { assert SameDivisors(a, b, a, y); }
    SubtractKeeps(x, y);
    if x >= y {
      HalveKeeps((x - y) / 2, y);
      a', b' := (x - y) / 2, y;
    } else {
      HalveKeeps((y - x) / 2, x);
      a', b' := x, (y - x) / 2;
    }
  }

  /** The subtract-and-shift loop. With b = 0 it only shifts a away. */
  method GcdLoop(a0: nat, b0: nat) returns (g: nat)
    requires b0 > 0 ==> a0 % 2 == 1 || b0 % 2 == 1 || a0 == 0
    ensures b0 > 0 ==> IsGcd(g, a0, b0)
    ensures b0 == 0 ==> g == 0
  {
    hide Divides, Common;
    var a, b := a0, b0;
    while a != 0
      invariant b0 > 0 ==> b > 0 && (a % 2 == 1 || b % 2 == 1 || a == 0) && SameDivisors(a0, b0, a, b)
      invariant b0 == 0 ==> b == 0
      invariant a >= 0
      decreases a + b
    {
      if b0 == 0 {
        var x := StripTwos(a);
        var y := StripTwos(b);
        a := (x - y) / 2;
      } else {
        a, b := GcdStep(a, b);
      }
    }
    g := b;
    if b0 > 0 { GcdOfZero(a0, b0, g); }
  }

  lemma GcdOfZero(a: int, b: int, g: int)
    requires g > 0 && SameDivisors(a, b, 0, g)
    ensures IsGcd(g, a, b)
  {
    hide Divides;
    forall d: int | d > 0
      ensures Common(d, a, b) <==> Divides(d, g)
    {
      DividesIntro(d, 0, 0);
      assert Common(d, 0, g) <==> Divides(d, g);
    }
  }

  /** G = gcd(|A|, |B|) for every B other than 0; for B = 0 the result is 0. */
  method Gcd(A: int, B: int) returns (g: nat)
    ensures B != 0 ==> IsGcd(g, Abs(A), Abs(B))
    ensures B == 0 ==> g == 0
  {
    var a, b := Abs(A), Abs(B);
    var lz := if Lsb(b) < Lsb(a) then Lsb(b) else Lsb(a);
    LsbShift(a, lz);
    LsbShift(b, lz);
    var p := Pow(2, lz);
    var x: nat, y: nat := a / p, b / p;
    if b > 0 && y <= 0 { assert false; }
    OneIsOdd(a, b, lz);
    var h := GcdLoop(x, y);
    if b > 0 { ScaledGcd(h, x, y, lz); }
    g := h * p;
  }

  lemma OneIsOdd(a: nat, b: nat, lz: nat)
    requires lz == if Lsb(b) < Lsb(a) then Lsb(b) else Lsb(a)
    ensures b > 0 ==> (a / Pow(2, lz)) % 2 == 1 || (b / Pow(2, lz)) % 2 == 1 || a / Pow(2, lz) == 0
  {
    LsbShift(a, lz);
    LsbShift(b, lz);
  }

  /** The result is the greatest common divisor exactly when B is not 0, or A is 0 as well
      and 0 is taken for gcd(0, 0). */
  lemma GcdNeedsDivisor(A: int)
    requires A != 0
    ensures !IsGcd(0, Abs(A), 0) && IsGcd(Abs(A), Abs(A), 0)
  {
    var a := Abs(A);
    forall d: int | d > 0
      ensures Common(d, a, 0) <==> Divides(d, a)
    {
      DividesIntro(d, 0, 0);
    }
  }

  // ----- mbedtls_mpi_inv_mod

  /** t = u*a + v*n: the relation that both accumulators keep. */
  ghost predicate Bezout(t: int, u: int, v: int, a: int, n: int) {
    t == u * a + v * n
  }

  /** One pass of a halving loop. */
  function HalvingPass(t: nat, u: int, v: int, a: int, n: int): (nat, int, int) {
    var fix := u % 2 != 0 || v % 2 != 0;
    (t / 2, ShiftR(if fix then u + n else u), ShiftR(if fix then v - a else v))
  }

  function HalvingPasses(k: nat, t: nat, u: int, v: int, a: int, n: int): (nat, int, int) {
    if k == 0 then (t, u, v) else
      var (t', u', v') := HalvingPass(t, u, v, a, n);
      HalvingPasses(k - 1, t', u', v', a, n)
  }

  /** A halving loop that starts at 0 never ends: after any number of passes it is still at 0, which is
      even. This is where the inverse modulo 1 starts. */
  lemma {:induction false} NeverOdd(k: nat, u: int, v: int, a: int, n: int)
    ensures HalvingPasses(k, 0, u, v, a, n).0 == 0
  {
    if k > 0 {
      var (t', u', v') := HalvingPass(0, u, v, a, n);
      assert t' == 0;
      NeverOdd(k - 1, u', v', a, n);
    }
  }

  /** Halving an accumulator is exact, after adding (n, -a) if a coefficient is odd. */
  method HalveAccumulator(t: nat, u: int, v: int, a: nat, n: nat) returns (t': nat, u': int, v': int)
    requires t % 2 == 0 && Bezout(t, u, v, a, n) && (a % 2 == 1 || n % 2 == 1)
    ensures 2 * t' == t && Bezout(t', u', v', a, n)
    ensures (t', u', v') == HalvingPass(t, u, v, a, n)
  {
    hide Bezout, ShiftR;
    t' := t / 2;
    u', v' := u, v;
    BezoutParity(t, u, v, a, n);
    if u' % 2 != 0 || v' % 2 != 0 {
      u', v' := u' + n, v' - a;
      ShiftedPair(t, u, v, a, n);
    }
    ShiftExact(u');
    ShiftExact(v');
    HalfExact(t', ShiftR(u'), ShiftR(v'), u', v', a, n);
    u', v' := ShiftR(u'), ShiftR(v');
  }

  lemma BezoutParity(t: int, u: int, v: int, a: int, n: int)
    requires t % 2 == 0 && Bezout(t, u, v, a, n) && (a % 2 == 1 || n % 2 == 1)
    ensures (u % 2 == 0 && v % 2 == 0) || ((u + n) % 2 == 0 && (v - a) % 2 == 0)
  {
    Parities(u, v, a, n, u * a, v * n);
  }

  lemma ShiftedPair(t: int, u: int, v: int, a: int, n: int)
    requires Bezout(t, u, v, a, n)
    ensures Bezout(t, u + n, v - a, a, n)
  {
    MulDistr(u, n, a);
    MulDistr(v, a, n);
  }

  lemma ShiftExact(u: int)
    requires u % 2 == 0
    ensures u == 2 * ShiftR(u)
  {
  }

  lemma HalfExact(t': int, hu: int, hv: int, u: int, v: int, a: int, n: int)
    requires Bezout(2 * t', u, v, a, n) && u == 2 * hu && v == 2 * hv
    ensures Bezout(t', hu, hv, a, n)
  {
    MulAssoc(2, hu, a);
    MulAssoc(2, hv, n);
  }

  /** If u*a + v*n is even and a, n are not both even: (u, v) are both even or (u+n, v-a) are. */
  lemma Parities(u: int, v: int, a: int, n: int, p: int, q: int)
    requires p == u * a && q == v * n && (p + q) % 2 == 0 && (a % 2 == 1 || n % 2 == 1)
    ensures (u % 2 == 0 && v % 2 == 0) || ((u + n) % 2 == 0 && (v - a) % 2 == 0)
  {
    ParityProduct(u, a);
    ParityProduct(v, n);
    SumParity(p, q);
    ParityCases(u % 2, v % 2, a % 2, n % 2, p % 2, q % 2);
    SumParity(u, n);
    SumParity(v, a);
  }

  lemma SumParity(p: int, q: int)
    ensures (p + q) % 2 == 0 <==> p % 2 == q % 2
    ensures (p - q) % 2 == 0 <==> p % 2 == q % 2
  {
  }

  lemma ParityCases(u: int, v: int, a: int, n: int, p: int, q: int)
    requires 0 <= u < 2 && 0 <= v < 2 && 0 <= a < 2 && 0 <= n < 2
    requires p == (if u == 1 && a == 1 then 1 else 0) && q == if v == 1 && n == 1 then 1 else 0
    requires p == q && (a == 1 || n == 1)
    ensures (u == 0 && v == 0) || (u == n && v == a)
  {
  }

  lemma ParityProduct(x: int, y: int)
    ensures (x * y) % 2 == if x % 2 == 1 && y % 2 == 1 then 1 else 0
  {
    if x % 2 == 1 && y % 2 == 1 { OddTimesOdd(x, y); }
    else if x % 2 == 0 { MulAssoc(2, x / 2, y); DivModUnique(x * y, 2, (x / 2) * y, 0); }
    else { MulAssoc(x, y / 2, 2); DivModUnique(x * y, 2, x * (y / 2), 0); }
  }

  /** Halving until odd, next to an odd partner. */
  method MakeOdd(t0: nat, u0: int, v0: int, a: nat, n: nat) returns (t: nat, u: int, v: int)
    requires t0 > 0 && Bezout(t0, u0, v0, a, n) && (a % 2 == 1 || n % 2 == 1)
    ensures 0 < t <= t0 && t % 2 == 1 && Bezout(t, u, v, a, n)
    ensures (t0 % 2 == 1 ==> t == t0) && SameWithOdd(t0, t)
  {
    hide Divides, Common, Bezout;
    t, u, v := t0, u0, v0;
    while t % 2 == 0
      invariant 0 < t <= t0 && Bezout(t, u, v, a, n) && (t0 % 2 == 1 ==> t == t0) && SameWithOdd(t0, t)
      decreases t
    {
      StripOne(t0, t / 2);
      t, u, v := HalveAccumulator(t, u, v, a, n);
    }
  }

  /** The main loop: ends with v*a + w*n = 1 when a and n have no common factor. */
  method InverseLoop(a: nat, n: nat) returns (v1: int, ghost v2: int)
    requires a > 0 && n > 0 && IsGcd(1, a, n)
    ensures Bezout(1, v1, v2, a, n)
  {
    hide Divides, Common, Bezout;
    NotBothEven(a, n);
    BezoutStart(a, n);
    var tu, u1, u2 := a, 1, 0;
    var tv, w1, w2 := n, 0, 1;
    while true
      invariant 0 < tu && 0 < tv && (tu % 2 == 1 || tv % 2 == 1)
      invariant Bezout(tu, u1, u2, a, n) && Bezout(tv, w1, w2, a, n) && SameDivisors(a, n, tu, tv)
      decreases tu + tv
    {
      ghost var tu0, tv0 := tu, tv;
      tu, u1, u2 := MakeOdd(tu, u1, u2, a, n);
      tv, w1, w2 := MakeOdd(tv, w1, w2, a, n);
      if tv0 % 2 == 1 { assert SameDivisors(tu0, tv0, tu, tv0); } else { assert SameDivisors(tu0, tv0, tu0, tv); }
      SubtractKeeps(tu, tv);
      BezoutSubtract(tu, u1, u2, tv, w1, w2, a, n);
      if tu >= tv {
        tu, u1, u2 := tu - tv, u1 - w1, u2 - w2;
      } else {
        tv, w1, w2 := tv - tu, w1 - u1, w2 - u2;
      }
      if tu == 0 { break; }
    }
    CoprimeEnd(a, n, tv);
    v1, v2 := w1, w2;
  }

  lemma BezoutStart(a: int, n: int)
    ensures Bezout(a, 1, 0, a, n) && Bezout(n, 0, 1, a, n)
  {
  }

  lemma BezoutSubtract(t: int, u1: int, u2: int, s: int, w1: int, w2: int, a: int, n: int)
    requires Bezout(t, u1, u2, a, n) && Bezout(s, w1, w2, a, n)
    ensures Bezout(t - s, u1 - w1, u2 - w2, a, n) && Bezout(s - t, w1 - u1, w2 - u2, a, n)
  {
    MulDistr(u1, w1, a);
    MulDistr(u2, w2, n);
    MulDistr(w1, u1, a);
    MulDistr(w2, u2, n);
  }

  lemma NotBothEven(a: int, n: int)
    requires IsGcd(1, a, n)
    ensures a % 2 == 1 || n % 2 == 1
  {
    assert Common(2, a, n) <==> Divides(2, 1);
  }

  lemma CoprimeEnd(a: int, n: int, t: int)
    requires t > 0 && IsGcd(1, a, n) && SameDivisors(a, n, 0, t)
    ensures t == 1
  {
    DividesIntro(t, 0, 0);
    DividesIntro(t, t, 1);
    assert Common(t, 0, t);
    assert Common(t, a, n);
    assert Divides(t, 1);
    if t > 1 { DivModUnique(1, t, 0, 1); }
  }

  lemma AbsDivides(d: int, A: int)
    requires d > 0
    ensures Divides(d, Abs(A)) <==> Divides(d, A)
  {
    if Divides(d, A) { var k := DividesWitness(d, A); DividesIntro(d, -A, -k); }
    if Divides(d, Abs(A)) { var k := DividesWitness(d, Abs(A)); DividesIntro(d, A, if A < 0 then -k else k); }
  }

  lemma DividesDifference(d: int, x: int, n: int, k: int)
    requires d > 0 && Common(d, x, n)
    ensures Divides(d, x + k * n)
  {
    DividesLinear(d, x, n, 1, k);
  }

  lemma QuotientForm(A: int, n: int, k: int, m: int)
    requires n > 0 && k == A / n && m == A % n
    ensures A == m + k * n && m == A + (-k) * n
  {
  }

  lemma ReducedGcd(A: int, n: int)
    requires n > 0
    ensures SameDivisors(Abs(A), n, A % n, n)
  {
    hide Divides;
    var m, k := A % n, A / n;
    QuotientForm(A, n, k, m);
    forall d: int | d > 0
      ensures Common(d, Abs(A), n) <==> Common(d, m, n)
    {
      AbsDivides(d, A);
      if Common(d, A, n) { DividesDifference(d, A, n, -k); }
      if Common(d, m, n) { DividesDifference(d, m, n, k); }
    }
  }

  /** X = A^-1 mod N: a residue with X*A = 1 exactly when there is one. For N = 1 the library's first
      halving loop never ends, since its number is 0; the result then only says so. */
  method InvMod(A: int, N: int) returns (r: InvResult)
    ensures r.BadInput? <==> N <= 0
    ensures r.NeverEnds? <==> N == 1
    ensures r.NotAcceptable? <==> N > 0 && !IsGcd(1, Abs(A), N)
    ensures r.Inverse? ==> N > 1 && r.x < N && Cong(r.x * A, 1, N)
    ensures r.NotAcceptable? ==> forall x: int :: !Cong(x * A, 1, N)
    ensures r.NeverEnds? ==> A % N == 0 && forall k: nat :: HalvingPasses(k, A % N, 1, 0, A % N, N).0 % 2 == 0
  {
    if N <= 0 { return BadInput; }
    var g := Gcd(A, N);
    GcdUnique(g, Abs(A), N);
    if g != 1 {
      NoInverse(A, N, g);
      return NotAcceptable;
    }
    var ta: nat := A % N;
    ReducedGcd(A, N);
    if ta == 0 {
      OnlyOne(Abs(A), N);
      forall k: nat ensures HalvingPasses(k, ta, 1, 0, ta, N).0 % 2 == 0 { NeverOdd(k, 1, 0, ta, N); }
      return NeverEnds;
    }
    if N == 1 { DivModUnique(A, 1, A, 0); }
    CoprimeReduced(Abs(A), ta, N);
    var v1; ghost var v2;
    v1, v2 := InverseLoop(ta, N);
    InverseCong(v1, v2, ta, A, N);
    while v1 < 0
      invariant Cong(v1 * A, 1, N)
      decreases -v1
    {
      ShiftInverse(v1, 1, A, N);
      v1 := v1 + N;
    }
    while v1 >= N
      invariant 0 <= v1 && Cong(v1 * A, 1, N)
      decreases v1
    {
      ShiftInverse(v1, -1, A, N);
      v1 := v1 - N;
    }
    return Inverse(v1);
  }

  /** A multiple of n is coprime to n only for n = 1. */
  lemma OnlyOne(a: int, n: int)
    requires n > 0 && IsGcd(1, a, n) && SameDivisors(a, n, 0, n)
    ensures n == 1
  {
    DividesIntro(n, 0, 0);
    DividesIntro(n, n, 1);
    assert Common(n, 0, n) && Divides(n, 1);
    if n > 1 { DivModUnique(1, n, 0, 1); }
  }

  lemma GcdUnique(g: int, x: int, y: int)
    requires IsGcd(g, x, y)
    ensures g == 1 <==> IsGcd(1, x, y)
  {
    if IsGcd(1, x, y) {
      DividesIntro(g, g, 1);
      assert Divides(g, g);
      assert Common(g, x, y);
      assert Divides(g, 1);
      if g > 1 { DivModUnique(1, g, 0, 1); }
    }
  }

  lemma CoprimeReduced(a: int, ta: int, n: int)
    requires n >= 2 && 0 <= ta && IsGcd(1, a, n) && SameDivisors(a, n, ta, n)
    ensures ta > 0 && IsGcd(1, ta, n)
  {
    if ta == 0 {
      DividesIntro(n, 0, 0);
      DividesIntro(n, n, 1);
      assert Common(n, 0, n) && Common(n, a, n);
      DivModUnique(1, n, 0, 1);
      assert false;
    }
  }

  lemma InverseCong(v1: int, v2: int, ta: int, A: int, n: int)
    requires n > 0 && Bezout(1, v1, v2, ta, n) && ta == A % n
    ensures Cong(v1 * A, 1, n)
  {
    CongMod(A, n);
    CongMul(v1, v1, ta, A, n);
    CongIntro(1, v1 * ta, v2, n);
  }

  lemma ShiftInverse(v: int, s: int, A: int, n: int)
    requires n > 0 && Cong(v * A, 1, n)
    ensures Cong((v + s * n) * A, 1, n)
  {
    CongIntro(v + s * n, v, s, n);
    CongMul(v + s * n, v, A, A, n);
  }

  /** A common factor rules out an inverse. */
  lemma NoInverse(A: int, n: int, g: int)
    requires n > 0 && g > 1 && IsGcd(g, Abs(A), n)
    ensures forall x: int :: !Cong(x * A, 1, n)
  {
    forall x: int
      ensures !Cong(x * A, 1, n)
    {
      if Cong(x * A, 1, n) { FactorDividesOne(A, n, g, x); }
    }
  }

  lemma FactorDividesOne(A: int, n: int, g: int, x: int)
    requires n > 0 && g > 1 && IsGcd(g, Abs(A), n)
    ensures !Cong(x * A, 1, n)
  {
    hide Divides, Cong;
    DividesIntro(g, g, 1);
    assert Common(g, Abs(A), n) by { GcdIsCommon(g, Abs(A), n); }
    AbsDivides(g, A);
    if Cong(x * A, 1, n) {
      var k := CongWitness(x * A, 1, n);
      DividesLinear(g, A, n, x, -k);
      MulNegLeft(k, n);
      NotDividesOne(g);
    }
  }

  lemma GcdIsCommon(g: int, x: int, y: int)
    requires IsGcd(g, x, y)
    ensures Common(g, x, y)
  {
    DividesIntro(g, g, 1);
  }

  lemma MulNegLeft(k: int, n: int)
    ensures (-k) * n == -(k * n)
  {
  }

  lemma NotDividesOne(g: int)
    requires g > 1
    ensures !Divides(g, 1)
  {
    DivModUnique(1, g, 0, 1);
  }
}

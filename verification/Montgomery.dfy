/** Montgomery multiplication on limb buffers: the word inverse, the interleaved
    multiply-and-reduce loop, and the final conditional subtraction. */
module Montgomery {
  import opened Arith
  import opened Limbs

  // ----- mpi_montg_init

  predicate IsPowerOfTwo(n: nat) {
    n == 1 || (n > 1 && n % 2 == 0 && IsPowerOfTwo(n / 2))
  }

  lemma OddTable(r: nat, q: nat)
    requires r < 16 && r % 2 == 1 && q == (r + 8 * (((r + 2) / 4) % 2)) % 16
    ensures (r * q) % 16 == 1
  {
    assert r == 1 || r == 3 || r == 5 || r == 7 || r == 9 || r == 11 || r == 13 || r == 15;
  }

  lemma GuessBit(m0: nat)
    ensures ((m0 + 2) / 4) % 2 == ((m0 % 16 + 2) / 4) % 2
    ensures (m0 + 8 * (((m0 + 2) / 4) % 2)) % 16 == (m0 % 16 + 8 * (((m0 + 2) / 4) % 2)) % 16
  {
    var k, r := m0 / 16, m0 % 16;
    QuarterOf(k, r + 2);
    ParityOf(k, (r + 2) / 4);
    SixteenOf(k, r + 8 * (((r + 2) / 4) % 2));
  }

  lemma QuarterOf(k: int, x: int)
    ensures (16 * k + x) / 4 == 4 * k + x / 4
  {
    DivModUnique(16 * k + x, 4, 4 * k + x / 4, x % 4);
  }

  lemma ParityOf(k: int, x: int)
    ensures (4 * k + x) % 2 == x % 2
  {
    DivModUnique(4 * k + x, 2, 2 * k + x / 2, x % 2);
  }

  lemma SixteenOf(k: int, x: int)
    ensures (16 * k + x) % 16 == x % 16
  {
    DivModUnique(16 * k + x, 16, k + x / 16, x % 16);
  }

  /** The starting guess is right modulo 16 for every odd word. */
  lemma GuessMod16(m0: nat, x: nat)
    requires m0 % 2 == 1 && x % 16 == (m0 + 8 * BitTwo(m0 + 2)) % 16
    ensures Cong(m0 * x, 1, 16)
  {
    var r, q := m0 % 16, x % 16;
    GuessBit(m0);
    OddTable(r, q);
    CongMod(m0, 16);
    CongMod(x, 16);
    CongMul(r, m0, q, x, 16);
  }

  /** A Newton step squares the modulus: from m0*x = 1 (mod m) to m0*x' = 1 (mod m*m). */
  lemma NewtonStep(m0: int, x: int, m: int)
    requires m > 0 && m * m > 0 && Cong(m0 * x, 1, m)
    ensures Cong(m0 * (x * (2 - m0 * x)), 1, m * m)
  {
    var k := CongWitness(m0 * x, 1, m);
    var y := m0 * x;
    MulAssoc(m0, x, 2 - y);
    assert y * (2 - y) == 1 - (k * m) * (k * m);
    MulSwap(k, m, k, m);
    assert (-(k * k)) * (m * m) == -((k * k) * (m * m));
    CongIntro(y * (2 - y), 1, -(k * k), m * m);
  }

  /** Reduction modulo b keeps residues modulo every divisor of b. */
  lemma CongReduce(x: int, m: int, c: int)
    requires m > 0 && c > 0 && m * c > 0
    ensures Cong(x % (m * c), x, m)
  {
    var b := m * c;
    assert x == (x / b) * b + x % b;
    MulAssoc(x / b, c, m);
    CongIntro(x, x % b, (x / b) * c, m);
  }

  lemma {:induction false} PowTwoFacts(w: nat)
    requires w >= 4
    ensures Pow(2, w) % 16 == 0 && Pow(2, w) >= 16
    decreases w
  {
    if w > 4 { PowTwoFacts(w - 1); }
    else { PowTwoFour(); }
  }

  /** The third lowest bit. */
  function BitTwo(v: nat): (r: nat)
    ensures r <= 1
  {
    (v / 4) % 2
  }

  /** Signed words wrap like unsigned ones. */
  function Wrap(v: int, b: nat): (r: nat)
    requires b > 0
    ensures r < b && Cong(r, v, b)
  {
    CongMod(v, b);
    v % b
  }

  /** Wrapping at the base disturbs neither the bit that the guess looks at nor the guess mod 16. */
  lemma WrapGuess(m0: nat, b: nat)
    requires b >= 16 && b % 16 == 0 && m0 < b && m0 % 2 == 1
    ensures BitTwo(WrapAdd(m0, 2, b)) == BitTwo(m0 + 2)
  {
    if m0 + 2 >= b {
      var k := b / 16;
      DivModUnique(m0 + 2, 4, 4 * k, 1);
      DivModUnique(4 * k, 2, 2 * k, 0);
    }
  }

  /** Doubling the precision of the word inverse inside b = 2^biL. */
  lemma PrecisionStep(m0: nat, x: nat, prec: nat, biL: nat)
    requires 2 * prec <= biL && Cong(m0 * x, 1, Pow(2, prec))
    ensures Cong(m0 * ((x * (2 - m0 * x)) % Pow(2, biL)), 1, Pow(2, 2 * prec))
  {
    var m, b := Pow(2, prec), Pow(2, biL);
    PowAdd(2, prec, prec);
    PowAdd(2, 2 * prec, biL - 2 * prec);
    NewtonStep(m0, x, m);
    var y := x * (2 - m0 * x);
    CongReduce(y, m * m, Pow(2, biL - 2 * prec));
    CongMul(m0, m0, y % b, y, m * m);
  }

  lemma HalfOfPower(i: nat)
    requires IsPowerOfTwo(i) && i >= 4
    ensures i % 2 == 0 && IsPowerOfTwo(i / 2) && (i < 8 ==> i == 4)
  {
    assert !IsPowerOfTwo(3);
  }

  /** For every odd word, the computed mm satisfies mm * m0 = -1 modulo the limb base. */
  method MontgInit(m0: nat, biL: nat) returns (mm: nat)
    requires biL >= 8 && IsPowerOfTwo(biL) && m0 % 2 == 1 && m0 < Pow(2, biL)
    ensures mm < Pow(2, biL) && Cong(mm * m0, -1, Pow(2, biL))
  {
    var b: nat := Pow(2, biL);
    PowTwoFacts(biL);
    var x: nat := WrapAdd(m0, 8 * BitTwo(WrapAdd(m0, 2, b)), b);
    FirstGuess(m0, x, b);
    var i: nat := biL;
    ghost var prec: nat := 4;
    while i >= 8
      invariant 4 <= i && IsPowerOfTwo(i) && 4 <= prec && prec * i == 4 * biL
      invariant x < b && Cong(m0 * x, 1, Pow(2, prec))
    {
      PrecisionGrows(prec, i, biL);
      PrecisionStep(m0, x, prec, biL);
      x := Wrap(x * (2 - m0 * x), b);
      i := i / 2;
      prec := 2 * prec;
    }
    HalfOfPower(i);
    assert prec == biL;
    mm := Wrap(b - x, b);
    NegateInverse(m0, x, b);
  }

  lemma PowTwoFour()
    ensures Pow(2, 4) == 16
  {
    assert Pow(2, 4) == 2 * Pow(2, 3) == 4 * Pow(2, 2) == 8 * Pow(2, 1);
  }

  lemma FirstGuess(m0: nat, x: nat, b: nat)
    requires b >= 16 && b % 16 == 0 && m0 < b && m0 % 2 == 1
    requires x == WrapAdd(m0, 8 * BitTwo(WrapAdd(m0, 2, b)), b)
    ensures Cong(m0 * x, 1, Pow(2, 4))
  {
    WrapGuess(m0, b);
    var y := m0 + 8 * BitTwo(m0 + 2);
    CongIntro(x, y, if x == y then 0 else -(b / 16), 16);
    GuessMod16(m0, x);
    PowTwoFour();
  }

  lemma PrecisionGrows(prec: nat, i: nat, biL: nat)
    requires i >= 8 && IsPowerOfTwo(i) && prec * i == 4 * biL
    ensures 2 * prec <= biL && (2 * prec) * (i / 2) == 4 * biL && IsPowerOfTwo(i / 2) && i / 2 >= 4
  {
    HalfOfPower(i);
    MulMono(8, i, prec);
    assert i == 2 * (i / 2);
    MulAssoc(prec, 2, i / 2);
  }

  lemma NegateInverse(m0: nat, x: nat, b: nat)
    requires b > 0 && Cong(m0 * x, 1, b)
    ensures Cong(((b - x) % b) * m0, -1, b)
  {
    CongMod(b - x, b);
    CongMul((b - x) % b, b - x, m0, m0, b);
    assert (b - x) * m0 == -(m0 * x) + m0 * b;
    CongIntro((b - x) * m0, -(m0 * x), m0, b);
    CongAdd(0, 0, m0 * x, 1, b);
  }

  // ----- mpi_montmul

  /** Adding x at limb i leaves the limbs below and adds x to what the limbs from i on stand for. */
  lemma SuffixAdd(t: seq<nat>, t': seq<nat>, i: nat, x: int, b: nat)
    requires b >= 2 && i <= |t| == |t'| && t[..i] == t'[..i]
    requires Val(t', b) == Val(t, b) + x * Pow(b, i)
    ensures Val(t'[i..], b) == Val(t[i..], b) + x
  {
    ValSplit(t, i, b);
    ValSplit(t', i, b);
    ScaledAdd(Pow(b, i), Val(t'[i..], b), Val(t[i..], b), x);
  }

  lemma ScaledAdd(p: int, v': int, v: int, x: int)
    requires p > 0 && p * v' == p * v + x * p
    ensures v' == v + x
  {
    MulDistr(v, x, p);
    MulCancel(p, v', v + x);
  }

  lemma SuffixFits(t: seq<nat>, i: nat, x: int, b: nat)
    requires b >= 2 && i <= |t| && IsLimbs(t, b) && Val(t[i..], b) + x < Pow(b, |t| - i)
    ensures Val(t, b) + x * Pow(b, i) < Pow(b, |t|)
  {
    ValSplit(t, i, b);
    ValBound(t[..i], b);
    PowAdd(b, i, |t| - i);
    ScaledFits(Val(t[..i], b), Pow(b, i), Val(t[i..], b), x, Pow(b, |t| - i));
  }

  lemma ScaledFits(low: int, p: int, v: int, x: int, q: int)
    requires 0 <= low < p && v + x < q
    ensures low + p * v + x * p < p * q
  {
    MulDistr(v, x, p);
    MulMono(v + x + 1, q, p);
    MulDistr(v + x, 1, p);
  }

  /** The multiply-accumulate helper seen from its starting limb. */
  method MulHlpAt(n: nat, s: seq<nat>, d: array<nat>, off: nat, m: nat, b: nat)
    requires b >= 2 && n <= |s| && off + n < d.Length && m < b
    requires IsLimbs(s, b) && IsLimbs(d[..], b)
    requires Val(d[off..], b) + Val(s[..n], b) * m < Pow(b, d.Length - off)
    modifies d
    ensures IsLimbs(d[..], b)
    ensures Val(d[off..], b) == old(Val(d[off..], b)) + Val(s[..n], b) * m
  {
    ghost var t, x := d[..], Val(s[..n], b) * m;
    assert t[off..] == d[off..] && t[..off] == d[..off];
    SuffixFits(t, off, x, b);
    MulHlp(n, s, d, off, m, b);
    assert d[..][off..] == d[off..] && d[..][..off] == d[..off];
    SuffixAdd(t, d[..], off, x, b);
  }

  /** The low limb is the remainder modulo the base; the other limbs are the quotient. */
  lemma LowLimb(t: seq<nat>, b: nat)
    requires b >= 2 && t != [] && IsLimbs(t, b)
    ensures Val(t, b) == t[0] + b * Val(t[1..], b) && Val(t, b) % b == t[0]
  {
    ValSplit(t, 1, b);
    assert t[..1] == [t[0]];
    assert Val([t[0]], b) == Val([], b) + t[0] * Pow(b, 0) == t[0];
    assert Pow(b, 1) == b;
    DivModUnique(Val(t, b), b, Val(t[1..], b), t[0]);
  }

  /** The choice of u1 makes the low limb of T + u0*B + u1*N vanish. */
  lemma LowLimbVanishes(d: int, d0: int, u0: int, vb: int, b0: int, vn: int, n0: int, mm: int, b: int)
    requires b > 1 && Cong(d, d0, b) && Cong(vb, b0, b) && Cong(vn, n0, b) && Cong(mm * n0, -1, b)
    ensures Cong(d + vb * u0 + vn * (((d0 + u0 * b0) * mm) % b), 0, b)
  {
    CongMul(vb, b0, u0, u0, b);
    WordCancels(d0 + u0 * b0, vn, n0, mm, b);
    ThreeTerms(d, d0, vb * u0, b0 * u0, vn * (((d0 + u0 * b0) * mm) % b), b);
  }

  lemma WordCancels(w: int, vn: int, n0: int, mm: int, b: int)
    requires b > 1 && Cong(vn, n0, b) && Cong(mm * n0, -1, b)
    ensures Cong(vn * ((w * mm) % b), -w, b)
  {
    CongMod(w * mm, b);
    CongMul(vn, n0, (w * mm) % b, w * mm, b);
    MulAssoc(w, mm, n0);
    CongMul(w, w, mm * n0, -1, b);
  }

  lemma ThreeTerms(d: int, d0: int, x: int, x0: int, y: int, b: int)
    requires b > 1 && Cong(d, d0, b) && Cong(x, x0, b) && Cong(y, -(d0 + x0), b)
    ensures Cong(d + x + y, 0, b)
  {
    CongAdd(d, d0, x, x0, b);
    CongAdd(d + x, d0 + x0, y, -(d0 + x0), b);
  }

  /** One pass keeps the running total below 2N. */
  lemma StepBound(d: int, u0: int, u1: int, vb: int, vn: int, b: int)
    requires 0 <= d < 2 * vn && 0 <= vb <= vn && 0 <= u0 < b && 0 <= u1 < b && b >= 2
    ensures 0 <= d + vb * u0 + vn * u1 < b * (2 * vn)
  {
    MulMono(0, vb, u0);
    MulMono(0, u1, vn);
    MulMono(vb, vn, u0);
    MulMono(u0 + 1, b, vn);
    MulMono(u1 + 1, b, vn);
    MulDistr(u0, 1, vn);
    MulDistr(u1, 1, vn);
    assert b * (2 * vn) == 2 * (b * vn);
  }

  /** What one pass does to the residue: T*b^i = A[..i]*B becomes T'*b^(i+1) = A[..i+1]*B. */
  lemma StepResidue(d: int, d': int, u0: int, u1: int, va: int, vb: int, vn: int, p: int, b: int)
    requires vn > 0 && b * d' == d + vb * u0 + vn * u1 && Cong(d * p, va * vb, vn)
    ensures Cong(d' * (b * p), (va + u0 * p) * vb, vn)
  {
    calc {
      d' * (b * p);
      { MulAssoc(d', b, p); }
      (d + vb * u0 + vn * u1) * p;
      d * p + (vb * u0) * p + (vn * u1) * p;
      { MulAssoc(vb, u0, p); MulAssoc(vn, u1, p); }
      d * p + vb * (u0 * p) + (u1 * p) * vn;
    }
    CongIntro(d' * (b * p), d * p + vb * (u0 * p), u1 * p, vn);
    CongAdd(d * p, va * vb, vb * (u0 * p), vb * (u0 * p), vn);
    assert (va + u0 * p) * vb == va * vb + vb * (u0 * p);
  }

  /** One pass of the main loop: T[i+1..] = (T[i..] + u0*B + u1*N) / b, exactly. */
  method MontStep(t: array<nat>, i: nat, u0: nat, bs: seq<nat>, m: nat, N: seq<nat>, mm: nat, b: nat)
    requires b >= 2 && N != [] && IsLimbs(N, b) && bs != [] && IsLimbs(bs, b) && m <= |bs| && m <= |N|
    requires t.Length >= 2 * |N| + 2 && i < |N| && IsLimbs(t[..], b) && u0 < b && mm < b
    requires Cong(mm * N[0], -1, b)
    requires Val(bs[..m], b) == Val(bs, b) <= Val(N, b) && 0 <= Val(t[i..], b) < 2 * Val(N, b)
    modifies t
    ensures IsLimbs(t[..], b) && Val(t[i + 1..], b) < 2 * Val(N, b)
    ensures exists u1: nat :: b * Val(t[i + 1..], b) == old(Val(t[i..], b)) + Val(bs, b) * u0 + Val(N, b) * u1
  {
    hide Val, Cong, Pow;
    var n := |N|;
    ghost var d, vb, vn := Val(t[i..], b), Val(bs, b), Val(N, b);
    var u1: nat := MontWord(t[i], u0, bs[0], mm, b);
    ValBound(bs, b);
    ValBound(N, b);
    StepFits(d, u0, u1, vb, vn, n, t.Length - i, b);
    StepVanishes(t[i..], u0, bs, N, mm, b);
    assert N[..n] == N;
    MulHlpAt(m, bs, t, i, u0, b);
    MulHlpAt(n, N, t, i, u1, b);
    ghost var w := t[i..];
    StepQuotient(w, d, u0, u1, vb, vn, n, b);
    ghost var w' := t[i + 1..];
    assert w[1..] == w' && w[n + 2] == t[i + n + 2];
    t[i] := u0;
    t[i + n + 2] := 0;
    assert t[i + 1..] == w';
  }

  /** The multiple of N that clears the low limb. */
  function MontWord(d0: nat, u0: nat, b0: nat, mm: nat, b: nat): (u1: nat)
    requires b > 0
    ensures u1 < b
  {
    ((d0 + u0 * b0) * mm) % b
  }

  lemma StepVanishes(t: seq<nat>, u0: nat, bs: seq<nat>, N: seq<nat>, mm: nat, b: nat)
    requires b >= 2 && t != [] && bs != [] && N != [] && IsLimbs(t, b) && IsLimbs(bs, b) && IsLimbs(N, b)
    requires Cong(mm * N[0], -1, b)
    ensures Cong(Val(t, b) + Val(bs, b) * u0 + Val(N, b) * MontWord(t[0], u0, bs[0], mm, b), 0, b)
  {
    LowLimb(t, b);
    LowLimb(bs, b);
    LowLimb(N, b);
    CongLow(Val(t, b), t[0], b);
    CongLow(Val(bs, b), bs[0], b);
    CongLow(Val(N, b), N[0], b);
    LowLimbVanishes(Val(t, b), t[0], u0, Val(bs, b), bs[0], Val(N, b), N[0], mm, b);
  }

  /** After the two accumulations the low limb is zero and the limbs above n + 2 are untouched. */
  lemma StepQuotient(w: seq<nat>, d: int, u0: int, u1: int, vb: int, vn: int, n: nat, b: nat)
    requires b >= 2 && IsLimbs(w, b) && |w| >= n + 3 && Val(w, b) == d + vb * u0 + vn * u1
    requires 0 <= d < 2 * vn && 0 <= vb <= vn && 0 <= u0 < b && 0 <= u1 < b
    requires Cong(Val(w, b), 0, b) && Val(w, b) < Pow(b, n + 2)
    ensures w[0] == 0 == w[n + 2] && b * Val(w[1..], b) == Val(w, b) && 0 <= Val(w[1..], b) < 2 * vn
  {
    LowLimb(w, b);
    DivModUnique(0, b, 0, 0);
    ValHighZero(w, n + 2, b);
    StepBound(d, u0, u1, vb, vn, b);
    MulLess(b, Val(w[1..], b), 2 * vn);
    ValBound(w[1..], b);
  }

  lemma CongLow(v: int, x: int, b: int)
    requires b >= 2 && v % b == x
    ensures Cong(v, x, b)
  {
    DivModUnique(x, b, 0, x);
  }

  /** Both partial sums fit into n + 2 limbs. */
  lemma StepFits(d: int, u0: int, u1: int, vb: int, vn: int, n: nat, len: nat, b: nat)
    requires b >= 2 && 0 <= d < 2 * vn && 0 <= vb <= vn < Pow(b, n) && 0 <= u0 < b && 0 <= u1 < b && len >= n + 2
    ensures d + vb * u0 <= d + vb * u0 + vn * u1 < Pow(b, n + 2) <= Pow(b, len)
  {
    StepBound(d, u0, u1, vb, vn, b);
    MulMono(2, b, vn);
    MulMono(vn, Pow(b, n), b);
    assert 2 * vn <= Pow(b, n + 1);
    MulMono(2 * vn, Pow(b, n + 1), b);
    MulMono(0, u1, vn);
    PowMono(b, n + 2, len);
  }

  lemma OperandFits(c: seq<nat>, m: nat, N: seq<nat>, b: nat)
    requires b >= 2 && IsLimbs(c, b) && IsLimbs(N, b) && Val(c, b) <= Val(N, b)
    requires m == if |c| < |N| then |c| else |N|
    ensures Val(c[..m], b) == Val(c, b)
  {
    ValBound(N, b);
    if |c| < |N| {
      assert c[..m] == c;
    } else {
      ValHighZero(c, m, b);
      ValTrim(c, m, b);
    }
  }

  /** The n passes over a cleared T: what is left above limb n is below 2N, and is A*B/R mod N. */
  method MontLoop(a: seq<nat>, c: seq<nat>, m: nat, N: seq<nat>, mm: nat, t: array<nat>, b: nat)
    requires b >= 2 && N != [] && IsLimbs(N, b) && IsLimbs(a, b) && IsLimbs(c, b) && mm < b
    requires |a| >= |N| && c != [] && m <= |c| && m <= |N| && t.Length >= 2 * |N| + 2
    requires Cong(mm * N[0], -1, b) && Val(c[..m], b) == Val(c, b) <= Val(N, b) && 0 < Val(N, b)
    modifies t
    ensures IsLimbs(t[..], b) && 0 <= Val(t[|N|..], b) < 2 * Val(N, b)
    ensures Cong(Val(t[|N|..], b) * Pow(b, |N|), Val(a[..|N|], b) * Val(c, b), Val(N, b))
  {
    hide Val, Cong, Pow, IsLimbs;
    ghost var vb, vn := Val(c, b), Val(N, b);
    forall k | 0 <= k < t.Length { t[k] := 0; }
    LoopStart(t[..], a, vb, vn, b);
    assert t[0..] == t[..];
    var i := 0;
    while i < |N|
      invariant 0 <= i <= |N| && IsLimbs(t[..], b) && 0 <= Val(t[i..], b) < 2 * vn
      invariant Cong(Val(t[i..], b) * Pow(b, i), Val(a[..i], b) * vb, vn)
    {
      assert a[i] < b by { LimbBelow(a, i, b); }
      ghost var d := Val(t[i..], b);
      MontStep(t, i, a[i], c, m, N, mm, b);
      ghost var u1: nat :| b * Val(t[i + 1..], b) == d + vb * a[i] + vn * u1;
      StepResidue(d, Val(t[i + 1..], b), a[i], u1, Val(a[..i], b), vb, vn, Pow(b, i), b);
      PowNext(b, i);
      ValSnoc(a, i, b);
      SuffixBound(t[..], i + 1, b);
      assert t[..][i + 1..] == t[i + 1..];
      i := i + 1;
    }
  }

  lemma LoopStart(t: seq<nat>, a: seq<nat>, vb: int, vn: int, b: nat)
    requires b >= 2 && vn > 0 && forall k :: 0 <= k < |t| ==> t[k] == 0
    ensures IsLimbs(t, b) && Val(t, b) == 0 && Cong(Val(t, b) * Pow(b, 0), Val(a[..0], b) * vb, vn)
  {
    ValZero(t, b);
    ValZero(a[..0], b);
  }

  lemma LimbBelow(s: seq<nat>, i: nat, b: nat)
    requires IsLimbs(s, b) && i < |s|
    ensures s[i] < b
  {
  }

  lemma SuffixBound(t: seq<nat>, i: nat, b: nat)
    requires b >= 2 && IsLimbs(t, b) && i <= |t|
    ensures 0 <= Val(t[i..], b)
  {
    ValBound(t[i..], b);
  }

  /** T holds the n + 1 result limbs above n consumed ones, so it is at least the result. */
  lemma DummyFits(t: seq<nat>, a: seq<nat>, n: nat, b: nat)
    requires b >= 2 && n <= |t| && n <= |a| && IsLimbs(t, b) && IsLimbs(a, b) && Val(t[n..], b) == Val(a, b)
    ensures Val(a[..n], b) <= Val(t, b)
  {
    ValSplit(t, n, b);
    ValSplit(a, n, b);
    ValBound(t[..n], b);
    ValBound(a[..n], b);
    ValBound(a[n..], b);
    ScaledAtLeast(Val(a[..n], b), Pow(b, n), Val(a[n..], b));
    ScaledAtLeast(Val(t[..n], b), Pow(b, n), Val(a, b));
  }

  lemma ScaledAtLeast(low: int, p: int, v: int)
    requires 0 <= low && 0 < p && 0 <= v
    ensures low <= low + p * v && v <= low + p * v
  {
    MulMono(1, p, v);
  }

  /** A = A * B * R^-1 mod N with R = b^n, in place, using T as scratch. B is passed by
      its contents: A is written only after the last read of B, so B may be A. Every pass divides
      exactly, because mm times the lowest limb of N is -1. Whichever way the final comparison
      goes, one subtraction is made: of N from A, or a dummy one inside T. */
  method Montmul(a: array<nat>, c: seq<nat>, N: seq<nat>, mm: nat, t: array<nat>, b: nat)
    requires b >= 2 && N != [] && IsLimbs(N, b) && IsLimbs(a[..], b) && IsLimbs(c, b) && mm < b
    requires a.Length > |N| && c != [] && t.Length >= 2 * |N| + 2 && t != a
    requires Cong(mm * N[0], -1, b) && Val(a[..], b) < Val(N, b) && Val(c, b) <= Val(N, b)
    modifies a, t
    ensures IsLimbs(a[..], b) && 0 <= Val(a[..], b) < Val(N, b)
    ensures Val(N, b) > 0 && Cong(Val(a[..], b) * Pow(b, |N|), old(Val(a[..], b)) * Val(c, b), Val(N, b))
  {
    var n := |N|;
    ghost var vn := Val(N, b);
    var a0 := a[..];
    ValBound(N, b);
    ValBound(a0, b);
    ValHighZero(a0, n, b);
    ValTrim(a0, n, b);
    var m := if |c| < n then |c| else n;
    OperandFits(c, m, N, b);
    MontLoop(a0, c, m, N, mm, t, b);
    ghost var w := Val(t[n..], b);
    MontFinish(a, N, t, b);
    CongMul(Val(a[..], b), w, Pow(b, n), Pow(b, n), vn);
  }

  /** Copies the top limbs of T into A and brings the result below N. */
  method MontFinish(a: array<nat>, N: seq<nat>, t: array<nat>, b: nat)
    requires b >= 2 && IsLimbs(N, b) && IsLimbs(a[..], b) && IsLimbs(t[..], b) && t != a
    requires a.Length > |N| && t.Length >= 2 * |N| + 2
    requires 0 <= Val(t[|N|..], b) < 2 * Val(N, b) && forall k :: |N| < k < a.Length ==> a[k] == 0
    modifies a, t
    ensures IsLimbs(a[..], b) && 0 <= Val(a[..], b) < Val(N, b)
    ensures Cong(Val(a[..], b), old(Val(t[|N|..], b)), Val(N, b))
  {
    hide Val, Cong;
    var n := |N|;
    ghost var w := t[n..];
    CopyFits(w, N, b);
    forall k | 0 <= k <= n { a[k] := t[n + k]; }
    assert a[..][..n + 1] == w[..n + 1];
    ValTrim(a[..], n + 1, b);
    ValBound(a[..], b);
    var r := CmpLimbs(a[..], N, b);
    assert N[..n] == N;
    if r >= 0 {
      SubHlp(n, N, a, b);
      CongIntro(Val(w, b), Val(a[..], b), 1, Val(N, b));
      CongSymmetric(Val(w, b), Val(a[..], b), Val(N, b));
    } else {
      ghost var x := a[..];
      assert t[..][n..] == w;
      DummyFits(t[..], x, n, b);
      SubHlp(n, a[..], t, b);
      assert a[..] == x;
      CongIntro(Val(w, b), Val(w, b), 0, Val(N, b));
    }
  }

  lemma CongSymmetric(x: int, y: int, n: int)
    requires n > 0 && Cong(x, y, n)
    ensures Cong(y, x, n)
  {
  }

  lemma CopyFits(w: seq<nat>, N: seq<nat>, b: nat)
    requires b >= 2 && IsLimbs(N, b) && IsLimbs(w, b) && |w| > |N| && Val(w, b) < 2 * Val(N, b)
    ensures Val(w, b) == Val(w[..|N| + 1], b)
  {
    ValBound(N, b);
    MulMono(2, b, Pow(b, |N|));
    ValHighZero(w, |N| + 1, b);
    ValTrim(w, |N| + 1, b);
  }
}

/** Long division with quotient-digit estimation, on numbers seen as values whose limbs are read
    one by one. The quotient is assembled limb by limb in a buffer. */
module Division {
  import opened Arith
  import opened Limbs

  datatype DivResult = DivisionByZero | Divided(q: int, r: int)

  /** Limb i of a non-negative number. */
  function Limb(v: nat, i: nat, b: nat): (x: nat)
    requires b >= 2
    ensures x < b
  {
    (v / Pow(b, i)) % b
  }

  /** Number of significant limbs. */
  function LimbCount(v: nat, b: nat): nat
    requires b >= 2
    decreases v
  {
    if v == 0 then 0 else 1 + LimbCount(v / b, b)
  }

  lemma {:induction false} LimbCountBounds(v: nat, b: nat)
    requires b >= 2 && v > 0
    ensures LimbCount(v, b) > 0 && Pow(b, LimbCount(v, b) - 1) <= v < Pow(b, LimbCount(v, b))
    decreases v
  {
    var q := v / b;
    FloorBounds(v, b);
    if q > 0 {
      QuotientSmaller(v, q, b);
      LimbCountBounds(q, b);
      CountStep(v, q, Pow(b, LimbCount(q, b) - 1), Pow(b, LimbCount(q, b)), b);
    } else {
      assert LimbCount(v, b) == 1 && Pow(b, 0) == 1 && Pow(b, 1) == b;
    }
  }

  lemma QuotientSmaller(v: int, q: int, b: int)
    requires b >= 2 && q > 0 && q * b <= v
    ensures q < v
  {
    MulMono(2, b, q);
  }

  lemma CountStep(v: int, q: int, lo: int, hi: int, b: int)
    requires b > 0 && lo <= q < hi && q * b <= v < q * b + b
    ensures b * lo <= v < b * hi
  {
    MulMono(lo, q, b);
    MulMono(q + 1, hi, b);
    MulDistr(q, 1, b);
  }

  /** One more limb of a prefix. */
  lemma PrefixLimb(v: nat, j: nat, b: nat)
    requires b >= 2
    ensures v / Pow(b, j) == (v / Pow(b, j + 1)) * b + Limb(v, j, b)
  {
    NestedDiv(v, Pow(b, j), b);
  }

  lemma NestedDiv(v: nat, p: int, b: int)
    requires p > 0 && b > 0 && b * p > 0
    ensures v / p == (v / (b * p)) * b + (v / p) % b
  {
    var q := v / p;
    var h, o := q / b, q % b;
    FloorBounds(v, p);
    FloorBounds(q, b);
    assert q == h * b + o;
    NestedRemainder(v, p, b, q, h, o);
    DivModUnique(v, b * p, h, v - h * (b * p));
  }

  lemma NestedRemainder(v: int, p: int, b: int, q: int, h: int, o: int)
    requires p > 0 && q == h * b + o && 0 <= o < b && q * p <= v < q * p + p
    ensures 0 <= v - h * (b * p) < b * p
  {
    MulDistr(h * b, o, p);
    MulAssoc(h, b, p);
    MulMono(0, o, p);
    MulMono(o + 1, b, p);
    MulDistr(o, 1, p);
  }

  lemma TopLimb(v: nat, k: nat, b: nat)
    requires b >= 2 && v < Pow(b, k + 1)
    ensures v / Pow(b, k) == Limb(v, k, b)
  {
    PrefixLimb(v, k, b);
    DivModUnique(v, Pow(b, k + 1), 0, v);
  }

  /** The two leading limbs of the divisor, as the correction loop puts them together. */
  function DivisorHead(y: nat, t: nat, b: nat): int
    requires b >= 2
  {
    Limb(y, t, b) * b + if t < 1 then 0 else Limb(y, t - 1, b)
  }

  /** The three leading limbs of the dividend. */
  function DividendHead(x: nat, i: nat, b: nat): int
    requires b >= 2 && i >= 1
  {
    (Limb(x, i, b) * b + Limb(x, i - 1, b)) * b + if i < 2 then 0 else Limb(x, i - 2, b)
  }

  /** The heads are the numbers b*Y and b*X cut off below: floor(b*Y / b^t), floor(b*X / b^(i-1)). */
  lemma DivisorHeadBounds(y: nat, t: nat, b: nat)
    requires b >= 2 && y < Pow(b, t + 1)
    ensures DivisorHead(y, t, b) * Pow(b, t) <= y * b < (DivisorHead(y, t, b) + 1) * Pow(b, t)
  {
    TopLimb(y, t, b);
    if t >= 1 {
      PrefixLimb(y, t - 1, b);
      HeadScaled(y, Pow(b, t - 1), b);
    } else {
      HeadScaled(y * b, 1, 1);
      assert Pow(b, 0) == 1 && Limb(y, 0, b) == y;
    }
  }

  lemma DividendHeadBounds(x: nat, i: nat, b: nat)
    requires b >= 2 && i >= 1 && x < Pow(b, i + 1)
    ensures DividendHead(x, i, b) * Pow(b, i - 1) <= x * b < (DividendHead(x, i, b) + 1) * Pow(b, i - 1)
  {
    TopLimb(x, i, b);
    PrefixLimb(x, i - 1, b);
    if i >= 2 {
      PrefixLimb(x, i - 2, b);
      HeadScaled(x, Pow(b, i - 2), b);
    } else {
      assert Pow(b, 0) == 1 && x / 1 == x;
    }
  }

  lemma HeadScaled(v: nat, p: int, b: int)
    requires p > 0 && b > 0
    ensures (v / p) * (b * p) <= v * b < (v / p + 1) * (b * p)
  {
    var q := v / p;
    FloorBounds(v, p);
    MulMono(q * p, v, b);
    MulMono(v + 1, q * p + p, b);
    MulDistr(v, 1, b);
    MulAssoc(q, p, b);
    MulDistr(q, 1, p);
    MulAssoc(q + 1, p, b);
  }

  // ----- one quotient digit

  /** A digit whose multiple fits also fits the leading limbs. */
  lemma HeadTest(q: nat, x: int, y: int, v: int, w: int, T: int, S: int, b: int)
    requires T > 0 && S > 0 && b > 0 && q * (y * S) <= x && v * T <= y * b && x * b < (w + 1) * (T * S)
    ensures q * v <= w
  {
    var P := T * S;
    assert P > 0;
    MulMono(v * T, y * b, S);
    MulAssoc(v, T, S);
    MulMono(v * P, (y * b) * S, q);
    assert q * (v * P) <= q * ((y * b) * S);
    MulMono(q * (y * S), x, b);
    MulAssoc(y, b, S);
    MulAssoc(y, S, b);
    MulAssoc(q, y * S, b);
    MulAssoc(q, v, P);
    assert P * (q * v) < P * (w + 1);
    MulLess(P, q * v, w + 1);
  }

  /** Conversely, a digit that passes the test on the leading limbs is at most one too large. */
  lemma OneTooLarge(q: nat, x: int, y: int, v: int, w: int, T: int, S: int, b: int)
    requires T > 0 && S > 0 && 0 <= q < b && q * v <= w && w * (T * S) <= x * b && y * b < (v + 1) * T && T <= y
    ensures q * (y * S) < x + y * S
  {
    var P, Y := T * S, y * S;
    MulMono(1, T, S);
    HeadAbove(y, v, T, S, b);
    HeadScale(q, Y * b, v, w, P, x * b);
    MulMono(T, y, S);
    BackDown(q, x, Y, P, b);
  }

  lemma HeadAbove(y: int, v: int, T: int, S: int, b: int)
    requires S > 0 && y * b < (v + 1) * T
    ensures (y * S) * b < v * (T * S) + T * S
  {
    MulLess'(S, y * b, (v + 1) * T);
    MulAssoc(v + 1, T, S);
    MulDistr(v, 1, T * S);
    MulComm(S, (v + 1) * T);
    Swapped(S, y, b);
  }

  lemma Swapped(s: int, y: int, b: int)
    ensures s * (y * b) == (y * s) * b
  {
  }

  lemma HeadScale(q: int, yb: int, v: int, w: int, P: int, xb: int)
    requires q >= 0 && P > 0 && yb < v * P + P && q * v <= w && w * P <= xb
    ensures q * yb <= xb + q * P
  {
    MulMono(yb, v * P + P, q);
    MulComm(q, yb);
    MulDistr(v * P, P, q);
    MulMono(q * v, w, P);
    MulAssoc(q, v, P);
    MulComm(q, v * P);
    MulComm(q, P);
  }

  lemma BackDown(q: int, x: int, Y: int, P: int, b: int)
    requires 0 <= q < b && 0 < P <= Y && q * (Y * b) <= x * b + q * P
    ensures q * Y < x + Y
  {
    MulMono(q + 1, b, P);
    MulDistr(q, 1, P);
    MulMono(P, Y, b);
    MulComm(P, b);
    MulAssoc(q, Y, b);
    MulDistr(x, Y, b);
    MulComm(q * Y, b);
    MulComm(x + Y, b);
    MulLess(b, q * Y, x + Y);
  }

  /** The estimate from two dividend limbs and one divisor limb. */
  function Estimate(x: nat, y: nat, i: nat, t: nat, b: nat): (q: int)
    requires b >= 2 && i >= 1 && Limb(y, t, b) >= 1
  {
    if Limb(x, i, b) >= Limb(y, t, b) then b - 1
    else (Limb(x, i, b) * b + Limb(x, i - 1, b)) / Limb(y, t, b)
  }

  lemma EstimateNotTooSmall(q: nat, x: nat, y: nat, i: nat, t: nat, b: nat)
    requires b >= 2 && t < i && y < Pow(b, t + 1) && x < Pow(b, i + 1) && Limb(y, t, b) >= 1
    requires q < b && q * (y * Pow(b, i - t - 1)) <= x
    ensures q <= Estimate(x, y, i, t, b) < b
  {
    TopLimb(y, t, b);
    TopLimb(x, i, b);
    PrefixLimb(x, i - 1, b);
    var d, h, S, T := Limb(y, t, b), x / Pow(b, i - 1), Pow(b, i - t - 1), Pow(b, t);
    PowAdd(b, t, i - t - 1);
    FloorBounds(y, T);
    FloorBounds(x, T * S);
    DigitBelow(q, x, y, d, h, T, S);
    if Limb(x, i, b) < d { QuotientRange(q, h, d, Limb(x, i, b), Limb(x, i - 1, b), b); }
  }

  lemma DigitBelow(q: nat, x: int, y: int, d: int, h: int, T: int, S: int)
    requires T > 0 && S > 0 && d * T <= y && x < h * (T * S) + T * S && q * (y * S) <= x
    ensures q * d <= h
  {
    var P := T * S;
    MulMono(d * T, y, S);
    MulAssoc(d, T, S);
    MulMono(d * P, y * S, q);
    MulAssoc(q, d, P);
    MulDistr(h, 1, P);
    assert P * (q * d) < P * (h + 1);
    MulLess(P, q * d, h + 1);
  }

  lemma QuotientRange(q: nat, h: int, d: int, x1: nat, x0: nat, b: int)
    requires d > 0 && h == x1 * b + x0 && q * d <= h && x1 < d && x0 < b
    ensures q <= h / d < b
  {
    FloorBounds(h, d);
    if h / d < q { MulMono(h / d + 1, q, d); MulDistr(h / d, 1, d); }
    MulMono(x1 + 1, d, b);
    MulDistr(x1, 1, b);
    if h / d >= b { MulMono(b, h / d, d); }
  }

  lemma TrueDigit(x: nat, y: nat, S: int, b: nat)
    requires y > 0 && S > 0 && x < y * (b * S)
    ensures y * S > 0 && 0 <= x / (y * S) < b && (x / (y * S)) * (y * S) <= x < (x / (y * S) + 1) * (y * S)
  {
    var D := y * S;
    MulMono(1, y, S);
    FloorBounds(x, D);
    MulDistr(x / D, 1, D);
    assert y * (b * S) == b * D;
    if x / D >= b { MulMono(b, x / D, D); }
  }

  lemma LeadingLimb(y: nat, t: nat, b: nat)
    requires b >= 2 && Pow(b, t) <= y < Pow(b, t + 1)
    ensures Limb(y, t, b) >= 1
  {
    TopLimb(y, t, b);
    FloorBounds(y, Pow(b, t));
    if y / Pow(b, t) <= 0 { MulMono(y / Pow(b, t), 0, Pow(b, t)); }
  }

  /** The corrected digit: never below the true digit, and at most one above it. The loop stops
      at the true digit at the latest, so it never passes zero. */
  method QuotientDigit(x: nat, y: nat, i: nat, t: nat, b: nat) returns (q: nat)
    requires b >= 2 && t < i && Pow(b, t) <= y < Pow(b, t + 1) && x < y * Pow(b, i - t) && x < Pow(b, i + 1)
    ensures q < b
    ensures x < (q + 1) * (y * Pow(b, i - t - 1))
    ensures q * (y * Pow(b, i - t - 1)) < x + y * Pow(b, i - t - 1)
  {
    ghost var exact := DigitFacts(x, y, i, t, b);
    var v, w := DivisorHead(y, t, b), DividendHead(x, i, b);
    q := Estimate(x, y, i, t, b);
    while q * v > w
      invariant exact <= q < b
      decreases q
    {
      q := q - 1;
    }
    DigitClose(q, exact, x, y, i, t, b);
  }

  /** The true digit is not above the estimate and passes the test on the leading limbs. */
  lemma DigitFacts(x: nat, y: nat, i: nat, t: nat, b: nat) returns (exact: nat)
    requires b >= 2 && t < i && Pow(b, t) <= y < Pow(b, t + 1) && x < y * Pow(b, i - t) && x < Pow(b, i + 1)
    ensures x < (exact + 1) * (y * Pow(b, i - t - 1))
    ensures Limb(y, t, b) >= 1 && exact <= Estimate(x, y, i, t, b) < b
    ensures exact * DivisorHead(y, t, b) <= DividendHead(x, i, b)
  {
    hide Limb, DivisorHead, DividendHead;
    var S, T := Pow(b, i - t - 1), Pow(b, t);
    TrueDigit(x, y, S, b);
    exact := x / (y * S);
    LeadingLimb(y, t, b);
    EstimateNotTooSmall(exact, x, y, i, t, b);
    DivisorHeadBounds(y, t, b);
    DividendHeadBounds(x, i, b);
    PowAdd(b, t, i - t - 1);
    HeadTest(exact, x, y, DivisorHead(y, t, b), DividendHead(x, i, b), T, S, b);
  }

  lemma DigitClose(q: nat, exact: nat, x: nat, y: nat, i: nat, t: nat, b: nat)
    requires b >= 2 && t < i && Pow(b, t) <= y < Pow(b, t + 1) && x < Pow(b, i + 1)
    requires exact <= q < b && x < (exact + 1) * (y * Pow(b, i - t - 1))
    requires q * DivisorHead(y, t, b) <= DividendHead(x, i, b)
    ensures x < (q + 1) * (y * Pow(b, i - t - 1))
    ensures q * (y * Pow(b, i - t - 1)) < x + y * Pow(b, i - t - 1)
  {
    hide Limb, DivisorHead, DividendHead;
    var S, T := Pow(b, i - t - 1), Pow(b, t);
    DivisorHeadBounds(y, t, b);
    DividendHeadBounds(x, i, b);
    PowAdd(b, t, i - t - 1);
    OneTooLarge(q, x, y, DivisorHead(y, t, b), DividendHead(x, i, b), T, S, b);
    MulMono(0, y, S);
    MulMono(exact + 1, q + 1, y * S);
  }

  // ----- the whole quotient

  /** Quotient limb so far: what has been taken from X is in Z, times Y. */
  ghost predicate Balanced(x0: int, x: int, y: int, z: seq<nat>, b: nat) {
    IsLimbs(z, b) && x0 == x + y * Val(z, b)
  }

  lemma DigitStored(x0: int, x: int, y: int, z: seq<nat>, k: nat, q: nat, b: nat)
    requires Balanced(x0, x, y, z, b) && k < |z| && z[k] == 0 && q < b
    ensures Balanced(x0, x - q * (y * Pow(b, k)), y, z[k := q], b)
  {
    ValUpdate(z, k, q, b);
    TakenOut(y, Val(z, b), q, Pow(b, k));
  }

  lemma TakenOut(y: int, v: int, q: int, p: int)
    ensures y * (v + q * p) == y * v + q * (y * p)
  {
    MulDistr(v, q * p, y);
    MulAssoc(q, p, y);
  }

  /** The leading limb: as many subtractions of the shifted divisor as it takes, fewer than b. */
  method LeadingDigit(x0: nat, y: nat, n: nat, t: nat, z: array<nat>, b: nat) returns (x: nat)
    requires b >= 2 && t <= n && Pow(b, t) <= y && x0 < Pow(b, n + 1) && n - t < z.Length
    requires forall k :: 0 <= k < z.Length ==> z[k] == 0
    modifies z
    ensures x < y * Pow(b, n - t) && Balanced(x0, x, y, z[..], b)
    ensures forall k :: 0 <= k < n - t ==> z[k] == 0
    ensures z[n - t] * (y * Pow(b, n - t)) <= x0
  {
    x := x0;
    var yy := y * Pow(b, n - t);
    MulMono(1, y, Pow(b, n - t));
    ghost var was := z[..];
    ValZero(was, b);
    while x >= yy
      invariant z[..] == was[n - t := z[n - t]] && x0 == x + z[n - t] * yy
      decreases x
    {
      z[n - t] := z[n - t] + 1;
      x := x - yy;
      MulDistr(z[n - t], 1, yy);
    }
    LeadingFits(z[n - t], x0, y, n, t, b);
    assert Balanced(x0, x0, y, was, b);
    DigitStored(x0, x0, y, was, n - t, z[n - t], b);
  }

  lemma LeadingFits(d: nat, x0: nat, y: nat, n: nat, t: nat, b: nat)
    requires b >= 2 && t <= n && Pow(b, t) <= y && x0 < Pow(b, n + 1) && d * (y * Pow(b, n - t)) <= x0
    ensures d < b
  {
    hide Pow;
    PowAdd(b, t, n - t);
    PowNext(b, n);
    LeadingCore(d, x0, y, Pow(b, t), Pow(b, n - t), Pow(b, n), b);
  }

  lemma LeadingCore(d: int, x0: int, y: int, p: int, s: int, pn: int, b: int)
    requires d >= 0 && s > 0 && pn > 0 && pn == p * s && p <= y && x0 < b * pn && d * (y * s) <= x0
    ensures d < b
  {
    MulMono(p, y, s);
    MulMono(pn, y * s, d);
    MulComm(pn, d);
    MulComm(y * s, d);
    MulComm(b, pn);
    MulLess(pn, d, b);
  }

  /** One pass of the main loop: estimate, subtract, and add back once if that went below zero. */
  method DigitStep(x0: nat, x: nat, y: nat, i: nat, t: nat, z: array<nat>, b: nat) returns (x': nat)
    requires b >= 2 && t < i && Pow(b, t) <= y < Pow(b, t + 1) && x < y * Pow(b, i - t) && i - t - 1 < z.Length
    requires Balanced(x0, x, y, z[..], b) && z[i - t - 1] == 0
    modifies z
    ensures x' < y * Pow(b, i - t - 1) && Balanced(x0, x', y, z[..], b)
    ensures forall k :: 0 <= k < z.Length && k != i - t - 1 ==> z[k] == old(z[k])
  {
    ghost var was := z[..];
    DividendFits(x, y, i, t, b);
    var q := QuotientDigit(x, y, i, t, b);
    var d := y * Pow(b, i - t - 1);
    MulDistr(q, 1, d);
    var r := x - q * d;
    if r < 0 {
      r := r + d;
      if q == 0 { assert false; }
      MulDistr(q, 1, d);
      q := q - 1;
    }
    z[i - t - 1] := q;
    assert z[..] == was[i - t - 1 := q];
    DigitStored(x0, x, y, was, i - t - 1, q, b);
    x' := r;
  }

  lemma DividendFits(x: nat, y: nat, i: nat, t: nat, b: nat)
    requires b >= 2 && t < i && y < Pow(b, t + 1) && x < y * Pow(b, i - t)
    ensures x < Pow(b, i + 1)
  {
    PowAdd(b, t + 1, i - t);
    MulMono(y, Pow(b, t + 1), Pow(b, i - t));
  }

  /** X = Y * Z + rest with rest < Y, for magnitudes with X >= Y > 0. */
  method DivLoop(x0: nat, y: nat, n: nat, t: nat, zlen: nat, b: nat) returns (z: array<nat>, x: nat)
    requires b >= 2 && t <= n && Pow(b, t) <= y < Pow(b, t + 1) && x0 < Pow(b, n + 1) && n - t < zlen
    ensures fresh(z) && x < y && Balanced(x0, x, y, z[..], b)
  {
    z := new nat[zlen](_ => 0);
    x := LeadingDigit(x0, y, n, t, z, b);
    var i := n;
    while i > t
      invariant t <= i <= n && x < y * Pow(b, i - t) && Balanced(x0, x, y, z[..], b)
      invariant forall k :: 0 <= k < i - t ==> z[k] == 0
    {
      x := DigitStep(x0, x, y, i, t, z, b);
      i := i - 1;
    }
    assert Pow(b, 0) == 1;
  }

  // ----- normalisation

  /** The shift that leaves exactly the top bit of the divisor's top limb clear. */
  function NormShift(y: nat, biL: nat): (k: nat)
    requires biL >= 2
    ensures k < biL && (BitLen(y) + k) % biL == biL - 1
  {
    var k := BitLen(y) % biL;
    var s := if k < biL - 1 then biL - 1 - k else 0;
    DivModUnique(BitLen(y) + s, biL, BitLen(y) / biL, biL - 1);
    s
  }

  lemma {:induction false} BitLenBounds(v: nat)
    requires v > 0
    ensures BitLen(v) > 0 && Pow(2, BitLen(v) - 1) <= v < Pow(2, BitLen(v))
  {
    if v > 1 { BitLenBounds(v / 2); } else { assert Pow(2, 1) == 2 && Pow(2, 0) == 1; }
  }

  /** After the shift the top limb of the divisor lies between b/4 and b/2. */
  lemma Normalised(y: nat, biL: nat)
    requires biL >= 2 && y > 0
    ensures var b, v := Pow(2, biL), y * Pow(2, NormShift(y, biL));
      exists t: nat :: Pow(b, t) * Pow(2, biL - 2) <= v < Pow(b, t) * Pow(2, biL - 1)
  {
    hide Pow, BitLen, NormShift;
    var n, k, b := BitLen(y), NormShift(y, biL), Pow(2, biL);
    BitLenBounds(y);
    var m := (n + k) / biL;
    assert n + k == m * biL + (biL - 1) by { TopBit(n + k, biL); }
    PowAdd(2, n - 1, k);
    PowAdd(2, n, k);
    PowPow(2, biL, m);
    MulComm(biL, m);
    PowAdd(2, m * biL, biL - 2);
    PowAdd(2, m * biL, biL - 1);
    ScaledBounds(y, Pow(2, n - 1), Pow(2, n), Pow(2, k));
    assert Pow(b, m) * Pow(2, biL - 2) <= y * Pow(2, k) < Pow(b, m) * Pow(2, biL - 1);
  }

  lemma TopBit(x: nat, w: nat)
    requires w >= 2 && x % w == w - 1
    ensures x / w >= 0 && x == (x / w) * w + (w - 1)
  {
    FloorBounds(x, w);
  }

  lemma ScaledBounds(y: int, lo: int, hi: int, p: int)
    requires lo <= y < hi && p > 0
    ensures lo * p <= y * p < hi * p
  {
    MulMono(lo, y, p);
    MulMono(y + 1, hi, p);
    MulDistr(y, 1, p);
  }

  // ----- mbedtls_mpi_div_mpi and mbedtls_mpi_mod_mpi

  /** A = Q * B + R with |R| < |B| and R carrying the sign of A, for all A and all nonzero B. */
  method DivMpi(A: int, B: int, biL: nat) returns (res: DivResult)
    requires biL >= 2
    ensures res.DivisionByZero? <==> B == 0
    ensures res.Divided? ==> A == res.q * B + res.r && Abs(res.r) < Abs(B)
    ensures res.Divided? ==> (res.r == 0 || (res.r > 0 <==> A > 0))
  {
    if B == 0 { return DivisionByZero; }
    if Abs(A) < Abs(B) { return Divided(0, A); }
    var b := Pow(2, biL);
    var k := NormShift(Abs(B), biL);
    var p := Pow(2, k);
    assert b >= 2 && p <= b by { PowMono(2, k, biL); }
    ScaledPair(Abs(A), Abs(B), p);
    var x: nat, y: nat := Abs(A) * p, Abs(B) * p;
    LimbCountBounds(x, b);
    LimbCountBounds(y, b);
    var n, t := LimbCount(x, b) - 1, LimbCount(y, b) - 1;
    if t > n { PowMono(b, n + 1, t); assert false; }
    ShiftedCount(Abs(A), p, n, b);
    var z, rest := DivLoop(x, y, n, t, LimbCount(Abs(A), b) + 2, b);
    var q := Val(z[..], b);
    Unscale(Abs(A), Abs(B), p, q, rest);
    var r := rest / p;
    Signs(A, B, q, r);
    res := Divided(if (A < 0) == (B < 0) then q else -q, if A < 0 then -r else r);
  }

  /** The shift adds at most one limb. */
  lemma ShiftedCount(a: nat, p: nat, n: nat, b: nat)
    requires b >= 2 && a > 0 && p <= b && Pow(b, n) <= a * p
    ensures n <= LimbCount(a, b)
  {
    hide Pow, LimbCount;
    var c := LimbCount(a, b);
    LimbCountBounds(a, b);
    assert Pow(b, c + 1) == b * Pow(b, c) by { PowNext(b, c); }
    MulMono(p, b, a);
    MulLess'(b, a, Pow(b, c));
    MulComm(a, p);
    if n > c { PowMono(b, c + 1, n); }
  }

  lemma ScaledPair(a: nat, c: nat, p: int)
    requires 0 < c <= a && p > 0
    ensures 0 < c * p <= a * p
  {
    MulMono(1, c, p);
    MulMono(c, a, p);
  }

  /** The remainder of the shifted numbers is the shifted remainder. */
  lemma Unscale(a: nat, c: nat, p: int, q: int, rest: nat)
    requires p > 0 && a * p == rest + (c * p) * q && rest < c * p
    ensures a == c * q + rest / p && 0 <= rest / p < c
  {
    MulAssoc(c, q, p);
    MulDistr(a, c * q, p);
    DivModUnique(rest, p, a - c * q, 0);
    if a - c * q < 0 { MulMono(a - c * q, -1, p); }
    if a - c * q >= c { MulMono(c, a - c * q, p); }
  }

  lemma Signs(A: int, B: int, q: int, r: int)
    requires Abs(A) == Abs(B) * q + r
    ensures A == (if (A < 0) == (B < 0) then q else -q) * B + if A < 0 then -r else r
  {
  }

  /** R = A mod B, the least non-negative residue; a negative B is refused. */
  method ModMpi(A: int, B: int, biL: nat) returns (r: Option<int>)
    requires biL >= 2
    ensures r.None? <==> B <= 0
    ensures r.Some? ==> r.value == A % B
  {
    if B < 0 { return None; }
    var d := DivMpi(A, B, biL);
    if d.DivisionByZero? { return None; }
    var R := d.r;
    CongIntro(A, R, d.q, B);
    while R < 0
      invariant Cong(R, A, B)
      decreases -R
    {
      CongIntro(R + B, R, 1, B);
      R := R + B;
    }
    while R >= B
      invariant 0 <= R && Cong(R, A, B)
      decreases R
    {
      CongIntro(R - B, R, -1, B);
      R := R - B;
    }
    DivModUnique(R, B, 0, R);
    return Some(R);
  }

}

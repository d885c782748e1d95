/** ECDSA over an arbitrary group of odd prime order (SEC1, sections 4.1.3 and 4.1.4). The random
    source is an arbitrary choice within the range that the library filters for. */
module Ecdsa {
  import opened Arith
  import opened ByteOps
  import opened GcdInverse
  import opened AbelianGroup
  import CombMul

  datatype Verdict = Accepted | VerifyFailed | InvalidKey

  /** A group whose order is the odd prime N, with a generator and the x coordinate of its points. Nothing is
      assumed about the stray point, which the multiplication may read for a table entry that is zero. */
  datatype Curve<!G> = Curve(g: Group<G>, base: G, x: G -> nat, N: nat, nbits: nat, stray: G)

  ghost predicate Ok<G(!new)>(cv: Curve<G>) {
    && Abelian(cv.g) && cv.base != cv.g.zero
    && cv.N % 2 == 1 && cv.N >= 3 && cv.nbits >= 1 && Pow(2, cv.nbits - 1) <= cv.N < Pow(2, cv.nbits)
    && (forall p :: Mul(cv.g, cv.N, p) == cv.g.zero)
    && (forall z: int :: 1 <= z < cv.N ==> IsGcd(1, z, cv.N))
  }

  /** (r, s) is a signature of e under d: made with some one-time key k, s being (e + r*d)/k mod N. */
  ghost predicate Signature<G>(cv: Curve<G>, r: int, s: int, e: int, d: int)
    requires cv.N > 0
  {
    && 1 <= r < cv.N && 1 <= s < cv.N
    && exists k: int :: 1 <= k < cv.N && r == cv.x(Mul(cv.g, k, cv.base)) % cv.N && Cong(s * k, e + r * d, cv.N)
  }

  // ----- derive_mpi

  /** The leftmost nbits bits of the hash, reduced modulo N by at most one subtraction. */
  method DeriveMpi(buf: seq<nat>, N: nat, nbits: nat) returns (e: nat)
    requires nbits >= 1 && Pow(2, nbits - 1) <= N < Pow(2, nbits)
    requires forall i :: 0 <= i < |buf| ==> buf[i] < 256
    ensures e < N && Cong(e, HashInt(buf, nbits), N)
  {
    e := HashInt(buf, nbits);
    HashIntBound(buf, nbits);
    if e >= N {
      CongIntro(e - N, e, -1, N);
      e := e - N;
    }
  }

  function HashInt(buf: seq<nat>, nbits: nat): nat {
    var size := (nbits + 7) / 8;
    var use := if |buf| > size then size else |buf|;
    var x := BytesValue(buf[..use]);
    if use * 8 > nbits then Cut(x, use * 8 - nbits) else x
  }

  /** Right shift. */
  function Cut(x: nat, k: nat): nat {
    x / Pow(2, k)
  }

  lemma CutBound(x: nat, n: nat, k: nat)
    requires x < Pow(2, n + k)
    ensures Cut(x, k) < Pow(2, n)
  {
    PowAdd(2, n, k);
    QuotientBelow(x, Pow(2, n), Pow(2, k));
  }

  /** The value is that of the whole string cut down to its nbits leading bits; a string that is not longer is
      taken as it is. */
  lemma HashIntLeftmost(buf: seq<nat>, nbits: nat)
    requires nbits >= 1 && Bytes(buf)
    ensures HashInt(buf, nbits) ==
      if 8 * |buf| > nbits then BytesValue(buf) / Pow(2, 8 * |buf| - nbits) else BytesValue(buf)
  {
    hide Pow, BytesValue;
    var size := (nbits + 7) / 8;
    if |buf| <= size {
      assert buf[..|buf|] == buf;
    } else {
      var r, k := |buf| - size, 8 * size - nbits;
      assert buf == buf[..size] + buf[size..];
      BytesSplit(buf, size);
      LeadingBytes(buf[..size], buf[size..]);
      PowAdd(2, 8 * r, k);
      DivDiv(BytesValue(buf), Pow(2, 8 * r), Pow(2, k));
      PowNext(2, 0);
      if k == 0 { DivModUnique(BytesValue(buf[..size]), 1, BytesValue(buf[..size]), 0); }
    }
  }

  /** The first byte of a hash is used, not the last. */
  lemma FirstByteUsed()
    ensures HashInt([5, 7], 8) == 5
  {
    assert [5, 7][..1] == [5] && [5][..0] == [];
    assert BytesValue([5]) == 5;
  }

  lemma HashIntBound(buf: seq<nat>, nbits: nat)
    requires nbits >= 1 && forall i :: 0 <= i < |buf| ==> buf[i] < 256
    ensures HashInt(buf, nbits) < Pow(2, nbits)
  {
    hide Pow, Cut;
    var size := (nbits + 7) / 8;
    var use := if |buf| > size then size else |buf|;
    BytesValueBound(buf[..use]);
    if use * 8 > nbits {
      CutBound(BytesValue(buf[..use]), nbits, use * 8 - nbits);
    } else {
      PowMono(2, use * 8, nbits);
    }
  }

  lemma QuotientBelow(x: nat, p: int, q: int)
    requires q > 0 && x < p * q
    ensures 0 <= x / q < p
  {
    assert x == (x / q) * q + x % q;
    if x / q >= p { MulMono(p, x / q, q); }
    if x / q < 0 { MulMono(x / q, -1, q); }
  }

  // ----- scalars

  lemma ScalarInvertible<G(!new)>(cv: Curve<G>, z: int) returns (v: int)
    requires Ok(cv) && !Cong(z, 0, cv.N)
    ensures Cong(v * z, 1, cv.N)
  {
    var y := z % cv.N;
    DivModUnique(0, cv.N, 0, 0);
    assert 1 <= y < cv.N;
    var b, w := Coefficients(y, cv.N);
    v := b;
    CongMod(z, cv.N);
    CongMul(v, v, y, z, cv.N);
    CongIntro(1, v * y, w, cv.N);
  }

  /** A multiple of a point other than zero by a number that N does not divide is not the zero point. */
  lemma MultipleNotZero<G(!new)>(cv: Curve<G>, k: int, p: G)
    requires Ok(cv) && !Cong(k, 0, cv.N) && p != cv.g.zero
    ensures Mul(cv.g, k, p) != cv.g.zero
  {
    hide Abelian, Mul, IsGcd;
    var g, n := cv.g, cv.N;
    var v := ScalarInvertible(cv, k);
    var t := CongWitness(v * k, 1, n);
    MulOrder(g, v * k, 1, t, n, p);
    MulZero(g, p);
    MulMul(g, v, k, p);
    MulOfZero(g, v);
  }

  lemma NotZero(x: int, n: int)
    requires n > 0 && 1 <= x < n
    ensures !Cong(x, 0, n)
  {
    DivModUnique(x, n, 0, x);
    DivModUnique(0, n, 0, 0);
  }

  /** Products of numbers that N does not divide. */
  lemma ProductNotZero<G(!new)>(cv: Curve<G>, x: int, y: int)
    requires Ok(cv) && !Cong(x, 0, cv.N) && !Cong(y, 0, cv.N)
    ensures !Cong(x * y, 0, cv.N)
  {
    hide Abelian, Mul, IsGcd;
    if Cong(x * y, 0, cv.N) {
      var v := ScalarInvertible(cv, x);
      CongMul(v, v, x * y, 0, cv.N);
      MulAssoc(v, x, y);
      CongMul(v * x, 1, y, y, cv.N);
      assert false;
    }
  }

  lemma MultipleZero<G(!new)>(cv: Curve<G>, k: int, p: G)
    requires Ok(cv) && p != cv.g.zero
    ensures Mul(cv.g, k, p) == cv.g.zero <==> k % cv.N == 0
  {
    hide Abelian, Mul, IsGcd;
    var n := cv.N;
    DivModUnique(0, n, 0, 0);
    if k % n == 0 {
      MulOrder(cv.g, k, 0, k / n, n, p);
      MulZero(cv.g, p);
    } else {
      MultipleNotZero(cv, k, p);
    }
  }

  /** In prime order, the comb table of a point has a zero entry exactly when N divides an entry's weight,
      whatever the point is. */
  lemma TableOfPoint<G(!new)>(cv: Curve<G>, p: G, w: nat, d: nat)
    requires Ok(cv) && p != cv.g.zero && w >= 1
    ensures CombMul.ZeroEntry(cv.g, p, w, d) <==> CombMul.ZeroWeight(cv.N, d, w)
  {
    hide Ok, Mul, Pow, CombMul.EntryWeight;
    assert cv.N > 0 by { PositiveOrder(cv); }
    forall k: nat
      ensures Mul(cv.g, CombMul.EntryWeight(k, Pow(2, d)), p) == cv.g.zero
          <==> CombMul.EntryWeight(k, Pow(2, d)) % cv.N == 0
    {
      MultipleZero(cv, CombMul.EntryWeight(k, Pow(2, d)), p);
    }
  }

  lemma PositiveOrder<G(!new)>(cv: Curve<G>)
    requires Ok(cv)
    ensures cv.N > 0
  {
  }

  /** The comb table for this point is refused. */
  ghost predicate TableRefused<G>(cv: Curve<G>, p: G, maxW: nat)
    requires cv.N > 0 && 2 <= maxW <= 7
  {
    CombMul.Refused(cv.N, cv.nbits, p == cv.base, maxW)
  }

  /** The point multiplication used by both operations: refuses a scalar outside [1, N-1], the zero point,
      and a point whose comb table has a zero entry. The result is right for every order above 5. */
  method EcpMul<G(!new, ==)>(cv: Curve<G>, m: nat, p: G, maxW: nat) returns (r: Option<G>)
    requires Ok(cv) && 2 <= maxW <= 7
    ensures r.Some? <==> 1 <= m < cv.N && p != cv.g.zero && !TableRefused(cv, p, maxW)
    ensures r.Some? && cv.N > 5 ==> r.value == Mul(cv.g, m, p)
  {
    hide Abelian, Mul, IsGcd, CombMul.ZeroEntry, CombMul.ZeroWeight;
    if m < 1 || m >= cv.N || p == cv.g.zero { return None; }
    ghost var w := CombMul.Teeth(cv.nbits, p == cv.base, maxW);
    TableOfPoint(cv, p, w, CombMul.CombWidth(cv.nbits, w));
    if cv.N > 5 { CombMul.TwoTeeth(cv.N, cv.nbits); }
    var cache;
    r, cache := CombMul.MulComb(cv.g, p, m, cv.N, cv.nbits, p == cv.base, maxW, None, cv.stray);
  }

  // ----- mbedtls_ecdsa_sign

  /** Every pair that signing returns is a signature in the sense of the standard; the blinding
      factor t has cancelled out. */
  method Sign<G(!new, ==)>(cv: Curve<G>, d: nat, buf: seq<nat>, maxW: nat) returns (res: Option<(nat, nat)>, e: nat)
    requires Ok(cv) && 2 <= maxW <= 7 && 1 <= d < cv.N && forall i :: 0 <= i < |buf| ==> buf[i] < 256
    ensures e < cv.N && Cong(e, HashInt(buf, cv.nbits), cv.N)
    ensures res.Some? ==> !TableRefused(cv, cv.base, maxW)
    ensures res.Some? && cv.N > 5 ==> Signature(cv, res.value.0, res.value.1, e, d)
  {
    hide Abelian, Mul, IsGcd, HashInt, Cong;
    var N := cv.N;
    e := DeriveMpi(buf, N, cv.nbits);
    var signTries := 0;
    while true
      invariant 0 <= signTries <= 12 && e < N && Cong(e, HashInt(buf, cv.nbits), N)
      decreases 12 - signTries
    {
      var kr := OneTimeKey(cv, maxW);
      if kr.None? { return None, e; }
      var (k, r) := kr.value;
      if * { return None, e; }
      var t: nat :| 1 <= t < N;
      var s := SignWith(cv, r, d, e, k, t);
      if signTries > 10 { return None, e; }
      signTries := signTries + 1;
      if s != 0 { return Some((r, s)), e; }
    }
  }

  /** A random k in [1, N-1] whose point has a nonzero x coordinate modulo N; gives up after a while. */
  method OneTimeKey<G(!new, ==)>(cv: Curve<G>, maxW: nat) returns (res: Option<(nat, nat)>)
    requires Ok(cv) && 2 <= maxW <= 7
    ensures res.Some? ==> var (k, r) := res.value;
      && 1 <= k < cv.N && 1 <= r < cv.N && !TableRefused(cv, cv.base, maxW)
      && (cv.N > 5 ==> r == cv.x(Mul(cv.g, k, cv.base)) % cv.N)
  {
    var keyTries := 0;
    while true
      invariant 0 <= keyTries <= 12
      decreases 12 - keyTries
    {
      if * { return None; }
      var k: nat :| 1 <= k < cv.N;
      var R := EcpMul(cv, k, cv.base, maxW);
      if R.None? { return None; }
      var r := cv.x(R.value) % cv.N;
      if keyTries > 10 { return None; }
      keyTries := keyTries + 1;
      if r != 0 { return Some((k, r)); }
    }
  }

  /** s = t(e + r*d) / (k*t) mod N. */
  method SignWith<G(!new)>(cv: Curve<G>, r: nat, d: nat, e: nat, k: nat, t: nat) returns (s: nat)
    requires Ok(cv) && 1 <= k < cv.N && 1 <= t < cv.N
    ensures s < cv.N && Cong(s * k, e + r * d, cv.N)
  {
    hide Abelian, Mul, Cong;
    var N := cv.N;
    var e' := (e + r * d) * t;
    var k' := k * t;
    NotZero(k, N);
    NotZero(t, N);
    ProductNotZero(cv, k, t);
    ghost var v := ScalarInvertible(cv, k');
    var inv := InvMod(k', N);
    assert Cong(v * k', 1, N);
    s := Residue(inv.x * e', N);
    ghost var tv := ScalarInvertible(cv, t);
    Unblind(s, inv.x, e + r * d, k, t, tv, N);
  }

  method Residue(v: int, n: nat) returns (r: nat)
    requires n > 0
    ensures r < n && Cong(r, v, n)
  {
    CongMod(v, n);
    r := v % n;
  }

  lemma Unblind(s: int, inv: int, m: int, k: int, t: int, tv: int, n: int)
    requires n > 0 && Cong(s, inv * (m * t), n) && Cong(inv * (k * t), 1, n) && Cong(tv * t, 1, n)
    ensures Cong(s * k, m, n)
  {
    CongMul(s, inv * (m * t), k, k, n);
    Shuffle(inv, m, t, k);
    CongMul(m, m, inv * (k * t), 1, n);
  }

  lemma Shuffle(i: int, m: int, t: int, k: int)
    ensures (i * (m * t)) * k == m * (i * (k * t))
  {
    MulAssoc(i, m, t);
    MulAssoc(m, i, k * t);
    MulAssoc(i * m, t, k);
  }

  // ----- mbedtls_ecdsa_verify

  /** The standard's equation, for the inverse w of s: R = u1*G + u2*Q with u1 = e*w, u2 = r*w. */
  ghost predicate Equation<G>(cv: Curve<G>, r: int, s: int, e: int, Q: G, w: int)
    requires cv.N > 0
  {
    var R := cv.g.add(Mul(cv.g, (e * w) % cv.N, cv.base), Mul(cv.g, (r * w) % cv.N, Q));
    Cong(w * s, 1, cv.N) && R != cv.g.zero && cv.x(R) % cv.N == r
  }

  /** Accepts exactly the pairs in range that satisfy the equation, for a valid key, a hash that N does not
      divide, since the multiplication refuses the scalar 0, and points whose comb tables are not refused. */
  method Verify<G(!new, ==)>(cv: Curve<G>, e: nat, Q: G, r: int, s: int, maxW: nat) returns (v: Verdict)
    requires Ok(cv) && 2 <= maxW <= 7 && e < cv.N
    ensures v == Accepted ==> e != 0 && !TableRefused(cv, cv.base, maxW) && !TableRefused(cv, Q, maxW)
    ensures cv.N > 5 ==> (v == Accepted <==>
      && 1 <= r < cv.N && 1 <= s < cv.N && Q != cv.g.zero && e != 0
      && !TableRefused(cv, cv.base, maxW) && !TableRefused(cv, Q, maxW)
      && exists w: nat :: w < cv.N && Equation(cv, r, s, e, Q, w))
  {
    hide Abelian, Mul, Cong, IsGcd, CombMul.Refused;
    var N := cv.N;
    if r < 1 || r >= N || s < 1 || s >= N { return VerifyFailed; }
    if Q == cv.g.zero { return InvalidKey; }
    NotZero(s, N);
    ghost var sv := ScalarInvertible(cv, s);
    var inv := InvMod(s, N);
    assert Cong(sv * s, 1, N);
    var w := inv.x;
    var u1: nat := (e * w) % N;
    var u2: nat := (r * w) % N;
    ScalarZero(cv, e, w, s);
    ScalarZero(cv, r, w, s);
    InverseUnique(cv, r, s, e, Q, w);
    var mP := EcpMul(cv, u1, cv.base, maxW);
    if mP.None? { return InvalidKey; }
    var nQ := EcpMul(cv, u2, Q, maxW);
    if nQ.None? { return InvalidKey; }
    var R := cv.g.add(mP.value, nQ.value);
    if R == cv.g.zero { return VerifyFailed; }
    if cv.x(R) % N != r { return VerifyFailed; }
    assert cv.N > 5 ==> Equation(cv, r, s, e, Q, w);
    return Accepted;
  }

  lemma ScalarZero<G(!new)>(cv: Curve<G>, e: nat, w: int, s: int)
    requires Ok(cv) && e < cv.N && Cong(w * s, 1, cv.N)
    ensures 0 <= (e * w) % cv.N < cv.N && ((e * w) % cv.N == 0 <==> e == 0)
  {
    hide Abelian, Mul, IsGcd;
    var n := cv.N;
    if e != 0 {
      NotZero(e, n);
      if Cong(w, 0, n) { CongMul(w, 0, s, s, n); NotZero(1, n); assert false; }
      ProductNotZero(cv, e, w);
      DivModUnique(0, n, 0, 0);
    } else {
      DivModUnique(0, n, 0, 0);
    }
  }

  lemma InverseUnique<G(!new)>(cv: Curve<G>, r: int, s: int, e: int, Q: G, w: nat)
    requires Ok(cv) && w < cv.N && Cong(w * s, 1, cv.N)
    ensures (exists w': nat :: w' < cv.N && Equation(cv, r, s, e, Q, w')) <==> Equation(cv, r, s, e, Q, w)
  {
    hide Abelian, Mul, IsGcd;
    forall w': nat | w' < cv.N && Cong(w' * s, 1, cv.N)
      ensures w' == w
    {
      CongCancel(w', w, s, w, cv.N);
      CongSmall(w', w, cv.N);
    }
  }

  /** Verification accepts a signature under its own key exactly when e is not 0. */
  lemma SignatureSatisfiesEquation<G(!new)>(cv: Curve<G>, r: int, s: int, e: int, d: int, Q: G, w: int)
    requires Ok(cv) && Signature(cv, r, s, e, d) && Q == Mul(cv.g, d, cv.base) && Cong(w * s, 1, cv.N)
    ensures Equation(cv, r, s, e, Q, w)
  {
    hide Abelian, Mul, IsGcd;
    var g, n, p := cv.g, cv.N, cv.base;
    var k :| 1 <= k < n && r == cv.x(Mul(g, k, p)) % n && Cong(s * k, e + r * d, n);
    var u1, u2 := (e * w) % n, (r * w) % n;
    MulMul(g, u2, d, p);
    MulAdd(g, u1, u2 * d, p);
    KeyRecovered(u1, u2, e, r, d, w, s, k, n);
    var t := CongWitness(u1 + u2 * d, k, n);
    MulOrder(g, u1 + u2 * d, k, t, n, p);
    NotZero(k, n);
    MultipleNotZero(cv, k, p);
  }

  /** u1 + u2*d = w(e + r*d) = w*s*k = k modulo n. */
  lemma KeyRecovered(u1: int, u2: int, e: int, r: int, d: int, w: int, s: int, k: int, n: int)
    requires n > 0 && u1 == (e * w) % n && u2 == (r * w) % n && Cong(w * s, 1, n) && Cong(s * k, e + r * d, n)
    ensures Cong(u1 + u2 * d, k, n)
  {
    CongMod(e * w, n);
    CongMod(r * w, n);
    CongMul(u2, r * w, d, d, n);
    CongAdd(u1, e * w, u2 * d, (r * w) * d, n);
    Gather(e, r, d, w);
    CongMul(s * k, e + r * d, w, w, n);
    MulAssoc(w, s, k);
    CongMul(w * s, 1, k, k, n);
  }

  lemma Gather(e: int, r: int, d: int, w: int)
    ensures e * w + (r * w) * d == (e + r * d) * w
  {
    MulDistr(e, r * d, w);
    MulAssoc(r, w, d);
    MulAssoc(r, d, w);
  }

  /** Signing, then verifying with the matching key: accepted exactly when the hash value is not 0 and the
      comb table of the key is not refused; from 26 bits on that is exactly when the hash value is not 0. */
  method RoundTrip<G(!new, ==)>(cv: Curve<G>, d: nat, buf: seq<nat>, maxW: nat) returns (v: Option<Verdict>, e: nat)
    requires Ok(cv) && 2 <= maxW <= 7 && 1 <= d < cv.N && forall i :: 0 <= i < |buf| ==> buf[i] < 256
    ensures e < cv.N && Cong(e, HashInt(buf, cv.nbits), cv.N)
    ensures v.Some? && v.value == Accepted ==> e != 0
    ensures v.Some? && cv.N > 5 ==>
      (v.value == Accepted <==> e != 0 && !TableRefused(cv, Mul(cv.g, d, cv.base), maxW))
    ensures v.Some? && cv.nbits >= 26 ==> (v.value == Accepted <==> e != 0)
  {
    hide Abelian, Mul, IsGcd, CombMul.Refused, HashInt;
    var sig;
    sig, e := Sign(cv, d, buf, maxW);
    if sig.None? { return None, e; }
    var Q := EcpMul(cv, d, cv.base, maxW);
    var r, s := sig.value.0, sig.value.1;
    var verdict := Verify(cv, e, Q.value, r, s, maxW);
    if cv.N > 5 { OwnKey(cv, r, s, e, d); }
    if cv.nbits >= 26 { LargeOrder(cv, Mul(cv.g, d, cv.base), maxW); }
    v := Some(verdict);
  }

  /** A signature satisfies the equation under its own key. */
  lemma OwnKey<G(!new)>(cv: Curve<G>, r: int, s: int, e: int, d: int)
    requires Ok(cv) && Signature(cv, r, s, e, d) && 1 <= d < cv.N
    ensures var Q := Mul(cv.g, d, cv.base);
      Q != cv.g.zero && exists w: nat :: w < cv.N && Equation(cv, r, s, e, Q, w)
  {
    hide Abelian, Mul, IsGcd;
    NotZero(d, cv.N);
    MultipleNotZero(cv, d, cv.base);
    NotZero(s, cv.N);
    var w0 := ScalarInvertible(cv, s);
    var w: nat := w0 % cv.N;
    CongMod(w0, cv.N);
    CongMul(w, w0, s, s, cv.N);
    SignatureSatisfiesEquation(cv, r, s, e, d, Mul(cv.g, d, cv.base), w);
  }

  lemma LargeOrder<G(!new)>(cv: Curve<G>, p: G, maxW: nat)
    requires Ok(cv) && 2 <= maxW <= 7 && cv.nbits >= 26
    ensures cv.N > 5 && !TableRefused(cv, p, maxW)
  {
    CombMul.NeverRefused(cv.N, cv.nbits, p == cv.base, maxW);
    PowMono(2, 3, cv.nbits - 1);
    CombMul.SmallPowers();
  }

  /** Order 17: every correct signature under a key other than the base point is rejected. */
  method OrderSeventeen<G(!new, ==)>(cv: Curve<G>, d: nat, buf: seq<nat>, maxW: nat) returns (v: Option<Verdict>)
    requires Ok(cv) && cv.N == 17 && cv.nbits == 5 && 5 <= maxW <= 7
    requires 2 <= d < 17 && forall i :: 0 <= i < |buf| ==> buf[i] < 256
    ensures v.Some? ==> v.value != Accepted
  {
    hide Abelian, Mul, IsGcd, CombMul.Refused, HashInt;
    var e;
    v, e := RoundTrip(cv, d, buf, maxW);
    OtherPoint(cv, d);
    CombMul.SmallOrderRefused(maxW);
  }

  lemma OtherPoint<G(!new)>(cv: Curve<G>, d: nat)
    requires Ok(cv) && 2 <= d < cv.N
    ensures Mul(cv.g, d, cv.base) != cv.base
  {
    hide Abelian, Mul, IsGcd;
    var g, p := cv.g, cv.base;
    NotZero(d - 1, cv.N);
    MultipleNotZero(cv, d - 1, p);
    MulAdd(g, d - 1, 1, p);
    MulZero(g, p);
    if Mul(g, d, p) == p {
      Laws(g, p, p, p);
      CancelRight(g, Mul(g, d - 1, p), g.zero, p);
    }
  }

  /** The empty hash has the value 0, so a correct signature of it is rejected. */
  method EmptyHash<G(!new, ==)>(cv: Curve<G>, d: nat, maxW: nat) returns (v: Option<Verdict>)
    requires Ok(cv) && 2 <= maxW <= 7 && 1 <= d < cv.N
    ensures v.Some? ==> v.value != Accepted
  {
    hide Ok;
    EmptyHashValue(cv);
    var e;
    v, e := RoundTrip(cv, d, [], maxW);
    ResidueOfZero(e, cv.N);
  }

  lemma EmptyHashValue<G(!new)>(cv: Curve<G>)
    requires Ok(cv)
    ensures HashInt([], cv.nbits) == 0 && cv.N > 0
  {
    assert BytesValue([]) == 0;
  }

  lemma ResidueOfZero(e: nat, n: int)
    requires n > 0 && e < n && Cong(e, 0, n)
    ensures e == 0
  {
    DivModUnique(0, n, 0, 0);
    DivModUnique(e, n, 0, e);
  }
}

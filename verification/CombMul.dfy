/** Comb multiplication in an arbitrary abelian group: the in-place table, the double-and-add core
    and the treatment of even scalars. */
module CombMul {
  import opened Arith
  import opened AbelianGroup
  import opened CombRecoding

  // ----- table entries

  /** Entry k stands for 1 + the sum over the set bits l of k of D^(l+1). */
  ghost function Spread(k: nat, D: int): int {
    if k == 0 then 0 else k % 2 + D * Spread(k / 2, D)
  }

  ghost function EntryWeight(k: nat, D: int): int {
    1 + D * Spread(k, D)
  }

  ghost predicate IsTable<G>(g: Group<G>, T: seq<G>, p: G, w: nat, d: nat) {
    && w >= 1 && |T| == Pow(2, w - 1)
    && forall k :: 0 <= k < |T| ==> T[k] == Mul(g, EntryWeight(k, Pow(2, d)), p)
  }

  /** Setting a bit above all others adds its power of D. */
  lemma {:induction false} SpreadTop(l: nat, j: nat, D: int)
    requires j < Pow(2, l)
    ensures Spread(Pow(2, l) + j, D) == Spread(j, D) + Pow(D, l)
    decreases l
  {
    hide Spread, Pow;
    SpreadUnfold(Pow(2, l) + j, D);
    SpreadUnfold(j, D);
    PowNext(2, 0);
    PowNext(D, 0);
    if l == 0 {
      SpreadUnfold(0, D);
    } else {
      var h := Pow(2, l - 1);
      PowNext(2, l - 1);
      PowNext(D, l - 1);
      HalfSum(h, j);
      SpreadTop(l - 1, j / 2, D);
      Combine(D, Spread(j / 2, D), Pow(D, l - 1));
    }
  }

  lemma HalfSum(h: int, j: nat)
    ensures (2 * h + j) % 2 == j % 2 && (2 * h + j) / 2 == h + j / 2
    ensures j < 2 * h ==> j / 2 < h
  {
  }

  lemma Combine(x: int, y: int, z: int)
    ensures x * (y + z) == x * y + x * z
  {
  }

  lemma SpreadUnfold(k: nat, D: int)
    ensures Spread(k, D) == k % 2 + D * Spread(k / 2, D)
    ensures k == 0 ==> Spread(k, D) == 0
  {
  }

  /** The bits of a digit above bit 0, as a table index. */
  function IndexFrom(x: Byte, j: nat): nat
    requires j <= 7
    decreases 7 - j
  {
    if j == 7 then 0 else (if x[j] then 1 else 0) + 2 * IndexFrom(x, j + 1)
  }

  lemma {:induction false} IndexWeight(x: Byte, j: nat, D: int)
    requires j <= 7
    ensures Spread(IndexFrom(x, j), D) == Weight(x, j, D)
    decreases 7 - j
  {
    hide Spread;
    SpreadUnfold(0, D);
    if j < 7 {
      IndexWeight(x, j + 1, D);
      var k, r := IndexFrom(x, j), IndexFrom(x, j + 1);
      DivModUnique(k, 2, r, BitVal(x, j));
      SpreadUnfold(k, D);
      assert Weight(x, j, D) == BitVal(x, j) + D * Spread(r, D);
    }
  }

  lemma {:induction false} IndexBound(x: Byte, j: nat, w: nat)
    requires j <= 7 && w <= 7 && Narrow(x, w)
    ensures IndexFrom(x, j) < Pow(2, if j < w then w - j else 0)
    decreases 7 - j
  {
    if j < 7 {
      IndexBound(x, j + 1, w);
      if j >= w { assert Pow(2, 0) == 1; }
    }
  }

  // ----- ecp_precompute_comb

  /** Doubling k times. */
  method DoubleTimes<G(!new)>(g: Group<G>, q: G, k: nat, ghost a: int, ghost p: G) returns (r: G)
    requires Abelian(g) && q == Mul(g, a, p)
    ensures r == Mul(g, a * Pow(2, k), p)
  {
    hide Abelian, Mul;
    r := q;
    var i: nat := 0;
    while i < k
      invariant i <= k && r == Mul(g, a * Pow(2, i), p)
    {
      MulAdd(g, a * Pow(2, i), a * Pow(2, i), p);
      MulAssoc(a, Pow(2, i), 2);
      r := g.add(r, r);
      i := i + 1;
    }
  }

  /** First pass: T[2^(l-1)] = D^l * P for l = 1 .. w-1, and T[0] = P. */
  method PowersPass<G(!new)>(g: Group<G>, T: array<G>, p: G, w: nat, d: nat)
    requires Abelian(g) && w >= 1 && T.Length == Pow(2, w - 1)
    modifies T
    ensures T[0] == p
    ensures forall l: nat :: l < w - 1 ==> Pow(2, l) < T.Length && T[Pow(2, l)] == Mul(g, Pow(Pow(2, d), l + 1), p)
  {
    hide Abelian, Mul, Pow;
    var D := Pow(2, d);
    T[0] := p;
    var i: nat := 1;
    ghost var l: nat := 0;
    MulZero(g, p);
    PowNext(2, 0);
    PowNext(D, 0);
    while i < T.Length
      invariant l <= w - 1 && i == Pow(2, l) <= T.Length && T[0] == p
      invariant l > 0 ==> T[i / 2] == Mul(g, Pow(D, l), p)
      invariant forall k: nat :: k < l ==> Pow(2, k) < T.Length && T[Pow(2, k)] == Mul(g, Pow(D, k + 1), p)
      decreases T.Length - i
    {
      HalfPower(l);
      var q := DoubleTimes(g, T[i / 2], d, Pow(D, l), p);
      PowNext(D, l);
      MulComm(D, Pow(D, l));
      T[i] := q;
      PowersDistinct(l);
      if l == w - 1 { assert false; }
      PowMono(2, l + 1, w - 1);
      PowNext(2, l);
      HalfPower(l + 1);
      l := l + 1;
      i := 2 * i;
    }
    if l < w - 1 { PowStrict(l, w - 1); }
  }

  lemma HalfPower(l: nat)
    ensures Pow(2, l) / 2 == if l == 0 then 0 else Pow(2, l - 1)
  {
    if l > 0 { HalfSum(Pow(2, l - 1), 0); }
  }

  lemma PowStrict(k: nat, l: nat)
    requires k < l
    ensures Pow(2, k) < Pow(2, l)
  {
    PowMono(2, k + 1, l);
  }

  lemma PowersDistinct(l: nat)
    ensures forall k: nat :: k < l ==> Pow(2, k) < Pow(2, l)
  {
    forall k: nat | k < l
      ensures Pow(2, k) < Pow(2, l)
    {
      PowStrict(k, l);
    }
  }

  lemma EntryAbove(l: nat, j: nat, D: int)
    requires j < Pow(2, l)
    ensures EntryWeight(Pow(2, l) + j, D) == EntryWeight(j, D) + Pow(D, l + 1)
  {
    hide Spread, Pow;
    SpreadTop(l, j, D);
    PowNext(D, l);
    Combine(D, Spread(j, D), Pow(D, l));
  }

  /** Entries [2^l, 2^(l+1)) from those below and T[2^l], which is overwritten last. */
  method AddLevel<G(!new)>(g: Group<G>, T: array<G>, ghost p: G, ghost l: nat, i: nat, ghost D: int)
    requires Abelian(g) && i == Pow(2, l) && 2 * i <= T.Length && T[i] == Mul(g, Pow(D, l + 1), p)
    requires forall k: nat :: k < i ==> T[k] == Mul(g, EntryWeight(k, D), p)
    modifies T
    ensures forall k: nat :: k < 2 * i ==> T[k] == Mul(g, EntryWeight(k, D), p)
    ensures forall k: nat :: 2 * i <= k < T.Length ==> T[k] == old(T[k])
  {
    hide Abelian, Mul, EntryWeight;
    var j: nat := i;
    while j > 0
      invariant j <= i && (j > 0 ==> T[i] == Mul(g, Pow(D, l + 1), p))
      invariant forall k: nat :: k < i || i + j <= k < 2 * i ==> T[k] == Mul(g, EntryWeight(k, D), p)
      invariant forall k: nat :: 2 * i <= k < T.Length ==> T[k] == old(T[k])
    {
      j := j - 1;
      EntryAbove(l, j, D);
      MulAdd(g, EntryWeight(j, D), Pow(D, l + 1), p);
      T[i + j] := g.add(T[j], T[i]);
    }
  }

  /** Second pass, level by level. */
  method SumsPass<G(!new)>(g: Group<G>, T: array<G>, p: G, w: nat, d: nat)
    requires Abelian(g) && w >= 1 && T.Length == Pow(2, w - 1) && T[0] == p
    requires forall l: nat :: l < w - 1 ==> Pow(2, l) < T.Length && T[Pow(2, l)] == Mul(g, Pow(Pow(2, d), l + 1), p)
    modifies T
    ensures IsTable(g, T[..], p, w, d)
  {
    hide Abelian, Mul;
    var D := Pow(2, d);
    MulZero(g, p);
    assert EntryWeight(0, D) == 1;
    var i: nat := 1;
    ghost var l: nat := 0;
    while i < T.Length
      invariant l <= w - 1 && i == Pow(2, l) <= T.Length
      invariant forall k: nat :: k < i ==> T[k] == Mul(g, EntryWeight(k, D), p)
      invariant forall m: nat :: l <= m < w - 1 ==> Pow(2, m) < T.Length && T[Pow(2, m)] == Mul(g, Pow(D, m + 1), p)
      decreases T.Length - i
    {
      PowMono(2, l + 1, w - 1);
      PowersAbove(l + 1);
      AddLevel(g, T, p, l, i, D);
      l := l + 1;
      i := 2 * i;
    }
  }

  lemma PowersAbove(l: nat)
    ensures forall m: nat :: l <= m ==> Pow(2, m) >= Pow(2, l)
  {
    forall m: nat | l <= m
      ensures Pow(2, m) >= Pow(2, l)
    {
      PowMono(2, l, m);
    }
  }

  /** Batch normalisation of two points or more fails exactly when one of them is the zero point; a single
      zero point is left alone. */
  predicate BatchFails<G(==)>(g: Group<G>, pts: seq<G>) {
    |pts| >= 2 && g.zero in pts
  }

  /** Some table entry beyond the point itself is the zero point. */
  ghost predicate ZeroEntry<G>(g: Group<G>, p: G, w: nat, d: nat)
    requires w >= 1
  {
    exists k: nat :: 1 <= k < Pow(2, w - 1) && Mul(g, EntryWeight(k, Pow(2, d)), p) == g.zero
  }

  /** Both passes, each followed by a batch normalisation: fails exactly when the table has a zero entry and
      more than two entries. */
  method PrecomputeComb<G(!new, ==)>(g: Group<G>, p: G, w: nat, d: nat, ghost N: nat) returns (ok: bool, T: array<G>)
    requires Abelian(g) && w >= 2 && N % 2 == 1 && Mul(g, N, p) == g.zero
    ensures fresh(T) && (ok <==> !(w >= 3 && ZeroEntry(g, p, w, d)))
    ensures ok ==> IsTable(g, T[..], p, w, d)
  {
    hide Abelian, Mul, Pow;
    T := new G[Pow(2, w - 1)](_ => p);
    PowersPass(g, T, p, w, d);
    var powers := seq(w - 1, l requires 0 <= l < w - 1 reads T => T[Pow(2, l)]);
    if BatchFails(g, powers) {
      ghost var l: nat :| l < w - 1 && T[Pow(2, l)] == g.zero;
      PowerNotZero(g, p, d, l + 1, N);
      ZeroPoint(g, p, w, d);
      return false, T;
    }
    SumsPass(g, T, p, w, d);
    TableSize(w);
    ok := !BatchFails(g, T[1..]);
    EntriesOf(g, T[..], p, w, d);
  }

  lemma TableSize(w: nat)
    requires w >= 2
    ensures Pow(2, w - 1) >= 2 && (Pow(2, w - 1) >= 3 <==> w >= 3)
  {
    PowNext(2, 0);
    PowNext(2, w - 2);
    if w >= 3 { PowNext(2, w - 3); }
  }

  lemma EntriesOf<G(!new)>(g: Group<G>, T: seq<G>, p: G, w: nat, d: nat)
    requires w >= 2 && IsTable(g, T, p, w, d) && |T| >= 2
    ensures g.zero in T[1..] <==> ZeroEntry(g, p, w, d)
  {
    hide Mul, Pow, EntryWeight;
    if ZeroEntry(g, p, w, d) {
      var k: nat :| 1 <= k < Pow(2, w - 1) && Mul(g, EntryWeight(k, Pow(2, d)), p) == g.zero;
      assert T[1..][k - 1] == T[k] == g.zero;
    }
    if g.zero in T[1..] {
      var j :| 0 <= j < |T[1..]| && T[1..][j] == g.zero;
      assert T[j + 1] == g.zero;
    }
  }

  /** In odd order, a multiple by a power of two is the zero point only for the zero point. */
  lemma {:induction false} HalfNotZero<G(!new)>(g: Group<G>, p: G, e: nat, N: nat)
    requires Abelian(g) && N % 2 == 1 && Mul(g, N, p) == g.zero && Mul(g, Pow(2, e), p) == g.zero
    ensures p == g.zero
    decreases e
  {
    hide Abelian, Mul, Pow;
    MulZero(g, p);
    PowNext(2, 0);
    if e > 0 {
      PowNext(2, e - 1);
      var x, h := Pow(2, e - 1), (N + 1) / 2;
      assert 2 * h == N + 1;
      HalfAlgebra(h, x, N);
      MulMul(g, h, 2 * x, p);
      MulOfZero(g, h);
      MulOrder(g, h * (2 * x), x, x, N, p);
      HalfNotZero(g, p, e - 1, N);
    }
  }

  lemma HalfAlgebra(h: int, x: int, n: int)
    requires 2 * h == n + 1
    ensures h * (2 * x) == x + x * n
  {
    MulAssoc(h, 2, x);
    MulDistr(n, 1, x);
    MulComm(n, x);
  }

  lemma PowerNotZero<G(!new)>(g: Group<G>, p: G, d: nat, l: nat, N: nat)
    requires Abelian(g) && N % 2 == 1 && Mul(g, N, p) == g.zero && Mul(g, Pow(Pow(2, d), l), p) == g.zero
    ensures p == g.zero
  {
    PowPow(2, d, l);
    HalfNotZero(g, p, d * l, N);
  }

  lemma ZeroPoint<G(!new)>(g: Group<G>, p: G, w: nat, d: nat)
    requires Abelian(g) && w >= 2 && p == g.zero
    ensures ZeroEntry(g, p, w, d)
  {
    hide Abelian, Mul, EntryWeight;
    TableSize(w);
    MulOfZero(g, EntryWeight(1, Pow(2, d)));
  }

  // ----- ecp_select_comb, ecp_mul_comb_core

  ghost predicate NoZero<G>(g: Group<G>, T: seq<G>) {
    g.zero !in T
  }

  /** Reads the whole table and keeps the entry for the digit, negated if the digit is negative. Only the
      affine coordinates are read: for an entry that is the zero point they are those of a stray point. */
  method SelectComb<G(!new, ==)>(g: Group<G>, T: seq<G>, x: Byte, stray: G, ghost p: G, ghost w: nat, ghost d: nat)
      returns (r: G)
    requires Abelian(g) && 1 <= w <= 7 && IsTable(g, T, p, w, d) && x[0] && Narrow(x, w)
    ensures NoZero(g, T) ==> r == Mul(g, Sign(x) * Weight(x, 0, Pow(2, d)), p)
  {
    hide Abelian, Mul;
    var ii := IndexFrom(x, 1);
    IndexBound(x, 1, w);
    r := stray;
    for j := 0 to |T|
      invariant ii < j ==> r == if T[ii] == g.zero then stray else T[ii]
    {
      if j == ii { r := if T[j] == g.zero then stray else T[j]; }
    }
    IndexWeight(x, 1, Pow(2, d));
    if x[7] {
      MulNeg(g, Weight(x, 0, Pow(2, d)), p);
      r := g.neg(r);
    }
  }

  /** Digits from i on, as seen from digit i. */
  ghost function Suffix(x: seq<Byte>, i: nat, D: int): int
    requires i <= |x|
    decreases |x| - i
  {
    if i == |x| then 0 else Sign(x[i]) * Weight(x[i], 0, D) + 2 * Suffix(x, i + 1, D)
  }

  lemma {:induction false} SuffixValue(x: seq<Byte>, i: nat, D: int)
    requires i <= |x|
    ensures Value(x, i, D) + Suffix(x, i, D) * Pow(2, i) == Value(x, |x|, D)
    decreases |x| - i
  {
    if i < |x| {
      SuffixValue(x, i + 1, D);
      var v, s, p := Sign(x[i]) * Weight(x[i], 0, D), Suffix(x, i + 1, D), Pow(2, i);
      MulDistr(v, 2 * s, p);
      MulAssoc(2, s, p);
      MulAssoc(s, 2, p);
    }
  }

  /** Double and add from the last digit down: evaluates the digit string at P. */
  method MulCombCore<G(!new, ==)>(g: Group<G>, T: seq<G>, x: seq<Byte>, d: nat, stray: G, ghost p: G, ghost w: nat)
      returns (r: G)
    requires Abelian(g) && 1 <= w <= 7 && IsTable(g, T, p, w, d) && |x| == d + 1
    requires forall k :: 0 <= k < |x| ==> x[k][0] && Narrow(x[k], w)
    ensures NoZero(g, T) ==> r == Mul(g, Value(x, d + 1, Pow(2, d)), p)
  {
    hide Abelian, Mul, IsTable, Narrow, Pow, Value, Weight, Sign, Suffix, NoZero;
    ghost var D := Pow(2, d);
    var i := d;
    r := SelectComb(g, T, x[i], stray, p, w, d);
    SuffixStep(x, d + 1, D);
    SuffixStep(x, d, D);
    while i > 0
      invariant 0 <= i <= d && (NoZero(g, T) ==> r == Mul(g, Suffix(x, i, D), p))
    {
      i := i - 1;
      ghost var s, v := Suffix(x, i + 1, D), Sign(x[i]) * Weight(x[i], 0, D);
      SuffixStep(x, i, D);
      r := g.add(r, r);
      MulAdd(g, s, s, p);
      var t := SelectComb(g, T, x[i], stray, p, w, d);
      MulAdd(g, 2 * s, v, p);
      r := g.add(r, t);
    }
    SuffixValue(x, 0, D);
    PowNext(2, 0);
    assert Value(x, 0, D) == 0 by { NoDigits(x, D); }
  }

  lemma SuffixStep(x: seq<Byte>, i: nat, D: int)
    requires i <= |x|
    ensures Suffix(x, i, D) == if i == |x| then 0 else Sign(x[i]) * Weight(x[i], 0, D) + 2 * Suffix(x, i + 1, D)
  {
  }

  lemma NoDigits(x: seq<Byte>, D: int)
    ensures Value(x, 0, D) == 0
  {
  }

  // ----- ecp_mul_comb

  /** The number of teeth: by group size, one more for the base point, within the configured limit. */
  function Teeth(nbits: nat, isBase: bool, maxW: nat): (w: nat)
    requires 2 <= maxW <= 7
    ensures 2 <= w <= 7
  {
    var w0 := (if nbits >= 384 then 5 else 4) + (if isBase then 1 else 0);
    var w1 := if w0 > maxW then maxW else w0;
    if w1 >= nbits then 2 else w1
  }

  /** The table that a successful multiplication of this point computes. */
  ghost predicate CachedTable<G>(g: Group<G>, T: seq<G>, p: G, nbits: nat, isBase: bool, maxW: nat)
    requires 2 <= maxW <= 7
  {
    var w := Teeth(nbits, isBase, maxW);
    var d := CombWidth(nbits, w);
    IsTable(g, T, p, w, d) && !(w >= 3 && ZeroEntry(g, p, w, d))
  }

  /** m * P for every 1 <= m < N in a group where N * P = 0, with N odd and below 2^nbits. For the base point
      the table may come from a cache that an earlier multiplication filled. Refuses an even N and, from
      three teeth on, a table with a zero entry; with two teeth such a table is used, and nothing is said
      about the result. */
  method MulComb<G(!new, ==)>(g: Group<G>, p: G, m: nat, N: nat, nbits: nat, isBase: bool, maxW: nat,
                              cache: Option<seq<G>>, stray: G) returns (r: Option<G>, cache': Option<seq<G>>)
    requires Abelian(g) && Mul(g, N, p) == g.zero && 2 <= maxW <= 7
    requires 1 <= m < N < Pow(2, nbits)
    requires isBase && cache.Some? ==> CachedTable(g, cache.value, p, nbits, isBase, maxW)
    ensures var w := Teeth(nbits, isBase, maxW);
      var d := CombWidth(nbits, w);
      && (r.None? <==> N % 2 == 0 || (w >= 3 && ZeroEntry(g, p, w, d)))
      && (r.Some? && p != g.zero && !ZeroEntry(g, p, w, d) ==> r.value == Mul(g, m, p))
    ensures if isBase then cache'.Some? ==> CachedTable(g, cache'.value, p, nbits, isBase, maxW) else cache' == cache
  {
    hide Abelian, Mul, IsTable, Pow, Narrow, Value, ZeroEntry, NoZero;
    if N % 2 != 1 { return None, cache; }
    var w := Teeth(nbits, isBase, maxW);
    var d := CombWidth(nbits, w);
    var T;
    cache' := cache;
    if isBase && cache.Some? {
      T := cache.value;
    } else {
      var ok, t := PrecomputeComb(g, p, w, d, N);
      if !ok { return None, cache; }
      T := t[..];
      if isBase { cache' := Some(T); }
    }
    var odd := m % 2 == 1;
    var M: nat := if odd then m else N - m;
    assert M % 2 == 1 by { OddScalar(m, N); }
    if p != g.zero && !ZeroEntry(g, p, w, d) { CleanTable(g, T, p, w, d); }
    var R := MulOdd(g, T, p, M, nbits, w, d, stray);
    if !odd {
      ghost var k: int := M;
      MulNeg(g, k, p);
      MulOrder(g, -k, m, -1, N, p);
      R := g.neg(R);
    }
    r := Some(R);
  }

  lemma CleanTable<G(!new)>(g: Group<G>, T: seq<G>, p: G, w: nat, d: nat)
    requires Abelian(g) && w >= 2 && IsTable(g, T, p, w, d) && p != g.zero && !ZeroEntry(g, p, w, d)
    ensures NoZero(g, T)
  {
    hide Abelian, Mul, Pow, ZeroEntry;
    TableSize(w);
    EntriesOf(g, T, p, w, d);
    FirstEntry(g, p, Pow(2, d));
    assert T == [T[0]] + T[1..];
  }

  lemma FirstEntry<G(!new)>(g: Group<G>, p: G, D: int)
    requires Abelian(g)
    ensures Mul(g, EntryWeight(0, D), p) == p
  {
    hide Abelian, Mul;
    MulZero(g, p);
    assert EntryWeight(0, D) == 1;
  }

  lemma OddScalar(m: nat, N: nat)
    requires m <= N && N % 2 == 1
    ensures m % 2 == 1 || (N - m) % 2 == 1
  {
  }

  /** An odd scalar: recode and evaluate. */
  method MulOdd<G(!new, ==)>(g: Group<G>, T: seq<G>, ghost p: G, M: nat, nbits: nat, w: nat, d: nat, stray: G)
      returns (R: G)
    requires Abelian(g) && 2 <= w <= 7 && d == CombWidth(nbits, w) && IsTable(g, T, p, w, d)
    requires M % 2 == 1 && M < Pow(2, nbits)
    ensures NoZero(g, T) ==> R == Mul(g, M, p)
  {
    hide Abelian, Mul, IsTable, Pow, Narrow, Value, NoZero;
    ScalarFits(M, nbits, w, d);
    var x := new Byte[d + 1](_ => ZERO);
    CombFixed(x, d, w, M);
    R := MulCombCore(g, T, x[..], d, stray, p, w);
  }

  function CombWidth(nbits: nat, w: nat): nat
    requires w >= 1
  {
    (nbits + w - 1) / w
  }

  lemma ScalarFits(M: nat, nbits: nat, w: nat, d: nat)
    requires w >= 1 && d == CombWidth(nbits, w) && 1 <= M < Pow(2, nbits)
    ensures d >= 1 && M < Pow(Pow(2, d), w)
  {
    assert nbits >= 1 by { assert Pow(2, 0) == 1; }
    CeilBounds(nbits, w, d);
    PowPow(2, d, w);
    PowMono(2, nbits, d * w);
  }

  lemma CeilBounds(n: nat, w: nat, d: int)
    requires w >= 1 && n >= 1 && d == (n + w - 1) / w
    ensures d >= 1 && d * w >= n
  {
    var t := n + w - 1;
    assert t == d * w + t % w;
    if d <= 0 { MulMono(d, 0, w); }
  }

  // ----- when the table has no zero entry

  /** The order N divides the weight of some table entry. */
  ghost predicate ZeroWeight(N: nat, d: nat, w: nat)
    requires N > 0 && w >= 1
  {
    exists k: nat :: 1 <= k < Pow(2, w - 1) && EntryWeight(k, Pow(2, d)) % N == 0
  }

  /** A multiplication in a group of N elements is refused for its table. */
  ghost predicate Refused(N: nat, nbits: nat, isBase: bool, maxW: nat)
    requires N > 0 && 2 <= maxW <= 7
  {
    var w := Teeth(nbits, isBase, maxW);
    w >= 3 && ZeroWeight(N, CombWidth(nbits, w), w)
  }

  lemma {:induction false} SpreadBound(k: nat, j: nat, D: int)
    requires D >= 2 && k < Pow(2, j + 1)
    ensures 0 <= Spread(k, D) <= 2 * Pow(D, j) - 1
    decreases j
  {
    hide Spread, Pow;
    PowNext(D, 0);
    PowNext(2, 0);
    SpreadUnfold(k, D);
    if j == 0 {
      SpreadUnfold(k / 2, D);
    } else {
      PowNext(2, j);
      PowNext(D, j - 1);
      HalfSum(Pow(2, j), k);
      SpreadBound(k / 2, j - 1, D);
      SpreadCore(k % 2, D, Spread(k / 2, D), Pow(D, j - 1));
    }
  }

  lemma SpreadCore(x: int, D: int, s: int, p: int)
    requires 0 <= x <= 1 && D >= 2 && 0 <= s <= 2 * p - 1
    ensures 0 <= x + D * s <= 2 * (D * p) - 1
  {
    MulMono(0, s, D);
    MulMono(s, 2 * p - 1, D);
    MulComm(D, s);
    MulDistr(2 * p, 1, D);
    MulAssoc(2, p, D);
    MulComm(p, D);
  }

  lemma WeightBound(k: nat, w: nat, D: int)
    requires w >= 2 && D >= 2 && k < Pow(2, w - 1)
    ensures 0 < EntryWeight(k, D) < 2 * Pow(D, w - 1)
  {
    hide Spread, Pow;
    SpreadBound(k, w - 2, D);
    PowNext(D, w - 2);
    SpreadCore(1, D, Spread(k, D), Pow(D, w - 2));
    MulMono(0, Spread(k, D), D);
    MulComm(Spread(k, D), D);
  }

  /** With more columns than teeth, no weight reaches the order. */
  lemma NoZeroWeight(N: nat, nbits: nat, w: nat)
    requires w >= 2 && nbits >= 1 && Pow(2, nbits - 1) <= N && CombWidth(nbits, w) >= w + 1
    ensures N > 0 && !ZeroWeight(N, CombWidth(nbits, w), w)
    ensures forall k: nat :: k < Pow(2, w - 1) ==> 0 < EntryWeight(k, Pow(2, CombWidth(nbits, w))) < N
  {
    hide Pow, EntryWeight, CombWidth;
    var d := CombWidth(nbits, w);
    var D := Pow(2, d);
    PowNext(2, d - 1);
    ColumnsShort(nbits, w, d);
    PowPow(2, d, w - 1);
    PowNext(2, d * (w - 1));
    PowMono(2, d * (w - 1) + 1, nbits - 1);
    forall k: nat | k < Pow(2, w - 1)
      ensures 0 < EntryWeight(k, D) < N && EntryWeight(k, D) % N != 0
    {
      WeightBound(k, w, D);
      DivModUnique(EntryWeight(k, D), N, 0, EntryWeight(k, D));
    }
  }

  lemma ColumnsShort(nbits: nat, w: nat, d: nat)
    requires w >= 2 && d == CombWidth(nbits, w) && d >= w + 1
    ensures d * (w - 1) + 1 <= nbits - 1
  {
    FloorBounds(nbits + w - 1, w);
    MulDistr(w, 1, d);
    MulComm(w, d);
    MulComm(w - 1, d);
  }

  /** From 26 bits on no multiplication is refused for its table. */
  lemma NeverRefused(N: nat, nbits: nat, isBase: bool, maxW: nat)
    requires 2 <= maxW <= 7 && nbits >= 26 && Pow(2, nbits - 1) <= N
    ensures N > 0 && !Refused(N, nbits, isBase, maxW)
  {
    hide Pow, ZeroWeight;
    var w := Teeth(nbits, isBase, maxW);
    WideEnough(nbits, w);
    NoZeroWeight(N, nbits, w);
  }

  lemma WideEnough(nbits: nat, w: nat)
    requires 2 <= w <= 6 && (if w == 6 then nbits >= 37 else nbits >= 26)
    ensures CombWidth(nbits, w) >= w + 1
  {
    var d := CombWidth(nbits, w);
    FloorBounds(nbits + w - 1, w);
    if d <= w { MulMono(d, w, w); MulMono(w, 6, w); }
  }

  /** With two teeth, an odd order above 5 does not divide the weight of the one entry. */
  lemma TwoTeeth(N: nat, nbits: nat)
    requires N > 5 && N % 2 == 1 && nbits >= 1 && Pow(2, nbits - 1) <= N < Pow(2, nbits)
    ensures !ZeroWeight(N, CombWidth(nbits, 2), 2)
  {
    hide Pow, ZeroWeight;
    SmallPowers();
    if nbits >= 5 {
      NoZeroWeight(N, nbits, 2);
    } else if nbits >= 3 {
      FiveNotZero(N);
    } else {
      PowMono(2, nbits, 2);
    }
  }

  lemma FiveNotZero(N: nat)
    requires N > 5
    ensures !ZeroWeight(N, 2, 2)
  {
    hide Pow, EntryWeight;
    SmallPowers();
    OneEntry(4);
    DivModUnique(5, N, 0, 5);
  }

  lemma OneEntry(D: int)
    ensures EntryWeight(1, D) == 1 + D
  {
    SpreadUnfold(1, D);
    SpreadUnfold(0, D);
  }

  lemma ZeroWeightAt(N: nat, d: nat, w: nat, D: int, k: nat)
    requires N > 0 && w >= 1 && D == Pow(2, d) && 1 <= k < Pow(2, w - 1) && EntryWeight(k, D) == N
    ensures ZeroWeight(N, d, w)
  {
    hide Pow, EntryWeight;
    DivModUnique(N, N, 1, 0);
  }

  lemma SmallPowers()
    ensures Pow(2, 0) == 1 && Pow(2, 1) == 2 && Pow(2, 2) == 4 && Pow(2, 3) == 8
  {
    PowNext(2, 0);
    PowNext(2, 1);
    PowNext(2, 2);
  }

  /** The orders 3 and 5 do. */
  lemma TwoTeethTiny()
    ensures ZeroWeight(3, CombWidth(2, 2), 2) && ZeroWeight(5, CombWidth(3, 2), 2)
  {
    hide Pow, EntryWeight, ZeroWeight;
    SmallPowers();
    OneEntry(2);
    OneEntry(4);
    ZeroWeightAt(3, 1, 2, 2, 1);
    ZeroWeightAt(5, 2, 2, 4, 1);
  }

  /** Order 17, with five bits: refused for every point but the base point, which gets two teeth. */
  lemma SmallOrderRefused(maxW: nat)
    requires 5 <= maxW <= 7
    ensures Refused(17, 5, false, maxW) && !Refused(17, 5, true, maxW)
  {
    hide Pow, EntryWeight, ZeroWeight;
    SmallPowers();
    EntryTwo(4);
    ZeroWeightAt(17, 2, 4, 4, 2);
  }

  lemma EntryTwo(D: int)
    ensures EntryWeight(2, D) == 1 + D * D
  {
    SpreadUnfold(2, D);
    SpreadUnfold(1, D);
    SpreadUnfold(0, D);
  }
}

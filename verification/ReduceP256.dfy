/** Fast quasi-reduction modulo the P-256 prime (FIPS 186-3, section D.2.3): eight columns of 32-bit
    additions and subtractions with a signed carry, in place, and a fix-up of a negative total. */
module ReduceP256 {
  import opened Arith
  import opened Limbs

  const TWO256: int := 0x1_00000000_00000000_00000000_00000000_00000000_00000000_00000000_00000000

  /** 2^256 - 2^224 + 2^192 + 2^96 - 1. */
  const P256: nat := 0xffffffff_00000001_00000000_00000000_00000000_ffffffff_ffffffff_ffffffff

  predicate Word(x: int) {
    0 <= x < 0x1_0000_0000
  }

  method Add32(dst: nat, src: nat, carry: int) returns (d: nat, c: int)
    requires Word(dst) && Word(src)
    ensures Word(d) && carry <= c <= carry + 1
    ensures d + 0x1_0000_0000 * c == dst + 0x1_0000_0000 * carry + src
  {
    d := (dst + src) % 0x1_0000_0000;
    c := carry + if d < src then 1 else 0;
  }

  method Sub32(dst: nat, src: nat, carry: int) returns (d: nat, c: int)
    requires Word(dst) && Word(src)
    ensures Word(d) && carry - 1 <= c <= carry
    ensures d + 0x1_0000_0000 * c == dst + 0x1_0000_0000 * carry - src
  {
    c := carry - if dst < src then 1 else 0;
    d := (dst - src) % 0x1_0000_0000;
  }

  /** Loads the next word and folds the signed carry of the previous column into it. */
  method Next(word: nat, cc: int) returns (cur: nat, c: int)
    requires Word(word) && -128 <= cc <= 127
    ensures Word(cur) && -1 <= c <= 1 && cur + 0x1_0000_0000 * c == word + cc
  {
    if cc < 0 {
      cur, c := Sub32(word, -cc, 0);
    } else {
      cur, c := Add32(word, cc, 0);
    }
  }

  method Column0(w: seq<nat>, word: nat, cc: int) returns (cur: nat, c: int)
    requires |w| == 16 && (forall j :: 0 <= j < 16 ==> Word(w[j])) && Word(word) && -20 <= cc <= 20
    ensures Word(cur) && -20 <= c <= 20
    ensures cur + 0x1_0000_0000 * c == word + cc + w[8] + w[9] - w[11] - w[12] - w[13] - w[14]
  {
    cur, c := Next(word, cc);
    cur, c := Add32(cur, w[8], c);
    cur, c := Add32(cur, w[9], c);
    cur, c := Sub32(cur, w[11], c);
    cur, c := Sub32(cur, w[12], c);
    cur, c := Sub32(cur, w[13], c);
    cur, c := Sub32(cur, w[14], c);
  }

  method Column1(w: seq<nat>, word: nat, cc: int) returns (cur: nat, c: int)
    requires |w| == 16 && (forall j :: 0 <= j < 16 ==> Word(w[j])) && Word(word) && -20 <= cc <= 20
    ensures Word(cur) && -20 <= c <= 20
    ensures cur + 0x1_0000_0000 * c == word + cc + w[9] + w[10] - w[12] - w[13] - w[14] - w[15]
  {
    cur, c := Next(word, cc);
    cur, c := Add32(cur, w[9], c);
    cur, c := Add32(cur, w[10], c);
    cur, c := Sub32(cur, w[12], c);
    cur, c := Sub32(cur, w[13], c);
    cur, c := Sub32(cur, w[14], c);
    cur, c := Sub32(cur, w[15], c);
  }

  method Column2(w: seq<nat>, word: nat, cc: int) returns (cur: nat, c: int)
    requires |w| == 16 && (forall j :: 0 <= j < 16 ==> Word(w[j])) && Word(word) && -20 <= cc <= 20
    ensures Word(cur) && -20 <= c <= 20
    ensures cur + 0x1_0000_0000 * c == word + cc + w[10] + w[11] - w[13] - w[14] - w[15]
  {
    cur, c := Next(word, cc);
    cur, c := Add32(cur, w[10], c);
    cur, c := Add32(cur, w[11], c);
    cur, c := Sub32(cur, w[13], c);
    cur, c := Sub32(cur, w[14], c);
    cur, c := Sub32(cur, w[15], c);
  }

  method Column3(w: seq<nat>, word: nat, cc: int) returns (cur: nat, c: int)
    requires |w| == 16 && (forall j :: 0 <= j < 16 ==> Word(w[j])) && Word(word) && -20 <= cc <= 20
    ensures Word(cur) && -20 <= c <= 20
    ensures cur + 0x1_0000_0000 * c == word + cc + w[11] + w[11] + w[12] + w[12] + w[13] - w[15] - w[8] - w[9]
  {
    cur, c := Next(word, cc);
    cur, c := Add32(cur, w[11], c);
    cur, c := Add32(cur, w[11], c);
    cur, c := Add32(cur, w[12], c);
    cur, c := Add32(cur, w[12], c);
    cur, c := Add32(cur, w[13], c);
    cur, c := Sub32(cur, w[15], c);
    cur, c := Sub32(cur, w[8], c);
    cur, c := Sub32(cur, w[9], c);
  }

  method Column4(w: seq<nat>, word: nat, cc: int) returns (cur: nat, c: int)
    requires |w| == 16 && (forall j :: 0 <= j < 16 ==> Word(w[j])) && Word(word) && -20 <= cc <= 20
    ensures Word(cur) && -20 <= c <= 20
    ensures cur + 0x1_0000_0000 * c == word + cc + w[12] + w[12] + w[13] + w[13] + w[14] - w[9] - w[10]
  {
    cur, c := Next(word, cc);
    cur, c := Add32(cur, w[12], c);
    cur, c := Add32(cur, w[12], c);
    cur, c := Add32(cur, w[13], c);
    cur, c := Add32(cur, w[13], c);
    cur, c := Add32(cur, w[14], c);
    cur, c := Sub32(cur, w[9], c);
    cur, c := Sub32(cur, w[10], c);
  }

  method Column5(w: seq<nat>, word: nat, cc: int) returns (cur: nat, c: int)
    requires |w| == 16 && (forall j :: 0 <= j < 16 ==> Word(w[j])) && Word(word) && -20 <= cc <= 20
    ensures Word(cur) && -20 <= c <= 20
    ensures cur + 0x1_0000_0000 * c == word + cc + w[13] + w[13] + w[14] + w[14] + w[15] - w[10] - w[11]
  {
    cur, c := Next(word, cc);
    cur, c := Add32(cur, w[13], c);
    cur, c := Add32(cur, w[13], c);
    cur, c := Add32(cur, w[14], c);
    cur, c := Add32(cur, w[14], c);
    cur, c := Add32(cur, w[15], c);
    cur, c := Sub32(cur, w[10], c);
    cur, c := Sub32(cur, w[11], c);
  }

  method Column6(w: seq<nat>, word: nat, cc: int) returns (cur: nat, c: int)
    requires |w| == 16 && (forall j :: 0 <= j < 16 ==> Word(w[j])) && Word(word) && -20 <= cc <= 20
    ensures Word(cur) && -20 <= c <= 20
    ensures cur + 0x1_0000_0000 * c == word + cc + w[14] + w[14] + w[15] + w[15] + w[14] + w[13] - w[8] - w[9]
  {
    cur, c := Next(word, cc);
    cur, c := Add32(cur, w[14], c);
    cur, c := Add32(cur, w[14], c);
    cur, c := Add32(cur, w[15], c);
    cur, c := Add32(cur, w[15], c);
    cur, c := Add32(cur, w[14], c);
    cur, c := Add32(cur, w[13], c);
    cur, c := Sub32(cur, w[8], c);
    cur, c := Sub32(cur, w[9], c);
  }

  method Column7(w: seq<nat>, word: nat, cc: int) returns (cur: nat, c: int)
    requires |w| == 16 && (forall j :: 0 <= j < 16 ==> Word(w[j])) && Word(word) && -20 <= cc <= 20
    ensures Word(cur) && -20 <= c <= 20
    ensures cur + 0x1_0000_0000 * c == word + cc + w[15] + w[15] + w[15] + w[8] - w[10] - w[11] - w[12] - w[13]
  {
    cur, c := Next(word, cc);
    cur, c := Add32(cur, w[15], c);
    cur, c := Add32(cur, w[15], c);
    cur, c := Add32(cur, w[15], c);
    cur, c := Add32(cur, w[8], c);
    cur, c := Sub32(cur, w[10], c);
    cur, c := Sub32(cur, w[11], c);
    cur, c := Sub32(cur, w[12], c);
    cur, c := Sub32(cur, w[13], c);
  }

  // ----- explicit values

  lemma WordPowers()
    ensures Pow(0x1_0000_0000, 0) == 1
    ensures Pow(0x1_0000_0000, 1) == 0x1_00000000
    ensures Pow(0x1_0000_0000, 2) == 0x1_00000000_00000000
    ensures Pow(0x1_0000_0000, 3) == 0x1_00000000_00000000_00000000
    ensures Pow(0x1_0000_0000, 4) == 0x1_00000000_00000000_00000000_00000000
    ensures Pow(0x1_0000_0000, 5) == 0x1_00000000_00000000_00000000_00000000_00000000
    ensures Pow(0x1_0000_0000, 6) == 0x1_00000000_00000000_00000000_00000000_00000000_00000000
    ensures Pow(0x1_0000_0000, 7) == 0x1_00000000_00000000_00000000_00000000_00000000_00000000_00000000
    ensures Pow(0x1_0000_0000, 8) == TWO256
  {
    assert Pow(0x1_0000_0000, 0) == 1;
    assert Pow(0x1_0000_0000, 1) == 0x1_0000_0000 * Pow(0x1_0000_0000, 0);
    assert Pow(0x1_0000_0000, 2) == 0x1_0000_0000 * Pow(0x1_0000_0000, 1);
    assert Pow(0x1_0000_0000, 3) == 0x1_0000_0000 * Pow(0x1_0000_0000, 2);
    assert Pow(0x1_0000_0000, 4) == 0x1_0000_0000 * Pow(0x1_0000_0000, 3);
    assert Pow(0x1_0000_0000, 5) == 0x1_0000_0000 * Pow(0x1_0000_0000, 4);
    assert Pow(0x1_0000_0000, 6) == 0x1_0000_0000 * Pow(0x1_0000_0000, 5);
    assert Pow(0x1_0000_0000, 7) == 0x1_0000_0000 * Pow(0x1_0000_0000, 6);
    assert Pow(0x1_0000_0000, 8) == 0x1_0000_0000 * Pow(0x1_0000_0000, 7);
  }

  /** Eight words from word i on. */
  ghost function Eight(w: seq<nat>, i: nat): int
    requires |w| >= i + 8
  {
    w[i] + 0x1_00000000 * w[i + 1] + 0x1_00000000_00000000 * w[i + 2]
    + 0x1_00000000_00000000_00000000 * w[i + 3] + 0x1_00000000_00000000_00000000_00000000 * w[i + 4]
    + 0x1_00000000_00000000_00000000_00000000_00000000 * w[i + 5]
    + 0x1_00000000_00000000_00000000_00000000_00000000_00000000 * w[i + 6]
    + 0x1_00000000_00000000_00000000_00000000_00000000_00000000_00000000 * w[i + 7]
  }

  /** The low eight words. */
  ghost function Low8(w: seq<nat>): int
    requires |w| >= 8
  {
    Eight(w, 0)
  }

  /** Words eight to fifteen. */
  ghost function High8(w: seq<nat>): int
    requires |w| >= 16
  {
    TWO256 * Eight(w, 8)
  }

  lemma ValLow(w: seq<nat>)
    requires |w| >= 8
    ensures Val(w[..8], 0x1_0000_0000) == Low8(w)
  {
    WordPowers();
    assert w[..0] == [];
    ValSnoc(w, 0, 0x1_0000_0000);
    ValSnoc(w, 1, 0x1_0000_0000);
    ValSnoc(w, 2, 0x1_0000_0000);
    ValSnoc(w, 3, 0x1_0000_0000);
    ValSnoc(w, 4, 0x1_0000_0000);
    ValSnoc(w, 5, 0x1_0000_0000);
    ValSnoc(w, 6, 0x1_0000_0000);
    ValSnoc(w, 7, 0x1_0000_0000);
  }

  lemma ValAll(w: seq<nat>)
    requires |w| >= 16 && forall k :: 16 <= k < |w| ==> w[k] == 0
    ensures Val(w, 0x1_0000_0000) == Low8(w) + High8(w)
  {
    hide Pow, Val;
    var low, high := w[..8], w[8..16];
    ValTrim(w, 16, 0x1_0000_0000);
    assert w[..16][..8] == low && w[..16][8..] == high;
    ValSplit(w[..16], 8, 0x1_0000_0000);
    WordPowers();
    ValLow(w);
    ValLow(high);
    assert high[..8] == high && Eight(high, 0) == Eight(w, 8);
  }

  lemma ValNine(w: seq<nat>)
    requires |w| >= 9 && forall k :: 9 <= k < |w| ==> w[k] == 0
    ensures Val(w, 0x1_0000_0000) == Low8(w) + TWO256 * w[8]
  {
    WordPowers();
    ValLow(w);
    ValTrim(w, 9, 0x1_0000_0000);
    ValSnoc(w, 8, 0x1_0000_0000);
  }

  /** How often the prime goes into what the columns leave out. */
  ghost function Multiple(w: seq<nat>): int
    requires |w| >= 16
  {
    w[8] + 0x100000001 * w[9] + 0x10000000100000000 * w[10] + 0x100000000ffffffffffffffff * w[11]
    + 0x100000000fffffffffffffffeffffffff * w[12] + 0x100000000fffffffffffffffefffffffeffffffff * w[13]
    + 0x100000000fffffffffffffffefffffffefffffffeffffffff * w[14]
    + 0x100000000fffffffffffffffefffffffefffffffeffffffff00000000 * w[15]
  }

  /** The column sums differ from the full number by a multiple of the prime. */
  lemma ColumnsCongruent(w: seq<nat>, v: seq<nat>, c1: int, c2: int, c3: int, c4: int, c5: int, c6: int, c7: int,
                         c8: int)
    requires |w| == 16 && |v| == 8
    requires v[0] + 0x1_0000_0000 * c1 == w[0] as int + w[8] + w[9] - w[11] - w[12] - w[13] - w[14]
    requires v[1] + 0x1_0000_0000 * c2 == w[1] + c1 + w[9] + w[10] - w[12] - w[13] - w[14] - w[15]
    requires v[2] + 0x1_0000_0000 * c3 == w[2] + c2 + w[10] + w[11] - w[13] - w[14] - w[15]
    requires v[3] + 0x1_0000_0000 * c4 == w[3] + c3 + w[11] + w[11] + w[12] + w[12] + w[13] - w[15] - w[8] - w[9]
    requires v[4] + 0x1_0000_0000 * c5 == w[4] + c4 + w[12] + w[12] + w[13] + w[13] + w[14] - w[9] - w[10]
    requires v[5] + 0x1_0000_0000 * c6 == w[5] + c5 + w[13] + w[13] + w[14] + w[14] + w[15] - w[10] - w[11]
    requires v[6] + 0x1_0000_0000 * c7 == w[6] + c6 + w[14] + w[14] + w[15] + w[15] + w[14] + w[13] - w[8] - w[9]
    requires v[7] + 0x1_0000_0000 * c8 == w[7] + c7 + w[15] + w[15] + w[15] + w[8] - w[10] - w[11] - w[12] - w[13]
    ensures Low8(w) + High8(w) == Low8(v) + TWO256 * c8 + P256 * Multiple(w)
  {
  }

  // ----- ecp_mod_p256

  /** The eight columns one after the other. Column i reads word i and words 8 to 15 only. */
  method ColumnChain(w: seq<nat>) returns (v: seq<nat>, c: int)
    requires |w| == 16 && forall j :: 0 <= j < 16 ==> Word(w[j])
    ensures |v| == 8 && (forall k :: 0 <= k < 8 ==> Word(v[k])) && -20 <= c <= 20
    ensures Low8(w) + High8(w) == Low8(v) + TWO256 * c + P256 * Multiple(w)
  {
    hide Low8, High8, Multiple;
    var v0, c1 := Column0(w, w[0], 0);
    var v1, c2 := Column1(w, w[1], c1);
    var v2, c3 := Column2(w, w[2], c2);
    var v3, c4 := Column3(w, w[3], c3);
    var v4, c5 := Column4(w, w[4], c4);
    var v5, c6 := Column5(w, w[5], c5);
    var v6, c7 := Column6(w, w[6], c6);
    var v7, c8 := Column7(w, w[7], c7);
    v, c := [v0, v1, v2, v3, v4, v5, v6, v7], c8;
    ColumnsCongruent(w, v, c1, c2, c3, c4, c5, c6, c7, c8);
  }

  /** The columns, stored in place; the last carry is returned. */
  method Columns(n: array<nat>) returns (c: int)
    requires n.Length >= 16 && forall k :: 0 <= k < n.Length ==> Word(n[k])
    modifies n
    ensures forall k :: 0 <= k < n.Length ==> Word(n[k])
    ensures forall k :: 8 <= k < n.Length ==> n[k] == old(n[k])
    ensures -20 <= c <= 20
    ensures Low8(old(n[..])) + High8(old(n[..])) == Low8(n[..]) + TWO256 * c + P256 * Multiple(old(n[..]))
  {
    hide Low8, High8, Multiple;
    var w := n[..16];
    SameWords(n[..], w);
    var v;
    v, c := ColumnChain(w);
    forall k | 0 <= k < 8 { n[k] := v[k]; }
    assert v[..8] == v == n[..][..8];
    SameLow(n[..], v);
  }

  lemma SameWords(s: seq<nat>, w: seq<nat>)
    requires |s| >= 16 && w == s[..16]
    ensures Low8(s) == Low8(w) && High8(s) == High8(w) && Multiple(s) == Multiple(w)
  {
  }

  lemma SameLow(s: seq<nat>, w: seq<nat>)
    requires |s| >= 8 && |w| >= 8 && s[..8] == w[..8]
    ensures Low8(s) == Low8(w)
  {
    assert forall k :: 0 <= k < 8 ==> s[k] == s[..8][k] == w[k];
  }

  /** In place: every N below 2^512 becomes a signed number congruent to it modulo P-256. */
  method ModP256(n: array<nat>) returns (negative: bool)
    requires n.Length >= 16 && IsLimbs(n[..], 0x1_0000_0000) && forall k :: 16 <= k < n.Length ==> n[k] == 0
    modifies n
    ensures IsLimbs(n[..], 0x1_0000_0000) && forall k :: 9 <= k < n.Length ==> n[k] == 0
    ensures Cong((if negative then -1 else 1) * Val(n[..], 0x1_0000_0000), old(Val(n[..], 0x1_0000_0000)), P256)
  {
    hide Low8, High8, Multiple;
    ghost var w := n[..];
    ValAll(w);
    assert forall k :: 0 <= k < n.Length ==> n[k] == w[k] && Word(n[k]);
    var c := Columns(n);
    ghost var u := n[..];
    ghost var low := Low8(u);
    var top: nat := if c > 0 then c else 0;
    n[8] := top;
    forall k | 9 <= k < n.Length { n[k] := 0; }
    SameLow(n[..], u);
    negative := c < 0;
    if negative {
      FixNegative(n, -c);
    } else {
      ValNine(n[..]);
    }
    ghost var v := low + TWO256 * c;
    CongIntro(Val(w, 0x1_0000_0000), v, Multiple(w), P256);
  }

  /** N = C - N with C = k * 2^256: the magnitude of a negative total. */
  method FixNegative(n: array<nat>, k: nat)
    requires n.Length >= 16 && IsLimbs(n[..], 0x1_0000_0000) && 0 < k <= 20
    requires forall j :: 8 <= j < n.Length ==> n[j] == 0
    modifies n
    ensures IsLimbs(n[..], 0x1_0000_0000) && forall j :: 9 <= j < n.Length ==> n[j] == 0
    ensures Val(n[..], 0x1_0000_0000) == TWO256 * k - old(Low8(n[..]))
  {
    var C := new nat[9](i => if i == 8 then k else 0);
    ValNine(C[..]);
    assert Low8(C[..]) == 0;
    hide Low8;
    var s := n[..];
    ValLow(s);
    ValBound(s[..8], 0x1_0000_0000);
    WordPowers();
    SubHlp(8, s, C, 0x1_0000_0000);
    ghost var t := C[..];
    assert Val(t, 0x1_0000_0000) == TWO256 * k - Low8(s);
    forall j | 0 <= j < 9 { n[j] := C[j]; }
    assert forall j :: 0 <= j < 9 ==> n[j] == t[j];
    assert n[..][..9] == t;
    assert forall j :: 0 <= j < n.Length ==> n[..][j] == n[j] < 0x1_0000_0000;
    ValTrim(n[..], 9, 0x1_0000_0000);
  }
}

/** Sliding-window modular exponentiation over Montgomery multiplication. */
module ExpMod {
  import opened Arith
  import opened Limbs
  import opened Montgomery
  import GcdInverse

  datatype Result = BadInput | Done(x: nat)

  /** An odd modulus with its limb width and Montgomery constant. */
  datatype Ctx = Ctx(N: seq<nat>, mm: nat, biL: nat) {
    function B(): (b: nat)
      ensures b > 0
    {
      Pow(2, biL)
    }

    ghost predicate Ok() {
      && biL >= 8 && N != [] && IsLimbs(N, B()) && N[0] % 2 == 1
      && mm < B() && Cong(mm * N[0], -1, B())
    }

    function Mod(): int {
      Val(N, B())
    }

    ghost function R(): (r: int)
      ensures r > 0
    {
      Pow(B(), |N|)
    }
  }

  /** The limbs stand for v in Montgomery form: a value below N that is v * R modulo N. */
  ghost predicate Rep(p: seq<nat>, v: int, c: Ctx)
    requires c.Ok() && c.Mod() > 0
  {
    && IsLimbs(p, c.B()) && |p| > |c.N|
    && 0 <= Val(p, c.B()) < c.Mod()
    && Cong(Val(p, c.B()), v * c.R(), c.Mod())
  }

  // ----- R is invertible modulo the odd N

  lemma CtxFacts(c: Ctx)
    requires c.Ok()
    ensures c.B() >= 16 && c.Mod() > 0 && c.Mod() % 2 == 1 && c.Mod() < c.R()
  {
    PowTwoFacts(c.biL);
    LowLimb(c.N, c.B());
    ValBound(c.N, c.B());
    ValBound(c.N[1..], c.B());
    OddSum(c.N[0], c.B(), Val(c.N[1..], c.B()));
  }

  lemma OddSum(x: int, b: int, h: int)
    requires b % 16 == 0 && x % 2 == 1 && x > 0 && h >= 0 && b > 0
    ensures (x + b * h) % 2 == 1 && x + b * h > 0
  {
    var k := b / 2;
    assert b == 2 * k by { EvenHalf(b); }
    MulAssoc(2, k, h);
    OddPlus(x, k * h);
    MulMono(0, h, b);
  }

  lemma EvenHalf(b: int)
    requires b % 16 == 0
    ensures b == 2 * (b / 2)
  {
    var k := b / 16;
    DivModUnique(b, 2, 8 * k, 0);
  }

  lemma OddPlus(x: int, y: int)
    requires x % 2 == 1
    ensures (x + 2 * y) % 2 == 1
  {
  }

  lemma RInverse(c: Ctx) returns (inv: int)
    requires c.Ok() && c.Mod() > 0
    ensures Cong(c.R() * inv, 1, c.Mod())
  {
    CtxFacts(c);
    hide Cong, Pow, Ctx.Ok;
    var n, k := c.Mod(), c.biL * |c.N|;
    var h := (n + 1) / 2;
    assert 2 * h == n + 1;
    PowPow(2, c.biL, |c.N|);
    PowMul(2, h, k);
    CongIntro(2 * h, 1, 1, n);
    CongPow(2 * h, 1, k, n);
    PowOne(k);
    inv := Pow(h, k);
  }

  /** Montgomery multiplication of represented values represents the product. */
  lemma RepProduct(x': int, x: int, y: int, u: int, v: int, c: Ctx)
    requires c.Ok() && c.Mod() > 0
    requires Cong(x' * c.R(), x * y, c.Mod()) && Cong(x, u * c.R(), c.Mod()) && Cong(y, v * c.R(), c.Mod())
    ensures Cong(x', (u * v) * c.R(), c.Mod())
  {
    var r, n := c.R(), c.Mod();
    CongMul(x, u * r, y, v * r, n);
    MulSwap(u, r, v, r);
    MulAssoc(u * v, r, r);
    var inv := RInverse(c);
    CongCancel(x', (u * v) * r, r, inv, n);
  }

  method MulRep(x: array<nat>, y: seq<nat>, c: Ctx, t: array<nat>, ghost u: int, ghost v: int)
    requires c.Ok() && c.Mod() > 0 && Rep(x[..], u, c) && Rep(y, v, c)
    requires t.Length >= 2 * |c.N| + 2 && t != x
    modifies x, t
    ensures Rep(x[..], u * v, c)
  {
    CtxFacts(c);
    ghost var vx, vy := Val(x[..], c.B()), Val(y, c.B());
    Montmul(x, y, c.N, c.mm, t, c.B());
    RepProduct(Val(x[..], c.B()), vx, vy, u, v, c);
  }

  /** k squarings raise to the power 2^k. */
  method SquareTimes(x: array<nat>, k: nat, c: Ctx, t: array<nat>, ghost a: int, ghost e: nat)
    requires c.Ok() && c.Mod() > 0 && Rep(x[..], Pow(a, e), c) && t.Length >= 2 * |c.N| + 2 && t != x
    modifies x, t
    ensures Rep(x[..], Pow(a, e * Pow(2, k)), c)
  {
    var i: nat := 0;
    while i < k
      invariant i <= k && Rep(x[..], Pow(a, e * Pow(2, i)), c)
    {
      ghost var f := e * Pow(2, i);
      MulRep(x, x[..], c, t, Pow(a, f), Pow(a, f));
      PowAdd(a, f, f);
      MulAssoc(e, Pow(2, i), 2);
      i := i + 1;
    }
  }

  // ----- limbs of a value, bits of an exponent

  method ToLimbs(v: nat, len: nat, b: nat) returns (p: array<nat>)
    requires b >= 2 && v < Pow(b, len)
    ensures fresh(p) && p.Length == len && IsLimbs(p[..], b) && Val(p[..], b) == v
  {
    hide Pow, Val;
    p := new nat[len](_ => 0);
    ValZero(p[..], b);
    PowNext(b, 0);
    var i: nat, w: nat := 0, v;
    while i < len
      invariant i <= len && IsLimbs(p[..], b) && Val(p[..], b) + w * Pow(b, i) == v
      invariant forall k :: i <= k < len ==> p[k] == 0
    {
      ghost var q, w0 := p[..], w;
      var lo;
      lo, w := DivWord(w, b);
      p[i] := lo;
      assert p[..] == q[i := lo];
      CarryStep(q, i, lo, 0, w0, w, b);
      i := i + 1;
    }
    ValBound(p[..], b);
    if w > 0 { MulMono(1, w, Pow(b, len)); }
  }

  method DivWord(w: nat, b: nat) returns (lo: nat, hi: nat)
    requires b >= 2
    ensures lo < b && w == lo + hi * b
  {
    lo, hi := w % b, w / b;
  }

  /** The number formed by the bits of E read so far: all limbs above k, and limb k down to bit j. */
  ghost function Prefix(E: seq<nat>, k: nat, j: nat, biL: nat): int
    requires k <= |E| && j <= biL
  {
    if k == |E| then 0 else Val(E[k + 1..], Pow(2, biL)) * Pow(2, biL - j) + E[k] / Pow(2, j)
  }

  lemma PrefixBit(E: seq<nat>, k: nat, j: nat, biL: nat)
    requires k < |E| && j < biL
    ensures Prefix(E, k, j, biL) == 2 * Prefix(E, k, j + 1, biL) + (E[k] / Pow(2, j)) % 2
  {
    var h, p := Val(E[k + 1..], Pow(2, biL)), Pow(2, biL - j - 1);
    MulAssoc(h, 2, p);
    DivTwice(E[k], Pow(2, j));
  }

  lemma DivTwice(x: nat, p: int)
    requires p > 0
    ensures x / p == 2 * (x / (2 * p)) + (x / p) % 2
  {
    var q := x / p;
    var h, o := q / 2, q % 2;
    assert x == q * p + x % p;
    MulDistr(2 * h, o, p);
    MulAssoc(h, 2, p);
    MulMono(0, o, p);
    DivModUnique(x, 2 * p, h, o * p + x % p);
  }

  /** Moving on to the next limb loses nothing. */
  lemma PrefixLimb(E: seq<nat>, k: nat, biL: nat)
    requires biL >= 1 && 0 < k <= |E| && IsLimbs(E, Pow(2, biL))
    ensures Prefix(E, k, 0, biL) == Prefix(E, k - 1, biL, biL)
  {
    var b := Pow(2, biL);
    DivModUnique(E[k - 1], b, 0, E[k - 1]);
    if k < |E| { PrefixAll(E, k, biL); }
  }

  lemma PrefixAll(E: seq<nat>, k: nat, biL: nat)
    requires biL >= 1 && k < |E| && IsLimbs(E, Pow(2, biL))
    ensures Prefix(E, k, 0, biL) == Val(E[k..], Pow(2, biL))
  {
    hide Pow, Val;
    var b := Pow(2, biL);
    PowNext(2, biL - 1);
    LowLimb(E[k..], b);
    assert E[k..][1..] == E[k + 1..] && E[k..][0] == E[k];
    MulComm(b, Val(E[k + 1..], b));
    DivModUnique(E[k], 1, E[k], 0);
  }

  /** Advances to the next bit of E, from the most significant allocated one down. */
  method ReadBit(E: seq<nat>, k: nat, j: nat, biL: nat) returns (more: bool, k': nat, j': nat, ei: nat)
    requires biL >= 1 && IsLimbs(E, Pow(2, biL)) && k <= |E| && j <= biL && (k == |E| ==> j == 0)
    ensures !more ==> Prefix(E, k, j, biL) == Val(E, Pow(2, biL))
    ensures more ==> k' < |E| && j' < biL && ei <= 1 && (k' < k || (k' == k && j' < j))
    ensures more ==> Prefix(E, k', j', biL) == 2 * Prefix(E, k, j, biL) + ei
  {
    k', j', ei := k, j, 0;
    if j' == 0 {
      if k' == 0 {
        if E != [] { PrefixAll(E, 0, biL); assert E[0..] == E; }
        return false, k', j', ei;
      }
      PrefixLimb(E, k', biL);
      k' := k' - 1;
      j' := biL;
    }
    j' := j' - 1;
    ei := (E[k'] / Pow(2, j')) % 2;
    PrefixBit(E, k', j', biL);
    more := true;
  }

  // ----- the window table

  /** The table: entry 1 and the upper half hold their own power of A; nothing else is filled. */
  ghost predicate Table(W: map<nat, seq<nat>>, a: int, ws: nat, c: Ctx)
    requires c.Ok() && c.Mod() > 0 && ws >= 1
  {
    && 1 in W && (forall k :: Pow(2, ws - 1) <= k < Pow(2, ws) ==> k in W)
    && (forall k :: k in W ==> Rep(W[k], Pow(a, k), c))
  }

  method FromSeq(s: seq<nat>) returns (y: array<nat>)
    ensures fresh(y) && y[..] == s
  {
    y := new nat[|s|](i requires 0 <= i < |s| => s[i]);
  }

  /** Exactly entry 1 and the entries with ws bits are filled. */
  ghost predicate Filled(W: map<nat, seq<nat>>, lo: int, hi: int) {
    forall k: nat :: k in W <==> k == 1 || lo <= k < hi
  }

  /** Fills entry 2^(ws-1) by squaring and the ones above it by multiplying with entry 1. */
  method Precompute(w1: seq<nat>, ws: nat, c: Ctx, t: array<nat>, ghost a: int) returns (W: map<nat, seq<nat>>)
    requires c.Ok() && c.Mod() > 0 && ws >= 1 && Rep(w1, a, c) && t.Length >= 2 * |c.N| + 2
    modifies t
    ensures Table(W, a, ws, c) && Filled(W, Pow(2, ws - 1), Pow(2, ws))
  {
    W := map[1 := w1];
    assert Pow(a, 1) == a && Pow(2, 0) == 1 && Pow(2, 1) == 2;
    if ws > 1 {
      var j: nat := Pow(2, ws - 1);
      var y := FromSeq(w1);
      SquareTimes(y, ws - 1, c, t, a, 1);
      W := W[j := y[..]];
      W := FillUpper(W, j, Pow(2, ws), c, t, a);
    }
  }

  method FillUpper(W0: map<nat, seq<nat>>, j: nat, hi: nat, c: Ctx, t: array<nat>, ghost a: int)
      returns (W: map<nat, seq<nat>>)
    requires c.Ok() && c.Mod() > 0 && t.Length >= 2 * |c.N| + 2 && j < hi
    requires Filled(W0, j, j + 1) && forall k :: k in W0 ==> Rep(W0[k], Pow(a, k), c)
    modifies t
    ensures Filled(W, j, hi) && forall k :: k in W ==> Rep(W[k], Pow(a, k), c)
  {
    hide Rep, Ctx.Ok, Ctx.Mod, Ctx.B, Pow;
    W := W0;
    var i: nat := j + 1;
    while i < hi
      invariant j < i <= hi && Filled(W, j, i)
      invariant forall k :: k in W ==> Rep(W[k], Pow(a, k), c)
    {
      assert i - 1 in W && 1 in W;
      var y := NextEntry(W[i - 1], W[1], i, c, t, a);
      W := W[i := y];
      i := i + 1;
    }
  }

  /** Entry i from entry i - 1 and entry 1. */
  method NextEntry(w: seq<nat>, w1: seq<nat>, i: nat, c: Ctx, t: array<nat>, ghost a: int) returns (r: seq<nat>)
    requires c.Ok() && c.Mod() > 0 && t.Length >= 2 * |c.N| + 2 && i > 0
    requires Rep(w, Pow(a, i - 1), c) && Rep(w1, Pow(a, 1), c)
    modifies t
    ensures Rep(r, Pow(a, i), c)
  {
    hide Rep, Ctx.Ok, Ctx.Mod, Pow;
    var y := FromSeq(w);
    MulRep(y, w1, c, t, Pow(a, i - 1), Pow(a, 1));
    PowAdd(a, i - 1, 1);
    r := y[..];
  }

  // ----- the window automaton

  /** The exponent read so far is e = q * 2^nbits + wv: X holds A^q, and the nbits pending bits wv,
      led by a one, sit at the top of the window word. */
  ghost predicate Window(X: seq<nat>, state: nat, nbits: nat, wbits: nat, wv: int, q: nat, e: int, a: int, ws: nat,
                         c: Ctx)
    requires c.Ok() && c.Mod() > 0 && ws >= 1
  {
    && nbits < ws && 0 <= wv < Pow(2, nbits) && e == q * Pow(2, nbits) + wv
    && wbits == wv * Pow(2, ws - nbits) && Rep(X, Pow(a, q), c)
    && state <= 2 && (state == 0 ==> e == 0) && (state <= 1 ==> nbits == 0)
    && (state == 2 ==> nbits > 0 && wv >= Pow(2, nbits - 1))
  }

  /** Appending one bit to the pending bits. */
  lemma PendingBit(q: nat, wv: int, nbits: nat, ei: nat, ws: nat)
    requires nbits < ws && 0 <= wv < Pow(2, nbits) && ei <= 1
    ensures 0 <= 2 * wv + ei < Pow(2, nbits + 1)
    ensures 2 * (q * Pow(2, nbits) + wv) + ei == q * Pow(2, nbits + 1) + (2 * wv + ei)
    ensures wv * Pow(2, ws - nbits) + ei * Pow(2, ws - nbits - 1) == (2 * wv + ei) * Pow(2, ws - nbits - 1)
  {
    MulAssoc(q, 2, Pow(2, nbits));
    MulAssoc(wv, 2, Pow(2, ws - nbits - 1));
    MulDistr(2 * wv, ei, Pow(2, ws - nbits - 1));
  }

  /** A full window: ws squarings and one multiplication by a filled table entry. */
  method FullWindow(X: array<nat>, W: map<nat, seq<nat>>, wbits: nat, ws: nat, c: Ctx, t: array<nat>,
                    ghost a: int, ghost q: nat)
    requires c.Ok() && c.Mod() > 0 && ws >= 1 && Table(W, a, ws, c) && Rep(X[..], Pow(a, q), c)
    requires Pow(2, ws - 1) <= wbits < Pow(2, ws) && t.Length >= 2 * |c.N| + 2 && t != X
    modifies X, t
    ensures Rep(X[..], Pow(a, q * Pow(2, ws) + wbits), c)
  {
    hide Rep, Ctx.Ok, Ctx.Mod;
    SquareTimes(X, ws, c, t, a, q);
    MulRep(X, W[wbits], c, t, Pow(a, q * Pow(2, ws)), Pow(a, wbits));
    PowAdd(a, q * Pow(2, ws), wbits);
  }

  /** One exponent bit through the automaton. */
  method WindowStep(X: array<nat>, W: map<nat, seq<nat>>, state: nat, nbits: nat, wbits: nat, ei: nat, ws: nat,
                    c: Ctx, t: array<nat>, ghost a: int, ghost wv: int, ghost q: nat, ghost e: int)
      returns (state': nat, nbits': nat, wbits': nat, ghost wv': int, ghost q': nat)
    requires c.Ok() && c.Mod() > 0 && ws >= 1 && Table(W, a, ws, c) && ei <= 1
    requires Window(X[..], state, nbits, wbits, wv, q, e, a, ws, c) && t.Length >= 2 * |c.N| + 2 && t != X
    modifies X, t
    ensures Window(X[..], state', nbits', wbits', wv', q', 2 * e + ei, a, ws, c)
  {
    hide Rep, Ctx.Ok, Ctx.Mod, Window;
    state', nbits', wbits', wv', q' := state, nbits, wbits, wv, q;
    IdleWindow(X[..], state, nbits, wbits, wv, q, e, a, ws, c);
    if ei == 0 && state == 0 { return; }
    if ei == 0 && state == 1 {
      MulRep(X, X[..], c, t, Pow(a, q), Pow(a, q));
      PowAdd(a, q, q);
      WindowClosed(X[..], 2 * q, a, ws, c);
      q' := 2 * q;
      return;
    }
    var bit := if ei == 0 then 0 else Pow(2, ws - nbits - 1);
    Appended(X[..], state, nbits, wbits, wv, q, e, ei, bit, a, ws, c);
    state', nbits', wbits', wv' := 2, nbits + 1, wbits + bit, 2 * wv + ei;
    if nbits' == ws {
      FullWindow(X, W, wbits', ws, c, t, a, q);
      WindowClosed(X[..], 2 * e + ei, a, ws, c);
      state', nbits', wbits' := 1, 0, 0;
      q', wv' := 2 * e + ei, 0;
    }
  }

  /** A bit joins the window: either the window is still open, or it is full and led by a one. */
  lemma Appended(X: seq<nat>, state: nat, nbits: nat, wbits: nat, wv: int, q: nat, e: int, ei: nat, bit: int,
                 a: int, ws: nat, c: Ctx)
    requires c.Ok() && c.Mod() > 0 && ws >= 1 && Window(X, state, nbits, wbits, wv, q, e, a, ws, c)
    requires ei <= 1 && (ei == 1 || state == 2) && bit == if ei == 0 then 0 else Pow(2, ws - nbits - 1)
    ensures Rep(X, Pow(a, q), c) && bit >= 0
    ensures nbits + 1 < ws ==> Window(X, 2, nbits + 1, wbits + bit, 2 * wv + ei, q, 2 * e + ei, a, ws, c)
    ensures nbits + 1 == ws ==>
      Pow(2, ws - 1) <= wbits + bit < Pow(2, ws) && 2 * e + ei == q * Pow(2, ws) + (wbits + bit)
  {
    hide Rep, Ctx.Ok, Ctx.Mod;
    PendingBit(q, wv, nbits, ei, ws);
    assert 2 * wv + ei >= Pow(2, nbits);
    assert nbits + 1 == ws ==> Pow(2, ws - nbits - 1) == 1;
  }

  lemma IdleWindow(X: seq<nat>, state: nat, nbits: nat, wbits: nat, wv: int, q: nat, e: int, a: int, ws: nat, c: Ctx)
    requires c.Ok() && c.Mod() > 0 && ws >= 1 && Window(X, state, nbits, wbits, wv, q, e, a, ws, c)
    ensures nbits < ws && state <= 2 && Rep(X, Pow(a, q), c) && 0 <= wv < Pow(2, nbits) && e >= 0
    ensures wbits == wv * Pow(2, ws - nbits) && e == q * Pow(2, nbits) + wv
    ensures state == 0 ==> e == 0
    ensures state <= 1 ==> nbits == 0 == wbits && wv == 0 && e == q
  {
    MulMono(0, q, Pow(2, nbits));
  }

  lemma WindowClosed(X: seq<nat>, e: nat, a: int, ws: nat, c: Ctx)
    requires c.Ok() && c.Mod() > 0 && ws >= 1 && Rep(X, Pow(a, e), c)
    ensures Window(X, 1, 0, 0, 0, e, e, a, ws, c)
    ensures e == 0 ==> Window(X, 0, 0, 0, 0, e, e, a, ws, c)
  {
    assert e * Pow(2, 0) == e;
  }

  /** Reads all of E; afterwards at most one incomplete window is pending. */
  method WindowLoop(X: array<nat>, W: map<nat, seq<nat>>, E: seq<nat>, ws: nat, c: Ctx, t: array<nat>, ghost a: int)
      returns (state: nat, nbits: nat, wbits: nat, ghost wv: int, ghost q: nat)
    requires c.Ok() && c.Mod() > 0 && ws >= 1 && Table(W, a, ws, c) && IsLimbs(E, c.B())
    requires Rep(X[..], 1, c) && t.Length >= 2 * |c.N| + 2 && t != X
    modifies X, t
    ensures Window(X[..], state, nbits, wbits, wv, q, Val(E, c.B()), a, ws, c)
  {
    hide Rep, Ctx.Mod, Window;
    var k: nat, j: nat := |E|, 0;
    state, nbits, wbits, wv, q := 0, 0, 0, 0, 0;
    WindowClosed(X[..], 0, a, ws, c);
    while true
      invariant k <= |E| && j <= c.biL && (k == |E| ==> j == 0)
      invariant Window(X[..], state, nbits, wbits, wv, q, Prefix(E, k, j, c.biL), a, ws, c)
      decreases k, j
    {
      var more, k', j', ei := ReadBit(E, k, j, c.biL);
      if !more { break; }
      ghost var sofar := Prefix(E, k, j, c.biL);
      state, nbits, wbits, wv, q := WindowStep(X, W, state, nbits, wbits, ei, ws, c, t, a, wv, q, sofar);
      k, j := k', j';
    }
  }

  /** The pending bits, one by one: a square each, and a multiplication by entry 1 for a one. */
  method TailBits(X: array<nat>, w1: seq<nat>, nbits: nat, wbits0: nat, ws: nat, c: Ctx, t: array<nat>,
                  ghost a: int, ghost wv: nat, ghost q: nat)
    requires c.Ok() && c.Mod() > 0 && nbits < ws && wv < Pow(2, nbits) && wbits0 == wv * Pow(2, ws - nbits)
    requires Rep(X[..], Pow(a, q), c) && Rep(w1, Pow(a, 1), c) && t.Length >= 2 * |c.N| + 2 && t != X
    modifies X, t
    ensures Rep(X[..], Pow(a, q * Pow(2, nbits) + wv), c)
  {
    hide Rep, Ctx.Ok, Ctx.Mod;
    var wbits := wbits0;
    var i: nat := 0;
    ghost var f: nat := q;
    TailStart(q, wv, nbits);
    while i < nbits
      invariant i <= nbits && wbits == wv * Pow(2, ws - nbits + i) && f == q * Pow(2, i) + wv / Pow(2, nbits - i)
      invariant Rep(X[..], Pow(a, f), c)
    {
      MulRep(X, X[..], c, t, Pow(a, f), Pow(a, f));
      PowAdd(a, f, f);
      TailBit(q, wv, nbits, i, ws);
      wbits := 2 * wbits;
      f := 2 * f;
      if (wbits / Pow(2, ws)) % 2 != 0 {
        MulRep(X, w1, c, t, Pow(a, f), Pow(a, 1));
        PowAdd(a, f, 1);
        f := f + 1;
      }
      i := i + 1;
    }
    assert Pow(2, 0) == 1;
  }

  lemma TailStart(q: nat, wv: nat, nbits: nat)
    requires wv < Pow(2, nbits)
    ensures q == q * Pow(2, 0) + wv / Pow(2, nbits)
  {
    DivModUnique(wv, Pow(2, nbits), 0, wv);
  }

  /** Bit ws of the shifted window word is the next pending bit. */
  lemma TailBit(q: nat, wv: nat, nbits: nat, i: nat, ws: nat)
    requires i < nbits < ws
    ensures 2 * (wv * Pow(2, ws - nbits + i)) == wv * Pow(2, ws - nbits + (i + 1))
    ensures q * Pow(2, i + 1) + wv / Pow(2, nbits - (i + 1))
         == 2 * (q * Pow(2, i) + wv / Pow(2, nbits - i)) + ((wv * Pow(2, ws - nbits + (i + 1))) / Pow(2, ws)) % 2
    ensures wv / Pow(2, nbits - i) >= 0
  {
    hide Pow;
    var p, r := Pow(2, nbits - i - 1), Pow(2, ws - nbits + i);
    PowNext(2, ws - nbits + i);
    PowNext(2, i);
    PowNext(2, nbits - i - 1);
    PowAdd(2, nbits - i - 1, ws - nbits + i + 1);
    TailBitCore(q, wv, p, r, Pow(2, i));
  }

  lemma TailBitCore(q: nat, wv: nat, p: int, r: int, s: int)
    requires p > 0 && r > 0
    ensures p * (2 * r) > 0 && wv / p >= 0 && wv / (2 * p) >= 0
    ensures 2 * (wv * r) == wv * (2 * r)
    ensures q * (2 * s) + wv / p == 2 * (q * s + wv / (2 * p)) + ((wv * (2 * r)) / (p * (2 * r))) % 2
  {
    DivTwice(wv, p);
    DivScaled(wv, p, 2 * r);
    FloorBounds(wv, p);
    FloorBounds(wv, 2 * p);
    DoubleProduct(q, s);
    DoubleProduct(wv, r);
  }

  lemma DoubleProduct(x: int, y: int)
    ensures x * (2 * y) == 2 * (x * y)
  {
  }

  lemma DivScaled(x: nat, p: int, r: int)
    requires p > 0 && r > 0
    ensures p * r > 0 && (x * r) / (p * r) == x / p
  {
    var q, m := x / p, x % p;
    assert x == q * p + m;
    MulMono(1, p, r);
    MulDistr(q * p, m, r);
    MulAssoc(q, p, r);
    MulMono(0, m, r);
    MulMono(m + 1, p, r);
    MulDistr(m, 1, r);
    DivModUnique(x * r, p * r, q, m * r);
  }

  // ----- entering and leaving Montgomery form

  lemma RepEnter(x': int, x: int, rr: int, a: int, c: Ctx)
    requires c.Ok() && c.Mod() > 0 && Cong(x' * c.R(), x * rr, c.Mod())
    requires Cong(rr, c.R() * c.R(), c.Mod()) && Cong(x, a, c.Mod())
    ensures Cong(x', a * c.R(), c.Mod())
  {
    var r, n := c.R(), c.Mod();
    CongMul(x, a, rr, r * r, n);
    MulAssoc(a, r, r);
    var inv := RInverse(c);
    CongCancel(x', a * r, r, inv, n);
  }

  lemma RepLeave(x': int, x: int, v: int, c: Ctx)
    requires c.Ok() && c.Mod() > 0 && Cong(x' * c.R(), x * 1, c.Mod()) && Cong(x, v * c.R(), c.Mod())
    ensures Cong(x', v, c.Mod())
  {
    var inv := RInverse(c);
    CongCancel(x', v, c.R(), inv, c.Mod());
  }

  lemma ValOne(b: nat)
    ensures Val([1], b) == 1
  {
    assert Val([], b) == 0 && [1][..0] == [];
  }

  /** Multiplication by 1 in place: takes one factor R out. */
  method Montred(x: array<nat>, c: Ctx, t: array<nat>)
    requires c.Ok() && c.Mod() > 0 && IsLimbs(x[..], c.B()) && x.Length > |c.N| && Val(x[..], c.B()) < c.Mod()
    requires t.Length >= 2 * |c.N| + 2 && t != x
    modifies x, t
    ensures IsLimbs(x[..], c.B()) && 0 <= Val(x[..], c.B()) < c.Mod()
    ensures Cong(Val(x[..], c.B()) * c.R(), old(Val(x[..], c.B())) * 1, c.Mod())
  {
    CtxFacts(c);
    ValOne(c.B());
    Montmul(x, [1], c.N, c.mm, t, c.B());
  }

  /** Limbs for a residue, with the one spare limb that multiplication needs. */
  method ResidueLimbs(v: nat, c: Ctx) returns (p: array<nat>)
    requires c.Ok() && v < c.Mod()
    ensures fresh(p) && p.Length == |c.N| + 1 && IsLimbs(p[..], c.B()) && Val(p[..], c.B()) == v
  {
    CtxFacts(c);
    PowMono(c.B(), |c.N|, |c.N| + 1);
    p := ToLimbs(v, |c.N| + 1, c.B());
  }

  /** A in Montgomery form, through R^2 mod N. */
  method EnterBase(a: nat, rr: nat, c: Ctx, t: array<nat>) returns (w1: array<nat>)
    requires c.Ok() && c.Mod() > 0 && rr < c.Mod() && Cong(rr, c.R() * c.R(), c.Mod()) && t.Length >= 2 * |c.N| + 2
    modifies t
    ensures fresh(w1) && Rep(w1[..], a, c)
  {
    CtxFacts(c);
    CongMod(a, c.Mod());
    var v: nat := if a >= c.Mod() then a % c.Mod() else a;
    w1 := ResidueLimbs(v, c);
    var p := ResidueLimbs(rr, c);
    Montmul(w1, p[..], c.N, c.mm, t, c.B());
    RepEnter(Val(w1[..], c.B()), v, rr, a, c);
  }

  /** 1 in Montgomery form: R mod N = R^2 * R^-1 mod N. */
  method EnterOne(rr: nat, c: Ctx, t: array<nat>) returns (x: array<nat>)
    requires c.Ok() && c.Mod() > 0 && rr < c.Mod() && Cong(rr, c.R() * c.R(), c.Mod()) && t.Length >= 2 * |c.N| + 2
    modifies t
    ensures fresh(x) && Rep(x[..], 1, c)
  {
    x := ResidueLimbs(rr, c);
    Montred(x, c, t);
    RepLeave(Val(x[..], c.B()), rr, c.R(), c);
  }

  function WindowSize(bits: nat, maxW: nat): (ws: nat)
    requires maxW >= 1
    ensures 1 <= ws <= maxW
  {
    var w := if bits > 671 then 6 else if bits > 239 then 5 else if bits > 79 then 4 else if bits > 23 then 3 else 1;
    if w > maxW then maxW else w
  }

  lemma SquareOfR(c: Ctx)
    ensures Pow(2, |c.N| * 2 * c.biL) == c.R() * c.R()
  {
    var n, w := |c.N|, c.biL;
    PowPow(2, w, n);
    PowAdd(2, w * n, w * n);
    assert n * 2 * w == w * n + w * n;
  }

  /** |A|^E mod N for an odd N: the window automaton between entering and leaving Montgomery form. */
  method Exponentiate(a: nat, E: seq<nat>, c: Ctx, rr: nat, ws: nat) returns (x: nat)
    requires c.Ok() && c.Mod() > 0 && IsLimbs(E, c.B()) && ws >= 1
    requires rr < c.Mod() && Cong(rr, c.R() * c.R(), c.Mod())
    ensures Val(E, c.B()) >= 0 && x == Pow(a, Val(E, c.B())) % c.Mod()
  {
    hide Ctx.Ok, Ctx.Mod;
    var t := new nat[2 * (|c.N| + 1)];
    var w1 := EnterBase(a, rr, c, t);
    var X := EnterOne(rr, c, t);
    var W := Precompute(w1[..], ws, c, t, a);
    assert Pow(a, 1) == a;
    ghost var w := w1[..];
    var state, nbits, wbits; ghost var wv, q;
    state, nbits, wbits, wv, q := WindowLoop(X, W, E, ws, c, t, a);
    IdleWindow(X[..], state, nbits, wbits, wv, q, Val(E, c.B()), a, ws, c);
    TailBits(X, W[1], nbits, wbits, ws, c, t, a, wv, q);
    ghost var y, v := Val(X[..], c.B()), Pow(a, Val(E, c.B()));
    Montred(X, c, t);
    RepLeave(Val(X[..], c.B()), y, v, c);
    x := Val(X[..], c.B());
    DivModUnique(x, c.Mod(), 0, x);
  }

  /** X = A^E mod N. The checks, the window size, the square of R (computed, or taken from the
      cache) and the sign: a negative A is always negated at the end, whatever the exponent. */
  method ExpMod(A: int, E: seq<nat>, eNeg: bool, N: seq<nat>, nNeg: bool, cache: Option<nat>, biL: nat, maxW: nat)
      returns (r: Result, rr: nat)
    requires biL >= 8 && IsPowerOfTwo(biL) && maxW >= 1 && N != []
    requires IsLimbs(E, Pow(2, biL)) && IsLimbs(N, Pow(2, biL))
    requires cache.Some? && Val(N, Pow(2, biL)) > 0 ==>
      cache.value == (Pow(Pow(2, biL), |N|) * Pow(Pow(2, biL), |N|)) % Val(N, Pow(2, biL))
    ensures r.BadInput? <==>
      (nNeg && Val(N, Pow(2, biL)) != 0) || N[0] % 2 == 0 || (eNeg && Val(E, Pow(2, biL)) != 0)
    ensures r.Done? ==> Val(N, Pow(2, biL)) > 0 && Val(E, Pow(2, biL)) >= 0
    ensures r.Done? && A >= 0 ==> r.x == Pow(A, Val(E, Pow(2, biL))) % Val(N, Pow(2, biL))
    ensures r.Done? && A < 0 ==>
      r.x == Val(N, Pow(2, biL)) - Pow(-A, Val(E, Pow(2, biL))) % Val(N, Pow(2, biL))
    ensures r.Done? ==>
      rr == (Pow(Pow(2, biL), |N|) * Pow(Pow(2, biL), |N|)) % Val(N, Pow(2, biL))
  {
    var b: nat := Pow(2, biL);
    rr := 0;
    ValBound(E, b);
    if (nNeg && Val(N, b) != 0) || N[0] % 2 == 0 { return BadInput, rr; }
    if eNeg && Val(E, b) != 0 { return BadInput, rr; }
    var mm := MontgInit(N[0], biL);
    var c := Ctx(N, mm, biL);
    CtxFacts(c);
    SquareOfR(c);
    var ws := WindowSize(BitLen(Val(E, b)), maxW);
    rr := match cache
      case None => Pow(2, |N| * 2 * biL) % c.Mod()
      case Some(v) => v;
    CongMod(c.R() * c.R(), c.Mod());
    var x := Exponentiate(Abs(A), E, c, rr, ws);
    r := Done(if A < 0 then c.Mod() - x else x);
  }

  /** When the result for a negative base is the residue of A^E: exactly for an odd exponent with
      a nonzero result. (An even exponent gets the wrong sign; a zero comes out as N itself.) */
  lemma NegativeBase(A: int, e: nat, n: int)
    requires A < 0 && n > 0 && n % 2 == 1
    ensures n - Pow(-A, e) % n == Pow(A, e) % n <==> e % 2 == 1 && Pow(-A, e) % n != 0
  {
    var x := Pow(-A, e);
    NegPow(-A, e);
    CongMod(x, n);
    if e % 2 == 1 {
      if x % n == 0 { CongIntro(-x, 0, -(x / n), n); DivModUnique(0, n, 0, 0); }
      else {
        CongAdd(0, 0, x % n, x, n);
        CongIntro(n - x % n, -(x % n), 1, n);
        DivModUnique(n - x % n, n, 0, n - x % n);
      }
    }
  }

  /** Seen from the caller: for a base that is coprime to the modulus, the result is right exactly when the
      exponent is odd. */
  lemma NegativeCoprimeBase(A: int, e: nat, n: int)
    requires A < 0 && n > 1 && n % 2 == 1 && GcdInverse.IsGcd(1, -A, n)
    ensures n - Pow(-A, e) % n == Pow(A, e) % n <==> e % 2 == 1
  {
    NegativeBase(A, e, n);
    assert GcdInverse.IsGcd(1, n, -A) by { GcdInverse.GcdSymmetric(1, -A, n); }
    var u, v := GcdInverse.Euclid(n, -A);
    hide Pow, GcdInverse.IsGcd;
    CongIntro(v * -A, 1, -u, n);
    InversePower(v, -A, e, n);
    PowerNotZero(Pow(v, e), Pow(-A, e), n);
  }

  lemma PowerNotZero(w: int, z: int, n: int)
    requires n > 1 && Cong(w * z, 1, n)
    ensures z % n != 0
  {
    if z % n == 0 {
      assert Cong(z, 0, n) by { DivModUnique(0, n, 0, 0); }
      CongMul(w, w, z, 0, n);
      DivModUnique(0, n, 0, 0);
      DivModUnique(1, n, 0, 1);
    }
  }

  /** An even exponent: (-2)^2 mod 5 comes out as 1, not 4. */
  method NegativeSquare() returns (r: Result)
    ensures r == Done(1) && Pow(-2, 2) % 5 == 4
  {
    hide Pow;
    SmallValues();
    var rr;
    r, rr := ExpMod(-2, [2], false, [5], false, None, 8, 6);
  }

  lemma SmallValues()
    ensures IsPowerOfTwo(8) && Pow(2, 8) == 256 && Val([2], 256) == 2 && Val([5], 256) == 5
    ensures Pow(2, 2) == 4 && Pow(-2, 2) == 4
  {
    assert Val([], 256) == 0;
  }

  lemma {:induction false} NegPow(a: int, e: nat)
    ensures Pow(-a, e) == if e % 2 == 0 then Pow(a, e) else -Pow(a, e)
  {
    if e > 0 { NegPow(a, e - 1); }
  }
}

/** The signed all-odd comb representation of an odd scalar: d + 1 bytes, of which the seven low
    bits hold a column of the scalar's bit matrix and the top bit a sign. */
module CombRecoding {
  import opened Arith

  /** A byte as its eight bits, least significant first. */
  type Byte = s: seq<bool> | |s| == 8 witness [false, false, false, false, false, false, false, false]

  function And(x: Byte, y: Byte): Byte { seq(8, i requires 0 <= i < 8 => x[i] && y[i]) }
  function Or(x: Byte, y: Byte): Byte { seq(8, i requires 0 <= i < 8 => x[i] || y[i]) }
  function Xor(x: Byte, y: Byte): Byte { seq(8, i requires 0 <= i < 8 => x[i] != y[i]) }

  const ZERO: Byte := [false, false, false, false, false, false, false, false]

  function BitVal(x: Byte, j: nat): int
    requires j < 8
  {
    if x[j] then 1 else 0
  }

  function Sign(x: Byte): int {
    if x[7] then -1 else 1
  }

  /** Bit pos of a scalar. */
  function GetBit(m: nat, pos: nat): (r: nat)
    ensures r <= 1
  {
    Shifted(m, Pow(2, pos)) % 2
  }

  function Shifted(m: nat, p: int): (r: nat)
    requires p > 0
  {
    m / p
  }

  // ----- sums over a digit string

  /** Tooth j of the first n digits: their j-th bits as one signed binary number. */
  ghost function ToothSum(xs: seq<Byte>, n: nat, j: nat): int
    requires n <= |xs| && j < 7
  {
    if n == 0 then 0 else ToothSum(xs, n - 1, j) + (Sign(xs[n - 1]) * BitVal(xs[n - 1], j)) * Pow(2, n - 1)
  }

  /** What one digit contributes: bit j counts D^j, where D = 2^d. */
  ghost function Weight(x: Byte, j: nat, D: int): int
    requires j <= 7
    decreases 7 - j
  {
    if j == 7 then 0 else BitVal(x, j) + D * Weight(x, j + 1, D)
  }

  /** The number that the first n digits stand for. */
  ghost function Value(xs: seq<Byte>, n: nat, D: int): int
    requires n <= |xs|
  {
    if n == 0 then 0 else Value(xs, n - 1, D) + (Sign(xs[n - 1]) * Weight(xs[n - 1], 0, D)) * Pow(2, n - 1)
  }

  ghost function ToothHorner(xs: seq<Byte>, n: nat, j: nat, D: int): int
    requires n <= |xs| && j <= 7
    decreases 7 - j
  {
    if j == 7 then 0 else ToothSum(xs, n, j) + D * ToothHorner(xs, n, j + 1, D)
  }

  lemma {:induction false} HornerStep(xs: seq<Byte>, n: nat, j: nat, D: int)
    requires n < |xs| && j <= 7
    ensures ToothHorner(xs, n + 1, j, D) == ToothHorner(xs, n, j, D) + (Sign(xs[n]) * Weight(xs[n], j, D)) * Pow(2, n)
    decreases 7 - j
  {
    if j < 7 {
      HornerStep(xs, n, j + 1, D);
      HornerAlgebra(ToothHorner(xs, n, j + 1, D), Sign(xs[n]), BitVal(xs[n], j), Weight(xs[n], j + 1, D), Pow(2, n), D);
    }
  }

  lemma HornerAlgebra(h: int, s: int, v: int, w: int, p: int, D: int)
    ensures (s * v) * p + D * (h + (s * w) * p) == D * h + (s * (v + D * w)) * p
  {
    MulDistr(h, (s * w) * p, D);
    MulDistr(v, D * w, s);
    MulDistr(s * v, s * (D * w), p);
    MulAssoc(s, w, p);
    MulAssoc(s, D * w, p);
    MulAssoc(D, w, p);
    Swap3(D, s, w * p);
  }

  lemma Swap3(x: int, y: int, z: int)
    ensures x * (y * z) == y * (x * z)
  {
  }

  /** Summing by digits or by teeth is the same. */
  lemma {:induction false} ValueByTeeth(xs: seq<Byte>, n: nat, D: int)
    requires n <= |xs|
    ensures Value(xs, n, D) == ToothHorner(xs, n, 0, D)
  {
    if n > 0 {
      ValueByTeeth(xs, n - 1, D);
      HornerStep(xs, n - 1, 0, D);
    } else {
      ZeroTeeth(xs, 0, D);
    }
  }

  lemma {:induction false} ZeroTeeth(xs: seq<Byte>, j: nat, D: int)
    requires j <= 7
    ensures ToothHorner(xs, 0, j, D) == 0
    decreases 7 - j
  {
    if j < 7 { ZeroTeeth(xs, j + 1, D); }
  }

  lemma {:induction false} ToothSumCong(xs: seq<Byte>, ys: seq<Byte>, n: nat, j: nat)
    requires n <= |xs| && n <= |ys| && xs[..n] == ys[..n] && j < 7
    ensures ToothSum(xs, n, j) == ToothSum(ys, n, j)
  {
    if n > 0 {
      assert xs[n - 1] == xs[..n][n - 1] == ys[n - 1];
      assert xs[..n - 1] == xs[..n][..n - 1] == ys[..n - 1];
      ToothSumCong(xs, ys, n - 1, j);
    }
  }

  lemma {:induction false} ToothSumBound(xs: seq<Byte>, n: nat, j: nat)
    requires n <= |xs| && j < 7
    ensures -Pow(2, n) < ToothSum(xs, n, j) < Pow(2, n)
  {
    if n > 0 { ToothSumBound(xs, n - 1, j); }
  }

  // ----- one recoding step, bit by bit

  /** One column: add the carry without letting it cross columns, then, if the digit came out even,
      add the previous digit to it and count the previous digit negatively. Returns the new previous
      digit, the new digit and the carry into the next column. */
  function Recode(prev: Byte, x: Byte, c: Byte): (Byte, Byte, Byte) {
    var cc := And(x, c);
    var y := Xor(x, c);
    var q := if y[0] then ZERO else prev;
    (if y[0] then prev else prev[7 := true], Xor(y, q), Or(cc, And(y, q)))
  }

  /** Per bit: the value is kept, with the previous digit now counted with its sign. */
  lemma RecodeBit(prev: Byte, x: Byte, c: Byte, j: nat)
    requires j < 7 && !prev[7] && !x[7] && !c[7]
    ensures var (p', y, c') := Recode(prev, x, c);
      && Sign(p') * BitVal(p', j) + 2 * (BitVal(y, j) + 2 * BitVal(c', j))
         == BitVal(prev, j) + 2 * (BitVal(x, j) + BitVal(c, j))
      && p'[j] == prev[j]
      && (y[j] || c'[j] ==> prev[j] || x[j] || c[j])
  {
  }

  /** The new digit is odd whenever the previous one is. */
  lemma RecodeTop(prev: Byte, x: Byte, c: Byte)
    requires !prev[7] && !x[7] && !c[7] && prev[0]
    ensures var (p', y, c') := Recode(prev, x, c); p'[0] && y[0] && !y[7] && !c'[7]
  {
  }

  // ----- ecp_comb_fixed

  /** The digit uses only its w low bits (and possibly the sign bit). */
  ghost predicate Narrow(x: Byte, w: nat) {
    forall j: nat :: w <= j < 7 ==> !x[j]
  }

  /** Column i of the bit matrix of m: bit j is bit i + d*j of m. */
  ghost predicate Column(x: Byte, m: nat, i: nat, d: nat, w: nat) {
    !x[7] && forall j: nat :: j < 7 ==> x[j] == (j < w && GetBit(m, i + d * j) == 1)
  }

  /** The classical comb digits. */
  method Columns(x: array<Byte>, d: nat, w: nat, m: nat)
    requires 2 <= w <= 7 && x.Length > d
    modifies x
    ensures x[d] == ZERO && forall i :: 0 <= i < d ==> Column(x[i], m, i, d, w)
  {
    hide Column;
    x[d] := ZERO;
    for i := 0 to d
      invariant x[d] == ZERO && forall k :: 0 <= k < i ==> Column(x[k], m, k, d, w)
    {
      var v := OneColumn(m, i, d, w);
      x[i] := v;
    }
  }

  method OneColumn(m: nat, i: nat, d: nat, w: nat) returns (v: Byte)
    requires 2 <= w <= 7
    ensures Column(v, m, i, d, w)
  {
    v := ZERO;
    var j: nat := 0;
    while j < w
      invariant j <= w && Column(v, m, i, d, j)
    {
      v := v[j := GetBit(m, i + d * j) == 1];
      j := j + 1;
    }
  }

  /** State of the recoding before column i: digits below i are final except for the sign of the
      last one, the others are untouched, and per tooth nothing is lost but the carry. */
  ghost predicate Recoded(x: seq<Byte>, orig: seq<Byte>, i: nat, c: Byte, w: nat) {
    && 1 <= i <= |x| == |orig| && x[i..] == orig[i..]
    && (forall k :: 0 <= k < i ==> x[k][0] && Narrow(x[k], w))
    && !x[i - 1][7] && !c[7] && Narrow(c, w)
    && (forall j: nat :: j < 7 ==> ToothSum(x, i, j) + BitVal(c, j) * Pow(2, i) == ToothSum(orig, i, j))
  }

  lemma RecodedStep(x: seq<Byte>, orig: seq<Byte>, i: nat, c: Byte, w: nat, x': seq<Byte>, c': Byte)
    requires Recoded(x, orig, i, c, w) && i < |x| && !orig[i][7] && Narrow(orig[i], w)
    requires var (p, y, cc) := Recode(x[i - 1], x[i], c); x' == x[i - 1 := p][i := y] && c' == cc
    ensures Recoded(x', orig, i + 1, c', w)
  {
    var (p, y, cc) := Recode(x[i - 1], x[i], c);
    assert x[i] == x[i..][0] == orig[i];
    RecodeTop(x[i - 1], x[i], c);
    assert x'[i + 1..] == x[i..][1..] == orig[i..][1..] == orig[i + 1..];
    forall j: nat | j < 7
      ensures ToothSum(x', i + 1, j) + BitVal(c', j) * Pow(2, i + 1) == ToothSum(orig, i + 1, j)
      ensures p[j] == x[i - 1][j] && (y[j] || cc[j] ==> x[i - 1][j] || x[i][j] || c[j])
    {
      RecodeBit(x[i - 1], x[i], c, j);
      assert x'[..i - 1] == x[..i - 1];
      ToothSumCong(x', x, i - 1, j);
      ToothStep(ToothSum(x, i - 1, j), Sign(p) * BitVal(p, j), BitVal(y, j), BitVal(cc, j),
                BitVal(x[i - 1], j), BitVal(x[i], j), BitVal(c, j), Pow(2, i - 1));
    }
  }

  lemma ToothStep(t: int, p: int, y: int, cc: int, prev: int, x: int, c: int, q: int)
    requires p + 2 * (y + 2 * cc) == prev + 2 * (x + c)
    ensures (t + p * q) + y * (2 * q) + cc * (2 * (2 * q)) == (t + prev * q) + c * (2 * q) + x * (2 * q)
  {
    assert (p + 2 * (y + 2 * cc)) * q == p * q + 2 * (y * q) + 4 * (cc * q);
    assert (prev + 2 * (x + c)) * q == prev * q + 2 * (x * q) + 2 * (c * q);
  }

  /** The d + 1 digits of the odd number m < 2^(d*w): all odd, within the w teeth, the last one
      positive, and standing for exactly m, with no carry left over. */
  method CombFixed(x: array<Byte>, d: nat, w: nat, m: nat)
    requires 2 <= w <= 7 && d >= 1 && x.Length == d + 1 && m % 2 == 1 && m < Pow(Pow(2, d), w)
    modifies x
    ensures forall k :: 0 <= k <= d ==> x[k][0] && Narrow(x[k], w)
    ensures Value(x[..], d + 1, Pow(2, d)) == m
  {
    Columns(x, d, w, m);
    ghost var orig := x[..];
    ColumnsStart(orig, m, d, w);
    var c := ZERO;
    var i := 1;
    while i <= d
      invariant 1 <= i <= d + 1 && Recoded(x[..], orig, i, c, w)
    {
      ghost var was, c0 := x[..], c;
      assert orig[i] == was[i];
      var (p, y, cc) := Recode(x[i - 1], x[i], c);
      x[i - 1] := p;
      x[i] := y;
      c := cc;
      assert x[..] == was[i - 1 := p][i := y];
      RecodedStep(was, orig, i, c0, w, x[..], c);
      i := i + 1;
    }
    CarryDies(x[..], orig, c, m, d, w);
  }

  lemma ColumnsStart(orig: seq<Byte>, m: nat, d: nat, w: nat)
    requires 2 <= w <= 7 && d >= 1 && |orig| == d + 1 && m % 2 == 1 && orig[d] == ZERO
    requires forall i :: 0 <= i < d ==> Column(orig[i], m, i, d, w)
    ensures Recoded(orig, orig, 1, ZERO, w)
    ensures forall i :: 0 <= i <= d ==> !orig[i][7] && Narrow(orig[i], w)
  {
    assert Column(orig[0], m, 0, d, w);
    assert GetBit(m, 0 + d * 0) == 1 by { assert d * 0 == 0 && Pow(2, 0) == 1 && Shifted(m, 1) == m; }
    forall i | 0 <= i <= d
      ensures !orig[i][7] && Narrow(orig[i], w)
    {
      if i < d { assert Column(orig[i], m, i, d, w); }
    }
  }

  // ----- what the columns add up to

  lemma ShiftedTwice(m: nat, a: int, b: int)
    requires a > 0 && b > 0 && a * b > 0
    ensures Shifted(Shifted(m, a), b) == Shifted(m, a * b)
  {
    var v := m / a;
    var q := v / b;
    FloorBounds(m, a);
    FloorBounds(v, b);
    MulAssoc(q, b, a);
    NestedBounds(m, a, b, v, q);
    DivModUnique(m, a * b, q, m - q * (a * b));
  }

  lemma ShiftedOut(m: nat, p: int)
    requires p > m
    ensures Shifted(m, p) == 0
  {
    DivModUnique(m, p, 0, m);
  }

  lemma SplitAt(v: nat, D: int)
    requires D > 0
    ensures v == Rem(v, D) + D * Shifted(v, D)
  {
  }

  lemma NestedBounds(m: int, a: int, b: int, v: int, q: int)
    requires a > 0 && b > 0 && v * a <= m < v * a + a && q * b <= v < q * b + b
    ensures 0 <= m - q * (a * b) < a * b
  {
    MulMono(q * b, v, a);
    MulMono(v + 1, q * b + b, a);
    MulDistr(v, 1, a);
    MulDistr(q * b, b, a);
    MulAssoc(q, b, a);
  }

  lemma LowStep(v: nat, p: int)
    requires p > 0
    ensures Rem(v, 2 * p) == Rem(v, p) + (Shifted(v, p) % 2) * p
  {
    var q, r := v / p, v % p;
    var h, o := q / 2, q % 2;
    MulDistr(2 * h, o, p);
    MulAssoc(h, 2, p);
    MulMono(0, o, p);
    DivModUnique(v, 2 * p, h, o * p + r);
  }

  /** Block j of m: its d bits from bit d*j on. */
  ghost function Block(m: nat, D: int, j: nat): nat
    requires D > 0
  {
    Rem(Shifted(m, Pow(D, j)), D)
  }

  lemma {:induction false} TeethOfColumns(orig: seq<Byte>, m: nat, n: nat, d: nat, w: nat, j: nat)
    requires n <= d <= |orig| && j < 7 && 2 <= w <= 7 && m < Pow(Pow(2, d), w)
    requires forall i :: 0 <= i < d ==> Column(orig[i], m, i, d, w)
    ensures ToothSum(orig, n, j) == Rem(Shifted(m, Pow(Pow(2, d), j)), Pow(2, n))
    decreases n
  {
    var v := Shifted(m, Pow(Pow(2, d), j));
    if n > 0 {
      TeethOfColumns(orig, m, n - 1, d, w, j);
      assert Column(orig[n - 1], m, n - 1, d, w);
      ColumnBit(m, n - 1, d, w, j);
      LowStep(v, Pow(2, n - 1));
      hide Shifted, Rem, GetBit;
    }
  }

  lemma ColumnBit(m: nat, n: nat, d: nat, w: nat, j: nat)
    requires j < 7 && m < Pow(Pow(2, d), w)
    ensures Shifted(Shifted(m, Pow(Pow(2, d), j)), Pow(2, n)) % 2 == if j < w then GetBit(m, n + d * j) else 0
  {
    hide Shifted, Pow;
    var D, k := Pow(2, d), d * j;
    PowPow(2, d, j);
    ShiftedBit(m, n, k);
    if j >= w {
      PowMono(D, w, j);
      ShiftedOut(m, Pow(D, j));
      ShiftedOut(0, Pow(2, n));
    }
  }

  lemma ShiftedBit(m: nat, n: nat, k: nat)
    ensures Shifted(Shifted(m, Pow(2, k)), Pow(2, n)) == Shifted(m, Pow(2, n + k))
  {
    hide Shifted;
    PowAdd(2, n, k);
    var p, q := Pow(2, k), Pow(2, n);
    MulMono(1, p, q);
    ShiftedTwice(m, p, q);
  }

  /** m from its blocks. */
  lemma {:induction false} HornerOfBlocks(x: seq<Byte>, n: nat, m: nat, D: int, j: nat)
    requires n <= |x| && j <= 7 && D > 0 && m < Pow(D, 7)
    requires forall k: nat :: k < 7 ==> ToothSum(x, n, k) == Block(m, D, k)
    ensures ToothHorner(x, n, j, D) == Shifted(m, Pow(D, j))
    decreases 7 - j
  {
    hide Shifted, Rem;
    if j == 7 {
      ShiftedOut(m, Pow(D, 7));
    } else {
      HornerOfBlocks(x, n, m, D, j + 1);
      var p := Pow(D, j);
      MulMono(1, D, p);
      ShiftedTwice(m, p, D);
      SplitAt(Shifted(m, p), D);
    }
  }

  lemma CarryDiesAt(x: seq<Byte>, orig: seq<Byte>, c: Byte, m: nat, d: nat, w: nat, j: nat)
    requires 2 <= w <= 7 && |x| == d + 1 && Recoded(x, orig, d + 1, c, w) && m < Pow(Pow(2, d), w) && j < 7
    requires orig[d] == ZERO && forall i :: 0 <= i < d ==> Column(orig[i], m, i, d, w)
    ensures ToothSum(x, d + 1, j) == Block(m, Pow(2, d), j)
  {
    hide Column, Shifted, Rem;
    TeethOfColumns(orig, m, d, d, w, j);
    ToothSumBound(x, d, j);
    assert ToothSum(x, d + 1, j) + BitVal(c, j) * Pow(2, d + 1) == ToothSum(orig, d + 1, j);
    assert BitVal(orig[d], j) == 0;
    assert ToothSum(orig, d + 1, j) == Block(m, Pow(2, d), j);
    assert Sign(x[d]) == 1;
    LastDigit(ToothSum(x, d, j), BitVal(x[d], j), BitVal(c, j), Block(m, Pow(2, d), j), Pow(2, d));
  }

  lemma CarryDies(x: seq<Byte>, orig: seq<Byte>, c: Byte, m: nat, d: nat, w: nat)
    requires 2 <= w <= 7 && |x| == d + 1 && Recoded(x, orig, d + 1, c, w) && m < Pow(Pow(2, d), w)
    requires orig[d] == ZERO && forall i :: 0 <= i < d ==> Column(orig[i], m, i, d, w)
    ensures Value(x, d + 1, Pow(2, d)) == m
  {
    hide Column, Rem, Block;
    var D := Pow(2, d);
    forall j: nat | j < 7
      ensures ToothSum(x, d + 1, j) == Block(m, D, j)
    {
      CarryDiesAt(x, orig, c, m, d, w, j);
    }
    PowMono(D, w, 7);
    HornerOfBlocks(x, d + 1, m, D, 0);
    ValueByTeeth(x, d + 1, D);
    assert Pow(D, 0) == 1 && Shifted(m, 1) == m;
  }

  lemma LastDigit(t: int, y: int, c: int, v: int, D: int)
    requires -D < t && 0 <= y <= 1 && 0 <= c <= 1 && 0 <= v < D && t + y * D + c * (2 * D) == v
    ensures c == 0 && t + y * D == v
  {
    if c == 1 { MulMono(0, y, D); }
  }
}

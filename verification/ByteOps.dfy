/** Bytes as numbers: exclusive or, and byte strings. */
module ByteOps {
  import opened Arith

  ghost predicate Bytes(s: seq<nat>) {
    forall i :: 0 <= i < |s| ==> s[i] < 256
  }

  lemma BytesSplit(s: seq<nat>, n: nat)
    requires Bytes(s) && n <= |s|
    ensures Bytes(s[..n]) && Bytes(s[n..])
  {
  }

  /** Bitwise exclusive or. */
  function Xor(a: nat, b: nat): (r: nat)
    decreases a + b
  {
    if a == 0 && b == 0 then 0 else 2 * Xor(a / 2, b / 2) + if a % 2 == b % 2 then 0 else 1
  }

  lemma {:induction false} XorTwice(a: nat, b: nat)
    ensures Xor(Xor(a, b), b) == a
    decreases a + b
  {
    if a != 0 || b != 0 {
      XorTwice(a / 2, b / 2);
      var x := Xor(a, b);
      assert x / 2 == Xor(a / 2, b / 2);
      assert x % 2 == if a % 2 == b % 2 then 0 else 1;
    }
  }

  lemma {:induction false} XorZero(a: nat, b: nat)
    ensures Xor(a, b) == 0 <==> a == b
    decreases a + b
  {
    if a != 0 || b != 0 { XorZero(a / 2, b / 2); }
  }

  lemma {:induction false} XorBound(a: nat, b: nat, k: nat)
    requires a < Pow(2, k) && b < Pow(2, k)
    ensures Xor(a, b) < Pow(2, k)
    decreases k
  {
    if a != 0 || b != 0 {
      assert Pow(2, 0) == 1;
      assert Pow(2, k) == 2 * Pow(2, k - 1);
      XorBound(a / 2, b / 2, k - 1);
    }
  }

  lemma XorByte(a: nat, b: nat)
    requires a < 256 && b < 256
    ensures Xor(a, b) < 256
  {
    assert Pow(2, 8) == 256;
    XorBound(a, b, 8);
  }

  /** Bitwise and. */
  function And(a: nat, b: nat): (r: nat)
    ensures r <= a
    decreases a
  {
    if a == 0 then 0 else 2 * And(a / 2, b / 2) + if a % 2 == 1 && b % 2 == 1 then 1 else 0
  }

  /** Bitwise or. */
  function Or(a: nat, b: nat): (r: nat)
    decreases a + b
  {
    if a == 0 && b == 0 then 0 else 2 * Or(a / 2, b / 2) + if a % 2 == 1 || b % 2 == 1 then 1 else 0
  }

  function ShiftRight(a: nat, k: nat): nat
    decreases k
  {
    if k == 0 then a else ShiftRight(a / 2, k - 1)
  }

  /** Bit k. */
  predicate BitAt(a: nat, k: nat) {
    ShiftRight(a, k) % 2 == 1
  }

  lemma {:induction false} ShiftIsDiv(a: nat, k: nat)
    ensures ShiftRight(a, k) == a / Pow(2, k)
    decreases k
  {
    PowNext(2, 0);
    if k == 0 {
      DivModUnique(a, 1, a, 0);
    } else {
      PowNext(2, k - 1);
      ShiftIsDiv(a / 2, k - 1);
      DivDiv(a, 2, Pow(2, k - 1));
    }
  }

  lemma {:induction false} ZeroBits(a: nat, k: nat)
    requires a == 0
    ensures !BitAt(a, k)
    decreases k
  {
    if k > 0 { ZeroBits(a / 2, k - 1); }
  }

  lemma {:induction false} BitOfAnd(a: nat, b: nat, k: nat)
    ensures BitAt(And(a, b), k) <==> BitAt(a, k) && BitAt(b, k)
    decreases k
  {
    if a == 0 {
      ZeroBits(a, k);
      ZeroBits(And(a, b), k);
    } else {
      HalfOf(And(a / 2, b / 2), if a % 2 == 1 && b % 2 == 1 then 1 else 0);
      if k > 0 { BitOfAnd(a / 2, b / 2, k - 1); }
    }
  }

  lemma {:induction false} BitOfOr(a: nat, b: nat, k: nat)
    ensures BitAt(Or(a, b), k) <==> BitAt(a, k) || BitAt(b, k)
    decreases k
  {
    if a == 0 && b == 0 {
      ZeroBits(a, k);
      ZeroBits(b, k);
      ZeroBits(Or(a, b), k);
    } else {
      HalfOf(Or(a / 2, b / 2), if a % 2 == 1 || b % 2 == 1 then 1 else 0);
      if k > 0 { BitOfOr(a / 2, b / 2, k - 1); }
    }
  }

  lemma {:induction false} BitOfXor(a: nat, b: nat, k: nat)
    ensures BitAt(Xor(a, b), k) <==> BitAt(a, k) != BitAt(b, k)
    decreases k
  {
    if a == 0 && b == 0 {
      ZeroBits(a, k);
      ZeroBits(b, k);
      ZeroBits(Xor(a, b), k);
    } else {
      HalfOf(Xor(a / 2, b / 2), if a % 2 == b % 2 then 0 else 1);
      if k > 0 { BitOfXor(a / 2, b / 2, k - 1); }
    }
  }

  lemma HalfOf(h: nat, low: nat)
    requires low <= 1
    ensures (2 * h + low) / 2 == h && (2 * h + low) % 2 == low
  {
  }

  /** A number below 2^n is 0 exactly when its n bits are. */
  lemma {:induction false} AllBitsZero(a: nat, n: nat)
    requires a < Pow(2, n)
    ensures a == 0 <==> forall k: nat :: k < n ==> !BitAt(a, k)
    decreases n
  {
    assert Pow(2, 0) == 1;
    if a == 0 {
      forall k: nat | k < n ensures !BitAt(a, k) { ZeroBits(a, k); }
    } else {
      assert Pow(2, n) == 2 * Pow(2, n - 1);
      AllBitsZero(a / 2, n - 1);
      if a / 2 == 0 {
        assert a == 1 && BitAt(a, 0);
      } else {
        var k: nat :| k < n - 1 && BitAt(a / 2, k);
        assert BitAt(a, k + 1);
      }
    }
  }

  /** Exclusive or of a string with the beginning of another. */
  function XorSeq(a: seq<nat>, b: seq<nat>): (r: seq<nat>)
    requires |a| <= |b|
    ensures |r| == |a|
  {
    seq(|a|, i requires 0 <= i < |a| => Xor(a[i], b[i]))
  }

  lemma XorSeqFacts(a: seq<nat>, b: seq<nat>)
    requires |a| <= |b| && Bytes(a) && Bytes(b)
    ensures Bytes(XorSeq(a, b)) && XorSeq(XorSeq(a, b), b) == a
  {
    forall i | 0 <= i < |a|
      ensures Xor(a[i], b[i]) < 256 && Xor(Xor(a[i], b[i]), b[i]) == a[i]
    {
      XorByte(a[i], b[i]);
      XorTwice(a[i], b[i]);
    }
  }

  function High(v: nat): nat {
    v / 256
  }

  function Low(v: nat): (r: nat)
    ensures r < 256
  {
    v % 256
  }

  lemma NextByte(v: nat)
    ensures if Low(v) == 255 then High(v + 1) == High(v) + 1 && Low(v + 1) == 0
            else High(v + 1) == High(v) && Low(v + 1) == Low(v) + 1
    ensures v == 256 * High(v) + Low(v)
  {
  }

  /** v as n bytes, most significant first; what does not fit is lost. */
  function BigEndian(v: nat, n: nat): (r: seq<nat>)
    ensures |r| == n && Bytes(r)
  {
    if n == 0 then [] else BigEndian(High(v), n - 1) + [Low(v)]
  }

  lemma {:induction false} BigEndianUnique(v: nat, w: nat, n: nat)
    requires v < Pow(256, n) && w < Pow(256, n) && BigEndian(v, n) == BigEndian(w, n)
    ensures v == w
  {
    if n > 0 {
      assert Pow(256, n) == 256 * Pow(256, n - 1);
      NextByte(v);
      NextByte(w);
      hide High, Low;
      assert BigEndian(v, n)[..n - 1] == BigEndian(High(v), n - 1) && BigEndian(v, n)[n - 1] == Low(v);
      assert BigEndian(w, n)[..n - 1] == BigEndian(High(w), n - 1) && BigEndian(w, n)[n - 1] == Low(w);
      BigEndianUnique(High(v), High(w), n - 1);
    } else {
      assert Pow(256, 0) == 1;
    }
  }

  function Fill(x: nat, n: nat): (s: seq<nat>)
    ensures |s| == n && forall i :: 0 <= i < n ==> s[i] == x
  {
    seq(n, _ => x)
  }

  function Zeros(n: nat): (r: seq<nat>)
    ensures |r| == n && Bytes(r) && forall i :: 0 <= i < n ==> r[i] == 0
  {
    Fill(0, n)
  }

  /** Counting on: the trailing bytes 255 become 0 and the byte before them, if any, grows by one. */
  lemma {:induction false} BigEndianNext(v: nat, n: nat, j: nat)
    requires j <= n
    requires forall k :: n - j <= k < n ==> BigEndian(v, n)[k] == 255
    requires j < n ==> BigEndian(v, n)[n - 1 - j] != 255
    ensures BigEndian(v + 1, n) ==
      if j == n then Zeros(n) else BigEndian(v, n)[..n - 1 - j] + [BigEndian(v, n)[n - 1 - j] + 1] + Zeros(j)
    decreases n
  {
    hide High, Low;
    if n > 0 {
      var s, t := BigEndian(v, n), BigEndian(High(v), n - 1);
      NextByte(v);
      BigEndianParts(v, n);
      BigEndianParts(v + 1, n);
      hide BigEndian;
      if j > 0 {
        BigEndianNext(High(v), n - 1, j - 1);
        ZerosNext(j - 1);
        if j < n { assert s[..n - 1 - j] == t[..n - 1 - j]; }
      }
    }
  }

  lemma BigEndianParts(v: nat, n: nat)
    requires n > 0
    ensures var s, t := BigEndian(v, n), BigEndian(High(v), n - 1);
      s == t + [Low(v)] && s[n - 1] == Low(v) && s[..n - 1] == t && forall k :: 0 <= k < n - 1 ==> s[k] == t[k]
  {
  }

  lemma ZerosNext(n: nat)
    ensures Zeros(n + 1) == Zeros(n) + [0]
  {
  }

  /** Big-endian value of a byte string. */
  function BytesValue(buf: seq<nat>): nat {
    if buf == [] then 0 else 256 * BytesValue(buf[..|buf| - 1]) + buf[|buf| - 1]
  }

  lemma {:induction false} BytesValueBound(buf: seq<nat>)
    requires forall i :: 0 <= i < |buf| ==> buf[i] < 256
    ensures BytesValue(buf) < Pow(2, 8 * |buf|)
  {
    hide Pow;
    PowNext(2, 0);
    if buf != [] {
      var n := |buf| - 1;
      BytesValueBound(buf[..n]);
      PowAdd(2, 8, 8 * n);
      TwoToTheEighth();
      OneMoreByte(BytesValue(buf[..n]), buf[n], Pow(2, 8 * n));
    }
  }

  lemma TwoToTheEighth()
    ensures Pow(2, 8) == 256
  {
    PowAdd(2, 4, 4);
    assert Pow(2, 4) == 16;
  }

  lemma OneMoreByte(v: int, x: int, p: int)
    requires v < p && x < 256
    ensures 256 * v + x < 256 * p
  {
  }

  /** The first byte counts most. */
  lemma {:induction false} BytesFront(x: nat, s: seq<nat>)
    ensures BytesValue([x] + s) == x * Pow(256, |s|) + BytesValue(s)
    decreases |s|
  {
    hide Pow;
    PowNext(256, 0);
    if s == [] {
      assert BytesValue([x]) == 256 * BytesValue([]) + x by { assert [x][..0] == []; }
      assert [x] + s == [x];
    } else {
      var n := |s| - 1;
      var t := [x] + s;
      assert t[..|t| - 1] == [x] + s[..n] && t[|t| - 1] == s[n];
      BytesFront(x, s[..n]);
      PowNext(256, n);
      FrontCore(x, Pow(256, n), BytesValue(s[..n]));
    }
  }

  lemma FrontCore(x: int, p: int, v: int)
    ensures 256 * (x * p + v) == x * (256 * p) + 256 * v
  {
    MulAssoc(256, x, p);
    MulAssoc(x, 256, p);
    MulComm(256, x);
  }

  /** Reading undoes writing. */
  lemma {:induction false} BytesOfBigEndian(v: nat, n: nat)
    requires v < Pow(256, n)
    ensures BytesValue(BigEndian(v, n)) == v
  {
    hide Pow, High, Low;
    PowNext(256, 0);
    if n > 0 {
      PowNext(256, n - 1);
      NextByte(v);
      BigEndianParts(v, n);
      BytesOfBigEndian(High(v), n - 1);
    }
  }

  lemma {:induction false} BytesConcat(s: seq<nat>, t: seq<nat>)
    ensures BytesValue(s + t) == BytesValue(s) * Pow(256, |t|) + BytesValue(t)
    decreases |t|
  {
    hide Pow;
    PowNext(256, 0);
    if t == [] {
      assert s + t == s;
    } else {
      var n := |t| - 1;
      var u := s + t;
      assert u[..|u| - 1] == s + t[..n] && u[|u| - 1] == t[n];
      BytesConcat(s, t[..n]);
      PowNext(256, n);
      FrontCore(BytesValue(s), Pow(256, n), BytesValue(t[..n]));
    }
  }

  /** Cutting off whole bytes leaves the value of the others. */
  lemma LeadingBytes(s: seq<nat>, t: seq<nat>)
    requires Bytes(t)
    ensures BytesValue(s + t) / Pow(2, 8 * |t|) == BytesValue(s)
  {
    hide Pow, BytesValue;
    BytesConcat(s, t);
    BytesValueBound(t);
    PowPow(2, 8, |t|);
    TwoToTheEighth();
    DivModUnique(BytesValue(s + t), Pow(2, 8 * |t|), BytesValue(s), BytesValue(t));
  }

  lemma DivDiv(x: nat, p: int, q: int)
    requires p > 0 && q > 0
    ensures p * q > 0 && x / (p * q) == (x / p) / q
  {
    MulMono(1, p, q);
    var a, b := x / p, (x / p) / q;
    FloorBounds(x, p);
    FloorBounds(a, q);
    DivDivCore(x, p, q, a, b);
    DivModUnique(x, p * q, b, x - b * (p * q));
  }

  lemma DivDivCore(x: int, p: int, q: int, a: int, b: int)
    requires p > 0 && q > 0 && a * p <= x < a * p + p && b * q <= a < b * q + q
    ensures 0 <= x - b * (p * q) < p * q
  {
    MulMono(b * q, a, p);
    MulMono(a + 1, b * q + q, p);
    MulDistr(a, 1, p);
    MulDistr(b * q, q, p);
    MulAssoc(b, q, p);
    MulComm(q, p);
  }
}

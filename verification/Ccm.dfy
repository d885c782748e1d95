/** CCM authenticated encryption (NIST SP 800-38C) over an arbitrary 16-byte block function: the
    buffers b, y and ctr are reworked in place, CBC-MAC and counter mode interleave block by block. */
module Ccm {
  import opened Arith
  import opened ByteOps

  datatype Result = Sealed(tag: seq<nat>) | BadInput

  datatype Verdict = Opened | AuthFailed | BadLengths

  ghost predicate IsBlock(b: seq<nat>) {
    |b| == 16 && Bytes(b)
  }

  ghost predicate OkCipher(e: seq<nat> -> seq<nat>) {
    forall b :: IsBlock(b) ==> IsBlock(e(b))
  }

  // ----- the mode, as a function

  /** The next block's worth of a text. */
  function Take(s: seq<nat>): (n: nat)
    ensures n <= |s| && n <= 16 && (s != [] ==> n > 0)
  {
    if |s| > 16 then 16 else |s|
  }

  /** The next block, filled up with zeros. */
  function Block(s: seq<nat>): (r: seq<nat>)
    requires Bytes(s)
    ensures IsBlock(r)
  {
    s[..Take(s)] + Zeros(16 - Take(s))
  }

  /** CBC-MAC from state y over the text s, zero-padded to whole blocks. */
  ghost function Mac(e: seq<nat> -> seq<nat>, y: seq<nat>, s: seq<nat>): (r: seq<nat>)
    requires OkCipher(e) && IsBlock(y) && Bytes(s)
    ensures IsBlock(r)
    decreases |s|
  {
    if s == [] then y else
      XorSeqFacts(y, Block(s));
      Mac(e, e(XorSeq(y, Block(s))), s[Take(s)..])
  }

  /** The lengths that are accepted. Those of nonce, tag and message are as section A.1 of SP 800-38C has
      them; the additional data may be one byte longer than the two-byte length field is meant for. */
  predicate ValidLengths(tagLen: nat, ivLen: nat, addLen: nat, length: nat) {
    && 4 <= tagLen <= 16 && tagLen % 2 == 0 && 7 <= ivLen <= 13 && addLen <= 0xFF00
    && length < Pow(256, 15 - ivLen)
  }

  /** Block B_0: flags, nonce, message length. */
  function FirstBlock(tagLen: nat, iv: seq<nat>, hasAdd: bool, length: nat): (r: seq<nat>)
    requires 4 <= tagLen <= 16 && 7 <= |iv| <= 13 && Bytes(iv)
    ensures IsBlock(r)
  {
    [(if hasAdd then 64 else 0) + (tagLen - 2) / 2 * 8 + (15 - |iv| - 1)] + iv + BigEndian(length, 15 - |iv|)
  }

  /** The additional data, preceded by its length in two bytes. */
  function AddText(add: seq<nat>): (r: seq<nat>)
    requires |add| <= 0xFF00 && Bytes(add)
    ensures Bytes(r)
  {
    if add == [] then [] else [High(|add|), Low(|add|)] + add
  }

  /** The additional data as section A.2.2 of SP 800-38C formats it: from 0xFF00 bytes on, a mark and four
      length bytes (the form for 2^32 bytes and more is not needed here). */
  function StandardAddText(add: seq<nat>): (r: seq<nat>) {
    if add == [] then []
    else if |add| < 0xFF00 then BigEndian(|add|, 2) + add
    else [0xFF, 0xFE] + BigEndian(|add|, 4) + add
  }

  /** The text that is authenticated is the standard's for every accepted length but the longest. */
  lemma AddTextStandard(add: seq<nat>)
    requires |add| <= 0xFF00 && Bytes(add)
    ensures AddText(add) == StandardAddText(add) <==> |add| != 0xFF00
  {
    if add != [] && |add| != 0xFF00 {
      TwoBytes(|add|);
    } else if add != [] {
      assert Low(0xFF00) == 0;
      assert AddText(add)[1] == 0 && StandardAddText(add)[1] == 0xFE;
    }
  }

  lemma TwoBytes(v: nat)
    requires v < 0x1_0000
    ensures BigEndian(v, 2) == [High(v), Low(v)]
  {
    assert BigEndian(v, 2) == BigEndian(High(v), 1) + [Low(v)];
    assert BigEndian(High(v), 1) == BigEndian(High(High(v)), 0) + [Low(High(v))];
    assert Low(High(v)) == High(v);
  }

  /** The length at which the two differ is accepted, with a message of any small length. */
  lemma LongestAddAccepted()
    ensures ValidLengths(16, 13, 0xFF00, 0) && AddText(Zeros(0xFF00)) != StandardAddText(Zeros(0xFF00))
  {
    AddTextStandard(Zeros(0xFF00));
    assert Pow(256, 2) == 0x1_0000;
  }

  /** Counter block number i. */
  function CounterBlock(iv: seq<nat>, i: nat): (r: seq<nat>)
    requires 7 <= |iv| <= 13 && Bytes(iv)
    ensures IsBlock(r)
  {
    [15 - |iv| - 1] + iv + BigEndian(i, 15 - |iv|)
  }

  /** Counter mode, from counter block number i on. */
  ghost function Stream(e: seq<nat> -> seq<nat>, iv: seq<nat>, s: seq<nat>, i: nat): (r: seq<nat>)
    requires OkCipher(e) && 7 <= |iv| <= 13 && Bytes(iv) && Bytes(s)
    ensures |r| == |s| && Bytes(r)
    decreases |s|
  {
    if s == [] then [] else
      var n := Take(s);
      var k := e(CounterBlock(iv, i));
      XorSeqFacts(s[..n], k);
      XorSeq(s[..n], k) + Stream(e, iv, s[n..], i + 1)
  }

  /** The tag of a plaintext: CBC-MAC masked with counter block 0. */
  ghost function Tag(e: seq<nat> -> seq<nat>, tagLen: nat, iv: seq<nat>, add: seq<nat>, plain: seq<nat>): (r: seq<nat>)
    requires OkCipher(e) && Bytes(iv) && Bytes(add) && Bytes(plain) && ValidLengths(tagLen, |iv|, |add|, |plain|)
    ensures |r| == tagLen
  {
    var y := Mac(e, Zeros(16), FirstBlock(tagLen, iv, |add| > 0, |plain|));
    XorSeq(Mac(e, Mac(e, y, AddText(add)), plain), e(CounterBlock(iv, 0)))[..tagLen]
  }

  // ----- the formatting, field by field (SP 800-38C, sections A.2.1 and A.3)

  /** The first byte of block 0: bit 7 is 0, bit 6 tells whether there is additional data, bits 5 to 3 hold
      (t - 2) / 2 and bits 2 to 0 hold q - 1. Then come the nonce and the length of the message. */
  lemma FirstBlockFields(tagLen: nat, iv: seq<nat>, hasAdd: bool, length: nat)
    requires 4 <= tagLen <= 16 && 7 <= |iv| <= 13 && Bytes(iv) && length < Pow(256, 15 - |iv|)
    ensures var r, q := FirstBlock(tagLen, iv, hasAdd, length), 15 - |iv|;
      && !BitAt(r[0], 7) && (BitAt(r[0], 6) <==> hasAdd) && r[0] / 8 % 8 == (tagLen - 2) / 2 && r[0] % 8 == q - 1
      && r[1..1 + |iv|] == iv && BytesValue(r[1 + |iv|..]) == length
  {
    hide BigEndian, BytesValue, Pow;
    var r, q := FirstBlock(tagLen, iv, hasAdd, length), 15 - |iv|;
    FlagBits(if hasAdd then 1 else 0, (tagLen - 2) / 2, q - 1);
    assert r[1..1 + |iv|] == iv && r[1 + |iv|..] == BigEndian(length, q);
    BytesOfBigEndian(length, q);
  }

  lemma FlagBits(a: nat, t: nat, q: nat)
    requires a <= 1 && t < 8 && q < 8
    ensures var f := a * 64 + t * 8 + q;
      !BitAt(f, 7) && (BitAt(f, 6) <==> a == 1) && f / 8 % 8 == t && f % 8 == q
  {
    var f := a * 64 + t * 8 + q;
    ShiftIsDiv(f, 6);
    ShiftIsDiv(f, 7);
    assert Pow(2, 6) == 64 && Pow(2, 7) == 128;
    DivModUnique(f, 8, a * 8 + t, q);
    DivModUnique(a * 8 + t, 8, a, t);
    DivModUnique(f, 64, a, t * 8 + q);
    DivModUnique(f, 128, 0, f);
  }

  /** A counter block: bits 7 to 3 of its first byte are 0, bits 2 to 0 hold q - 1; then come the nonce and
      the counter. */
  lemma CounterBlockFields(iv: seq<nat>, i: nat)
    requires 7 <= |iv| <= 13 && Bytes(iv) && i < Pow(256, 15 - |iv|)
    ensures var r, q := CounterBlock(iv, i), 15 - |iv|;
      r[0] / 8 == 0 && r[0] % 8 == q - 1 && r[1..1 + |iv|] == iv && BytesValue(r[1 + |iv|..]) == i
  {
    hide BigEndian, BytesValue, Pow;
    var r, q := CounterBlock(iv, i), 15 - |iv|;
    DivModUnique(q - 1, 8, 0, q - 1);
    assert r[1..1 + |iv|] == iv && r[1 + |iv|..] == BigEndian(i, q);
    BytesOfBigEndian(i, q);
  }

  // ----- CBC-MAC, block by block

  /** A text of one block at most: one encryption, after filling up with zeros. */
  lemma MacOneBlock(e: seq<nat> -> seq<nat>, y: seq<nat>, s: seq<nat>)
    requires OkCipher(e) && IsBlock(y) && Bytes(s) && 0 < |s| <= 16
    ensures Mac(e, y, s) == e(XorSeq(y, s + Zeros(16 - |s|)))
  {
    assert Take(s) == |s| && s[..Take(s)] == s && s[Take(s)..] == [];
    XorSeqFacts(y, Block(s));
  }

  /** Whole blocks first, then the rest. */
  lemma {:induction false} MacConcat(e: seq<nat> -> seq<nat>, y: seq<nat>, s: seq<nat>, t: seq<nat>)
    requires OkCipher(e) && IsBlock(y) && Bytes(s) && Bytes(t) && |s| % 16 == 0
    ensures Bytes(s + t) && Mac(e, y, s + t) == Mac(e, Mac(e, y, s), t)
    decreases |s|
  {
    if s == [] {
      assert s + t == t;
    } else {
      var u := s + t;
      assert Take(s) == 16 == Take(u);
      assert u[..16] == s[..16] && u[16..] == s[16..] + t;
      assert Block(u) == Block(s);
      XorSeqFacts(y, Block(s));
      MacConcat(e, e(XorSeq(y, Block(s))), s[16..], t);
    }
  }

  /** Zeros up to the end of the last block make no difference. */
  lemma {:induction false} MacFilled(e: seq<nat> -> seq<nat>, y: seq<nat>, s: seq<nat>)
    requires OkCipher(e) && IsBlock(y) && Bytes(s)
    ensures Bytes(Filled(s)) && |Filled(s)| % 16 == 0 && Mac(e, y, Filled(s)) == Mac(e, y, s)
    decreases |s|
  {
    hide FillLen, Mac;
    FillLenSteps(|s|);
    var f := Filled(s);
    assert |f| == |s| + FillLen(|s|);
    if s == [] {
      EmptyFilled();
    } else {
      MacStep(e, y, s);
      MacStep(e, y, f);
      SameBlock(s, f);
      if |s| > 16 {
        assert f[16..] == Filled(s[16..]);
        MacFilled(e, e(XorSeq(y, Block(s))), s[16..]);
      } else {
        assert s[Take(s)..] == [] == f[Take(f)..];
      }
    }
  }

  lemma EmptyFilled()
    ensures Filled([]) == []
  {
  }

  lemma SameBlock(s: seq<nat>, f: seq<nat>)
    requires Bytes(s) && s != [] && f == Filled(s)
    ensures Bytes(f) && Take(f) == 16 && Block(f) == Block(s) && (|s| > 16 ==> Take(s) == 16)
  {
    hide FillLen;
    FillLenSteps(|s|);
    assert |f| >= 16;
    if |s| <= 16 { assert f[..16] == f; } else { assert f[..16] == s[..16]; }
  }

  /** The text filled up with zeros to whole blocks. */
  function Filled(s: seq<nat>): seq<nat> {
    s + Zeros(FillLen(|s|))
  }

  function FillLen(n: nat): (r: nat)
    ensures r < 16 && (n + r) % 16 == 0
  {
    (16 - n % 16) % 16
  }

  lemma FillLenSteps(n: nat)
    ensures 0 < n <= 16 ==> FillLen(n) == 16 - n
    ensures n > 16 ==> FillLen(n - 16) == FillLen(n)
  {
  }

  /** The formatted input: block 0, the additional data and the message, each filled up. */
  function Formatted(tagLen: nat, iv: seq<nat>, add: seq<nat>, plain: seq<nat>): seq<nat>
    requires Bytes(iv) && Bytes(add) && ValidLengths(tagLen, |iv|, |add|, |plain|)
  {
    FirstBlock(tagLen, iv, |add| > 0, |plain|) + Filled(AddText(add)) + Filled(plain)
  }

  /** The tag: the leading bytes of the CBC-MAC of the formatted input, from zero, combined with the encryption
      of the counter block whose counter is 0. */
  lemma TagBytes(e: seq<nat> -> seq<nat>, tagLen: nat, iv: seq<nat>, add: seq<nat>, plain: seq<nat>)
    requires OkCipher(e) && Bytes(iv) && Bytes(add) && Bytes(plain) && ValidLengths(tagLen, |iv|, |add|, |plain|)
    ensures var text := Formatted(tagLen, iv, add, plain);
      && Bytes(text) && |e(CounterBlock(iv, 0))| == 16
      && forall k :: 0 <= k < tagLen ==>
           Tag(e, tagLen, iv, add, plain)[k] == Xor(Mac(e, Zeros(16), text)[k], e(CounterBlock(iv, 0))[k])
  {
    hide Mac, FirstBlock, CounterBlock, Filled, AddText;
    var b, a, p := FirstBlock(tagLen, iv, |add| > 0, |plain|), AddText(add), plain;
    var z := Zeros(16);
    MacFilled(e, Mac(e, z, b), a);
    MacFilled(e, Mac(e, Mac(e, z, b), a), p);
    MacConcat(e, z, b, Filled(a));
    SumOfWholes(|b|, |Filled(a)|);
    MacConcat(e, z, b + Filled(a), Filled(p));
  }

  lemma SumOfWholes(m: nat, n: nat)
    requires m == 16 && n % 16 == 0
    ensures (m + n) % 16 == 0
  {
  }

  // ----- what holds of the mode

  /** Counter mode undoes itself. */
  lemma {:induction false} StreamTwice(e: seq<nat> -> seq<nat>, iv: seq<nat>, s: seq<nat>, i: nat)
    requires OkCipher(e) && 7 <= |iv| <= 13 && Bytes(iv) && Bytes(s)
    ensures Stream(e, iv, Stream(e, iv, s, i), i) == s
    decreases |s|
  {
    if s != [] {
      var n := Take(s);
      var k := e(CounterBlock(iv, i));
      var c := Stream(e, iv, s, i);
      XorSeqFacts(s[..n], k);
      assert Take(c) == n && c[..n] == XorSeq(s[..n], k) && c[n..] == Stream(e, iv, s[n..], i + 1);
      StreamTwice(e, iv, s[n..], i + 1);
      assert s == s[..n] + s[n..];
    }
  }

  /** Byte k of block j is masked with byte k of the encryption of counter block i + j. */
  lemma {:induction false} StreamByte(e: seq<nat> -> seq<nat>, iv: seq<nat>, s: seq<nat>, i: nat, j: nat, k: nat)
    requires OkCipher(e) && 7 <= |iv| <= 13 && Bytes(iv) && Bytes(s) && k < 16 && 16 * j + k < |s|
    ensures j < BlockCount(|s|) && |e(CounterBlock(iv, i + j))| == 16
    ensures Stream(e, iv, s, i)[16 * j + k] == Xor(s[16 * j + k], e(CounterBlock(iv, i + j))[k])
    decreases |s|
  {
    hide CounterBlock, Stream;
    StreamStep(e, iv, s, i);
    var n, c := Take(s), Stream(e, iv, s, i);
    if j == 0 {
      assert k < n && c[k] == c[..n][k];
    } else {
      assert n == 16 && c[16 * j + k] == c[n..][16 * (j - 1) + k] && s[16 * j + k] == s[n..][16 * (j - 1) + k];
      StreamByte(e, iv, s[n..], i + 1, j - 1, k);
    }
  }

  /** The number of counter blocks a message of this length uses, besides block 0. */
  function BlockCount(length: nat): nat {
    (length + 15) / 16
  }

  /** The length check keeps all counter blocks of a message apart, block 0 included. */
  lemma CountersDistinct(tagLen: nat, iv: seq<nat>, addLen: nat, length: nat, i: nat, j: nat)
    requires Bytes(iv) && ValidLengths(tagLen, |iv|, addLen, length)
    requires i <= BlockCount(length) && j <= BlockCount(length)
    ensures CounterBlock(iv, i) == CounterBlock(iv, j) <==> i == j
  {
    var q := 15 - |iv|;
    if CounterBlock(iv, i) == CounterBlock(iv, j) {
      assert CounterBlock(iv, i)[1 + |iv|..] == BigEndian(i, q) && CounterBlock(iv, j)[1 + |iv|..] == BigEndian(j, q);
      BigEndianUnique(i, j, q);
    }
  }

  /** The first block is never a counter block, since its flags give the tag length. */
  lemma FirstBlockApart(tagLen: nat, iv: seq<nat>, hasAdd: bool, length: nat, i: nat)
    requires 4 <= tagLen <= 16 && 7 <= |iv| <= 13 && Bytes(iv)
    ensures FirstBlock(tagLen, iv, hasAdd, length) != CounterBlock(iv, i)
  {
    assert FirstBlock(tagLen, iv, hasAdd, length)[0] != CounterBlock(iv, i)[0];
  }

  // ----- the routine

  /** Replaces the first |s| bytes and clears the others. */
  method Load(b: array<nat>, s: seq<nat>)
    requires b.Length == 16 && |s| <= 16
    modifies b
    ensures b[..] == s + Zeros(16 - |s|)
  {
    forall i | 0 <= i < 16 { b[i] := if i < |s| then s[i] else 0; }
  }

  method UpdateCbcMac(e: seq<nat> -> seq<nat>, y: array<nat>, b: array<nat>)
    requires OkCipher(e) && y != b && IsBlock(y[..]) && IsBlock(b[..])
    modifies y
    ensures IsBlock(y[..]) && y[..] == e(XorSeq(old(y[..]), b[..]))
  {
    ghost var was, block := y[..], b[..];
    for i := 0 to 16
      invariant b[..] == block
      invariant forall j :: 0 <= j < i ==> y[j] == Xor(was[j], b[j])
      invariant forall j :: i <= j < 16 ==> y[j] == was[j]
    {
      y[i] := Xor(y[i], b[i]);
    }
    ghost var x := XorSeq(was, block);
    assert y[..] == x;
    XorSeqFacts(was, block);
    var z := e(y[..]);
    assert IsBlock(z) && z == e(x);
    forall i | 0 <= i < 16 { y[i] := z[i]; }
    assert y[..] == z && b[..] == block;
  }

  /** Writes the message length into the last q bytes; what is left over does not fit. */
  method WriteLength(b: array<nat>, q: nat, length: nat) returns (left: nat)
    requires b.Length == 16 && q <= 15
    modifies b
    ensures b[..] == old(b[..16 - q]) + BigEndian(length, q)
    ensures left == 0 <==> length < Pow(256, q)
  {
    hide Shift, High, Low, Pow, BigEndian;
    left := length;
    ShiftStart(length);
    ghost var was := b[..];
    ghost var tail: seq<nat> := [];
    for i := 0 to q
      invariant |tail| == i && b[..] == was[..16 - i] + tail
      invariant BigEndian(left, q - i) + tail == BigEndian(length, q)
      invariant Shift(left, i, length)
    {
      BigEndianParts(left, q - i);
      Shifted(left, i, length);
      StoreByte(b[..], was, tail, 15 - i, Low(left));
      AppendByte(BigEndian(High(left), q - i - 1), Low(left), tail);
      b[15 - i] := Low(left);
      tail := [Low(left)] + tail;
      left := High(left);
    }
    assert BigEndian(left, 0) == [];
    assert [] + tail == tail;
    ShiftedOut(left, q, length);
  }

  lemma StoreByte(s: seq<nat>, was: seq<nat>, tail: seq<nat>, i: nat, x: nat)
    requires |s| == |was| && i < |s| && s == was[..i + 1] + tail
    ensures s[i := x] == was[..i] + ([x] + tail)
  {
  }

  lemma AppendByte(s: seq<nat>, x: nat, tail: seq<nat>)
    ensures s + ([x] + tail) == (s + [x]) + tail
  {
  }

  /** length, cut off after i bytes, is l. */
  ghost predicate Shift(l: nat, i: nat, length: nat) {
    l * Pow(256, i) <= length < (l + 1) * Pow(256, i)
  }

  lemma ShiftStart(length: nat)
    ensures Shift(length, 0, length)
  {
    assert Pow(256, 0) == 1;
  }

  lemma Shifted(l: nat, i: nat, length: nat)
    requires Shift(l, i, length)
    ensures Shift(High(l), i + 1, length)
  {
    var h, p := High(l), Pow(256, i);
    MulAssoc(h, 256, p);
    MulAssoc(h + 1, 256, p);
    MulMono(h * 256, l, p);
    MulMono(l + 1, (h + 1) * 256, p);
  }

  lemma ShiftedOut(l: nat, q: nat, length: nat)
    requires Shift(l, q, length)
    ensures l == 0 <==> length < Pow(256, q)
  {
    if l > 0 { MulMono(1, l, Pow(256, q)); }
  }

  /** The next counter block: the low q bytes are counted up. */
  method Increment(ctr: array<nat>, ghost iv: seq<nat>, ghost i: nat, q: nat)
    requires ctr.Length == 16 && 7 <= |iv| <= 13 && Bytes(iv) && q == 15 - |iv| && ctr[..] == CounterBlock(iv, i)
    modifies ctr
    ensures ctr[..] == CounterBlock(iv, i + 1)
  {
    hide CounterBlock;
    ghost var was := ctr[..];
    var j: nat := 0;
    while j < q
      invariant j <= q
      invariant forall k :: 0 <= k < 16 - j ==> ctr[k] == was[k]
      invariant forall k :: 16 - j <= k < 16 ==> ctr[k] == 0 && was[k] == 255
    {
      ctr[15 - j] := (ctr[15 - j] + 1) % 256;
      if ctr[15 - j] != 0 {
        break;
      }
      j := j + 1;
    }
    CounterNext(iv, i, j, was, ctr[..]);
  }

  lemma CounterNext(iv: seq<nat>, i: nat, j: nat, was: seq<nat>, now: seq<nat>)
    requires 7 <= |iv| <= 13 && Bytes(iv) && j <= 15 - |iv| && was == CounterBlock(iv, i) && |now| == 16
    requires forall k :: 0 <= k < 15 - j ==> now[k] == was[k]
    requires forall k :: 16 - j <= k < 16 ==> now[k] == 0 && was[k] == 255
    requires if j < 15 - |iv| then was[15 - j] != 255 && now[15 - j] == was[15 - j] + 1 else now[15 - j] == was[15 - j]
    ensures now == CounterBlock(iv, i + 1)
  {
    hide BigEndian, Bytes;
    var q := 15 - |iv|;
    var head, s := [q - 1] + iv, BigEndian(i, q);
    assert was == head + s && |head| == 16 - q;
    assert was[16 - q..] == s;
    NextLow(i, q, j, was[16 - q..], now[16 - q..]);
    assert now[..16 - q] == head;
    assert now == now[..16 - q] + now[16 - q..];
  }

  lemma NextLow(i: nat, q: nat, j: nat, s: seq<nat>, low: seq<nat>)
    requires j <= q && s == BigEndian(i, q) && |low| == q
    requires forall k :: 0 <= k < q - 1 - j ==> low[k] == s[k]
    requires forall k :: q - j <= k < q ==> low[k] == 0 && s[k] == 255
    requires j < q ==> s[q - 1 - j] != 255 && low[q - 1 - j] == s[q - 1 - j] + 1
    ensures low == BigEndian(i + 1, q)
  {
    hide BigEndian;
    BigEndianNext(i, q, j);
  }

  /** Additional data: its length and first bytes in one block, then the rest. */
  method MacAdd(e: seq<nat> -> seq<nat>, y: array<nat>, b: array<nat>, add: seq<nat>)
    requires OkCipher(e) && y != b && IsBlock(y[..]) && IsBlock(b[..]) && Bytes(add) && 0 < |add| <= 0xFF00
    modifies y, b
    ensures IsBlock(y[..]) && IsBlock(b[..]) && y[..] == Mac(e, old(y[..]), AddText(add))
  {
    hide OkCipher, XorSeq;
    ghost var all := AddText(add);
    ghost var y0 := y[..];
    var use: nat := if |add| < 14 then |add| else 14;
    Load(b, [High(|add|), Low(|add|)] + add[..use]);
    assert b[..] == Block(all);
    assert all[Take(all)..] == add[use..];
    UpdateCbcMac(e, y, b);
    var k := use;
    while k < |add|
      invariant k <= |add| && IsBlock(y[..]) && IsBlock(b[..])
      invariant Mac(e, y[..], add[k..]) == Mac(e, y0, all)
    {
      use := if |add| - k > 16 then 16 else |add| - k;
      ghost var rest := add[k..];
      Load(b, add[k..k + use]);
      assert b[..] == Block(rest) && rest[Take(rest)..] == add[k + use..];
      UpdateCbcMac(e, y, b);
      k := k + use;
    }
  }

  /** Counter mode for one block; src may be dst. */
  method CtrCrypt(e: seq<nat> -> seq<nat>, ctr: seq<nat>, b: array<nat>, src: array<nat>, dst: array<nat>,
                  k: nat, n: nat)
    requires OkCipher(e) && IsBlock(ctr) && b.Length == 16 && b != src && b != dst
    requires src.Length == dst.Length && k + n <= src.Length && n <= 16
    modifies b, dst
    ensures |e(ctr)| == 16 && IsBlock(b[..]) && |dst[..]| == old(|dst[..]|)
    ensures dst[k..k + n] == XorSeq(old(src[k..k + n]), e(ctr))
    ensures dst[..k] == old(dst[..k]) && dst[k + n..] == old(dst[k + n..])
  {
    var z := e(ctr);
    assert IsBlock(z);
    ghost var was, d := src[..], dst[..];
    forall i | 0 <= i < 16 { b[i] := z[i]; }
    assert b[..] == z && src[..] == was;
    for i := 0 to n
      invariant b[..] == z
      invariant forall j :: 0 <= j < i ==> dst[k + j] == Xor(was[k + j], z[j])
      invariant forall j :: 0 <= j < k ==> dst[j] == d[j]
      invariant forall j :: k + n <= j < |d| ==> dst[j] == d[j]
      invariant forall j :: k + i <= j < |was| ==> src[j] == was[j]
    {
      dst[k + i] := Xor(src[k + i], b[i]);
    }
    assert dst[k..k + n] == XorSeq(was[k..k + n], z);
  }

  /** One pass of the message loop: encryption authenticates before, decryption after, the counter
      mode step. */
  method MessageBlock(e: seq<nat> -> seq<nat>, decrypt: bool, y: array<nat>, b: array<nat>, ctr: seq<nat>,
                      src: array<nat>, dst: array<nat>, k: nat, n: nat)
    requires OkCipher(e) && IsBlock(ctr) && IsBlock(y[..]) && IsBlock(b[..]) && y != b
    requires src != y && dst != y && src != b && dst != b && src.Length == dst.Length
    requires k + n <= src.Length && n <= 16 && Bytes(src[k..k + n])
    modifies y, b, dst
    ensures IsBlock(b[..]) && IsBlock(y[..]) && |e(ctr)| == 16
    ensures dst[k..k + n] == XorSeq(old(src[k..k + n]), e(ctr))
    ensures dst[..k] == old(dst[..k]) && dst[k + n..] == old(dst[k + n..])
    ensures y[..] == e(XorSeq(old(y[..]), (if decrypt then dst[k..k + n] else old(src[k..k + n])) + Zeros(16 - n)))
  {
    ghost var piece := src[k..k + n];
    assert IsBlock(e(ctr));
    XorSeqFacts(piece, e(ctr));
    hide OkCipher, XorSeq;
    if !decrypt {
      Load(b, src[k..k + n]);
      UpdateCbcMac(e, y, b);
    }
    ghost var mid := y[..];
    CtrCrypt(e, ctr, b, src, dst, k, n);
    assert y[..] == mid;
    if decrypt {
      Load(b, dst[k..k + n]);
      UpdateCbcMac(e, y, b);
    }
  }

  /** One block of counter mode, as a step of the two recursions. */
  lemma StreamStep(e: seq<nat> -> seq<nat>, iv: seq<nat>, s: seq<nat>, i: nat)
    requires OkCipher(e) && 7 <= |iv| <= 13 && Bytes(iv) && Bytes(s) && s != []
    ensures IsBlock(e(CounterBlock(iv, i)))
    ensures var n, c := Take(s), Stream(e, iv, s, i);
      && Take(c) == n && c[..n] == XorSeq(s[..n], e(CounterBlock(iv, i))) && c[n..] == Stream(e, iv, s[n..], i + 1)
  {
  }

  ghost function Plain(e: seq<nat> -> seq<nat>, decrypt: bool, iv: seq<nat>, s: seq<nat>, i: nat): (r: seq<nat>)
    requires OkCipher(e) && 7 <= |iv| <= 13 && Bytes(iv) && Bytes(s)
    ensures |r| == |s| && Bytes(r)
  {
    if decrypt then Stream(e, iv, s, i) else s
  }

  /** One pass, in terms of what is left to do. */
  method MessagePass(e: seq<nat> -> seq<nat>, decrypt: bool, y: array<nat>, b: array<nat>, ctr: seq<nat>,
                     ghost iv: seq<nat>, ghost i: nat, src: array<nat>, dst: array<nat>, k: nat, n: nat)
    requires OkCipher(e) && IsBlock(y[..]) && IsBlock(b[..]) && y != b && 7 <= |iv| <= 13 && Bytes(iv)
    requires ctr == CounterBlock(iv, i)
    requires src != y && dst != y && src != b && dst != b && src.Length == dst.Length && k < src.Length
    requires Bytes(src[k..]) && n == Take(src[k..])
    modifies y, b, dst
    ensures IsBlock(y[..]) && IsBlock(b[..]) && src[k + n..] == old(src[k..])[n..] && Bytes(src[k + n..])
    ensures dst[..k + n] + Stream(e, iv, src[k + n..], i + 1) == old(dst[..k]) + Stream(e, iv, old(src[k..]), i)
    ensures Mac(e, y[..], Plain(e, decrypt, iv, src[k + n..], i + 1))
         == Mac(e, old(y[..]), Plain(e, decrypt, iv, old(src[k..]), i))
  {
    hide OkCipher, Stream, Mac, CounterBlock, XorSeq, BigEndian, Bytes;
    ghost var rest, done, y0 := src[k..], dst[..k], y[..];
    StreamStep(e, iv, rest, i);
    assert IsBlock(ctr) && |rest[..n]| == n;
    assert src[k..k + n] == rest[..n] && Bytes(rest[..n]) && Bytes(rest[n..]) by { BytesSplit(rest, n); }
    MessageBlock(e, decrypt, y, b, ctr, src, dst, k, n);
    assert dst[..k + n] == done + dst[k..k + n];
    assert src[k + n..] == rest[n..];
    StreamJoin(e, iv, rest, i, n);
    PassMac(e, decrypt, y0, iv, rest, i);
  }

  lemma PassMac(e: seq<nat> -> seq<nat>, decrypt: bool, y: seq<nat>, iv: seq<nat>, rest: seq<nat>, i: nat)
    requires OkCipher(e) && IsBlock(y) && 7 <= |iv| <= 13 && Bytes(iv) && Bytes(rest) && rest != []
    ensures |e(CounterBlock(iv, i))| == 16
    ensures var n := Take(rest);
      var piece := (if decrypt then XorSeq(rest[..n], e(CounterBlock(iv, i))) else rest[..n]) + Zeros(16 - n);
      && IsBlock(e(XorSeq(y, piece)))
      && Mac(e, e(XorSeq(y, piece)), Plain(e, decrypt, iv, rest[n..], i + 1))
         == Mac(e, y, Plain(e, decrypt, iv, rest, i))
  {
    hide OkCipher, Stream, Mac, CounterBlock, XorSeq, BigEndian;
    StreamStep(e, iv, rest, i);
    MacStep(e, y, Plain(e, decrypt, iv, rest, i));
  }

  method CryptMessage(e: seq<nat> -> seq<nat>, decrypt: bool, y: array<nat>, b: array<nat>, ctr: array<nat>, q: nat,
                      ghost iv: seq<nat>, src: array<nat>, dst: array<nat>)
    requires OkCipher(e) && IsBlock(y[..]) && IsBlock(b[..]) && y != b && y != ctr && b != ctr
    requires src != y && dst != y && src != b && dst != b && src != ctr && dst != ctr
    requires src.Length == dst.Length && Bytes(src[..])
    requires 7 <= |iv| <= 13 && Bytes(iv) && q == 15 - |iv| && ctr.Length == 16 && ctr[..] == CounterBlock(iv, 1)
    modifies y, b, ctr, dst
    ensures dst[..] == Stream(e, iv, old(src[..]), 1) && IsBlock(b[..])
    ensures y[..] == Mac(e, old(y[..]), Plain(e, decrypt, iv, old(src[..]), 1))
    ensures exists i :: ctr[..] == CounterBlock(iv, i)
  {
    hide OkCipher, Stream, Mac, CounterBlock, XorSeq, BigEndian;
    ghost var all, y0 := src[..], y[..];
    var k: nat := 0;
    ghost var i: nat := 1;
    assert all[0..] == all;
    while k < src.Length
      invariant k <= src.Length && IsBlock(y[..]) && IsBlock(b[..])
      invariant ctr[..] == CounterBlock(iv, i)
      invariant src[k..] == all[k..] && Bytes(all[k..])
      invariant dst[..k] + Stream(e, iv, all[k..], i) == Stream(e, iv, all, 1)
      invariant Mac(e, y[..], Plain(e, decrypt, iv, all[k..], i)) == Mac(e, y0, Plain(e, decrypt, iv, all, 1))
    {
      var n: nat := if src.Length - k > 16 then 16 else src.Length - k;
      MessagePass(e, decrypt, y, b, ctr[..], iv, i, src, dst, k, n);
      assert all[k..][n..] == all[k + n..] && src[k + n..] == all[k + n..];
      Increment(ctr, iv, i, q);
      k := k + n;
      i := i + 1;
    }
    EmptyText(e, iv, y[..], i);
    assert all[k..] == [] && dst[..k] == dst[..];
  }

  lemma StreamJoin(e: seq<nat> -> seq<nat>, iv: seq<nat>, s: seq<nat>, i: nat, n: nat)
    requires OkCipher(e) && 7 <= |iv| <= 13 && Bytes(iv) && Bytes(s) && s != [] && n == Take(s)
    ensures |e(CounterBlock(iv, i))| == 16
    ensures XorSeq(s[..n], e(CounterBlock(iv, i))) + Stream(e, iv, s[n..], i + 1) == Stream(e, iv, s, i)
  {
  }

  lemma MacStep(e: seq<nat> -> seq<nat>, y: seq<nat>, s: seq<nat>)
    requires OkCipher(e) && IsBlock(y) && Bytes(s) && s != []
    ensures IsBlock(e(XorSeq(y, s[..Take(s)] + Zeros(16 - Take(s)))))
    ensures Mac(e, e(XorSeq(y, s[..Take(s)] + Zeros(16 - Take(s)))), s[Take(s)..]) == Mac(e, y, s)
  {
    XorSeqFacts(y, Block(s));
  }

  lemma EmptyText(e: seq<nat> -> seq<nat>, iv: seq<nat>, y: seq<nat>, i: nat)
    requires OkCipher(e) && 7 <= |iv| <= 13 && Bytes(iv) && IsBlock(y)
    ensures Stream(e, iv, [], i) == [] && Mac(e, y, []) == y
  {
  }

  /** Encrypts or decrypts src into dst, which may be the same buffer, and computes the tag. */
  method AuthCrypt(e: seq<nat> -> seq<nat>, decrypt: bool, iv: seq<nat>, add: seq<nat>, src: array<nat>,
                   dst: array<nat>, tagLen: nat) returns (r: Result)
    requires OkCipher(e) && Bytes(iv) && Bytes(add) && Bytes(src[..]) && src.Length == dst.Length
    modifies dst
    ensures r.BadInput? <==> !ValidLengths(tagLen, |iv|, |add|, src.Length)
    ensures r.BadInput? ==> dst[..] == old(dst[..])
    ensures r.Sealed? ==>
      && dst[..] == Stream(e, iv, old(src[..]), 1)
      && r.tag == Tag(e, tagLen, iv, add, Plain(e, decrypt, iv, old(src[..]), 1))
  {
    hide OkCipher, Stream, Mac, XorSeq, BigEndian, Pow;
    if tagLen < 4 || tagLen > 16 || tagLen % 2 != 0 || |iv| < 7 || |iv| > 13 || |add| > 0xFF00 {
      return BadInput;
    }
    var q := 15 - |iv|;
    var b, y, ctr := new nat[16], new nat[16], new nat[16];
    var fits := StartMac(e, y, b, iv, |add| > 0, src.Length, tagLen);
    if !fits {
      return BadInput;
    }
    if |add| > 0 {
      MacAdd(e, y, b, add);
    } else {
      EmptyText(e, iv, y[..], 0);
    }
    SetCounter(ctr, iv, 1);
    CryptMessage(e, decrypt, y, b, ctr, q, iv, src, dst);
    ghost var mac := y[..];
    SetCounter(ctr, iv, 0);
    assert y[0..16] == mac;
    CtrCrypt(e, ctr[..], b, y, y, 0, 16);
    assert y[0..16] == y[..];
    r := Sealed(y[..tagLen]);
  }

  /** Formats the first block and runs it through the MAC; false if the length does not fit. */
  method StartMac(e: seq<nat> -> seq<nat>, y: array<nat>, b: array<nat>, iv: seq<nat>, hasAdd: bool, length: nat,
                  tagLen: nat) returns (fits: bool)
    requires OkCipher(e) && y != b && y.Length == 16 == b.Length && Bytes(iv) && 7 <= |iv| <= 13 && 4 <= tagLen <= 16
    modifies y, b
    ensures fits <==> length < Pow(256, 15 - |iv|)
    ensures fits ==> IsBlock(y[..]) && IsBlock(b[..])
    ensures fits ==> y[..] == Mac(e, Zeros(16), FirstBlock(tagLen, iv, hasAdd, length))
  {
    hide OkCipher, XorSeq, BigEndian, Pow;
    var q := 15 - |iv|;
    b[0] := (if hasAdd then 64 else 0) + (tagLen - 2) / 2 * 8 + (q - 1);
    forall i | 0 <= i < |iv| { b[1 + i] := iv[i]; }
    assert b[..16 - q] == [b[0]] + iv;
    var left := WriteLength(b, q, length);
    if left > 0 {
      return false;
    }
    ghost var first := FirstBlock(tagLen, iv, hasAdd, length);
    assert b[..] == first;
    Load(y, []);
    assert y[..] == Zeros(16);
    UpdateCbcMac(e, y, b);
    assert Block(first) == first && first[Take(first)..] == [];
    return true;
  }

  /** Sets the counter to i, which is 0 or 1. */
  method SetCounter(ctr: array<nat>, iv: seq<nat>, i: nat)
    requires ctr.Length == 16 && 7 <= |iv| <= 13 && Bytes(iv) && i <= 1
    modifies ctr
    ensures ctr[..] == CounterBlock(iv, i)
  {
    var q := 15 - |iv|;
    forall k | 0 <= k < 16 {
      ctr[k] := if k == 0 then q - 1 else if k <= |iv| then iv[k - 1] else if k == 15 then i else 0;
    }
    SmallCounter(i, q);
    assert ctr[..] == [q - 1] + iv + (Zeros(q - 1) + [i]);
  }

  lemma SmallCounter(i: nat, q: nat)
    requires i <= 1 && q >= 1
    ensures BigEndian(i, q) == Zeros(q - 1) + [i]
  {
    if q > 1 {
      SmallCounter(0, q - 1);
      assert Zeros(q - 1) == Zeros(q - 2) + [0];
    }
  }

  /** Opens a message: accepts exactly when the tag is that of the decrypted text; otherwise the
      output is cleared. */
  method AuthDecrypt(e: seq<nat> -> seq<nat>, iv: seq<nat>, add: seq<nat>, src: array<nat>, dst: array<nat>,
                     tag: seq<nat>)
      returns (r: Verdict)
    requires OkCipher(e) && Bytes(iv) && Bytes(add) && Bytes(src[..]) && src.Length == dst.Length
    modifies dst
    ensures r.BadLengths? <==> !ValidLengths(|tag|, |iv|, |add|, src.Length)
    ensures !r.BadLengths? ==> (r.Opened? <==> tag == Tag(e, |tag|, iv, add, Stream(e, iv, old(src[..]), 1)))
    ensures r.Opened? ==> dst[..] == Stream(e, iv, old(src[..]), 1)
    ensures r.AuthFailed? ==> dst[..] == Zeros(dst.Length)
  {
    hide OkCipher, Stream, Tag;
    var c := AuthCrypt(e, true, iv, add, src, dst, |tag|);
    if c.BadInput? {
      return BadLengths;
    }
    var differs := false;
    for i := 0 to |tag|
      invariant dst[..] == Stream(e, iv, old(src[..]), 1)
      invariant differs <==> exists j :: 0 <= j < i && tag[j] != c.tag[j]
    {
      XorZero(tag[i], c.tag[i]);
      differs := differs || Xor(tag[i], c.tag[i]) != 0;
    }
    if differs {
      forall i | 0 <= i < dst.Length { dst[i] := 0; }
      assert dst[..] == Zeros(dst.Length);
      return AuthFailed;
    }
    assert tag == c.tag;
    return Opened;
  }

  /** Encrypts a buffer in place and decrypts it in place again: the tag is accepted and the buffer
      is what it was. */
  method SealAndOpen(e: seq<nat> -> seq<nat>, iv: seq<nat>, add: seq<nat>, text: array<nat>, tagLen: nat)
      returns (r: Verdict)
    requires OkCipher(e) && Bytes(iv) && Bytes(add) && Bytes(text[..])
    modifies text
    ensures r == if ValidLengths(tagLen, |iv|, |add|, text.Length) then Opened else BadLengths
    ensures text[..] == old(text[..])
  {
    hide OkCipher, Stream, Tag;
    var c := AuthCrypt(e, false, iv, add, text, text, tagLen);
    if c.BadInput? {
      return BadLengths;
    }
    StreamTwice(e, iv, old(text[..]), 1);
    r := AuthDecrypt(e, iv, add, text, text, c.tag);
  }
}

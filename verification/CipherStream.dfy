/** The streaming cipher layer in CBC mode: input arrives in arbitrary pieces, a partial block (when
    decrypting, also the last full block) waits in the context, and finishing pads or unpads. */
module CipherStream {
  import opened Arith
  import opened ByteOps
  import opened CbcMode
  import opened Padding

  datatype Outcome = Finished(out: seq<nat>) | FullBlockExpected | InvalidPadding

  /** The whole output of a stream: what the updates produced, then what finishing produced. */
  function Total(emitted: seq<nat>, r: Outcome): Outcome {
    if r.Finished? then Finished(emitted + r.out) else r
  }

  // ----- what a stream computes, as a function of the whole input

  /** The padding for a message of n bytes; a whole number of blocks gets a block of padding. */
  ghost function Tail(mode: Mode, bs: nat, n: nat): (r: seq<nat>)
    requires 1 <= bs < 256
    ensures Bytes(r) && 1 <= |r| <= bs && Whole(n + |r|, bs)
  {
    WholeFacts(n, bs);
    Pad(mode, bs - Rem(n, bs))
  }

  /** The text that is encrypted. */
  ghost function Sealed(c: Cipher, pad: Option<Mode>, data: seq<nat>): (r: seq<nat>)
    requires Ok(c) && Bytes(data) && (pad.Some? || Whole(|data|, c.bs))
    ensures Bytes(r) && Whole(|r|, c.bs)
  {
    if pad.Some? then data + Tail(pad.value, c.bs, |data|) else data
  }

  /** What encrypting `data` yields. */
  ghost predicate Encrypts(c: Cipher, pad: Option<Mode>, iv0: seq<nat>, data: seq<nat>, r: Outcome)
    requires Ok(c) && IsBlock(c, iv0) && Bytes(data)
  {
    r == if pad.Some? || Whole(|data|, c.bs) then Finished(EncAll(c, iv0, Sealed(c, pad, data))) else FullBlockExpected
  }

  predicate EndsNonzero(s: seq<nat>) {
    s == [] || s[|s| - 1] != 0
  }

  /** m is what removing the padding from d leaves: the removal looks at the last block alone. */
  ghost predicate Strips(pad: Option<Mode>, bs: nat, d: seq<nat>, m: seq<nat>)
    requires 1 <= bs < 256
  {
    match pad
    case None => d == m
    case Some(Zeros) =>
      && |d| - bs <= |m| <= |d| && d == m + Fill(0, |d| - |m|)
      && (|m| > |d| - bs ==> EndsNonzero(m))
    case Some(mode) =>
      && bs <= |d| && |d| - bs <= |m| <= |d| && m == d[..|m|]
      && Removes(mode, d[|d| - bs..], |m| - (|d| - bs))
  }

  /** What decrypting `data` yields. */
  ghost predicate Decrypts(c: Cipher, pad: Option<Mode>, iv0: seq<nat>, data: seq<nat>, r: Outcome)
    requires Ok(c) && IsBlock(c, iv0) && Bytes(data)
  {
    if !Whole(|data|, c.bs) || (data == [] && pad.Some?) then r == FullBlockExpected
    else match r
      case Finished(m) => Strips(pad, c.bs, DecAll(c, iv0, data), m)
      case InvalidPadding => forall m :: !Strips(pad, c.bs, DecAll(c, iv0, data), m)
      case FullBlockExpected => false
  }

  lemma Remainder(n: nat, l: nat, bs: nat)
    requires 0 < bs && Whole(n, bs) && l < bs
    ensures Rem(n + l, bs) == l && (Whole(n + l, bs) <==> l == 0)
  {
    DivModUnique(n + l, bs, n / bs, l);
  }

  lemma PaddingOf(c: Cipher, mode: Mode, iv0: seq<nat>, done: seq<nat>, part: seq<nat>)
    requires Ok(c) && IsBlock(c, iv0) && Bytes(done) && Whole(|done|, c.bs) && Bytes(part) && |part| < c.bs
    ensures var text := done + part + Pad(mode, c.bs - |part|);
      && Bytes(text) && Whole(|text|, c.bs) && Bytes(done + part)
      && Encrypts(c, Some(mode), iv0, done + part, Finished(CryptAll(c, true, iv0, text)))
  {
    Remainder(|done|, |part|, c.bs);
    assert Sealed(c, Some(mode), done + part) == done + part + Pad(mode, c.bs - |part|);
  }

  lemma PaddedBytes(s: seq<nat>, mode: Mode, k: nat)
    requires Bytes(s) && 1 <= k < 256
    ensures Bytes(s + Pad(mode, k))
  {
    hide Pad;
  }

  lemma BytesOf(s: seq<nat>, t: seq<nat>)
    requires Bytes(s + t)
    ensures Bytes(t)
  {
    assert forall i :: 0 <= i < |t| ==> t[i] == (s + t)[|s| + i];
  }

  /** Ending decryption without a full block in the buffer. */
  lemma NotOneBlock(c: Cipher, pad: Option<Mode>, iv0: seq<nat>, done: seq<nat>, part: seq<nat>)
    requires Ok(c) && IsBlock(c, iv0) && Bytes(done) && Whole(|done|, c.bs) && Bytes(part) && |part| < c.bs
    requires part != [] || done == []
    ensures Bytes(done + part)
    ensures Decrypts(c, pad, iv0, done + part, if pad == None && part == [] then Finished([]) else FullBlockExpected)
  {
    Remainder(|done|, |part|, c.bs);
    if part == [] { assert done + part == []; }
  }

  lemma LastBlockDecrypts(c: Cipher, pad: Option<Mode>, iv0: seq<nat>, data: seq<nat>, head: seq<nat>, o: seq<nat>,
                          r: Outcome)
    requires Ok(c) && IsBlock(c, iv0) && Bytes(data) && Whole(|data|, c.bs) && |o| == c.bs
    requires CryptAll(c, false, iv0, data) == head + o && r != FullBlockExpected
    requires r.Finished? ==> Strips(pad, |o|, head + o, head + r.out)
    requires r.InvalidPadding? ==> forall m :: !Strips(pad, |o|, head + o, m)
    ensures Decrypts(c, pad, iv0, data, Total(head, r))
  {
    hide Strips;
  }

  lemma WithoutPadding(c: Cipher, iv0: seq<nat>, done: seq<nat>, part: seq<nat>)
    requires Ok(c) && IsBlock(c, iv0) && Bytes(done) && Whole(|done|, c.bs) && Bytes(part) && |part| < c.bs
    ensures Bytes(done + part)
    ensures Encrypts(c, None, iv0, done + part,
              if part == [] then Finished(CryptAll(c, true, iv0, done)) else FullBlockExpected)
  {
    Remainder(|done|, |part|, c.bs);
    if part == [] { assert done + part == done; }
  }

  /** The padding of a text is the padding of its last block. */
  lemma LastBlockPadded(mode: Mode, bs: nat, head: seq<nat>, tail: seq<nat>, m: seq<nat>)
    requires 1 <= bs < 256 && Whole(|head|, bs) && |tail| == bs
    requires head + tail == m + Tail(mode, bs, |m|)
    ensures |m| >= |head| && m == head + tail[..|m| - |head|] && Padded(mode, tail, |m| - |head|)
  {
    hide Pad, Rem, Whole;
    var d, t := head + tail, Tail(mode, bs, |m|);
    assert |m| >= |head|;
    var k := |m| - |head|;
    TailOf(mode, bs, |head|, k);
    assert d[..|m|] == m && d[|m|..] == t;
    assert d[..|m|] == head + tail[..k] && d[|m|..] == tail[k..];
  }

  lemma PaddedLastBlock(mode: Mode, bs: nat, head: seq<nat>, tail: seq<nat>, k: nat)
    requires 1 <= bs < 256 && Whole(|head|, bs) && |tail| == bs && Padded(mode, tail, k)
    ensures head + tail == head + tail[..k] + Tail(mode, bs, |head + tail[..k]|)
  {
    hide Pad, Rem, Whole;
    assert |head + tail[..k]| == |head| + k;
    TailOf(mode, bs, |head|, k);
    assert tail == tail[..k] + tail[k..];
  }

  lemma TailOf(mode: Mode, bs: nat, n: nat, k: nat)
    requires 1 <= bs < 256 && Whole(n, bs) && k < bs
    ensures Tail(mode, bs, n + k) == Pad(mode, bs - k)
  {
    hide Pad;
    Remainder(n, k, bs);
  }

  /** What is left after the padding is removed is unique. */
  lemma StripsUnique(pad: Option<Mode>, bs: nat, d: seq<nat>, m: seq<nat>, n: seq<nat>)
    requires 1 <= bs < 256 && Strips(pad, bs, d, m) && Strips(pad, bs, d, n)
    ensures m == n
  {
    hide Removes;
    match pad
    case None =>
    case Some(Zeros) =>
      assert forall j :: |m| <= j < |d| || |n| <= j < |d| ==> d[j] == 0;
      assert (n != [] ==> n[|n| - 1] == d[|n| - 1]) && (m != [] ==> m[|m| - 1] == d[|m| - 1]);
      assert m == d[..|m|] && n == d[..|n|];
    case Some(mode) =>
      RemovesUnique(mode, d[|d| - bs..], |m| - (|d| - bs), |n| - (|d| - bs));
  }

  /** A padded text is stripped to its message. */
  lemma StripsPadded(mode: Mode, bs: nat, d: seq<nat>, m: seq<nat>)
    requires mode != Zeros && 1 <= bs < 256 && Whole(|d|, bs) && d == m + Tail(mode, bs, |m|)
    ensures Strips(Some(mode), bs, d, m)
  {
    hide Whole, Rem, Pad, Passes, Tail, Padded, Removes, Strips;
    WholeFacts(|d|, bs);
    var head, tail := d[..|d| - bs], d[|d| - bs..];
    assert d == head + tail;
    LastBlockPadded(mode, bs, head, tail, m);
    PaddedRemoves(mode, tail, |m| - |head|);
    StripsMarked(mode, head, tail, |m| - |head|);
  }

  /** In the two modes that store a length, nothing else is accepted. */
  lemma StripsOnlyPadded(mode: Mode, bs: nat, d: seq<nat>, m: seq<nat>)
    requires (mode == Pkcs7 || mode == ZerosAndLen) && 1 <= bs < 256 && Whole(|d|, bs) && Strips(Some(mode), bs, d, m)
    ensures d == m + Tail(mode, bs, |m|)
  {
    hide Whole, Rem, Pad, Passes, Tail;
    WholeFacts(|d|, bs);
    var head, tail := d[..|d| - bs], d[|d| - bs..];
    var k := |m| - |head|;
    assert d == head + tail && m == head + tail[..k];
    PaddedLastBlock(mode, bs, head, tail, k);
  }

  /** One-and-zeros padding accepts a text that is not padded: 01 02 03 82 00 decrypts to 01 02 03. */
  lemma StripsUnpadded()
    ensures Strips(Some(OneAndZeros), 5, [1, 2, 3, 0x82, 0], [1, 2, 3])
    ensures [1, 2, 3, 0x82, 0] != [1, 2, 3] + Tail(OneAndZeros, 5, 3)
  {
    PassesUnpadded();
    var d := [1, 2, 3, 0x82, 0];
    assert d[0..] == d && d[..3] == [1, 2, 3];
    assert Tail(OneAndZeros, 5, 3)[0] == 0x80 && d[3] == 0x82;
  }

  /** Decrypting what encryption produced gives the message back: always for the self-delimiting
      paddings and without padding, and for zero padding exactly when the data in the last block
      does not end in a zero byte. */
  lemma RoundTrip(c: Cipher, pad: Option<Mode>, iv0: seq<nat>, data: seq<nat>, e: Outcome, d: Outcome)
    requires Ok(c) && IsBlock(c, iv0) && Bytes(data) && Encrypts(c, pad, iv0, data, e)
    requires e.Finished? ==> Bytes(e.out) && Decrypts(c, pad, iv0, e.out, d)
    ensures e.Finished? <==> pad.Some? || Whole(|data|, c.bs)
    ensures e.Finished? ==>
      (d == Finished(data) <==> pad != Some(Zeros) || Whole(|data|, c.bs) || EndsNonzero(data))
  {
    hide Strips;
    if e.Finished? {
      var text := Sealed(c, pad, data);
      DecEnc(c, iv0, text);
      StripsBack(pad, c.bs, data, text);
      hide Ok, EncAll, DecAll, Whole, Rem;
      if Strips(pad, c.bs, text, data) && d.Finished? { StripsUnique(pad, c.bs, text, data, d.out); }
    }
  }

  lemma StripsBack(pad: Option<Mode>, bs: nat, data: seq<nat>, text: seq<nat>)
    requires 1 <= bs < 256 && text == if pad.Some? then data + Tail(pad.value, bs, |data|) else data
    requires Whole(|text|, bs)
    ensures Strips(pad, bs, text, data) <==> pad != Some(Zeros) || Whole(|data|, bs) || EndsNonzero(data)
  {
    if pad == Some(Zeros) { ZerosRoundTrip(bs, data, text); }
    else if pad.Some? { StripsPadded(pad.value, bs, text, data); }
  }

  /** Zero padding loses a final zero byte: 01 00 comes back as 01. */
  lemma ZeroByteLost()
    ensures var text := [1, 0] + Tail(Zeros, 4, 2);
      Strips(Some(Zeros), 4, text, [1]) && !Strips(Some(Zeros), 4, text, [1, 0])
  {
    var tail := Tail(Zeros, 4, 2);
    assert |tail| == 2 && tail == Fill(0, 2);
    hide Tail, Whole, Pad;
    var text := [1, 0] + tail;
    assert text == [1] + Fill(0, 3);
  }

  lemma ZerosRoundTrip(bs: nat, data: seq<nat>, text: seq<nat>)
    requires 1 <= bs < 256 && text == data + Tail(Zeros, bs, |data|)
    ensures Strips(Some(Zeros), bs, text, data) <==> Whole(|data|, bs) || EndsNonzero(data)
  {
    assert Tail(Zeros, bs, |data|) == Fill(0, |text| - |data|);
  }

  /** One-shot CBC in either direction. */
  ghost function CryptAll(c: Cipher, encrypt: bool, iv0: seq<nat>, data: seq<nat>): (r: seq<nat>)
    requires Ok(c) && IsBlock(c, iv0) && Bytes(data) && Whole(|data|, c.bs)
    ensures |r| == |data| && Bytes(r)
  {
    if encrypt then EncAll(c, iv0, data) else DecAll(c, iv0, data)
  }

  /** The chaining value after `data`: the last ciphertext block. */
  ghost function Chain(c: Cipher, encrypt: bool, iv0: seq<nat>, data: seq<nat>): (r: seq<nat>)
    requires Ok(c) && IsBlock(c, iv0) && Bytes(data) && Whole(|data|, c.bs)
    ensures IsBlock(c, r)
  {
    LastBlock(c, iv0, data);
    if encrypt then LastBlock(c, iv0, EncAll(c, iv0, data)); Last(c, iv0, EncAll(c, iv0, data))
    else Last(c, iv0, data)
  }

  /** One block, with the chaining value updated in place. */
  method CryptBlock(c: Cipher, encrypt: bool, iv: array<nat>, x: seq<nat>, ghost iv0: seq<nat>, ghost hist: seq<nat>)
      returns (y: seq<nat>)
    requires Ok(c) && IsBlock(c, iv0) && Bytes(hist) && Whole(|hist|, c.bs) && IsBlock(c, x)
    requires iv.Length == c.bs && iv[..] == Chain(c, encrypt, iv0, hist)
    modifies iv
    ensures Bytes(hist + x) && Whole(|hist + x|, c.bs) && IsBlock(c, y)
    ensures iv[..] == Chain(c, encrypt, iv0, hist + x)
    ensures CryptAll(c, encrypt, iv0, hist + x) == CryptAll(c, encrypt, iv0, hist) + y
  {
    hide EncAll, DecAll, Whole;
    var v := iv[..];
    NextBlock(c, iv0, hist, x);
    BlockFacts(c, x, v);
    var next;
    if encrypt {
      y := c.enc(XorSeq(x, v));
      next := y;
    } else {
      y := XorSeq(c.dec(x), v);
      next := x;
    }
    forall i | 0 <= i < c.bs { iv[i] := next[i]; }
    assert iv[..] == next;
    assert Last(c, iv0, hist + x) == x;
    if encrypt { assert Last(c, iv0, EncAll(c, iv0, hist) + y) == y; }
  }

  /** Whole blocks, one after the other: the output continues the one-shot output. */
  method CryptCbc(c: Cipher, encrypt: bool, iv: array<nat>, input: seq<nat>, ghost iv0: seq<nat>, ghost hist: seq<nat>)
      returns (out: seq<nat>)
    requires Ok(c) && IsBlock(c, iv0) && Bytes(hist) && Whole(|hist|, c.bs) && Bytes(input) && Whole(|input|, c.bs)
    requires iv.Length == c.bs && iv[..] == Chain(c, encrypt, iv0, hist)
    modifies iv
    ensures |out| == |input| && Bytes(hist + input) && Whole(|hist + input|, c.bs)
    ensures iv[..] == Chain(c, encrypt, iv0, hist + input)
    ensures CryptAll(c, encrypt, iv0, hist + input) == CryptAll(c, encrypt, iv0, hist) + out
  {
    hide CryptAll, Chain, Whole, Ok;
    BlockSize(c);
    out := [];
    var k: nat := 0;
    ghost var done := hist;
    assert hist + input[..0] == hist;
    while k < |input|
      invariant k <= |input| && Whole(|input| - k, c.bs) && done == hist + input[..k] && |out| == k
      invariant Bytes(done) && Whole(|done|, c.bs) && iv[..] == Chain(c, encrypt, iv0, done)
      invariant CryptAll(c, encrypt, iv0, done) == CryptAll(c, encrypt, iv0, hist) + out
      decreases |input| - k
    {
      WholeFacts(|input| - k, c.bs);
      var x := input[k..k + c.bs];
      var y := CryptBlock(c, encrypt, iv, x, iv0, done);
      assert done + x == hist + input[..k + c.bs];
      assert (CryptAll(c, encrypt, iv0, hist) + out) + y == CryptAll(c, encrypt, iv0, hist) + (out + y);
      done := done + x;
      out := out + y;
      k := k + c.bs;
    }
    assert input[..k] == input;
  }

  lemma BlockSize(c: Cipher)
    requires Ok(c)
    ensures 1 <= c.bs < 256
  {
  }

  /** How much of nonempty input is kept back for later. */
  method KeptBack(n: nat, bs: nat, encrypt: bool) returns (k: nat)
    requires 0 < bs && 0 < n
    ensures k <= n && Whole(n - k, bs)
    ensures if encrypt then k < bs else 0 < k <= bs
  {
    WholeFacts(n, bs);
    k := Rem(n, bs);
    if k == 0 && !encrypt {
      k := bs;
    }
  }

  /** Removes the padding from the last decrypted block. */
  method Unpad(pad: Option<Mode>, o: seq<nat>, ghost head: seq<nat>) returns (r: Outcome)
    requires 1 <= |o| < 256 && Bytes(o)
    ensures r != FullBlockExpected
    ensures r.Finished? ==> Strips(pad, |o|, head + o, head + r.out)
    ensures r.InvalidPadding? ==> forall m :: !Strips(pad, |o|, head + o, m)
  {
    hide Strips, Removes, Bytes;
    match pad {
      case None =>
        StripsNothing(head + o, |o|);
        return Finished(o);
      case Some(Zeros) =>
        var k := GetZeros(o);
        StripsZeros(head, o, k);
        return Finished(o[..k]);
      case Some(mode) =>
        var k := GetPadding(mode, o);
        if k.None? {
          StripsNone(mode, head, o);
          return InvalidPadding;
        }
        assert k.value <= |o| by { RemovesInside(mode, o, k.value); }
        StripsMarked(mode, head, o, k.value);
        return Finished(o[..k.value]);
    }
  }

  lemma StripsNothing(d: seq<nat>, bs: nat)
    requires 1 <= bs < 256
    ensures Strips(None, bs, d, d)
  {
  }

  lemma StripsZeros(head: seq<nat>, o: seq<nat>, k: nat)
    requires 1 <= |o| < 256 && k <= |o| && (k > 0 ==> o[k - 1] != 0) && forall j :: k <= j < |o| ==> o[j] == 0
    ensures Strips(Some(Zeros), |o|, head + o, head + o[..k])
  {
    assert o[k..] == Fill(0, |o| - k);
    assert head + o == head + o[..k] + o[k..];
  }

  lemma StripsMarked(mode: Mode, head: seq<nat>, o: seq<nat>, k: nat)
    requires mode != Zeros && 1 <= |o| < 256 && k <= |o| && Removes(mode, o, k)
    ensures Strips(Some(mode), |o|, head + o, head + o[..k])
  {
    hide Removes;
    assert (head + o)[|head|..] == o && (head + o)[..|head| + k] == head + o[..k];
  }

  lemma StripsNone(mode: Mode, head: seq<nat>, o: seq<nat>)
    requires mode != Zeros && 1 <= |o| < 256 && forall k: nat :: !Removes(mode, o, k)
    ensures forall m :: !Strips(Some(mode), |o|, head + o, m)
  {
    hide Removes;
    assert (head + o)[|head|..] == o;
  }

  lemma RemovesInside(mode: Mode, o: seq<nat>, k: nat)
    requires Removes(mode, o, k)
    ensures k < |o|
  {
  }

  class Context {
    const c: Cipher
    const encrypt: bool
    const pad: Option<Mode>
    const buf: array<nat>
    const iv: array<nat>
    var len: nat
    ghost const iv0: seq<nat>
    ghost var done: seq<nat>
    ghost var emitted: seq<nat>

    /** Everything fed in so far has either been processed, in whole blocks, or waits in the buffer;
        what came out is one-shot CBC of the processed part. */
    ghost predicate Valid()
      reads this, buf, iv
    {
      && Ok(c) && IsBlock(c, iv0) && buf.Length == c.bs == iv.Length && buf != iv
      && len <= c.bs && Bytes(buf[..]) && Bytes(done) && Whole(|done|, c.bs)
      && emitted == CryptAll(c, encrypt, iv0, done) && iv[..] == Chain(c, encrypt, iv0, done)
    }

    ghost function Fed(): seq<nat>
      requires len <= buf.Length
      reads this, buf
    {
      done + buf[..len]
    }

    /** When encrypting, never a full block waits; when decrypting, something always waits. */
    ghost predicate Waiting()
      requires len <= buf.Length
      reads this, buf
    {
      if encrypt then len < c.bs else len > 0 || done == []
    }

    constructor (c: Cipher, encrypt: bool, pad: Option<Mode>, iv0: seq<nat>)
      requires Ok(c) && IsBlock(c, iv0)
      ensures Valid() && Waiting() && Fed() == [] && emitted == []
      ensures this.c == c && this.encrypt == encrypt && this.pad == pad && this.iv0 == iv0
      ensures fresh(buf) && fresh(iv)
    {
      this.c, this.encrypt, this.pad, this.iv0 := c, encrypt, pad, iv0;
      buf := new nat[c.bs](_ => 0);
      iv := new nat[c.bs](i requires 0 <= i < |iv0| => iv0[i]);
      len, done, emitted := 0, [], [];
      new;
      assert iv[..] == iv0;
      WholeFacts(0, c.bs);
    }

    /** Runs whole blocks through the cipher. */
    method Process(data: seq<nat>) returns (out: seq<nat>)
      requires Valid() && Bytes(data) && Whole(|data|, c.bs)
      modifies this`done, this`emitted, iv
      ensures Valid() && done == old(done) + data && emitted == old(emitted) + out && |out| == |data|
    {
      hide Ok, CryptAll, Chain, Whole;
      out := CryptCbc(c, encrypt, iv, data, iv0, done);
      done := done + data;
      emitted := emitted + out;
    }

    method Store(x: seq<nat>)
      requires Valid() && Bytes(x) && len + |x| <= c.bs
      modifies this`len, buf
      ensures Valid() && len == old(len) + |x| && Fed() == old(Fed()) + x
    {
      hide Ok, CryptAll, Chain, Whole;
      forall i | 0 <= i < |x| { buf[len + i] := x[i]; }
      assert buf[..len + |x|] == old(buf[..len]) + x;
      len := len + |x|;
    }

    /** Takes more input. */
    method Update(input: seq<nat>) returns (o: seq<nat>)
      requires Valid() && Waiting() && Bytes(input)
      modifies this`len, this`done, this`emitted, buf, iv
      ensures Valid() && Waiting() && Fed() == old(Fed()) + input && emitted == old(emitted) + o
    {
      hide Ok, CryptAll, Chain, Whole;
      BlockSize(c);
      if (!encrypt && |input| + len <= c.bs) || (encrypt && |input| + len < c.bs) {
        Store(input);
        return [];
      }
      o := [];
      var rest := input;
      if len != 0 {
        var copyLen := c.bs - len;
        Store(input[..copyLen]);
        o := FlushBuffer();
        rest := input[copyLen..];
        assert input == input[..copyLen] + rest;
      }
      if rest != [] {
        var t := UpdateRest(rest);
        o := o + t;
      }
    }

    /** Processes the full buffer. */
    method FlushBuffer() returns (o: seq<nat>)
      requires Valid() && len == c.bs
      modifies this`len, this`done, this`emitted, iv
      ensures Valid() && len == 0 && Fed() == old(Fed()) == done && emitted == old(emitted) + o && |o| == c.bs
    {
      hide Ok, CryptAll, Chain;
      BlockSize(c);
      WholeFacts(c.bs, c.bs);
      o := Process(buf[..]);
      len := 0;
    }

    /** With an empty buffer: keeps back the tail, processes the blocks before it. */
    method UpdateRest(rest: seq<nat>) returns (o: seq<nat>)
      requires Valid() && len == 0 && Bytes(rest) && rest != []
      modifies this`len, this`done, this`emitted, buf, iv
      ensures Valid() && Waiting() && Fed() == old(Fed()) + rest && emitted == old(emitted) + o
    {
      BlockSize(c);
      var copyLen := KeptBack(|rest|, c.bs, encrypt);
      hide Ok, CryptAll, Chain, Whole;
      var n: nat := |rest| - copyLen;
      assert rest == rest[..n] + rest[n..];
      o := KeepAndProcess(rest[..n], rest[n..]);
    }

    method KeepAndProcess(head: seq<nat>, tail: seq<nat>) returns (o: seq<nat>)
      requires Valid() && len == 0 && Bytes(head) && Whole(|head|, c.bs) && Bytes(tail) && |tail| <= c.bs
      modifies this`len, this`done, this`emitted, buf, iv
      ensures Valid() && len == |tail| && Fed() == old(Fed()) + (head + tail) && emitted == old(emitted) + o
    {
      hide Ok, CryptAll, Chain, Whole, Bytes, IsBlock;
      Store(tail);
      assert buf[..len] == tail by { assert Fed()[|done|..] == tail; }
      o := [];
      if head != [] {
        o := Process(head);
      }
      assert buf[..len] == tail && done == old(done) + head;
    }

    /** Ends the stream; nothing more may be fed in afterwards. */
    method Finish() returns (r: Outcome)
      requires Valid() && Waiting()
      modifies this`len, this`done, this`emitted, buf, iv
      ensures encrypt ==> Encrypts(c, pad, iv0, old(Fed()), Total(old(emitted), r))
      ensures !encrypt ==> Decrypts(c, pad, iv0, old(Fed()), Total(old(emitted), r))
    {
      if encrypt {
        r := FinishEncrypt();
      } else {
        r := FinishDecrypt();
      }
    }

    method FinishEncrypt() returns (r: Outcome)
      requires Valid() && Waiting() && encrypt
      modifies this`len, this`done, this`emitted, buf, iv
      ensures Bytes(old(Fed())) && Encrypts(c, pad, iv0, old(Fed()), Total(old(emitted), r))
    {
      hide Ok, Chain, Whole, Rem, EncAll, DecAll, Sealed, Tail, CryptAll, Encrypts, Bytes, IsBlock;
      BlockSize(c);
      if pad == None {
        assert Bytes(buf[..][..len]) by { BytesSplit(buf[..], len); }
        assert buf[..][..len] == buf[..len];
        WithoutPadding(c, iv0, done, buf[..len]);
        assert emitted + [] == emitted;
        return if len != 0 then FullBlockExpected else Finished([]);
      }
      r := PadAndFlush(pad.value);
    }

    method PadAndFlush(mode: Mode) returns (r: Outcome)
      requires Valid() && Waiting() && encrypt && pad == Some(mode)
      modifies this`len, this`done, this`emitted, buf, iv
      ensures Bytes(old(Fed())) && Encrypts(c, pad, iv0, old(Fed()), Total(old(emitted), r))
    {
      hide Ok, Chain, Whole, Rem, Pad, EncAll, DecAll, Sealed, Tail, CryptAll, Encrypts, Bytes, IsBlock;
      BlockSize(c);
      assert Bytes(buf[..][..len]) by { BytesSplit(buf[..], len); }
      PaddingOf(c, mode, iv0, done, buf[..][..len]);
      assert buf[..][..len] == buf[..len];
      FillUp(mode);
      var o := FlushBuffer();
      return Finished(o);
    }

    method FillUp(mode: Mode)
      requires Valid() && len < c.bs < 256
      modifies this`len, buf
      ensures Valid() && len == c.bs && Fed() == old(Fed()) + Pad(mode, c.bs - old(len))
    {
      hide Ok, Chain, Whole, Rem, Pad, EncAll, DecAll, CryptAll, Bytes, IsBlock;
      ghost var kept := buf[..len];
      assert Bytes(buf[..][..len]) by { BytesSplit(buf[..], len); }
      assert buf[..][..len] == kept;
      AddPadding(mode, buf, len);
      PaddedBytes(kept, mode, c.bs - len);
      assert buf[..] == kept + Pad(mode, c.bs - len);
      assert (done + kept) + Pad(mode, c.bs - len) == done + buf[..];
      len := c.bs;
      assert buf[..len] == buf[..];
    }

    method FinishDecrypt() returns (r: Outcome)
      requires Valid() && Waiting() && !encrypt
      modifies this`len, this`done, this`emitted, buf, iv
      ensures Bytes(old(Fed())) && Decrypts(c, pad, iv0, old(Fed()), Total(old(emitted), r))
    {
      hide Ok, Chain, Whole, Rem, EncAll, DecAll, CryptAll, Decrypts, Strips, Bytes, IsBlock, Removes;
      BlockSize(c);
      if len != c.bs {
        assert Bytes(buf[..][..len]) by { BytesSplit(buf[..], len); }
        assert buf[..][..len] == buf[..len];
        NotOneBlock(c, pad, iv0, done, buf[..len]);
        return if pad == None && len == 0 then Finished([]) else FullBlockExpected;
      }
      ghost var head := emitted;
      var o := FlushBuffer();
      assert Bytes(o) by { BytesOf(head, o); }
      r := Unpad(pad, o, head);
      LastBlockDecrypts(c, pad, iv0, done, head, o, r);
    }
  }

  function Concat(chunks: seq<seq<nat>>): seq<nat> {
    if chunks == [] then [] else Concat(chunks[..|chunks| - 1]) + chunks[|chunks| - 1]
  }

  lemma {:induction false} ConcatBytes(chunks: seq<seq<nat>>)
    requires forall i :: 0 <= i < |chunks| ==> Bytes(chunks[i])
    ensures Bytes(Concat(chunks))
  {
    if chunks != [] { ConcatBytes(chunks[..|chunks| - 1]); }
  }

  /** A whole stream, cut anywhere: the total output depends on the concatenated input alone. */
  method Crypt(c: Cipher, encrypt: bool, pad: Option<Mode>, iv0: seq<nat>, chunks: seq<seq<nat>>) returns (r: Outcome)
    requires Ok(c) && IsBlock(c, iv0) && forall i :: 0 <= i < |chunks| ==> Bytes(chunks[i])
    ensures Bytes(Concat(chunks))
    ensures encrypt ==> Encrypts(c, pad, iv0, Concat(chunks), r)
    ensures !encrypt ==> Decrypts(c, pad, iv0, Concat(chunks), r)
  {
    hide Ok, IsBlock, CryptAll, Chain, Whole, Encrypts, Decrypts, Bytes, EncAll, DecAll;
    ConcatBytes(chunks);
    var ctx := new Context(c, encrypt, pad, iv0);
    var out := [];
    for i := 0 to |chunks|
      invariant fresh(ctx) && fresh(ctx.buf) && fresh(ctx.iv)
      invariant ctx.Valid() && ctx.Waiting() && ctx.Fed() == Concat(chunks[..i]) && ctx.emitted == out
    {
      var o := ctx.Update(chunks[i]);
      out := out + o;
      assert chunks[..i + 1][..i] == chunks[..i];
    }
    assert chunks[..|chunks|] == chunks;
    var last := ctx.Finish();
    r := Total(out, last);
  }

  /** Encrypted in any pieces, cut again anywhere, and decrypted: the message comes back. */
  method Deliver(c: Cipher, pad: Option<Mode>, iv0: seq<nat>, chunks: seq<seq<nat>>, recut: seq<nat> -> seq<seq<nat>>)
      returns (r: Outcome)
    requires Ok(c) && IsBlock(c, iv0) && forall i :: 0 <= i < |chunks| ==> Bytes(chunks[i])
    requires forall s :: Bytes(s) ==> Concat(recut(s)) == s && forall i :: 0 <= i < |recut(s)| ==> Bytes(recut(s)[i])
    ensures var m := Concat(chunks);
      if pad.None? && !Whole(|m|, c.bs) then r == FullBlockExpected
      else r == Finished(m) <==> pad != Some(Zeros) || Whole(|m|, c.bs) || EndsNonzero(m)
  {
    hide Ok, IsBlock, Whole;
    var e := Crypt(c, true, pad, iv0, chunks);
    if e.Finished? {
      r := Crypt(c, false, pad, iv0, recut(e.out));
    } else {
      r := e;
    }
    RoundTrip(c, pad, iv0, Concat(chunks), e, r);
  }
}

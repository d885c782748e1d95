/** CBC chaining over an arbitrary invertible block function (NIST SP 800-38A, section 6.2). */
module CbcMode {
  import opened Arith
  import opened ByteOps

  /** Block size, block function and its inverse. */
  datatype Cipher = Cipher(bs: nat, enc: seq<nat> -> seq<nat>, dec: seq<nat> -> seq<nat>)

  ghost predicate IsBlock(c: Cipher, b: seq<nat>) {
    |b| == c.bs && Bytes(b)
  }

  ghost predicate Ok(c: Cipher) {
    && 1 <= c.bs < 256
    && (forall b :: IsBlock(c, b) ==> IsBlock(c, c.enc(b)) && IsBlock(c, c.dec(b)) && c.dec(c.enc(b)) == b)
  }

  /** A length that is a whole number of blocks. */
  predicate Whole(n: nat, bs: nat)
    requires bs > 0
  {
    n % bs == 0
  }

  lemma WholeFacts(n: nat, bs: nat)
    requires bs > 0
    ensures Whole(0, bs) && Whole(bs, bs)
    ensures Whole(n + bs, bs) <==> Whole(n, bs)
    ensures Whole(n, bs) && n > 0 ==> n >= bs && Whole(n - bs, bs)
    ensures Rem(n, bs) <= n && Whole(n - Rem(n, bs), bs) && Whole(n + bs - Rem(n, bs), bs)
    ensures Whole(n, bs) <==> Rem(n, bs) == 0
  {
    var q := n / bs;
    assert n == q * bs + n % bs;
    DivModUnique(0, bs, 0, 0);
    DivModUnique(bs, bs, 1, 0);
    MulDistr(q, 1, bs);
    DivModUnique(n + bs, bs, q + 1, n % bs);
    DivModUnique(n - n % bs, bs, q, 0);
    DivModUnique(n + bs - n % bs, bs, q + 1, 0);
    if n < bs { DivModUnique(n, bs, 0, n); }
    else {
      MulDistr(q, 1, bs);
      DivModUnique(n - bs, bs, q - 1, n % bs);
    }
    if q < 0 { MulMono(q, -1, bs); }
    MulMono(0, q, bs);
  }

  // ----- one-shot CBC

  /** The last block of a block-aligned text, or the initial vector if there is none yet. */
  function Last(c: Cipher, iv: seq<nat>, text: seq<nat>): seq<nat> {
    if |text| < c.bs then iv else text[|text| - c.bs..]
  }

  ghost function EncAll(c: Cipher, iv: seq<nat>, data: seq<nat>): (r: seq<nat>)
    requires Ok(c) && IsBlock(c, iv) && Bytes(data) && Whole(|data|, c.bs)
    ensures |r| == |data| && Bytes(r)
    decreases |data|
  {
    if data == [] then [] else
      WholeFacts(|data|, c.bs);
      var n := |data| - c.bs;
      var e := EncAll(c, iv, data[..n]);
      BlockFacts(c, data[n..], Last(c, iv, e));
      e + c.enc(XorSeq(data[n..], Last(c, iv, e)))
  }

  ghost function DecAll(c: Cipher, iv: seq<nat>, data: seq<nat>): (r: seq<nat>)
    requires Ok(c) && IsBlock(c, iv) && Bytes(data) && Whole(|data|, c.bs)
    ensures |r| == |data| && Bytes(r)
    decreases |data|
  {
    if data == [] then [] else
      WholeFacts(|data|, c.bs);
      var n := |data| - c.bs;
      BlockFacts(c, data[n..], Last(c, iv, data[..n]));
      DecAll(c, iv, data[..n]) + XorSeq(c.dec(data[n..]), Last(c, iv, data[..n]))
  }

  lemma BlockFacts(c: Cipher, x: seq<nat>, iv: seq<nat>)
    requires Ok(c) && IsBlock(c, x) && IsBlock(c, iv)
    ensures IsBlock(c, XorSeq(x, iv)) && IsBlock(c, c.enc(XorSeq(x, iv)))
    ensures IsBlock(c, c.dec(x)) && IsBlock(c, XorSeq(c.dec(x), iv))
    ensures XorSeq(c.dec(c.enc(XorSeq(x, iv))), iv) == x
  {
    XorSeqFacts(x, iv);
    XorSeqFacts(c.dec(x), iv);
  }

  /** One more block. */
  lemma NextBlock(c: Cipher, iv: seq<nat>, data: seq<nat>, x: seq<nat>)
    requires Ok(c) && IsBlock(c, iv) && Bytes(data) && Whole(|data|, c.bs) && IsBlock(c, x)
    ensures Whole(|data + x|, c.bs) && Bytes(data + x)
    ensures EncAll(c, iv, data + x)
         == EncAll(c, iv, data) + c.enc(XorSeq(x, Last(c, iv, EncAll(c, iv, data))))
    ensures DecAll(c, iv, data + x) == DecAll(c, iv, data) + XorSeq(c.dec(x), Last(c, iv, data))
  {
    WholeFacts(|data|, c.bs);
    var n := |data + x| - c.bs;
    assert (data + x)[..n] == data && (data + x)[n..] == x;
    hide Whole, Ok, XorSeq;
  }

  lemma LastBlock(c: Cipher, iv: seq<nat>, text: seq<nat>)
    requires Ok(c) && IsBlock(c, iv) && Bytes(text)
    ensures IsBlock(c, Last(c, iv, text))
  {
  }

  /** Decryption undoes encryption. */
  lemma {:induction false} DecEnc(c: Cipher, iv: seq<nat>, data: seq<nat>)
    requires Ok(c) && IsBlock(c, iv) && Bytes(data) && Whole(|data|, c.bs)
    ensures DecAll(c, iv, EncAll(c, iv, data)) == data
    decreases |data|
  {
    hide EncAll, DecAll, Whole;
    if data == [] {
      DecEncEmpty(c, iv);
    } else {
      WholeFacts(|data|, c.bs);
      var n := |data| - c.bs;
      DecEnc(c, iv, data[..n]);
      DecEncBlock(c, iv, data[..n], data[n..]);
      assert data[..n] + data[n..] == data;
    }
  }

  lemma DecEncEmpty(c: Cipher, iv: seq<nat>)
    requires Ok(c) && IsBlock(c, iv)
    ensures Whole(0, c.bs) && DecAll(c, iv, EncAll(c, iv, [])) == []
  {
    WholeFacts(0, c.bs);
    assert EncAll(c, iv, []) == [];
  }

  lemma DecEncBlock(c: Cipher, iv: seq<nat>, p: seq<nat>, x: seq<nat>)
    requires Ok(c) && IsBlock(c, iv) && Bytes(p) && Whole(|p|, c.bs) && IsBlock(c, x)
    requires DecAll(c, iv, EncAll(c, iv, p)) == p
    ensures Whole(|p + x|, c.bs) && Bytes(p + x) && DecAll(c, iv, EncAll(c, iv, p + x)) == p + x
  {
    hide EncAll, DecAll, XorSeq, Whole;
    var e := EncAll(c, iv, p);
    LastBlock(c, iv, e);
    BlockFacts(c, x, Last(c, iv, e));
    NextBlock(c, iv, e, c.enc(XorSeq(x, Last(c, iv, e))));
    NextBlock(c, iv, p, x);
  }

  // ----- the law of the mode, block by block

  /** The block that a block at offset k is chained to: the ciphertext block before it, or the initial vector. */
  ghost function Before(iv: seq<nat>, cipher: seq<nat>, k: nat, bs: nat): seq<nat>
    requires k == 0 || bs <= k <= |cipher|
  {
    if k == 0 then iv else cipher[k - bs..k]
  }

  /** Each ciphertext block is the encryption of the plaintext block combined with the ciphertext block before. */
  lemma {:induction false} EncryptedBlock(c: Cipher, iv: seq<nat>, data: seq<nat>, k: nat)
    requires Ok(c) && IsBlock(c, iv) && Bytes(data) && Whole(|data|, c.bs) && Whole(k, c.bs) && k + c.bs <= |data|
    ensures var e := EncAll(c, iv, data);
      && (k == 0 || c.bs <= k) && |Before(iv, e, k, c.bs)| == c.bs
      && e[k..k + c.bs] == c.enc(XorSeq(data[k..k + c.bs], Before(iv, e, k, c.bs)))
    decreases |data|
  {
    hide EncAll, DecAll, Whole, XorSeq, Ok, Bytes, IsBlock, Last;
    BlockBounds(c, iv, data, k);
    var n := |data| - c.bs;
    var p, x := data[..n], data[n..];
    SplitLast(c, data);
    NextBlock(c, iv, p, x);
    var e0, e := EncAll(c, iv, p), EncAll(c, iv, data);
    if k == n {
      LastBefore(c, iv, e0, e[n..]);
      assert data[k..k + c.bs] == x && e[k..k + c.bs] == e[n..];
    } else {
      NotLast(k, n, c.bs);
      EncryptedBlock(c, iv, p, k);
      SamePrefix(data, p, k, c.bs);
      SamePrefix(e, e0, k, c.bs);
    }
  }

  lemma SplitLast(c: Cipher, data: seq<nat>)
    requires Ok(c) && Bytes(data) && Whole(|data|, c.bs) && c.bs <= |data|
    ensures var n := |data| - c.bs;
      data == data[..n] + data[n..] && Bytes(data[..n]) && Whole(n, c.bs) && IsBlock(c, data[n..])
  {
    BytesSplit(data, |data| - c.bs);
    WholeFacts(|data|, c.bs);
  }

  /** What the last block is chained to. */
  lemma LastBefore(c: Cipher, iv: seq<nat>, p: seq<nat>, x: seq<nat>)
    requires |p| == 0 || c.bs <= |p|
    requires c.bs > 0 && |iv| == c.bs
    ensures Last(c, iv, p) == Before(iv, p + x, |p|, c.bs) && |Last(c, iv, p)| == c.bs
  {
    if p != [] { assert (p + x)[|p| - c.bs..|p|] == p[|p| - c.bs..]; }
  }

  lemma SamePrefix(s: seq<nat>, p: seq<nat>, k: nat, bs: nat)
    requires |p| <= |s| && p == s[..|p|] && k + bs <= |p|
    ensures s[k..k + bs] == p[k..k + bs] && (bs <= k ==> s[k - bs..k] == p[k - bs..k])
  {
    var x, y := s[k..k + bs], p[k..k + bs];
    assert forall i :: 0 <= i < |p| ==> p[i] == s[i];
    assert |x| == |y| && forall i :: 0 <= i < |x| ==> x[i] == s[k + i] == y[i];
    if bs <= k {
      var u, v := s[k - bs..k], p[k - bs..k];
      assert |u| == |v| && forall i :: 0 <= i < |u| ==> u[i] == s[k - bs + i] == v[i];
    }
  }

  /** Each plaintext block is the decrypted block combined with the ciphertext block before. */
  lemma {:induction false} DecryptedBlock(c: Cipher, iv: seq<nat>, data: seq<nat>, k: nat)
    requires Ok(c) && IsBlock(c, iv) && Bytes(data) && Whole(|data|, c.bs) && Whole(k, c.bs) && k + c.bs <= |data|
    ensures var d := DecAll(c, iv, data);
      && (k == 0 || c.bs <= k) && |Before(iv, data, k, c.bs)| == c.bs == |c.dec(data[k..k + c.bs])|
      && d[k..k + c.bs] == XorSeq(c.dec(data[k..k + c.bs]), Before(iv, data, k, c.bs))
    decreases |data|
  {
    hide EncAll, DecAll, Whole, XorSeq, Ok, Bytes, IsBlock, Last;
    BlockBounds(c, iv, data, k);
    var n := |data| - c.bs;
    var p, x := data[..n], data[n..];
    SplitLast(c, data);
    NextBlock(c, iv, p, x);
    var d0, d := DecAll(c, iv, p), DecAll(c, iv, data);
    if k == n {
      LastBefore(c, iv, p, x);
      assert data[k..k + c.bs] == x && d[k..k + c.bs] == d[n..];
    } else {
      NotLast(k, n, c.bs);
      DecryptedBlock(c, iv, p, k);
      SamePrefix(data, p, k, c.bs);
      SamePrefix(d, d0, k, c.bs);
    }
  }

  lemma BlockBounds(c: Cipher, iv: seq<nat>, data: seq<nat>, k: nat)
    requires Ok(c) && IsBlock(c, iv) && Bytes(data) && Whole(k, c.bs) && k + c.bs <= |data|
    ensures c.bs > 0 && |iv| == c.bs && (k == 0 || c.bs <= k) && |c.dec(data[k..k + c.bs])| == c.bs
  {
    WholeFacts(k, c.bs);
    assert IsBlock(c, data[k..k + c.bs]);
  }

  /** A block that is not the last lies before the last. */
  lemma NotLast(k: nat, n: nat, bs: nat)
    requires bs > 0 && Whole(k, bs) && Whole(n, bs) && k <= n && k != n
    ensures k + bs <= n
  {
    var a, b := k / bs, n / bs;
    FloorBounds(k, bs);
    FloorBounds(n, bs);
    if b <= a { MulMono(b, a, bs); }
    MulMono(a + 1, b, bs);
    MulDistr(a, 1, bs);
  }
}

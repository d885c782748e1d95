/** The block paddings and their removal: what filling the last block writes, and which blocks the
    removal accepts. */
module Padding {
  import opened Arith
  import opened ByteOps

  datatype Mode = Pkcs7 | OneAndZeros | ZerosAndLen | Zeros

  /** What is appended to the data of the last block to fill it up to n bytes. */
  ghost function Pad(mode: Mode, k: nat): (s: seq<nat>)
    requires 1 <= k < 256
    ensures |s| == k && forall i :: 0 <= i < |s| ==> s[i] < 256
  {
    match mode
    case Pkcs7 => Fill(k, k)
    case OneAndZeros => [0x80] + Fill(0, k - 1)
    case ZerosAndLen => Fill(0, k - 1) + [k]
    case Zeros => Fill(0, k)
  }

  /** Three bytes of each. */
  lemma PadExamples()
    ensures Pad(Pkcs7, 3) == [3, 3, 3] && Pad(OneAndZeros, 3) == [0x80, 0, 0]
    ensures Pad(ZerosAndLen, 3) == [0, 0, 3] && Pad(Zeros, 3) == [0, 0, 0]
  {
  }

  /** Writes the padding into the block buffer behind the data. */
  method AddPadding(mode: Mode, output: array<nat>, dataLen: nat)
    requires dataLen < output.Length < 256
    modifies output
    ensures output[..] == old(output[..dataLen]) + Pad(mode, output.Length - dataLen)
  {
    var n := output.Length;
    var padLen := n - dataLen;
    match mode {
      case Pkcs7 =>
        for i := dataLen to n
          invariant output[..dataLen] == old(output[..dataLen])
          invariant forall j :: dataLen <= j < i ==> output[j] == padLen
        {
          output[i] := padLen;
        }
      case OneAndZeros =>
        output[dataLen] := 0x80;
        for i := dataLen + 1 to n
          invariant output[..dataLen] == old(output[..dataLen]) && output[dataLen] == 0x80
          invariant forall j :: dataLen < j < i ==> output[j] == 0
        {
          output[i] := 0;
        }
      case ZerosAndLen =>
        for i := dataLen to n - 1
          invariant output[..dataLen] == old(output[..dataLen])
          invariant forall j :: dataLen <= j < i ==> output[j] == 0
        {
          output[i] := 0;
        }
        output[n - 1] := padLen;
      case Zeros =>
        for i := dataLen to n
          invariant output[..dataLen] == old(output[..dataLen])
          invariant forall j :: dataLen <= j < i ==> output[j] == 0
        {
          output[i] := 0;
        }
    }
    assert output[dataLen..] == Pad(mode, padLen);
    assert output[..] == output[..dataLen] + output[dataLen..];
  }

  /** The block is data of length k followed by a padding. */
  ghost predicate Padded(mode: Mode, input: seq<nat>, k: nat) {
    && k < |input| < 256 && input[k..] == Pad(mode, |input| - k)
  }

  /** The removal of the mode takes the block for k bytes of data and a padding: for one-and-zeros
      padding this is more than being padded. */
  ghost predicate Removes(mode: Mode, input: seq<nat>, k: nat) {
    if mode == OneAndZeros then Passes(input, k) else Padded(mode, input, k)
  }

  /** Removal for the three modes that carry a mark: fails exactly when there is nothing to remove,
      and finds where the padding starts. All bytes are looked at whatever its length is. */
  method GetPadding(mode: Mode, input: seq<nat>) returns (r: Option<nat>)
    requires mode != Zeros && 1 <= |input| < 256 && Bytes(input)
    ensures r.None? <==> forall k: nat :: !Removes(mode, input, k)
    ensures r.Some? ==> Removes(mode, input, r.value)
  {
    match mode {
      case Pkcs7 => r := GetPkcs(input);
      case OneAndZeros => r := GetOneAndZeros(input);
      case ZerosAndLen => r := GetZerosAndLen(input);
    }
    assert forall k: nat ::
      Removes(mode, input, k) <==> if mode == OneAndZeros then Passes(input, k) else Padded(mode, input, k);
  }

  method GetPkcs(input: seq<nat>) returns (r: Option<nat>)
    requires 1 <= |input| < 256
    ensures r.None? <==> forall k: nat :: !Padded(Pkcs7, input, k)
    ensures r.Some? ==> Padded(Pkcs7, input, r.value)
  {
    var n := |input|;
    var padLen := input[n - 1];
    var bad := padLen > n || padLen == 0;
    var padIdx := n - padLen;
    for i := 0 to n
      invariant bad <==> padLen > n || padLen == 0 || exists j :: 0 <= j < i && j >= padIdx && input[j] != padLen
    {
      if input[i] != padLen && i >= padIdx { bad := true; }
    }
    if bad {
      forall k: nat
        ensures !Padded(Pkcs7, input, k)
      {
        if Padded(Pkcs7, input, k) { LastTells(Pkcs7, input, k); }
      }
      return None;
    }
    assert input[padIdx..] == Fill(padLen, padLen);
    assert Padded(Pkcs7, input, padIdx);
    return Some(padIdx);
  }

  method GetZerosAndLen(input: seq<nat>) returns (r: Option<nat>)
    requires 1 <= |input| < 256
    ensures r.None? <==> forall k: nat :: !Padded(ZerosAndLen, input, k)
    ensures r.Some? ==> Padded(ZerosAndLen, input, r.value)
  {
    var n := |input|;
    var padLen := input[n - 1];
    var bad := padLen > n || padLen == 0;
    var padIdx := n - padLen;
    for i := 0 to n - 1
      invariant bad <==> padLen > n || padLen == 0 || exists j :: 0 <= j < i && j >= padIdx && input[j] != 0
    {
      if input[i] != 0 && i >= padIdx { bad := true; }
    }
    if bad {
      forall k: nat
        ensures !Padded(ZerosAndLen, input, k)
      {
        if Padded(ZerosAndLen, input, k) { LastTells(ZerosAndLen, input, k); }
      }
      return None;
    }
    assert input[padIdx..] == Fill(0, padLen - 1) + [padLen];
    assert Padded(ZerosAndLen, input, padIdx);
    return Some(padIdx);
  }

  /** In these two modes the last byte is the padding length. */
  lemma LastTells(mode: Mode, input: seq<nat>, k: nat)
    requires (mode == Pkcs7 || mode == ZerosAndLen) && Padded(mode, input, k)
    ensures input[|input| - 1] == |input| - k
    ensures forall j :: k <= j < |input| - 1 ==> input[j] == if mode == Pkcs7 then |input| - k else 0
  {
    forall j | k <= j < |input|
      ensures input[j] == Pad(mode, |input| - k)[j - k]
    {
      assert input[j] == input[k..][j - k];
    }
  }

  // ----- one-and-zeros: the test is a mask over all bytes, and lets other blocks through

  ghost predicate LastNonzero(input: seq<nat>, k: nat) {
    k < |input| && input[k] != 0 && forall j :: k < j < |input| ==> input[j] == 0
  }

  /** Which blocks the removal accepts. The last nonzero byte is even; it or some byte before it has
      the top bit set; and if no zero follows it, every other bit is clear in it or in some byte
      before it. */
  ghost predicate Passes(input: seq<nat>, k: nat) {
    && LastNonzero(input, k) && !BitAt(input[k], 0)
    && (exists j :: 0 <= j <= k && BitAt(input[j], 7))
    && (k == |input| - 1 ==> forall b: nat :: 1 <= b < 7 ==> SomeClear(input, k, b))
  }

  ghost predicate SomeClear(input: seq<nat>, k: nat, b: nat)
    requires k < |input|
  {
    exists j :: 0 <= j <= k && !BitAt(input[j], b)
  }

  /** Bit b of the mask of byte j, where `last` is the last nonzero byte, if it is known by then. */
  ghost predicate MaskBit(input: seq<nat>, j: int, last: int, b: nat)
    requires 0 <= j < |input|
  {
    BitAt(input[j], b) != (b == 7) || (b == 0 && j != last)
  }

  ghost predicate Kept(input: seq<nat>, i: nat, last: int, b: nat) {
    forall j :: i <= j < |input| ==> MaskBit(input, j, last, b)
  }

  /** The flag word after the bytes from i on. */
  ghost predicate Flags(bad: nat, input: seq<nat>, i: nat, last: int) {
    bad < 256 && forall b: nat :: b < 8 ==> (BitAt(bad, b) <==> Kept(input, i, last, b))
  }

  method GetOneAndZeros(input: seq<nat>) returns (r: Option<nat>)
    requires 1 <= |input| < 256 && Bytes(input)
    ensures r.None? <==> forall k: nat :: !Passes(input, k)
    ensures r.Some? ==> Passes(input, r.value)
  {
    hide BitAt, And, Or, Xor, Flags, Passes;
    var done, bad, dataLen := false, 0xFF, 0;
    var i := |input|;
    FlagsStart(input);
    while i > 0
      invariant 0 <= i <= |input|
      invariant !done ==> dataLen == 0 && forall j :: i <= j < |input| ==> input[j] == 0
      invariant done ==> i <= dataLen && LastNonzero(input, dataLen)
      invariant Flags(bad, input, i, if done then dataLen else -1)
    {
      var prev := done;
      ghost var last := if done then dataLen else -1;
      done := done || input[i - 1] != 0;
      if done != prev {
        dataLen := i - 1;
      }
      FlagsStep(bad, input, i - 1, last, if done then dataLen else -1);
      bad := And(bad, Or(Xor(input[i - 1], 0x80), if done == prev then 1 else 0));
      i := i - 1;
    }
    if done {
      FlagsEnd(bad, input, dataLen);
    } else {
      AllZeroFails(bad, input);
    }
    return if bad != 0 then None else Some(dataLen);
  }

  lemma FlagsStart(input: seq<nat>)
    ensures Flags(0xFF, input, |input|, -1)
  {
    forall b: nat | b < 8
      ensures BitAt(0xFF, b)
    {
      EightBits(0xFF, b);
    }
  }

  /** The bits of the constants that the removal uses. */
  lemma EightBits(x: nat, b: nat)
    requires b < 8 && (x == 0xFF || x == 0x80 || x == 1)
    ensures BitAt(x, b) <==> x == 0xFF || (x == 0x80 && b == 7) || (x == 1 && b == 0)
  {
    if x == 1 {
      if b > 0 { ZeroBits(x / 2, b - 1); }
    } else if x == 0x80 {
      HighBit(b);
    } else {
      FullByte(b);
    }
  }

  lemma HighBit(b: nat)
    requires b < 8
    ensures BitAt(0x80, b) <==> b == 7
  {
    assert ShiftRight(0x80, 0) == 0x80 && ShiftRight(0x80, 1) == 0x40 && ShiftRight(0x80, 2) == 0x20;
    assert ShiftRight(0x80, 3) == 0x10 && ShiftRight(0x80, 4) == 8 && ShiftRight(0x80, 5) == 4;
    assert ShiftRight(0x80, 6) == 2 && ShiftRight(0x80, 7) == 1;
  }

  lemma FullByte(b: nat)
    requires b < 8
    ensures BitAt(0xFF, b)
  {
    assert ShiftRight(0xFF, 0) == 0xFF && ShiftRight(0xFF, 1) == 0x7F && ShiftRight(0xFF, 2) == 0x3F;
    assert ShiftRight(0xFF, 3) == 0x1F && ShiftRight(0xFF, 4) == 0x0F && ShiftRight(0xFF, 5) == 7;
    assert ShiftRight(0xFF, 6) == 3 && ShiftRight(0xFF, 7) == 1;
  }

  lemma FlagsStep(bad: nat, input: seq<nat>, i: nat, last: int, last': int)
    requires i < |input| && Flags(bad, input, i + 1, last)
    requires last' == last || (last == -1 && last' == i)
    requires last != i
    ensures Flags(And(bad, Or(Xor(input[i], 0x80), if last' == last then 1 else 0)), input, i, last')
  {
    var x, same := input[i], if last' == last then 1 else 0;
    var m := Or(Xor(x, 0x80), same);
    forall b: nat | b < 8
      ensures BitAt(And(bad, m), b) <==> Kept(input, i, last', b)
    {
      BitOfAnd(bad, m, b);
      BitOfOr(Xor(x, 0x80), same, b);
      BitOfXor(x, 0x80, b);
      EightBits(0x80, b);
      if same == 1 { EightBits(1, b); } else { ZeroBits(same, b); }
      hide BitAt, And, Or, Xor;
      assert BitAt(m, b) <==> MaskBit(input, i, last', b);
      assert forall j :: i < j < |input| ==> MaskBit(input, j, last', b) == MaskBit(input, j, last, b);
      assert Kept(input, i, last', b) <==> MaskBit(input, i, last', b) && Kept(input, i + 1, last, b);
    }
  }

  /** No flag is left exactly when the block passes. */
  lemma FlagsEnd(bad: nat, input: seq<nat>, k: nat)
    requires LastNonzero(input, k) && Flags(bad, input, 0, k)
    ensures bad == 0 <==> Passes(input, k)
    ensures forall l: nat :: Passes(input, l) ==> l == k
  {
    hide BitAt;
    assert Pow(2, 8) == 256;
    AllBitsZero(bad, 8);
    forall b: nat | 1 <= b < 7
      ensures Kept(input, 0, k, b) <==> !(k < |input| - 1 || SomeClear(input, k, b))
    {
      if k < |input| - 1 {
        ZeroBits(input[|input| - 1], b);
        assert !MaskBit(input, |input| - 1, k, b);
      } else if Kept(input, 0, k, b) {
        forall j | 0 <= j <= k ensures BitAt(input[j], b) { assert MaskBit(input, j, k, b); }
      }
    }
    TopAndLow(input, k);
  }

  lemma TopAndLow(input: seq<nat>, k: nat)
    requires LastNonzero(input, k)
    ensures Kept(input, 0, k, 0) <==> BitAt(input[k], 0)
    ensures Kept(input, 0, k, 7) <==> !exists j :: 0 <= j <= k && BitAt(input[j], 7)
  {
    hide BitAt;
    forall j | k < j < |input| ensures !BitAt(input[j], 7) { ZeroBits(input[j], 7); }
    if Kept(input, 0, k, 0) { assert MaskBit(input, k, k, 0); }
    if Kept(input, 0, k, 7) {
      forall j | 0 <= j <= k ensures !BitAt(input[j], 7) { assert MaskBit(input, j, k, 7); }
    }
  }

  lemma ZeroBitAt(a: nat)
    requires BitAt(a, 0)
    ensures a != 0
  {
  }

  lemma AllZeroFails(bad: nat, input: seq<nat>)
    requires Flags(bad, input, 0, -1) && forall j :: 0 <= j < |input| ==> input[j] == 0
    ensures bad != 0 && forall k: nat :: !Passes(input, k)
  {
    assert Kept(input, 0, -1, 0) && BitAt(bad, 0);
    ZeroBitAt(bad);
  }

  /** Every padded block passes. */
  lemma PaddedPasses(input: seq<nat>, k: nat)
    requires Padded(OneAndZeros, input, k)
    ensures Passes(input, k)
  {
    hide BitAt;
    OneTells(input, k);
    forall b: nat | b < 8
      ensures BitAt(input[k], b) <==> b == 7
    {
      EightBits(0x80, b);
    }
  }

  lemma PaddedRemoves(mode: Mode, input: seq<nat>, k: nat)
    requires Padded(mode, input, k)
    ensures Removes(mode, input, k) && k < |input|
  {
    if mode == OneAndZeros { PaddedPasses(input, k); }
  }

  /** A block that passes without being padded: 01 02 03 82 00. */
  lemma PassesUnpadded()
    ensures Passes([1, 2, 3, 0x82, 0], 3) && forall k: nat :: !Padded(OneAndZeros, [1, 2, 3, 0x82, 0], k)
  {
    var s := [1, 2, 3, 0x82, 0];
    assert ShiftRight(0x82, 7) == 1;
    assert s[3] == 0x82 && !BitAt(0x82, 0);
    forall k: nat
      ensures !Padded(OneAndZeros, s, k)
    {
      if Padded(OneAndZeros, s, k) { OneTells(s, k); }
    }
  }

  /** A block is accepted and padded exactly when its last nonzero byte is 80: the removal is right
      about every block except the ones that pass with another byte there. */
  lemma PassesPadded(input: seq<nat>, k: nat)
    requires |input| < 256 && Passes(input, k)
    ensures Padded(OneAndZeros, input, k) <==> input[k] == 0x80
  {
    if input[k] == 0x80 {
      assert input[k..] == [0x80] + Fill(0, |input| - k - 1);
    } else if Padded(OneAndZeros, input, k) {
      OneTells(input, k);
    }
  }

  lemma OneTells(input: seq<nat>, k: nat)
    requires Padded(OneAndZeros, input, k)
    ensures input[k] == 0x80 && forall j :: k < j < |input| ==> input[j] == 0
  {
    assert input[k] == input[k..][0];
    forall j | k < j < |input|
      ensures input[j] == 0
    {
      assert input[j] == input[k..][j - k];
    }
  }

  /** What removal takes for the data of a block is unique. */
  lemma RemovesUnique(mode: Mode, input: seq<nat>, k: nat, l: nat)
    requires mode != Zeros && Removes(mode, input, k) && Removes(mode, input, l)
    ensures k == l
  {
    if mode != OneAndZeros {
      LastTells(mode, input, k);
      LastTells(mode, input, l);
    }
  }

  /** Zero padding: everything after the last nonzero byte is dropped. */
  method GetZeros(input: seq<nat>) returns (k: nat)
    ensures k <= |input| && (k > 0 ==> input[k - 1] != 0)
    ensures forall j :: k <= j < |input| ==> input[j] == 0
  {
    var done := false;
    k := 0;
    var i := |input|;
    while i > 0
      invariant 0 <= i <= |input|
      invariant !done ==> k == 0 && forall j :: i <= j < |input| ==> input[j] == 0
      invariant done ==> i < k <= |input| && input[k - 1] != 0 && forall j :: k <= j < |input| ==> input[j] == 0
    {
      var prev := done;
      done := done || input[i - 1] != 0;
      if done != prev { k := i; }
      i := i - 1;
    }
  }
}

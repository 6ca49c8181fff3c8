/** PKCS#7 padding to a fixed 16-byte block, as section 6.3 of RFC 5652
    describes it: the input is extended by k = 16 - (length mod 16) bytes,
    each of value k, so 1 <= k <= 16 and a full block is added to input
    that is already block-aligned. */
module Pkcs7 {
  import opened Base

  const BlockLength := 16

  /** Why a byte string is not the padded form of anything. */
  datatype PaddingError = EmptyInput | NotBlockAligned | BadPadLength | BadPadBytes

  /** `k` bytes, each of value `k`. */
  function PadBytes(k: nat): (r: Bytes)
    requires 1 <= k <= BlockLength
    ensures |r| == k && forall i :: 0 <= i < k ==> r[i] == k
  {
    seq(k, _ => k)
  }

  function Pad16(x: Bytes): (r: Bytes)
    ensures var k := BlockLength - |x| % BlockLength;
            1 <= k <= BlockLength && |r| == |x| + k && r[..|x|] == x
            && forall i :: |x| <= i < |r| ==> r[i] == k
    ensures |r| % BlockLength == 0
  {
    x + PadBytes(BlockLength - |x| % BlockLength)
  }

  /** The last byte names a length from 1 to 16 and that many trailing
      bytes all carry it, in a non-empty block-aligned string. */
  predicate WellPadded(y: Bytes) {
    && |y| > 0
    && |y| % BlockLength == 0
    && 1 <= y[|y| - 1] <= BlockLength
    && forall i :: |y| - y[|y| - 1] <= i < |y| ==> y[i] == y[|y| - 1]
  }

  function Unpad16(y: Bytes): (r: Result<Bytes, PaddingError>)
    ensures r.Success? <==> WellPadded(y)
    ensures r.Success? ==> |r.value| < |y| && r.value == y[..|r.value|]
    ensures r.Failure? && |y| == 0 ==> r.error == EmptyInput
    ensures r.Failure? && |y| > 0 && |y| % BlockLength != 0 ==> r.error == NotBlockAligned
  {
    if |y| == 0 then Failure(EmptyInput)
    else if |y| % BlockLength != 0 then Failure(NotBlockAligned)
    else
      var n := y[|y| - 1];
      if n < 1 || n > BlockLength then Failure(BadPadLength)
      else if y[|y| - n..] != PadBytes(n) then Failure(BadPadBytes)
      else
        Success(y[..|y| - n])
  }

  /** What unpadding accepts is exactly what padding produces. */
  lemma PadUnpad(y: Bytes)
    requires Unpad16(y).Success?
    ensures Pad16(Unpad16(y).value) == y
  {
    var n := y[|y| - 1];
    var x := y[..|y| - n];
    assert Unpad16(y).value == x;
    assert |x| % BlockLength == (BlockLength - n) % BlockLength by {
      RemainderBelowBlock(|y|, n);
    }
    assert y[|y| - n..] == PadBytes(n);
    assert y == x + PadBytes(n);
  }

  /** Removing n (1..16) bytes from a block-aligned length leaves the
      remainder 16 - n, taken modulo 16. */
  lemma RemainderBelowBlock(len: nat, n: nat)
    requires len % BlockLength == 0 && 1 <= n <= BlockLength && n <= len
    ensures (len - n) % BlockLength == (BlockLength - n) % BlockLength
  {
    var q := len / BlockLength;
    assert len == BlockLength * (q - 1) + BlockLength;
  }

  lemma UnpadPad(x: Bytes)
    ensures Unpad16(Pad16(x)) == Success(x)
  {
    var y := Pad16(x);
    var n := BlockLength - |x| % BlockLength;
    assert y[|y| - n..] == PadBytes(n);
    assert y[..|y| - n] == x;
  }
}

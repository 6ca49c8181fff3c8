/** Fixed-width integer and boolean codec over byte streams.

    The modelled code packs with `struct` format characters that carry no
    byte-order prefix, so the host's native order and sizes apply. This model
    pins them: little-endian, 1 byte for byte and bool, 2 for (u)int16, 4 for
    (u)int32 and 8 for (u)int64. */
module BinaryHelper {
  import opened Base
  import opened Streams

  /** A read found fewer bytes than the value's width. */
  datatype CodecError = Underflow

  const UInt16Bound := 0x1_0000
  const UInt32Bound := 0x1_0000_0000
  const UInt64Bound := 0x1_0000_0000_0000_0000

  function Pow256(n: nat): (r: nat)
    ensures r >= 1
  {
    if n == 0 then 1 else 256 * Pow256(n - 1)
  }

  /** The smallest value a signed `w`-byte integer cannot hold, 2^(8w-1). */
  function Half(w: nat): (r: int)
    requires w >= 1
    ensures r >= 1 && 2 * r == Pow256(w)
  {
    128 * Pow256(w - 1)
  }

  lemma PowValues()
    ensures Pow256(1) == 256 && Pow256(2) == UInt16Bound
    ensures Pow256(4) == UInt32Bound && Pow256(8) == UInt64Bound
  {
  }

  predicate InSignedRange(v: int, w: nat)
    requires w >= 1
  {
    -Half(w) <= v < Half(w)
  }

  // ---------------------------------------------------------------------
  // Little-endian encodings

  /** `v` as `w` little-endian bytes. */
  function EncodeUnsigned(v: nat, w: nat): (r: Bytes)
    requires v < Pow256(w)
    ensures |r| == w
  {
    if w == 0 then []
    else [v % 256] + EncodeUnsigned(v / 256, w - 1)
  }

  /** The unsigned value of little-endian bytes. */
  function DecodeUnsigned(b: Bytes): (v: nat)
    ensures v < Pow256(|b|)
  {
    if |b| == 0 then 0
    else b[0] + 256 * DecodeUnsigned(b[1..])
  }

  /** `v` in two's complement over `w` bytes. */
  function EncodeSigned(v: int, w: nat): (r: Bytes)
    requires w >= 1 && InSignedRange(v, w)
    ensures |r| == w
  {
    EncodeUnsigned(if v < 0 then v + Pow256(w) else v, w)
  }

  /** The two's-complement value of little-endian bytes. */
  function DecodeSigned(b: Bytes): (v: int)
    requires |b| >= 1
    ensures InSignedRange(v, |b|)
  {
    var u := DecodeUnsigned(b);
    if u >= Half(|b|) then u - Pow256(|b|) else u
  }

  lemma {:induction false} DecodeEncodeUnsigned(v: nat, w: nat)
    requires v < Pow256(w)
    ensures DecodeUnsigned(EncodeUnsigned(v, w)) == v
  {
    if w > 0 {
      var r := EncodeUnsigned(v, w);
      assert r[1..] == EncodeUnsigned(v / 256, w - 1);
      DecodeEncodeUnsigned(v / 256, w - 1);
    }
  }

  lemma {:induction false} EncodeDecodeUnsigned(b: Bytes)
    ensures EncodeUnsigned(DecodeUnsigned(b), |b|) == b
  {
    if |b| > 0 {
      var v := DecodeUnsigned(b);
      assert v % 256 == b[0] && v / 256 == DecodeUnsigned(b[1..]);
      EncodeDecodeUnsigned(b[1..]);
    }
  }

  lemma DecodeEncodeSigned(v: int, w: nat)
    requires w >= 1 && InSignedRange(v, w)
    ensures DecodeSigned(EncodeSigned(v, w)) == v
  {
    DecodeEncodeUnsigned(if v < 0 then v + Pow256(w) else v, w);
  }

  /** Two's complement: the signed and the unsigned reading of the same
      bytes differ by a multiple of 2^(8w). */
  lemma SignedUnsignedAgree(b: Bytes)
    requires |b| >= 1
    ensures DecodeSigned(b) % Pow256(|b|) == DecodeUnsigned(b)
    ensures DecodeSigned(b) == DecodeUnsigned(b) || DecodeSigned(b) == DecodeUnsigned(b) - Pow256(|b|)
  {
    var u, p := DecodeUnsigned(b), Pow256(|b|);
    if u >= Half(|b|) {
      assert DecodeSigned(b) == u - p;
      ModOfShifted(u, p);
    } else {
      assert DecodeSigned(b) == u;
      ModOfSmall(u, p);
    }
  }

  /** Euclidean remainder: subtracting the modulus once changes nothing. */
  lemma ModOfShifted(u: int, p: int)
    requires 0 <= u < p
    ensures (u - p) % p == u
  {
  }

  lemma ModOfSmall(u: int, p: int)
    requires 0 <= u < p
    ensures u % p == u
  {
  }

  // ---------------------------------------------------------------------
  // Generic writers and readers

  /** Appends `v` as a `w`-byte unsigned integer. */
  function WriteUnsigned(out: Bytes, v: nat, w: nat): (r: Bytes)
    requires w >= 1 && v < Pow256(w)
    ensures r == out + EncodeUnsigned(v, w)
    ensures ReadUnsigned(Stream(r, |out|), w) == Success((v, Stream(r, |r|)))
  {
    var encoded := EncodeUnsigned(v, w);
    var r := out + encoded;
    assert ReadUnsigned(Stream(r, |out|), w) == Success((v, Stream(r, |r|))) by {
      assert r[|out|..] == encoded + [];
      ReadPrefix(r, |out|, encoded, []);
      DecodeEncodeUnsigned(v, w);
    }
    r
  }

  /** Appends `v` as a `w`-byte two's-complement integer. */
  function WriteSigned(out: Bytes, v: int, w: nat): (r: Bytes)
    requires w >= 1 && InSignedRange(v, w)
    ensures r == out + EncodeSigned(v, w)
    ensures ReadSigned(Stream(r, |out|), w) == Success((v, Stream(r, |r|)))
  {
    var encoded := EncodeSigned(v, w);
    var r := out + encoded;
    assert ReadSigned(Stream(r, |out|), w) == Success((v, Stream(r, |r|))) by {
      assert r[|out|..] == encoded + [];
      ReadPrefix(r, |out|, encoded, []);
      DecodeEncodeSigned(v, w);
    }
    r
  }

  /** Reads exactly `w` bytes, failing when fewer remain. */
  function ReadFixed(s: Stream, w: nat): (r: Result<(Bytes, Stream), CodecError>)
    ensures r.Success? <==> Remaining(s) >= w
    ensures r.Success? ==> |r.value.0| == w && r.value.1.data == s.data
    ensures r.Success? && w > 0 ==> r.value.1.pos == s.pos + w && r.value.0 == s.data[s.pos..s.pos + w]
  {
    var (chunk, next) := Read(s, w);
    if |chunk| < w then Failure(Underflow) else Success((chunk, next))
  }

  function ReadUnsigned(s: Stream, w: nat): (r: Result<(int, Stream), CodecError>)
    requires w >= 1
    ensures r.Success? <==> Remaining(s) >= w
    ensures r.Success? ==> 0 <= r.value.0 < Pow256(w)
    ensures r.Success? ==> r.value.1 == Stream(s.data, s.pos + w)
    ensures r.Success? ==> r.value.0 == DecodeUnsigned(s.data[s.pos..s.pos + w])
  {
    var (chunk, next) :- ReadFixed(s, w);
    Success((DecodeUnsigned(chunk), next))
  }

  function ReadSigned(s: Stream, w: nat): (r: Result<(int, Stream), CodecError>)
    requires w >= 1
    ensures r.Success? <==> Remaining(s) >= w
    ensures r.Success? ==> InSignedRange(r.value.0, w)
    ensures r.Success? ==> r.value.1 == Stream(s.data, s.pos + w)
    ensures r.Success? ==> r.value.0 == DecodeSigned(s.data[s.pos..s.pos + w])
  {
    var (chunk, next) :- ReadFixed(s, w);
    Success((DecodeSigned(chunk), next))
  }

  /** A write followed, anywhere in a longer buffer, by the matching read
      gives the value back and moves the position by exactly the width. */
  lemma ReadWriteUnsignedAt(before: Bytes, v: nat, w: nat, after: Bytes)
    requires w >= 1 && v < Pow256(w)
    ensures var data := WriteUnsigned(before, v, w) + after;
            ReadUnsigned(Stream(data, |before|), w) == Success((v, Stream(data, |before| + w)))
  {
    var data := WriteUnsigned(before, v, w) + after;
    assert data[|before|..|before| + w] == EncodeUnsigned(v, w);
    DecodeEncodeUnsigned(v, w);
  }

  lemma ReadWriteSignedAt(before: Bytes, v: int, w: nat, after: Bytes)
    requires w >= 1 && InSignedRange(v, w)
    ensures var data := WriteSigned(before, v, w) + after;
            ReadSigned(Stream(data, |before|), w) == Success((v, Stream(data, |before| + w)))
  {
    var data := WriteSigned(before, v, w) + after;
    assert data[|before|..|before| + w] == EncodeSigned(v, w);
    DecodeEncodeSigned(v, w);
  }

  /** The signed and unsigned reads of one width succeed on the same
      streams, leave the same position, and return the same value or values
      2^(8w) apart. */
  lemma SignedUnsignedReadsAgree(s: Stream, w: nat)
    requires w >= 1
    ensures ReadSigned(s, w).Success? <==> ReadUnsigned(s, w).Success?
    ensures ReadSigned(s, w).Success? ==>
              var (x, sx) := ReadSigned(s, w).value;
              var (y, sy) := ReadUnsigned(s, w).value;
              sx == sy && (x == y || x == y - Pow256(w))
  {
    if ReadSigned(s, w).Success? {
      SignedUnsignedAgree(s.data[s.pos..s.pos + w]);
    }
  }

  // ---------------------------------------------------------------------
  // The per-type operations

  function WriteByte(out: Bytes, v: int): (r: Bytes)
    requires 0 <= v < 256
    ensures |r| == |out| + 1 && r[..|out|] == out
    ensures ReadByte(Stream(r, |out|)) == Success((v, Stream(r, |r|)))
  {
    WriteUnsigned(out, v, 1)
  }

  /** Any true value is stored as 1, false as 0. */
  function WriteBool(out: Bytes, v: bool): (r: Bytes)
    ensures |r| == |out| + 1 && r[..|out|] == out
    ensures r[|out|] == 0 || r[|out|] == 1
    ensures ReadBool(Stream(r, |out|)) == Success((v, Stream(r, |r|)))
  {
    WriteUnsigned(out, if v then 1 else 0, 1)
  }

  function WriteInt16(out: Bytes, v: int): (r: Bytes)
    requires -0x8000 <= v < 0x8000
    ensures |r| == |out| + 2 && r[..|out|] == out
    ensures ReadInt16(Stream(r, |out|)) == Success((v, Stream(r, |r|)))
  {
    WriteSigned(out, v, 2)
  }

  function WriteUInt16(out: Bytes, v: int): (r: Bytes)
    requires 0 <= v < UInt16Bound
    ensures |r| == |out| + 2 && r[..|out|] == out
    ensures ReadUInt16(Stream(r, |out|)) == Success((v, Stream(r, |r|)))
  {
    WriteUnsigned(out, v, 2)
  }

  /** Used by the TLV writer for value lengths, hence also its byte layout. */
  function WriteInt32(out: Bytes, v: int): (r: Bytes)
    requires -0x8000_0000 <= v < 0x8000_0000
    ensures |r| == |out| + 4 && r == out + EncodeSigned(v, 4)
    ensures ReadInt32(Stream(r, |out|)) == Success((v, Stream(r, |r|)))
  {
    WriteSigned(out, v, 4)
  }

  function WriteUInt32(out: Bytes, v: int): (r: Bytes)
    requires 0 <= v < UInt32Bound
    ensures |r| == |out| + 4 && r[..|out|] == out
    ensures ReadUInt32(Stream(r, |out|)) == Success((v, Stream(r, |r|)))
  {
    PowValues();
    WriteUnsigned(out, v, 4)
  }

  function WriteInt64(out: Bytes, v: int): (r: Bytes)
    requires -0x8000_0000_0000_0000 <= v < 0x8000_0000_0000_0000
    ensures |r| == |out| + 8 && r[..|out|] == out
    ensures ReadInt64(Stream(r, |out|)) == Success((v, Stream(r, |r|)))
  {
    PowValues();
    WriteSigned(out, v, 8)
  }

  function WriteUInt64(out: Bytes, v: int): (r: Bytes)
    requires 0 <= v < UInt64Bound
    ensures |r| == |out| + 8 && r[..|out|] == out
    ensures ReadUInt64(Stream(r, |out|)) == Success((v, Stream(r, |r|)))
  {
    PowValues();
    WriteUnsigned(out, v, 8)
  }

  function ReadByte(s: Stream): (r: Result<(int, Stream), CodecError>)
    ensures r.Success? <==> Remaining(s) >= 1
    ensures r.Success? ==> r.value.0 == s.data[s.pos] && r.value.1 == Stream(s.data, s.pos + 1)
  {
    ReadUnsigned(s, 1)
  }

  /** True exactly when the byte read is non-zero. */
  function ReadBool(s: Stream): (r: Result<(bool, Stream), CodecError>)
    ensures r.Success? <==> Remaining(s) >= 1
    ensures r.Success? ==> (r.value.0 <==> s.data[s.pos] != 0) && r.value.1 == Stream(s.data, s.pos + 1)
  {
    var (b, next) :- ReadUnsigned(s, 1);
    Success((b != 0, next))
  }

  function ReadInt16(s: Stream): (r: Result<(int, Stream), CodecError>)
    ensures r.Success? <==> Remaining(s) >= 2
    ensures r.Success? ==> -0x8000 <= r.value.0 < 0x8000 && r.value.1 == Stream(s.data, s.pos + 2)
    ensures r.Success? ==> r.value.0 == DecodeSigned(s.data[s.pos..s.pos + 2])
  {
    ReadSigned(s, 2)
  }

  function ReadUInt16(s: Stream): (r: Result<(int, Stream), CodecError>)
    ensures r.Success? <==> Remaining(s) >= 2
    ensures r.Success? ==> 0 <= r.value.0 < UInt16Bound && r.value.1 == Stream(s.data, s.pos + 2)
    ensures r.Success? ==> r.value.0 == DecodeUnsigned(s.data[s.pos..s.pos + 2])
  {
    ReadUnsigned(s, 2)
  }

  function ReadInt32(s: Stream): (r: Result<(int, Stream), CodecError>)
    ensures r.Success? <==> Remaining(s) >= 4
    ensures r.Success? ==> -0x8000_0000 <= r.value.0 < 0x8000_0000 && r.value.1 == Stream(s.data, s.pos + 4)
    ensures r.Success? ==> r.value.0 == DecodeSigned(s.data[s.pos..s.pos + 4])
  {
    ReadSigned(s, 4)
  }

  function ReadUInt32(s: Stream): (r: Result<(int, Stream), CodecError>)
    ensures r.Success? <==> Remaining(s) >= 4
    ensures r.Success? ==> 0 <= r.value.0 < UInt32Bound && r.value.1 == Stream(s.data, s.pos + 4)
    ensures r.Success? ==> r.value.0 == DecodeUnsigned(s.data[s.pos..s.pos + 4])
  {
    PowValues();
    ReadUnsigned(s, 4)
  }

  function ReadInt64(s: Stream): (r: Result<(int, Stream), CodecError>)
    ensures r.Success? <==> Remaining(s) >= 8
    ensures r.Success? ==> -0x8000_0000_0000_0000 <= r.value.0 < 0x8000_0000_0000_0000
    ensures r.Success? ==> r.value.1 == Stream(s.data, s.pos + 8)
    ensures r.Success? ==> r.value.0 == DecodeSigned(s.data[s.pos..s.pos + 8])
  {
    PowValues();
    ReadSigned(s, 8)
  }

  function ReadUInt64(s: Stream): (r: Result<(int, Stream), CodecError>)
    ensures r.Success? <==> Remaining(s) >= 8
    ensures r.Success? ==> 0 <= r.value.0 < UInt64Bound && r.value.1 == Stream(s.data, s.pos + 8)
    ensures r.Success? ==> r.value.0 == DecodeUnsigned(s.data[s.pos..s.pos + 8])
  {
    PowValues();
    ReadUnsigned(s, 8)
  }
}

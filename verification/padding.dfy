/** Streaming PKCS#7 encryption and decryption in `bufferSize` chunks.

    The cipher is the already keyed block cipher the caller hands in, seen as
    two byte-string functions. The padding is always to a 16-byte block,
    whatever block size the cipher has. */
module Padding {
  import opened Base
  import opened Streams
  import opened Pkcs7
  import Arith

  datatype Cipher = Cipher(encrypt: Bytes -> Bytes, decrypt: Bytes -> Bytes)

  /** The cipher leaves every byte string as it is. */
  ghost predicate IsIdentity(c: Cipher) {
    forall x :: c.encrypt(x) == x && c.decrypt(x) == x
  }

  ghost predicate DecryptPreservesLength(c: Cipher) {
    forall x :: |c.decrypt(x)| == |x|
  }

  /** Encryption keeps lengths and decryption undoes it. */
  ghost predicate Invertible(c: Cipher) {
    forall x :: |c.encrypt(x)| == |x| && c.decrypt(c.encrypt(x)) == x
  }

  /** Everything decryption wrote, and whether it ended cleanly. */
  datatype Decrypted = Decrypted(output: Bytes, status: Outcome<PaddingError>)

  function Flatten(chunks: seq<Bytes>): (r: Bytes)
  {
    if |chunks| == 0 then [] else chunks[0] + Flatten(chunks[1..])
  }

  function Apply(f: Bytes -> Bytes, chunks: seq<Bytes>): (r: seq<Bytes>)
    ensures |r| == |chunks| && forall i :: 0 <= i < |chunks| ==> r[i] == f(chunks[i])
  {
    seq(|chunks|, i requires 0 <= i < |chunks| => f(chunks[i]))
  }

  /** A chunk in front of chunks that, with a tail, make up `whole` puts
      itself in front of `whole`. */
  lemma FlattenCons(head: Bytes, chunks: seq<Bytes>, tail: Bytes, whole: Bytes)
    requires Flatten(chunks) + tail == whole
    ensures Flatten([head] + chunks) + tail == head + whole
  {
    assert ([head] + chunks)[1..] == chunks;
  }

  lemma FlattenApplyCons(f: Bytes -> Bytes, head: Bytes, tail: seq<Bytes>)
    ensures Flatten(Apply(f, [head] + tail)) == f(head) + Flatten(Apply(f, tail))
  {
    assert Apply(f, [head] + tail)[1..] == Apply(f, tail);
  }

  lemma {:induction false} FlattenSnoc(chunks: seq<Bytes>, last: Bytes)
    ensures Flatten(chunks + [last]) == Flatten(chunks) + last
  {
    if |chunks| > 0 {
      assert (chunks + [last])[1..] == chunks[1..] + [last];
      FlattenSnoc(chunks[1..], last);
    }
  }

  /** What is left of `p` once every full `bufferSize` chunk has been read:
      the chunk that the read loop finds short, possibly empty. */
  function Remainder(p: Bytes, bufferSize: nat): (r: Bytes)
    requires bufferSize > 0
    ensures |r| < bufferSize
    decreases |p|
  {
    if |p| < bufferSize then p else Remainder(p[bufferSize..], bufferSize)
  }

  /** The remainder is as long as the input length modulo the chunk size. */
  lemma {:induction false} RemainderLength(p: Bytes, bufferSize: nat)
    requires bufferSize > 0
    ensures |Remainder(p, bufferSize)| == |p| % bufferSize
    decreases |p|
  {
    if |p| < bufferSize {
      Arith.DivModUnique(|p|, bufferSize, 0, |p|);
    } else {
      RemainderLength(p[bufferSize..], bufferSize);
      Arith.ModMinusDivisor(|p|, bufferSize);
    }
  }

  /** The byte strings the encrypting side hands to the cipher, in order:
      every full `bufferSize` chunk of the input unpadded, then the short
      remainder (possibly empty) padded. */
  function Frames(p: Bytes, bufferSize: nat): seq<Bytes>
    requires bufferSize > 0
    decreases |p|
  {
    if |p| < bufferSize then [Pad16(p)]
    else [p[..bufferSize]] + Frames(p[bufferSize..], bufferSize)
  }

  /** There is always a last frame, the padded remainder; every frame
      before it is a full chunk, and together they give back the input. */
  lemma FramesShape(p: Bytes, bufferSize: nat)
    requires bufferSize > 0
    ensures var r := Frames(p, bufferSize);
            && |r| >= 1
            && (forall i :: 0 <= i < |r| - 1 ==> |r[i]| == bufferSize)
            && Flatten(r[..|r| - 1]) + Remainder(p, bufferSize) == p
            && r[|r| - 1] == Pad16(Remainder(p, bufferSize))
  {
    FramesFull(p, bufferSize);
    FramesJoin(p, bufferSize);
    FramesLast(p, bufferSize);
  }

  lemma {:induction false} FramesFull(p: Bytes, bufferSize: nat)
    requires bufferSize > 0
    ensures var r := Frames(p, bufferSize);
            |r| >= 1 && forall i :: 0 <= i < |r| - 1 ==> |r[i]| == bufferSize
    decreases |p|
  {
    if |p| >= bufferSize {
      var rest := Frames(p[bufferSize..], bufferSize);
      FramesFull(p[bufferSize..], bufferSize);
      var r := [p[..bufferSize]] + rest;
      forall i | 0 <= i < |r| - 1
        ensures |r[i]| == bufferSize
      {
        if i > 0 {
          assert r[i] == rest[i - 1];
        }
      }
    }
  }

  lemma {:induction false} FramesJoin(p: Bytes, bufferSize: nat)
    requires bufferSize > 0
    ensures var r := Frames(p, bufferSize);
            |r| >= 1 && Flatten(r[..|r| - 1]) + Remainder(p, bufferSize) == p
    decreases |p|
  {
    if |p| >= bufferSize {
      FramesJoin(p[bufferSize..], bufferSize);
      assert Remainder(p, bufferSize) == Remainder(p[bufferSize..], bufferSize);
      assert p[..bufferSize] + p[bufferSize..] == p;
      JoinStep(p[..bufferSize], Frames(p[bufferSize..], bufferSize), p[bufferSize..], Remainder(p, bufferSize), p);
    }
  }

  /** One more full frame in front keeps the frames joining up to the input. */
  lemma JoinStep(head: Bytes, rest: seq<Bytes>, tail: Bytes, remainder: Bytes, whole: Bytes)
    requires |rest| >= 1 && Flatten(rest[..|rest| - 1]) + remainder == tail && head + tail == whole
    ensures var r := [head] + rest;
            Flatten(r[..|r| - 1]) + remainder == whole
  {
    var r := [head] + rest;
    assert r[..|r| - 1] == [head] + rest[..|rest| - 1];
    FlattenCons(head, rest[..|rest| - 1], remainder, tail);
  }

  lemma {:induction false} FramesLast(p: Bytes, bufferSize: nat)
    requires bufferSize > 0
    ensures var r := Frames(p, bufferSize);
            |r| >= 1 && r[|r| - 1] == Pad16(Remainder(p, bufferSize))
    decreases |p|
  {
    if |p| >= bufferSize {
      FramesLast(p[bufferSize..], bufferSize);
    }
  }

  /** The complete output of encryption: each full chunk through the
      cipher as it is, then the padded remainder. */
  function EncryptedStream(p: Bytes, cipher: Cipher, bufferSize: nat): Bytes
    requires bufferSize > 0
    decreases |p|
  {
    if |p| < bufferSize then cipher.encrypt(Pad16(p))
    else cipher.encrypt(p[..bufferSize]) + EncryptedStream(p[bufferSize..], cipher, bufferSize)
  }

  /** The encrypted stream is the cipher applied to each frame in turn. */
  lemma {:induction false} EncryptedStreamIsFrames(p: Bytes, cipher: Cipher, bufferSize: nat)
    requires bufferSize > 0
    ensures EncryptedStream(p, cipher, bufferSize) == Flatten(Apply(cipher.encrypt, Frames(p, bufferSize)))
    decreases |p|
  {
    if |p| < bufferSize {
      assert Apply(cipher.encrypt, [Pad16(p)]) == [cipher.encrypt(Pad16(p))];
      assert [cipher.encrypt(Pad16(p))][1..] == [];
    } else {
      FlattenApplyCons(cipher.encrypt, p[..bufferSize], Frames(p[bufferSize..], bufferSize));
      EncryptedStreamIsFrames(p[bufferSize..], cipher, bufferSize);
    }
  }

  /** The outcome of writing the unpadded last chunk after `written`: on a
      padding error nothing more is written. */
  function Unpadded(written: Bytes, chunk: Bytes): Decrypted {
    match Unpad16(chunk)
    case Success(p) => Decrypted(written + p, Pass)
    case Failure(e) => Decrypted(written, Fail(e))
  }

  /** The ciphertext as the decryption loop consumes it: the plaintext of
      every `bufferSize` chunk that more ciphertext follows, and the last
      chunk, still encrypted. */
  function Chunks(c: Bytes, cipher: Cipher, bufferSize: nat): (r: (Bytes, Bytes))
    requires bufferSize > 0
    decreases |c|
  {
    if |c| <= bufferSize then ([], c)
    else
      var rest := Chunks(c[bufferSize..], cipher, bufferSize);
      (cipher.decrypt(c[..bufferSize]) + rest.0, rest.1)
  }

  /** The output of `decrypt_unpad_pkcs7` for the ciphertext `c`: every
      chunk but the last decrypted verbatim, the last one decrypted and
      unpadded. On a padding failure the earlier chunks have already been
      written. */
  function DecryptedStream(c: Bytes, cipher: Cipher, bufferSize: nat): Decrypted
    requires bufferSize > 0
  {
    if |c| == 0 then Decrypted([], Pass)
    else
      var (held, last) := Chunks(c, cipher, bufferSize);
      Unpadded(held, cipher.decrypt(last))
  }

  /** The chunk-by-chunk reading of `DecryptedStream`. */
  lemma DecryptedStreamStep(c: Bytes, cipher: Cipher, bufferSize: nat)
    requires bufferSize > 0 && |c| > 0
    ensures |c| <= bufferSize ==> DecryptedStream(c, cipher, bufferSize) == Unpadded([], cipher.decrypt(c))
    ensures |c| > bufferSize ==>
              DecryptedStream(c, cipher, bufferSize)
              == Prepend(cipher.decrypt(c[..bufferSize]), DecryptedStream(c[bufferSize..], cipher, bufferSize))
  {
    if |c| > bufferSize {
      var rest := Chunks(c[bufferSize..], cipher, bufferSize);
      UnpaddedPrepend(cipher.decrypt(c[..bufferSize]), rest.0, cipher.decrypt(rest.1));
    }
  }

  lemma UnpaddedPrepend(first: Bytes, second: Bytes, chunk: Bytes)
    ensures Unpadded(first + second, chunk) == Prepend(first, Unpadded(second, chunk))
  {
    if Unpad16(chunk).Success? {
      assert first + second + Unpad16(chunk).value == first + (second + Unpad16(chunk).value);
    }
  }

  /** `encrypt_pad_pkcs7`: reads `bufferSize` chunks; full chunks go through
      the cipher as they are, the first short chunk is padded and ends the
      loop; when the input ends exactly on a chunk boundary an empty string
      is padded instead. */
  method EncryptPadPkcs7(input: Bytes, cipher: Cipher, bufferSize: nat) returns (output: Bytes)
    requires bufferSize > 0
    ensures output == EncryptedStream(input, cipher, bufferSize)
    ensures bufferSize % BlockLength == 0 && IsIdentity(cipher) ==> output == Pad16(input)
  {
    var source := Stream(input, 0);
    output := [];
    var padDone := false;
    while true
      invariant source.data == input && source.pos <= |input|
      invariant output + EncryptedStream(input[source.pos..], cipher, bufferSize)
                == EncryptedStream(input, cipher, bufferSize)
      decreases |input| - source.pos
    {
      var (clear, next) := Read(source, bufferSize);
      if |clear| == 0 {
        break;
      }
      if |clear| < bufferSize {
        assert input[source.pos..] == clear;
        output := output + cipher.encrypt(Pad16(clear));
        padDone := true;
        break;
      } else {
        assert input[source.pos..][bufferSize..] == input[next.pos..];
        assert input[source.pos..][..bufferSize] == clear;
        output := output + cipher.encrypt(clear);
        source := next;
      }
    }
    if !padDone {
      output := output + cipher.encrypt(Pad16([]));
    }
    if bufferSize % BlockLength == 0 && IsIdentity(cipher) {
      EncryptIdentityIsPad16(input, cipher, bufferSize);
    }
  }

  /** `decrypt_unpad_pkcs7`: a full decrypted chunk is held back and written
      verbatim only once a later read returns data; the chunk found to be
      last is unpadded. */
  method DecryptUnpadPkcs7(input: Bytes, cipher: Cipher, bufferSize: nat)
    returns (output: Bytes, status: Outcome<PaddingError>)
    requires bufferSize > 0
    requires DecryptPreservesLength(cipher)
    ensures Decrypted(output, status) == DecryptedStream(input, cipher, bufferSize)
    ensures input == [] ==> output == [] && status == Pass
  {
    var source := Stream(input, 0);
    output, status := [], Pass;
    var backup: Option<Bytes> := None;
    assert input[0..] == input && [] + Chunks(input, cipher, bufferSize).0 == Chunks(input, cipher, bufferSize).0;
    while true
      invariant source.data == input && source.pos <= |input|
      invariant status == Pass
      invariant backup.None? ==> source.pos == 0 && output == []
      invariant backup.Some? ==>
                  bufferSize <= source.pos && |backup.value| == bufferSize
                  && backup.value == cipher.decrypt(input[source.pos - bufferSize..source.pos])
      invariant var start := if backup.Some? then source.pos - bufferSize else source.pos;
                Consumed(input, start, cipher, bufferSize, output)
      decreases |input| - source.pos
    {
      ghost var start := if backup.Some? then source.pos - bufferSize else source.pos;
      ghost var here := source.pos;
      var (enc, next) := Read(source, bufferSize);
      source := next;
      if |enc| == 0 {
        // A held chunk is never empty, so holding one is the code's truth test.
        assert source.pos == |input|;
        if backup.Some? {
          assert backup.value == cipher.decrypt(input[start..|input|]);
          FinalChunk(input, start, cipher, bufferSize, output);
          output, status := WriteLast(output, backup.value);
        } else {
          assert input == [] && output == [];
        }
        break;
      } else if backup.Some? {
        assert here == start + bufferSize;
        FullChunk(input, start, cipher, bufferSize, output);
        output := output + backup.value;
        backup := None;
      }
      assert Consumed(input, here, cipher, bufferSize, output);
      var dec := cipher.decrypt(enc);
      if |dec| < bufferSize {
        assert source.pos == |input| && enc == input[here..|input|];
        FinalChunk(input, here, cipher, bufferSize, output);
        output, status := WriteLast(output, dec);
        break;
      } else {
        assert |enc| == bufferSize && source.pos == here + bufferSize && enc == input[here..source.pos];
        backup := Some(dec);
      }
    }
  }

  /** Loop invariant: `output` holds the plaintext of the chunks before
      `start`, and decrypting from `start` on completes the stream. */
  ghost predicate Consumed(input: Bytes, start: nat, cipher: Cipher, bufferSize: nat, output: Bytes)
    requires bufferSize > 0
  {
    && start <= |input|
    && var rest := Chunks(input[start..], cipher, bufferSize);
       Chunks(input, cipher, bufferSize) == (output + rest.0, rest.1)
  }

  /** Loop step: writing a decrypted chunk that more ciphertext follows. */
  lemma FullChunk(input: Bytes, start: nat, cipher: Cipher, bufferSize: nat, output: Bytes)
    requires 0 < bufferSize < |input| - start
    requires Consumed(input, start, cipher, bufferSize, output)
    ensures Consumed(input, start + bufferSize, cipher, bufferSize,
                     output + cipher.decrypt(input[start..start + bufferSize]))
  {
    var c := input[start..];
    assert c[..bufferSize] == input[start..start + bufferSize];
    assert c[bufferSize..] == input[start + bufferSize..];
    var rest := Chunks(input[start + bufferSize..], cipher, bufferSize);
    assert output + (cipher.decrypt(input[start..start + bufferSize]) + rest.0)
        == (output + cipher.decrypt(input[start..start + bufferSize])) + rest.0;
  }

  /** Loop step: unpadding the decrypted chunk that ends the ciphertext. */
  lemma FinalChunk(input: Bytes, start: nat, cipher: Cipher, bufferSize: nat, output: Bytes)
    requires 0 < |input| - start <= bufferSize
    requires Consumed(input, start, cipher, bufferSize, output)
    ensures DecryptedStream(input, cipher, bufferSize) == Unpadded(output, cipher.decrypt(input[start..|input|]))
  {
    assert input[start..] == input[start..|input|];
    assert output + [] == output;
  }

  /** `output.write(unpad(chunk))`, the write skipped when unpadding fails. */
  method WriteLast(written: Bytes, chunk: Bytes) returns (output: Bytes, status: Outcome<PaddingError>)
    ensures |written| <= |output| && output[..|written|] == written
    ensures status == Pass <==> WellPadded(chunk)
    ensures status == Pass ==> Pad16(output[|written|..]) == chunk
    ensures status.Fail? ==> output == written
    ensures Decrypted(output, status) == Unpadded(written, chunk)
  {
    match Unpad16(chunk) {
      case Success(p) =>
        output, status := written + p, Pass;
        PadUnpad(chunk);
        assert output[|written|..] == p;
      case Failure(e) =>
        output, status := written, Fail(e);
    }
  }

  function Prepend(written: Bytes, rest: Decrypted): Decrypted {
    Decrypted(written + rest.output, rest.status)
  }

  // ---------------------------------------------------------------------
  // Properties

  /** With the identity cipher and a chunk size that is a multiple of 16,
      the encrypted stream is exactly the PKCS#7 padding of the input. */
  lemma {:induction false} EncryptIdentityIsPad16(p: Bytes, cipher: Cipher, bufferSize: nat)
    requires bufferSize > 0 && bufferSize % BlockLength == 0 && IsIdentity(cipher)
    ensures EncryptedStream(p, cipher, bufferSize) == Pad16(p)
    ensures |EncryptedStream(p, cipher, bufferSize)| == |p| + BlockLength - |p| % BlockLength
    decreases |p|
  {
    if |p| < bufferSize {
      assert cipher.encrypt(Pad16(p)) == Pad16(p);
    } else {
      var head, rest := p[..bufferSize], p[bufferSize..];
      assert cipher.encrypt(head) == head;
      EncryptIdentityIsPad16(rest, cipher, bufferSize);
      assert head + rest == p;
      PadPrepend(head, rest);
    }
  }

  /** Padding does not see a block-aligned prefix. */
  lemma PadPrepend(head: Bytes, rest: Bytes)
    requires |head| % BlockLength == 0
    ensures head + Pad16(rest) == Pad16(head + rest)
  {
    assert |head + rest| % BlockLength == |rest| % BlockLength by {
      Arith.ModAddMultiple(|rest|, BlockLength, |head| / BlockLength);
    }
    var k := BlockLength - |rest| % BlockLength;
    assert head + (rest + PadBytes(k)) == (head + rest) + PadBytes(k);
  }

  /** An input that ends exactly on a chunk boundary, the empty input
      included, is passed whole in full chunks and followed by one extra
      block of sixteen 16s. */
  lemma ExactMultipleGetsFullPadBlock(p: Bytes, cipher: Cipher, bufferSize: nat)
    requires bufferSize > 0 && |p| % bufferSize == 0
    ensures var f := Frames(p, bufferSize);
            f[|f| - 1] == PadBytes(BlockLength) && Flatten(f[..|f| - 1]) == p
    ensures var f := Frames(p, bufferSize);
            EncryptedStream(p, cipher, bufferSize)
            == Flatten(Apply(cipher.encrypt, f[..|f| - 1])) + cipher.encrypt(PadBytes(BlockLength))
  {
    var f := Frames(p, bufferSize);
    EncryptedStreamIsFrames(p, cipher, bufferSize);
    FramesShape(p, bufferSize);
    RemainderLength(p, bufferSize);
    assert Remainder(p, bufferSize) == [];
    assert Flatten(f[..|f| - 1]) + [] == Flatten(f[..|f| - 1]);
    var g := Apply(cipher.encrypt, f);
    assert g == Apply(cipher.encrypt, f[..|f| - 1]) + [cipher.encrypt(f[|f| - 1])];
    FlattenSnoc(Apply(cipher.encrypt, f[..|f| - 1]), cipher.encrypt(f[|f| - 1]));
  }

  /** Dropping a leading block-aligned chunk from a longer ciphertext does
      not change the verdict on its padding, nor what unpadding keeps of the
      rest. */
  lemma UnpadAfterChunk(c: Bytes, bufferSize: nat)
    requires bufferSize > 0 && bufferSize % BlockLength == 0 && |c| > bufferSize
    ensures Unpad16(c).Success? <==> Unpad16(c[bufferSize..]).Success?
    ensures Unpad16(c).Success? ==> Unpad16(c).value == c[..bufferSize] + Unpad16(c[bufferSize..]).value
    ensures Unpad16(c).Failure? ==> Unpad16(c).error == Unpad16(c[bufferSize..]).error
  {
    var t := c[bufferSize..];
    assert |t| % BlockLength == |c| % BlockLength by {
      DropChunkMod(|c|, bufferSize);
    }
    if |c| % BlockLength == 0 {
      var n := c[|c| - 1];
      assert n == t[|t| - 1];
      if 1 <= n <= BlockLength {
        assert |t| >= BlockLength by {
          Arith.MultipleAtLeastDivisor(|t|, BlockLength);
        }
        assert c[|c| - n..] == t[|t| - n..];
        assert c[..|c| - n] == c[..bufferSize] + t[..|t| - n];
      }
    }
  }

  /** Dropping a chunk whose length is a multiple of 16 keeps the length
      modulo 16. */
  lemma DropChunkMod(length: nat, bufferSize: nat)
    requires bufferSize % BlockLength == 0 && bufferSize <= length
    ensures (length - bufferSize) % BlockLength == length % BlockLength
  {
    Arith.ModAddMultiple(length - bufferSize, BlockLength, bufferSize / BlockLength);
  }

  /** With the identity cipher, decryption of a non-empty stream is
      unpadding of the whole stream; when that fails, everything but the last
      chunk has been written. */
  lemma {:induction false} DecryptIdentity(c: Bytes, cipher: Cipher, bufferSize: nat)
    requires bufferSize > 0 && bufferSize % BlockLength == 0 && IsIdentity(cipher) && c != []
    ensures var d := DecryptedStream(c, cipher, bufferSize);
            match Unpad16(c)
            case Success(p) => d.output == p && d.status == Pass
            case Failure(e) =>
              && d.status == Fail(e) && 0 < |c| - |d.output| <= bufferSize
              && d.output == c[..|d.output|] && |d.output| % bufferSize == 0
    decreases |c|
  {
    DecryptedStreamStep(c, cipher, bufferSize);
    if |c| <= bufferSize {
      assert cipher.decrypt(c) == c;
      assert IdentityOutcome(c, Unpadded([], c), bufferSize) by {
        var none: Bytes := [];
        assert c[..0] == none;
      }
    } else {
      var head, t := c[..bufferSize], c[bufferSize..];
      assert cipher.decrypt(head) == head;
      DecryptIdentity(t, cipher, bufferSize);
      IdentityStep(c, bufferSize, DecryptedStream(t, cipher, bufferSize));
    }
  }

  /** What `DecryptIdentity` promises about the outcome `d` for `c`. */
  ghost predicate IdentityOutcome(c: Bytes, d: Decrypted, bufferSize: nat)
    requires bufferSize > 0
  {
    match Unpad16(c)
    case Success(p) => d.output == p && d.status == Pass
    case Failure(e) =>
      && d.status == Fail(e) && 0 < |c| - |d.output| <= bufferSize
      && d.output == c[..|d.output|] && |d.output| % bufferSize == 0
  }

  /** Writing one leading chunk verbatim keeps the identity outcome. */
  lemma IdentityStep(c: Bytes, bufferSize: nat, d: Decrypted)
    requires bufferSize > 0 && bufferSize % BlockLength == 0 && |c| > bufferSize
    requires IdentityOutcome(c[bufferSize..], d, bufferSize)
    ensures IdentityOutcome(c, Prepend(c[..bufferSize], d), bufferSize)
  {
    var head, t := c[..bufferSize], c[bufferSize..];
    UnpadAfterChunk(c, bufferSize);
    var whole := Prepend(head, d);
    if Unpad16(t).Failure? {
      assert |whole.output| == bufferSize + |d.output|;
      assert whole.output == c[..|whole.output|] by {
        assert c[..bufferSize + |d.output|] == head + t[..|d.output|];
      }
      assert |whole.output| % bufferSize == 0 by {
        Arith.ModAddMultiple(|d.output|, bufferSize, 1);
      }
    }
  }

  /** Decrypting what encryption produced gives the input back, for every
      input, when the cipher is invertible and the chunk size a multiple of
      16. */
  lemma {:induction false} DecryptEncrypt(p: Bytes, cipher: Cipher, bufferSize: nat)
    requires bufferSize > 0 && bufferSize % BlockLength == 0 && Invertible(cipher)
    ensures DecryptedStream(EncryptedStream(p, cipher, bufferSize), cipher, bufferSize) == Decrypted(p, Pass)
    decreases |p|
  {
    var c := EncryptedStream(p, cipher, bufferSize);
    if |p| < bufferSize {
      var x := Pad16(p);
      assert |x| <= bufferSize by {
        var q, m := |p| / BlockLength, bufferSize / BlockLength;
        assert |p| == BlockLength * q + |p| % BlockLength;
        assert bufferSize == BlockLength * m;
        assert q < m;
      }
      DecryptedStreamStep(c, cipher, bufferSize);
      UnpadPad(p);
    } else {
      var head, rest := p[..bufferSize], p[bufferSize..];
      assert p == head + rest;
      var tail := EncryptedStream(rest, cipher, bufferSize);
      assert |c| > bufferSize && c[..bufferSize] == cipher.encrypt(head) && c[bufferSize..] == tail by {
        assert c == cipher.encrypt(head) + tail;
        EncryptedStreamNotEmpty(rest, cipher, bufferSize);
      }
      DecryptedStreamStep(c, cipher, bufferSize);
      DecryptEncrypt(rest, cipher, bufferSize);
    }
  }

  lemma EncryptedStreamNotEmpty(p: Bytes, cipher: Cipher, bufferSize: nat)
    requires bufferSize > 0 && Invertible(cipher)
    ensures |EncryptedStream(p, cipher, bufferSize)| > 0
  {
    if |p| >= bufferSize {
      assert |cipher.encrypt(p[..bufferSize])| == bufferSize;
    } else {
      assert |cipher.encrypt(Pad16(p))| == |Pad16(p)|;
    }
  }

  /** 4096 zero bytes in 4096-byte chunks encrypt, with the identity cipher,
      to 4112 bytes, which decrypt back to the input. */
  lemma FullChunkScenario(cipher: Cipher)
    requires IsIdentity(cipher)
    ensures var p := seq(4096, _ => 0);
            && |EncryptedStream(p, cipher, 4096)| == 4112
            && DecryptedStream(EncryptedStream(p, cipher, 4096), cipher, 4096) == Decrypted(p, Pass)
  {
    var p: Bytes := seq(4096, _ => 0);
    EncryptIdentityIsPad16(p, cipher, 4096);
    assert Invertible(cipher);
    DecryptEncrypt(p, cipher, 4096);
  }
}

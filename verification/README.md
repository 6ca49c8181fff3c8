# PythonToolBox byte-level core, modelled in Dafny

This project models three small byte-level components of PythonToolBox and
proves their round-trip and framing properties.

- **Streaming PKCS#7 encryption and decryption** (`Cryptography/Padding.py`).
  `encrypt_pad_pkcs7` reads the input in `buffer_size` chunks. Full chunks go
  through the cipher unpadded. The first short chunk is padded and ends the
  loop. When the input ends exactly on a chunk boundary, an empty string is
  padded instead. `decrypt_unpad_pkcs7` holds back one full decrypted chunk
  (`backup`). It writes that chunk verbatim only once another read returns
  data, and it unpads only the chunk it finds to be last. Padding always uses
  a 16-byte block, whatever the cipher's own block size. It is specified from
  section 6.3 of RFC 5652 as `Pkcs7.Pad16` and `Pkcs7.Unpad16`.
- **The fixed-width integer and bool codec** (`IO/BinaryHelper.py`). It covers
  `write_*` and `read_*` for byte, bool, and signed and unsigned 16-, 32- and
  64-bit integers. The generic `WriteUnsigned`/`ReadUnsigned` and
  `WriteSigned`/`ReadSigned` pair encodings with two's-complement decoding.
- **The TLV writer and reader** (`IO/BinaryTlv.py`). The wire format is one
  header byte holding the tag length `n`. Then each entry is its tag padded
  with spaces to `n` ASCII bytes, the value length as a 4-byte signed
  integer, and the value bytes. The model covers `BinaryTlvWriter`
  (`NewWriter`, `Write`), `build_tlv_list` (`BuildTlvList`, via `WriteAll`),
  `BinaryTlvReader` (`NewReader`, `ReadEntry`, `ReadAll`),
  `tlv_list_from_bytes` (`TlvListFromBytes`, via `ReadRemaining`) and the
  `TlvError` conditions (`TlvError`, `Rejection`).

Streams are byte sequences with a cursor (`Streams.Stream`). `Streams.Read`
behaves like `BytesIO.read(n)`:

- a negative `n` reads the rest of the stream;
- `n == 0`, or a cursor at the end, reads nothing;
- otherwise it reads at most `n` bytes.

Errors are values: `Result` for the readers and for `build_tlv_list`, a
`WriteStep` carrying an optional `TlvError` for `write`, and an `Outcome`
for the final unpad.

The cipher is a parameter: a pair of byte-string functions
(`Padding.Cipher`). Lemmas require only what they use:

- the identity (`IsIdentity`);
- length-preserving decryption (`DecryptPreservesLength`);
- an invertible, length-preserving encryption (`Invertible`).

Modules: `Base` (bytes, `Option`, `Result`, `Outcome`), `Streams`, `Arith`
(Euclidean division facts), `BinaryHelper`, `Pkcs7`, `Padding` and
`BinaryTlv`.

Two behaviours of the code that are easy to miss:

- **Over-long tags.** `write` records the tag as seen before it checks the
  tag's length (`IO/BinaryTlv.py:68-75`). So a tag refused as too long is
  remembered, and writing it again is refused as "already written". See
  `BinaryTlv.OverlongTagRemembered`.
- **Out-of-range values.** `struct.pack` raises on a value outside the
  width, so every writer requires an in-range value.

## Model

| member | source | states |
|---|---|---|
| Pkcs7.Pad16 | Cryptography/Padding.py:28 | padding adds k = 16 - (length mod 16) bytes, so 1 <= k <= 16, every added byte equals k, the input is kept as a prefix and the result is block-aligned |
| Pkcs7.Unpad16 | Cryptography/Padding.py:80 | unpadding succeeds exactly on well-padded input (non-empty, block-aligned, last byte N in 1..16, last N bytes all N) and returns a proper prefix; empty input and unaligned length are reported as such |
| Pkcs7.UnpadPad | Cryptography/Padding.py:28 | unpadding a padded string gives the string back, for every input |
| Pkcs7.PadUnpad | Cryptography/Padding.py:80 | every string unpadding accepts is the padding of what it returns, so the two are inverse bijections |
| Padding.EncryptPadPkcs7 | Cryptography/Padding.py:7-43 | the encryption loop outputs the cipher applied to each full chunk and then to the padded remainder; with the identity cipher and a chunk size that is a multiple of 16 the output is the padding of the whole input |
| Padding.EncryptedStreamIsFrames | Cryptography/Padding.py:19-35 | the encrypted output is the concatenation of the cipher applied to each frame the loop hands it, in order |
| Padding.FramesShape | Cryptography/Padding.py:27-35 | there is always a last frame, the padded remainder; every frame before it is a full unpadded chunk; the full chunks followed by the remainder give back the input |
| Padding.RemainderLength | Cryptography/Padding.py:20-27 | the short chunk that ends the loop has length (input length mod buffer size) |
| Padding.ExactMultipleGetsFullPadBlock | Cryptography/Padding.py:37-43 | an input whose length is a multiple of the buffer size (empty included) is passed whole in full chunks, followed by the encryption of one block of sixteen 16s |
| Padding.EncryptIdentityIsPad16 | Cryptography/Padding.py:19-43 | with the identity cipher and a chunk size that is a multiple of 16, the output is the padded input, of length len + 16 - len mod 16 |
| Padding.DecryptUnpadPkcs7 | Cryptography/Padding.py:46-86 | the decryption loop with its one-chunk lookahead writes every chunk but the last verbatim and the unpadded last chunk, or stops with the padding error after the verbatim chunks; an empty input writes nothing and raises nothing |
| Padding.DecryptedStreamStep | Cryptography/Padding.py:70-86 | a chunk that further ciphertext follows is written decrypted and verbatim ahead of whatever the rest produces; a single chunk is decrypted and unpadded |
| Padding.WriteLast | Cryptography/Padding.py:79-82 | the written prefix is kept; unpadding succeeds exactly on well-padded input, and then the appended bytes are the text whose padding is the chunk; on failure nothing is appended and the error is reported |
| Padding.DecryptIdentity | Cryptography/Padding.py:57-86 | with the identity cipher a non-empty input decrypts to its unpadding; when the padding is bad the error is reported and a non-empty last chunk of at most the buffer size is the only part not written |
| Padding.UnpadAfterChunk | Cryptography/Padding.py:66 | dropping a leading block-aligned chunk changes neither whether unpadding succeeds nor its error, and the kept chunk stays in front of the result |
| Padding.DecryptEncrypt | Cryptography/Padding.py:7-86 | decrypting what encryption produced gives the input back with no error, for every input, when the cipher is invertible and the buffer size a positive multiple of 16 |
| Padding.FullChunkScenario | Cryptography/Padding.py:37-43 | 4096 zero bytes in 4096-byte chunks encrypt (identity cipher) to 4112 bytes, which decrypt back to the input |
| BinaryHelper.DecodeEncodeUnsigned | IO/BinaryHelper.py:127-134 | decoding the little-endian encoding of an in-range unsigned value gives the value back |
| BinaryHelper.EncodeDecodeUnsigned | IO/BinaryHelper.py:34-40 | re-encoding a decoded byte string at its own width gives the same bytes |
| BinaryHelper.DecodeEncodeSigned | IO/BinaryHelper.py:117-124 | decoding the two's-complement encoding of an in-range signed value gives the value back |
| BinaryHelper.SignedUnsignedAgree | IO/BinaryHelper.py:123-134 | the signed and unsigned decodings of the same bytes are equal modulo 2^(8w), differing by 0 or exactly 2^(8w) |
| BinaryHelper.SignedUnsignedReadsAgree | IO/BinaryHelper.py:143-154 | a signed and an unsigned read of the same width succeed together, move the cursor alike and agree modulo 2^(8w) |
| BinaryHelper.WriteUnsigned | IO/BinaryHelper.py:52-58 | appends the w-byte encoding after the existing bytes, and an unsigned read there gives the value back and moves to the end |
| BinaryHelper.WriteSigned | IO/BinaryHelper.py:43-49 | appends the w-byte two's-complement encoding, and a signed read there gives the value back and moves to the end |
| BinaryHelper.ReadFixed | IO/BinaryHelper.py:103-104 | a fixed-width read succeeds exactly when enough bytes remain, and then returns the next w bytes and advances by w |
| BinaryHelper.ReadUnsigned | IO/BinaryHelper.py:153-154 | an unsigned read fails exactly on a short buffer; otherwise it returns a value in [0, 2^(8w)) decoded from the next w bytes and advances by w |
| BinaryHelper.ReadSigned | IO/BinaryHelper.py:143-144 | a signed read fails exactly on a short buffer; otherwise it returns a value in [-2^(8w-1), 2^(8w-1)) decoded from the next w bytes and advances by w |
| BinaryHelper.ReadWriteUnsignedAt | IO/BinaryHelper.py:52-58 | a written unsigned value is read back even with more bytes after it, and the cursor moves by exactly the width |
| BinaryHelper.ReadWriteSignedAt | IO/BinaryHelper.py:43-49 | a written signed value is read back even with more bytes after it, and the cursor moves by exactly the width |
| BinaryHelper.WriteByte | IO/BinaryHelper.py:7-13 | appends exactly one byte, keeps what was there, and `read_byte` there returns the value |
| BinaryHelper.WriteBool | IO/BinaryHelper.py:16-22 | appends exactly one byte, 0 or 1, and `read_bool` there returns the same truth value |
| BinaryHelper.WriteInt16 | IO/BinaryHelper.py:25-31 | appends exactly 2 bytes and `read_int16` there returns the value |
| BinaryHelper.WriteUInt16 | IO/BinaryHelper.py:34-40 | appends exactly 2 bytes and `read_uint16` there returns the value |
| BinaryHelper.WriteInt32 | IO/BinaryHelper.py:43-49 | appends exactly the 4-byte two's-complement encoding and `read_int32` there returns the value |
| BinaryHelper.WriteUInt32 | IO/BinaryHelper.py:52-58 | appends exactly 4 bytes and `read_uint32` there returns the value |
| BinaryHelper.WriteInt64 | IO/BinaryHelper.py:61-67 | appends exactly 8 bytes and `read_int64` there returns the value |
| BinaryHelper.WriteUInt64 | IO/BinaryHelper.py:70-76 | appends exactly 8 bytes and `read_uint64` there returns the value |
| BinaryHelper.ReadByte | IO/BinaryHelper.py:97-104 | fails exactly when no byte remains; otherwise returns the next byte and advances by one |
| BinaryHelper.ReadBool | IO/BinaryHelper.py:107-114 | fails exactly when no byte remains; otherwise returns true iff the next byte is non-zero |
| BinaryHelper.ReadInt16 | IO/BinaryHelper.py:117-124 | fails exactly when fewer than 2 bytes remain; otherwise the little-endian two's-complement value of the next 2 bytes, in [-2^15, 2^15), advancing by 2 |
| BinaryHelper.ReadUInt16 | IO/BinaryHelper.py:127-134 | fails exactly when fewer than 2 bytes remain; otherwise the little-endian unsigned value of the next 2 bytes, in [0, 2^16), advancing by 2 |
| BinaryHelper.ReadInt32 | IO/BinaryHelper.py:137-144 | fails exactly when fewer than 4 bytes remain; otherwise the signed decoding of the next 4 bytes, in [-2^31, 2^31), advancing by 4 |
| BinaryHelper.ReadUInt32 | IO/BinaryHelper.py:147-154 | fails exactly when fewer than 4 bytes remain; otherwise the little-endian unsigned value of the next 4 bytes, in [0, 2^32), advancing by 4 |
| BinaryHelper.ReadInt64 | IO/BinaryHelper.py:157-164 | fails exactly when fewer than 8 bytes remain; otherwise the little-endian two's-complement value of the next 8 bytes, in [-2^63, 2^63), advancing by 8 |
| BinaryHelper.ReadUInt64 | IO/BinaryHelper.py:167-174 | fails exactly when fewer than 8 bytes remain; otherwise the little-endian unsigned value of the next 8 bytes, in [0, 2^64), advancing by 8 |
| Streams.Read | IO/BinaryTlv.py:99 | a read returns at most the requested number of bytes, fewer at the end of the buffer, all of the rest for a negative count, and they are the bytes at the cursor |
| BinaryTlv.AsciiEncode | IO/BinaryTlv.py:77 | ASCII encoding keeps the length and maps each character to its code |
| BinaryTlv.AsciiDecode | IO/BinaryTlv.py:97 | ASCII decoding succeeds exactly when every byte is below 128, and maps each byte to the character with that code |
| BinaryTlv.AsciiRoundTrip | IO/BinaryTlv.py:77-97 | decoding an encoded ASCII tag gives the tag back |
| BinaryTlv.LJust | IO/BinaryTlv.py:73 | `ljust` leaves a string at least as long as the width alone and otherwise pads it with spaces to exactly the width |
| BinaryTlv.Strip | IO/BinaryTlv.py:97 | `strip` returns the contiguous middle of the input with only whitespace removed before and after it, leaves no whitespace at either end, and leaves a string with no edge whitespace unchanged |
| BinaryTlv.StripIgnoresPadding | IO/BinaryTlv.py:73-97 | stripping a space-padded tag gives the same as stripping the tag |
| BinaryTlv.EntryBytes | IO/BinaryTlv.py:77-79 | one entry takes exactly tag length + 4 + value length bytes |
| BinaryTlv.NewWriter | IO/BinaryTlv.py:51-56 | a new writer has seen no tags and has written only the header byte, which `read_byte` returns |
| BinaryTlv.Write | IO/BinaryTlv.py:58-79 | `write` fails exactly on an empty tag, a missing value, a repeated tag or an over-long tag, with that error and no byte written; it records the tag before the length check; on success it appends the padded tag, the int32 length and the value, growing the output by tag length + 4 + value length |
| BinaryTlv.WriteAll | IO/BinaryTlv.py:20-21 | writing the entries in order succeeds exactly when each is acceptable given the ones before; the tags and the bytes are then appended in order, and otherwise the error is that of the first refused entry |
| BinaryTlv.BuildTlvList | IO/BinaryTlv.py:11-23 | the built list is the header byte followed by every entry in insertion order, or the error of the first entry the writer refuses |
| BinaryTlv.OverlongTagRemembered | IO/BinaryTlv.py:68-75 | a tag refused as too long is refused as already written on a retry, and neither call writes a byte |
| BinaryTlv.DuplicateTagRefused | IO/BinaryTlv.py:64-69 | after a successful write, writing the same tag again is refused and leaves the writer unchanged |
| BinaryTlv.NewReader | IO/BinaryTlv.py:83-85 | opening a reader fails exactly on an empty buffer; otherwise the tag length is the first byte and reading continues after it |
| BinaryTlv.ReadEntry | IO/BinaryTlv.py:87-100 | `read` reports a clean end exactly when no tag byte can be read; otherwise it moves strictly forward in the same buffer and returns a tag with no edge whitespace |
| BinaryTlv.ReadEntryAt | IO/BinaryTlv.py:92-100 | where a tag, a length field and a value follow each other, `read` returns the stripped tag and the value and stops right after the value |
| BinaryTlv.ReadRemaining | IO/BinaryTlv.py:35-39 | the reading loop never drops a key already in the mapping, and at the end of the buffer returns the mapping unchanged |
| BinaryTlv.ReadRemainingOf | IO/BinaryTlv.py:35-39 | reading a sequence of written entries folds them, tags stripped, into the mapping in order |
| BinaryTlv.TlvListFromBytes | IO/BinaryTlv.py:26-41 | parsing an empty buffer fails since no header byte can be read; a buffer holding only a header, or declaring tag length 0, parses to the empty mapping |
| BinaryTlv.ReadAll | IO/BinaryTlv.py:102-109 | `read_all` fails on an empty buffer and returns the empty mapping for a header-only buffer or tag length 0, wherever the reader stands |
| BinaryTlv.ReadAllBuilt | IO/BinaryTlv.py:102-109 | on a built list, `read_all` returns every entry written, tags stripped and later entries winning, whatever the reader has already consumed |
| BinaryTlv.DictFromKeys | IO/BinaryTlv.py:39 | the mapping's keys are the earlier keys plus every tag read |
| BinaryTlv.DictFromLastWins | IO/BinaryTlv.py:39 | when a tag occurs more than once, the mapping holds the value of its last occurrence |
| BinaryTlv.ParseBuild | IO/BinaryTlv.py:11-41 | parsing a built list gives the mapping of the stripped tags, later entries overwriting earlier ones |
| BinaryTlv.BuildParseRoundTrip | IO/BinaryTlv.py:11-41 | for tag length 1..255, distinct non-empty ASCII tags with no edge whitespace and at most the tag length long, and values shorter than 2^31, parsing a built list gives back exactly its tags and values |

## Left out

- Floating point: `write_float`, `write_double`, `read_float` and `read_double` are not modelled (IEEE-754).
- The cipher wrappers (AES, DES, Triple-DES, RSA) and the hash and key-derivation wrappers are library calls. The cipher is a parameter of the padding model, with no key, IV or CBC chaining.
- Stream plumbing: `BytesIO`, `seek`, the `with` blocks and the output stream are modelled as byte sequences with a cursor. The padding methods return what they would have written. The final input-stream position is not modelled.
- Byte order and size: the `struct` formats use native order and size. The model pins them to little-endian with widths 1, 2, 4 and 8. This is an assumption about the platform.
- Out-of-range values: `struct.pack` raises on these. Every writer requires an in-range value instead of modelling the exception.
- Pkcs7.Unpad16: follows section 6.3 of RFC 5652, not pycryptodome's own code. It reports its own error kinds (`EmptyInput`, `NotBlockAligned`, `BadPadLength`, `BadPadBytes`) where the library raises a plain `ValueError`.
- Padding.EncryptPadPkcs7: requires a positive buffer size. `buffer_size <= 0` is not modelled.
- Padding.DecryptUnpadPkcs7: requires a positive buffer size and a decryption that preserves length. Its identity-cipher behaviour is stated by `Padding.DecryptIdentity` rather than in its own ensures.
- Padding.DecryptEncrypt: assumes an invertible, length-preserving cipher applied chunk by chunk. It does not model CBC state across calls.
- BinaryTlv.Write: requires an ASCII tag. A non-ASCII tag makes the code raise `UnicodeEncodeError` after recording the tag, and that path is not modelled.
- BinaryTlv.Write: requires values shorter than 2^31 bytes. The code's `pack('i')` would raise after the tag bytes were already written.
- BinaryTlv.BuildTlvList: takes values as bytes. The `None`-value refusal is modelled only by `Write`, whose value is an `Option`.
- BinaryTlv.TlvListFromBytes: the returned mapping is an unordered `map`, so Python's dict insertion order on the read side is not modelled.
- BinaryTlv.Strip: strips the ASCII whitespace that `str.strip` recognises (codes 9-13, 28-31 and 32). Tags decoded from ASCII hold no other characters.
- `TlvError` messages: only the error kind is modelled, not the message text.

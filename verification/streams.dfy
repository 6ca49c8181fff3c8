/** The part of an in-memory byte stream (Python's `io.BytesIO`) that the
    codecs use: a buffer and a read position. Writing is modelled by
    appending to a `Bytes` value. */
module Streams {
  import opened Base

  datatype Stream = Stream(data: Bytes, pos: nat)

  /** Number of bytes a read can still return. */
  function Remaining(s: Stream): nat {
    if s.pos >= |s.data| then 0 else |s.data| - s.pos
  }

  /** `read(n)`: at most `n` bytes from the position, all remaining bytes
      when `n` is negative, nothing at the end or when `n` is zero; the
      position moves past the bytes returned. */
  function Read(s: Stream, n: int): (r: (Bytes, Stream))
    ensures r.1.data == s.data
    ensures |r.0| == if n < 0 || n > Remaining(s) then Remaining(s) else n
    ensures |r.0| == 0 ==> r.1 == s
    ensures |r.0| > 0 ==> r.1.pos == s.pos + |r.0| <= |s.data| && r.0 == s.data[s.pos..r.1.pos]
  {
    if n == 0 || s.pos >= |s.data| then ([], s)
    else
      var end := if n < 0 || s.pos + n > |s.data| then |s.data| else s.pos + n;
      (s.data[s.pos..end], Stream(s.data, end))
  }

  /** Reading a segment that the unread part of the buffer starts with
      returns it and leaves the rest unread. */
  lemma ReadPrefix(data: Bytes, pos: nat, segment: Bytes, rest: Bytes)
    requires pos <= |data| && data[pos..] == segment + rest
    ensures Read(Stream(data, pos), |segment|) == (segment, Stream(data, pos + |segment|))
    ensures data[pos + |segment|..] == rest
  {
    assert data[pos..pos + |segment|] == data[pos..][..|segment|];
    assert data[pos + |segment|..] == data[pos..][|segment|..];
  }
}

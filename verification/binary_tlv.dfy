/** Tag-length-value lists: a header byte holding the tag length `n`, then
    per entry the tag padded with spaces to `n` ASCII bytes, the value length
    as a 4-byte signed integer, and the value bytes. */
module BinaryTlv {
  import opened Base
  import opened Streams
  import BinaryHelper

  /** Why the writer refused an entry. */
  datatype TlvError = EmptyTag | NoneValue | AlreadyWritten(tag: string) | InvalidTagLength

  /** Why the reader stopped: too few bytes for a header or a length, or a
      tag that is not ASCII. */
  datatype ReadError = Underflow | NotAscii

  /** Value lengths are written as signed 32-bit integers. */
  const ValueLengthBound := 0x8000_0000

  // ---------------------------------------------------------------------
  // Text

  predicate IsAscii(s: string) {
    forall i :: 0 <= i < |s| ==> s[i] as int < 128
  }

  function AsciiEncode(s: string): (r: Bytes)
    requires IsAscii(s)
    ensures |r| == |s| && forall i :: 0 <= i < |s| ==> r[i] == s[i] as int
  {
    seq(|s|, i requires 0 <= i < |s| => (s[i] as int) as uint8)
  }

  /** `bytes.decode('ascii')`: fails on any byte of 128 or more. */
  function AsciiDecode(b: Bytes): (r: Result<string, ReadError>)
    ensures r.Success? <==> forall i :: 0 <= i < |b| ==> b[i] < 128
    ensures r.Success? ==> |r.value| == |b| && forall i :: 0 <= i < |b| ==> r.value[i] as int == b[i]
  {
    if forall i | 0 <= i < |b| :: b[i] < 128 then
      Success(seq(|b|, i requires 0 <= i < |b| && b[i] < 128 => b[i] as char))
    else
      Failure(NotAscii)
  }

  lemma AsciiRoundTrip(s: string)
    requires IsAscii(s)
    ensures AsciiDecode(AsciiEncode(s)) == Success(s)
  {
    var d := AsciiDecode(AsciiEncode(s));
    assert d.value == s;
  }

  /** The ASCII characters Python's `str.isspace` accepts. */
  predicate IsSpace(c: char) {
    var k := c as int;
    k == 32 || 9 <= k <= 13 || 28 <= k <= 31
  }

  /** Neither begins nor ends with whitespace. */
  predicate NoEdgeSpace(s: string) {
    |s| == 0 || (!IsSpace(s[0]) && !IsSpace(s[|s| - 1]))
  }

  function Spaces(k: nat): (r: string)
    ensures |r| == k && forall i :: 0 <= i < k ==> r[i] == ' '
  {
    seq(k, _ => ' ')
  }

  /** `str.ljust(width)`: pads with spaces up to `width`, never truncates. */
  function LJust(s: string, width: int): (r: string)
    ensures |s| >= width ==> r == s
    ensures |s| < width ==> |r| == width
    ensures r == s + Spaces(|r| - |s|)
    ensures IsAscii(s) ==> IsAscii(r)
  {
    if |s| >= width then
      assert s + Spaces(0) == s;
      s
    else
      s + Spaces(width - |s|)
  }

  function StripLeading(s: string): (r: string)
    ensures |r| <= |s| && r == s[|s| - |r|..]
    ensures |r| > 0 ==> !IsSpace(r[0])
    ensures forall i :: 0 <= i < |s| - |r| ==> IsSpace(s[i])
  {
    if |s| > 0 && IsSpace(s[0]) then StripLeading(s[1..]) else s
  }

  function StripTrailing(s: string): (r: string)
    ensures |r| <= |s| && r == s[..|r|]
    ensures |r| > 0 ==> !IsSpace(r[|r| - 1])
    ensures forall i :: |r| <= i < |s| ==> IsSpace(s[i])
  {
    if |s| > 0 && IsSpace(s[|s| - 1]) then StripTrailing(s[..|s| - 1]) else s
  }

  /** `str.strip()`: drops whitespace at both ends; text without edge
      whitespace is returned as it is. */
  function Strip(s: string): (r: string)
    ensures NoEdgeSpace(r) && |r| <= |s|
    ensures NoEdgeSpace(s) ==> r == s
    ensures var i := |s| - |StripLeading(s)|;
            && i + |r| <= |s| && r == s[i..i + |r|]
            && (forall k :: 0 <= k < i ==> IsSpace(s[k]))
            && forall k :: i + |r| <= k < |s| ==> IsSpace(s[k])
  {
    StripTrailing(StripLeading(s))
  }

  lemma {:induction false} StripTrailingSpaces(s: string, k: nat)
    ensures StripTrailing(s + Spaces(k)) == StripTrailing(s)
  {
    if k > 0 {
      var t := s + Spaces(k);
      assert t[..|t| - 1] == s + Spaces(k - 1);
      StripTrailingSpaces(s, k - 1);
    } else {
      assert s + Spaces(0) == s;
    }
  }

  lemma {:induction false} StripLeadingSpaces(k: nat)
    ensures StripLeading(Spaces(k)) == []
  {
    if k > 0 {
      assert Spaces(k)[1..] == Spaces(k - 1);
      StripLeadingSpaces(k - 1);
    }
  }

  /** Trailing pad spaces never reach the stripped tag. */
  lemma {:induction false} StripIgnoresPadding(s: string, k: nat)
    ensures Strip(s + Spaces(k)) == Strip(s)
  {
    if |s| == 0 {
      assert s + Spaces(k) == Spaces(k);
      StripLeadingSpaces(k);
    } else if IsSpace(s[0]) {
      assert (s + Spaces(k))[1..] == s[1..] + Spaces(k);
      StripIgnoresPadding(s[1..], k);
    } else {
      StripTrailingSpaces(s, k);
    }
  }

  // ---------------------------------------------------------------------
  // Writing

  /** Writer session: the tag length, every tag accepted by the duplicate
      check so far, and the bytes written. */
  datatype Writer = Writer(tagLength: int, tags: seq<string>, out: Bytes)

  /** The bytes one entry takes on the wire. */
  function EntryBytes(tag: string, value: Bytes, n: int): (r: Bytes)
    requires IsAscii(tag) && |value| < ValueLengthBound
    ensures |tag| <= n ==> |r| == n + 4 + |value|
  {
    BinaryHelper.WriteInt32(AsciiEncode(LJust(tag, n)), |value|) + value
  }

  function EntriesBytes(entries: seq<(string, Bytes)>, n: int): (r: Bytes)
    requires Fits(entries)
  {
    if |entries| == 0 then []
    else EntryBytes(entries[0].0, entries[0].1, n) + EntriesBytes(entries[1..], n)
  }

  /** Every tag is ASCII and every value short enough for its length field. */
  predicate Fits(entries: seq<(string, Bytes)>) {
    forall i :: 0 <= i < |entries| ==> IsAscii(entries[i].0) && |entries[i].1| < ValueLengthBound
  }

  function Tags(entries: seq<(string, Bytes)>): (r: seq<string>)
    ensures |r| == |entries| && forall i :: 0 <= i < |entries| ==> r[i] == entries[i].0
  {
    seq(|entries|, i requires 0 <= i < |entries| => entries[i].0)
  }

  /** The objection the writer raises to `tag` after the tags in `seen`,
      for a value that is present. */
  function Rejection(seen: seq<string>, tag: string, n: int): Option<TlvError> {
    if tag == "" then Some(EmptyTag)
    else if tag in seen then Some(AlreadyWritten(tag))
    else if |tag| > n then Some(InvalidTagLength)
    else None
  }

  /** Every tag is non-empty, fits in `n`, was not seen before and is not
      repeated. */
  predicate ValidFrom(seen: seq<string>, entries: seq<(string, Bytes)>, n: int) {
    forall i :: 0 <= i < |entries| ==>
      && entries[i].0 != ""
      && |entries[i].0| <= n
      && entries[i].0 !in seen
      && forall j :: 0 <= j < i ==> entries[j].0 != entries[i].0
  }

  /** `BinaryTlvWriter(stream, tag_length)`: the header byte. */
  function NewWriter(tagLength: int): (w: Writer)
    requires 0 <= tagLength < 256
    ensures w.tagLength == tagLength && w.tags == []
    ensures w.out == [tagLength]
    ensures BinaryHelper.ReadByte(Stream(w.out, 0)) == Success((tagLength, Stream(w.out, 1)))
  {
    Writer(tagLength, [], BinaryHelper.WriteByte([], tagLength))
  }

  /** The state after a `write` call and the error it raised, if any. */
  datatype WriteStep = WriteStep(writer: Writer, error: Option<TlvError>)

  /** `BinaryTlvWriter.write(tag, value)`; `value` is `None` when the caller
      passed no value at all. */
  function Write(w: Writer, tag: string, value: Option<Bytes>): (r: WriteStep)
    requires IsAscii(tag)
    requires value.Some? ==> |value.value| < ValueLengthBound
    ensures r.writer.tagLength == w.tagLength
    ensures r.error.None? <==> tag != "" && value.Some? && tag !in w.tags && |tag| <= w.tagLength
    ensures tag == "" ==> r.error == Some(EmptyTag)
    ensures tag != "" && value.None? ==> r.error == Some(NoneValue)
    ensures tag != "" && value.Some? && tag in w.tags ==> r.error == Some(AlreadyWritten(tag))
    ensures tag != "" && value.Some? && tag !in w.tags && |tag| > w.tagLength ==> r.error == Some(InvalidTagLength)
    ensures value.Some? ==> r.error == Rejection(w.tags, tag, w.tagLength)
    ensures r.writer.tags == if tag != "" && value.Some? && tag !in w.tags then w.tags + [tag] else w.tags
    ensures r.error.Some? ==> r.writer.out == w.out
    ensures r.error.None? ==>
              && r.writer.out == w.out + EntryBytes(tag, value.value, w.tagLength)
              && |r.writer.out| == |w.out| + w.tagLength + 4 + |value.value|
  {
    if tag == "" then WriteStep(w, Some(EmptyTag))
    else if value.None? then WriteStep(w, Some(NoneValue))
    else if tag in w.tags then WriteStep(w, Some(AlreadyWritten(tag)))
    else
      var tags := w.tags + [tag];
      var padTag := LJust(tag, w.tagLength);
      if |padTag| != w.tagLength then WriteStep(w.(tags := tags), Some(InvalidTagLength))
      else
        var v := value.value;
        var withTag := w.out + AsciiEncode(padTag);
        var out := BinaryHelper.WriteInt32(withTag, |v|) + v;
        assert out == w.out + EntryBytes(tag, v, w.tagLength);
        WriteStep(Writer(w.tagLength, tags, out), None)
  }

  lemma ValidFromCons(seen: seq<string>, entries: seq<(string, Bytes)>, n: int)
    requires |entries| > 0
    ensures ValidFrom(seen, entries, n) <==>
              Rejection(seen, entries[0].0, n).None? && ValidFrom(seen + [entries[0].0], entries[1..], n)
  {
    var tail := entries[1..];
    if Rejection(seen, entries[0].0, n).None? && ValidFrom(seen + [entries[0].0], tail, n) {
      forall i | 0 <= i < |entries|
        ensures entries[i].0 != "" && |entries[i].0| <= n && entries[i].0 !in seen
        ensures forall j :: 0 <= j < i ==> entries[j].0 != entries[i].0
      {
        if i > 0 {
          assert entries[i] == tail[i - 1];
          forall j | 0 <= j < i ensures entries[j].0 != entries[i].0 {
            if j > 0 {
              assert entries[j] == tail[j - 1];
            }
          }
        }
      }
    }
    if ValidFrom(seen, entries, n) {
      forall i | 0 <= i < |tail|
        ensures tail[i].0 != "" && |tail[i].0| <= n && tail[i].0 !in seen + [entries[0].0]
        ensures forall j :: 0 <= j < i ==> tail[j].0 != tail[i].0
      {
        assert tail[i] == entries[i + 1];
        forall j | 0 <= j < i ensures tail[j].0 != tail[i].0 {
          assert tail[j] == entries[j + 1];
        }
      }
    }
  }

  /** Writes the entries in order, stopping at the first one refused. */
  function WriteAll(w: Writer, entries: seq<(string, Bytes)>): (r: Result<Writer, TlvError>)
    requires Fits(entries)
    ensures r.Success? <==> ValidFrom(w.tags, entries, w.tagLength)
    ensures r.Success? ==>
              && r.value.tagLength == w.tagLength
              && r.value.tags == w.tags + Tags(entries)
              && r.value.out == w.out + EntriesBytes(entries, w.tagLength)
    ensures r.Failure? ==>
              exists i :: 0 <= i < |entries| && ValidFrom(w.tags, entries[..i], w.tagLength)
                          && Rejection(w.tags + Tags(entries[..i]), entries[i].0, w.tagLength) == Some(r.error)
    decreases |entries|
  {
    if |entries| == 0 then
      assert w.tags + Tags(entries) == w.tags;
      Success(w)
    else
      ValidFromCons(w.tags, entries, w.tagLength);
      var step := Write(w, entries[0].0, Some(entries[0].1));
      if step.error.Some? then
        assert entries[..0] == [] && Tags(entries[..0]) == [] && w.tags + [] == w.tags;
        Failure(step.error.value)
      else
        var r := WriteAll(step.writer, entries[1..]);
        WriteAllAfterFirst(w, entries, step.writer, r);
        r
  }

  /** The contract of `WriteAll` for `entries`, from that of the call on the
      rest after the first entry was accepted. */
  lemma WriteAllAfterFirst(w: Writer, entries: seq<(string, Bytes)>, next: Writer, r: Result<Writer, TlvError>)
    requires |entries| > 0 && Fits(entries)
    requires Rejection(w.tags, entries[0].0, w.tagLength).None?
    requires next.tagLength == w.tagLength && next.tags == w.tags + [entries[0].0]
    requires next.out == w.out + EntryBytes(entries[0].0, entries[0].1, w.tagLength)
    requires r.Success? <==> ValidFrom(next.tags, entries[1..], w.tagLength)
    requires r.Success? ==>
               && r.value.tagLength == w.tagLength
               && r.value.tags == next.tags + Tags(entries[1..])
               && r.value.out == next.out + EntriesBytes(entries[1..], w.tagLength)
    requires r.Failure? ==>
               exists i :: 0 <= i < |entries[1..]| && ValidFrom(next.tags, entries[1..][..i], w.tagLength)
                           && Rejection(next.tags + Tags(entries[1..][..i]), entries[1..][i].0, w.tagLength) == Some(r.error)
    ensures r.Success? <==> ValidFrom(w.tags, entries, w.tagLength)
    ensures r.Success? ==>
              && r.value.tagLength == w.tagLength
              && r.value.tags == w.tags + Tags(entries)
              && r.value.out == w.out + EntriesBytes(entries, w.tagLength)
    ensures r.Failure? ==>
              exists i :: 0 <= i < |entries| && ValidFrom(w.tags, entries[..i], w.tagLength)
                          && Rejection(w.tags + Tags(entries[..i]), entries[i].0, w.tagLength) == Some(r.error)
  {
    ValidFromCons(w.tags, entries, w.tagLength);
    if r.Success? {
      TagsCons(w.tags, entries);
      EntriesBytesCons(w.out, entries, w.tagLength);
    } else {
      FailureShift(w.tags, entries, w.tagLength, r.error);
    }
  }

  lemma EntriesBytesCons(out: Bytes, entries: seq<(string, Bytes)>, n: int)
    requires |entries| > 0 && Fits(entries)
    ensures out + EntryBytes(entries[0].0, entries[0].1, n) + EntriesBytes(entries[1..], n)
            == out + EntriesBytes(entries, n)
  {
    FitsTail(entries);
    var head := EntryBytes(entries[0].0, entries[0].1, n);
    var tail := EntriesBytes(entries[1..], n);
    assert EntriesBytes(entries, n) == head + tail;
    assert out + head + tail == out + (head + tail);
  }

  lemma FitsTail(entries: seq<(string, Bytes)>)
    requires |entries| > 0 && Fits(entries)
    ensures IsAscii(entries[0].0) && |entries[0].1| < ValueLengthBound && Fits(entries[1..])
  {
    forall i | 0 <= i < |entries[1..]|
      ensures IsAscii(entries[1..][i].0) && |entries[1..][i].1| < ValueLengthBound
    {
      assert entries[1..][i] == entries[i + 1];
    }
  }

  lemma TagsCons(seen: seq<string>, entries: seq<(string, Bytes)>)
    requires |entries| > 0
    ensures seen + [entries[0].0] + Tags(entries[1..]) == seen + Tags(entries)
  {
    assert Tags(entries) == [entries[0].0] + Tags(entries[1..]);
  }

  lemma FailureShift(seen: seq<string>, entries: seq<(string, Bytes)>, n: int, e: TlvError)
    requires |entries| > 0 && Rejection(seen, entries[0].0, n).None?
    requires exists i :: 0 <= i < |entries| - 1 && ValidFrom(seen + [entries[0].0], entries[1..][..i], n)
                         && Rejection(seen + [entries[0].0] + Tags(entries[1..][..i]), entries[1..][i].0, n) == Some(e)
    ensures exists i :: 0 <= i < |entries| && ValidFrom(seen, entries[..i], n)
                        && Rejection(seen + Tags(entries[..i]), entries[i].0, n) == Some(e)
  {
    var i :| 0 <= i < |entries| - 1 && ValidFrom(seen + [entries[0].0], entries[1..][..i], n)
             && Rejection(seen + [entries[0].0] + Tags(entries[1..][..i]), entries[1..][i].0, n) == Some(e);
    var prefix := entries[..i + 1];
    assert prefix[1..] == entries[1..][..i];
    assert ValidFrom(seen, prefix, n) by {
      ValidFromCons(seen, prefix, n);
    }
    assert Rejection(seen + Tags(prefix), entries[i + 1].0, n) == Some(e) by {
      TagsCons(seen, prefix);
      assert entries[i + 1] == entries[1..][i];
    }
  }

  /** `build_tlv_list(values, tag_length)`, the mapping given as its
      entries in insertion order: the header byte, then every entry in that
      order, or the error of the first entry the writer refuses. */
  function BuildTlvList(entries: seq<(string, Bytes)>, tagLength: int): (r: Result<Bytes, TlvError>)
    requires 0 <= tagLength < 256
    requires Fits(entries)
    ensures r.Success? <==> ValidFrom([], entries, tagLength)
    ensures r.Success? ==> r.value == [tagLength] + EntriesBytes(entries, tagLength)
    ensures r.Failure? ==>
              exists i :: 0 <= i < |entries| && ValidFrom([], entries[..i], tagLength)
                          && Rejection(Tags(entries[..i]), entries[i].0, tagLength) == Some(r.error)
  {
    var w := NewWriter(tagLength);
    var written := WriteAll(w, entries);
    if written.Failure? then
      assert forall t: seq<string> :: [] + t == t;
      Failure(written.error)
    else
      Success(written.value.out)
  }

  // ---------------------------------------------------------------------
  // Reading

  /** Reader session: the input stream and the tag length read from its
      first byte. */
  datatype Reader = Reader(stream: Stream, tagLength: nat)

  datatype TagValue = TagValue(tag: string, value: Bytes)

  /** `BinaryTlvReader(stream)`: reads the header byte. */
  function NewReader(input: Stream): (r: Result<Reader, ReadError>)
    ensures r.Success? <==> Remaining(input) >= 1
    ensures r.Success? ==> r.value.tagLength == input.data[input.pos]
                           && r.value.stream == Stream(input.data, input.pos + 1)
  {
    match BinaryHelper.ReadByte(input)
    case Failure(_) => Failure(Underflow)
    case Success((n, next)) => Success(Reader(next, n))
  }

  /** `BinaryTlvReader.read()`: `None` when no tag byte can be read;
      otherwise the stripped tag and the value, which may come out shorter
      than its recorded length when the buffer is truncated. */
  function ReadEntry(r: Reader): (res: Result<Option<(TagValue, Reader)>, ReadError>)
    ensures res == Success(None) <==> Remaining(r.stream) == 0 || r.tagLength == 0
    ensures res.Success? && res.value.Some? ==>
              var (tv, next) := res.value.value;
              && next.tagLength == r.tagLength
              && next.stream.data == r.stream.data
              && Remaining(next.stream) < Remaining(r.stream)
              && NoEdgeSpace(tv.tag)
  {
    var (tagData, afterTag) := Read(r.stream, r.tagLength);
    if |tagData| == 0 then Success(None)
    else
      var text :- AsciiDecode(tagData);
      var read :- ReadValue(afterTag);
      Success(Some((TagValue(Strip(text), read.0), Reader(read.1, r.tagLength))))
  }

  /** The length field and the value after a tag; the value comes out
      shorter than recorded when the buffer ends first. */
  function ReadValue(s: Stream): (r: Result<(Bytes, Stream), ReadError>)
    ensures r.Success? ==> r.value.1.data == s.data && s.pos + 4 <= r.value.1.pos
  {
    match BinaryHelper.ReadInt32(s)
    case Failure(_) => Failure(Underflow)
    case Success((valueLength, afterLength)) => Success(Read(afterLength, valueLength))
  }

  /** The `tlv_list_from_bytes` loop: every entry until a clean end, later
      tags overwriting earlier ones. */
  function ReadRemaining(r: Reader, acc: map<string, Bytes>): (res: Result<map<string, Bytes>, ReadError>)
    ensures res.Success? ==> acc.Keys <= res.value.Keys
    ensures Remaining(r.stream) == 0 ==> res == Success(acc)
    decreases Remaining(r.stream)
  {
    match ReadEntry(r)
    case Failure(e) => Failure(e)
    case Success(None) => Success(acc)
    case Success(Some((tv, next))) => ReadRemaining(next, acc[tv.tag := tv.value])
  }

  /** `tlv_list_from_bytes(data)`. */
  function TlvListFromBytes(data: Bytes): (r: Result<map<string, Bytes>, ReadError>)
    ensures data == [] ==> r == Failure(Underflow)
    ensures |data| == 1 ==> r == Success(map[])
    ensures |data| > 0 && data[0] == 0 ==> r == Success(map[])
  {
    var reader :- NewReader(Stream(data, 0));
    ReadRemaining(reader, map[])
  }

  /** `BinaryTlvReader.read_all()`: rewinds to the start of the buffer and
      parses all of it, header included. */
  function ReadAll(r: Reader): (res: Result<map<string, Bytes>, ReadError>)
    ensures r.stream.data == [] ==> res == Failure(Underflow)
    ensures |r.stream.data| == 1 ==> res == Success(map[])
    ensures |r.stream.data| > 0 && r.stream.data[0] == 0 ==> res == Success(map[])
  {
    TlvListFromBytes(r.stream.data)
  }

  // ---------------------------------------------------------------------
  // Properties

  /** The mapping Python's dict ends up holding after assigning the pairs in
      order. */
  function DictFrom(acc: map<string, Bytes>, pairs: seq<(string, Bytes)>): (r: map<string, Bytes>)
    ensures acc.Keys <= r.Keys
    decreases |pairs|
  {
    if |pairs| == 0 then acc else DictFrom(acc[pairs[0].0 := pairs[0].1], pairs[1..])
  }

  lemma {:induction false} DictFromKeys(acc: map<string, Bytes>, pairs: seq<(string, Bytes)>)
    ensures DictFrom(acc, pairs).Keys == acc.Keys + (set i | 0 <= i < |pairs| :: pairs[i].0)
    decreases |pairs|
  {
    if |pairs| > 0 {
      DictFromKeys(acc[pairs[0].0 := pairs[0].1], pairs[1..]);
      assert (set i | 0 <= i < |pairs| :: pairs[i].0)
          == {pairs[0].0} + (set i | 0 <= i < |pairs[1..]| :: pairs[1..][i].0);
    }
  }

  /** A key no pair mentions keeps its value. */
  lemma {:induction false} DictFromUntouched(acc: map<string, Bytes>, pairs: seq<(string, Bytes)>, k: string)
    requires k in acc && forall j :: 0 <= j < |pairs| ==> pairs[j].0 != k
    ensures k in DictFrom(acc, pairs) && DictFrom(acc, pairs)[k] == acc[k]
    decreases |pairs|
  {
    if |pairs| > 0 {
      DictFromUntouched(acc[pairs[0].0 := pairs[0].1], pairs[1..], k);
    }
  }

  /** The value of a tag is the one paired with its last occurrence. */
  lemma {:induction false} DictFromLastWins(acc: map<string, Bytes>, pairs: seq<(string, Bytes)>, i: nat)
    requires i < |pairs| && forall j :: i < j < |pairs| ==> pairs[j].0 != pairs[i].0
    ensures pairs[i].0 in DictFrom(acc, pairs) && DictFrom(acc, pairs)[pairs[i].0] == pairs[i].1
    decreases |pairs|
  {
    var acc' := acc[pairs[0].0 := pairs[0].1];
    if i == 0 {
      DictFromUntouched(acc', pairs[1..], pairs[0].0);
    } else {
      DictFromLastWins(acc', pairs[1..], i - 1);
    }
  }

  function StripTags(pairs: seq<(string, Bytes)>): (r: seq<(string, Bytes)>)
    ensures |r| == |pairs| && forall i :: 0 <= i < |pairs| ==> r[i] == (Strip(pairs[i].0), pairs[i].1)
  {
    seq(|pairs|, i requires 0 <= i < |pairs| => (Strip(pairs[i].0), pairs[i].1))
  }

  lemma EntryBytesParts(tag: string, value: Bytes, n: int)
    requires IsAscii(tag) && |value| < ValueLengthBound
    ensures EntryBytes(tag, value, n) == AsciiEncode(LJust(tag, n)) + BinaryHelper.EncodeSigned(|value|, 4) + value
  {
  }

  /** `ReadEntry` put together from the outcomes of its four reads. */
  lemma ReadEntrySteps(r: Reader, tagBytes: Bytes, s1: Stream, text: string, length: int, s2: Stream,
                       value: Bytes, s3: Stream)
    requires Read(r.stream, r.tagLength) == (tagBytes, s1) && |tagBytes| > 0
    requires AsciiDecode(tagBytes) == Success(text)
    requires BinaryHelper.ReadInt32(s1) == Success((length, s2))
    requires Read(s2, length) == (value, s3)
    ensures ReadEntry(r) == Success(Some((TagValue(Strip(text), value), Reader(s3, r.tagLength))))
  {
  }

  /** Reading what the writer produced yields the entries in order, tags
      stripped, folded into the mapping. */
  lemma {:induction false} ReadRemainingOf(data: Bytes, pos: nat, entries: seq<(string, Bytes)>, n: nat,
                                           acc: map<string, Bytes>)
    requires n >= 1 && Fits(entries)
    requires forall i :: 0 <= i < |entries| ==> 1 <= |entries[i].0| <= n
    requires pos <= |data| && data[pos..] == EntriesBytes(entries, n)
    ensures ReadRemaining(Reader(Stream(data, pos), n), acc) == Success(DictFrom(acc, StripTags(entries)))
    decreases |entries|
  {
    if |entries| == 0 {
      assert Remaining(Stream(data, pos)) == 0;
    } else {
      var end := ReadRemainingCons(data, pos, entries, n, acc);
      ReadRemainingOf(data, end, entries[1..], n, acc[Strip(entries[0].0) := entries[0].1]);
    }
  }

  /** The first entry at `pos` is consumed by the reading loop, which goes
      on at `end` with the rest. */
  lemma ReadRemainingCons(data: Bytes, pos: nat, entries: seq<(string, Bytes)>, n: nat, acc: map<string, Bytes>)
    returns (end: nat)
    requires n >= 1 && Fits(entries) && |entries| > 0
    requires forall i :: 0 <= i < |entries| ==> 1 <= |entries[i].0| <= n
    requires pos <= |data| && data[pos..] == EntriesBytes(entries, n)
    ensures Fits(entries[1..]) && forall i :: 0 <= i < |entries[1..]| ==> 1 <= |entries[1..][i].0| <= n
    ensures end <= |data| && data[end..] == EntriesBytes(entries[1..], n)
    ensures var acc' := acc[Strip(entries[0].0) := entries[0].1];
            && ReadRemaining(Reader(Stream(data, pos), n), acc) == ReadRemaining(Reader(Stream(data, end), n), acc')
            && DictFrom(acc, StripTags(entries)) == DictFrom(acc', StripTags(entries[1..]))
  {
    var tag := entries[0].0;
    var value := entries[0].1;
    var rest := EntriesBytes(entries[1..], n);
    TailEntries(entries, n);
    var tagBytes, text, lengthBytes := EntryParts(tag, value, n);
    end := ReadEntryAt(data, pos, n, tagBytes, text, lengthBytes, value, rest);
    ReadRemainingStep(Reader(Stream(data, pos), n), acc, TagValue(Strip(tag), value), Reader(Stream(data, end), n));
    DictFromStripCons(acc, entries);
  }

  /** The first of a list of entries meets the writer's conditions, and so
      does the rest. */
  lemma TailEntries(entries: seq<(string, Bytes)>, n: int)
    requires Fits(entries) && |entries| > 0
    requires forall i :: 0 <= i < |entries| ==> 1 <= |entries[i].0| <= n
    ensures IsAscii(entries[0].0) && |entries[0].1| < ValueLengthBound && 1 <= |entries[0].0| <= n
    ensures Fits(entries[1..]) && forall i :: 0 <= i < |entries[1..]| ==> 1 <= |entries[1..][i].0| <= n
    ensures EntriesBytes(entries, n) == EntryBytes(entries[0].0, entries[0].1, n) + EntriesBytes(entries[1..], n)
  {
    FitsTail(entries);
    forall i | 0 <= i < |entries[1..]|
      ensures 1 <= |entries[1..][i].0| <= n
    {
      assert entries[1..][i] == entries[i + 1];
    }
  }

  /** An entry's bytes are the padded tag, the length field and the value,
      and each part decodes to what was written. */
  lemma EntryParts(tag: string, value: Bytes, n: int) returns (tagBytes: Bytes, text: string, lengthBytes: Bytes)
    requires IsAscii(tag) && |value| < ValueLengthBound && 1 <= |tag| <= n
    ensures EntryBytes(tag, value, n) == tagBytes + lengthBytes + value
    ensures |tagBytes| == n && AsciiDecode(tagBytes) == Success(text) && Strip(text) == Strip(tag)
    ensures |lengthBytes| == 4 && BinaryHelper.DecodeSigned(lengthBytes) == |value|
  {
    text := LJust(tag, n);
    tagBytes := AsciiEncode(text);
    lengthBytes := BinaryHelper.EncodeSigned(|value|, 4);
    EntryBytesParts(tag, value, n);
    AsciiRoundTrip(text);
    StripIgnoresPadding(tag, n - |tag|);
    BinaryHelper.DecodeEncodeSigned(|value|, 4);
  }

  /** `ReadEntry` at a position where a padded tag, a length field and the
      value follow one another. */
  lemma ReadEntryAt(data: Bytes, pos: nat, n: nat, tagBytes: Bytes, text: string, lengthBytes: Bytes,
                    value: Bytes, rest: Bytes) returns (end: nat)
    requires pos <= |data| && data[pos..] == tagBytes + lengthBytes + value + rest
    requires |tagBytes| == n >= 1 && AsciiDecode(tagBytes) == Success(text)
    requires |lengthBytes| == 4 && BinaryHelper.DecodeSigned(lengthBytes) == |value|
    ensures end == pos + n + 4 + |value| <= |data| && data[end..] == rest
    ensures ReadEntry(Reader(Stream(data, pos), n))
            == Success(Some((TagValue(Strip(text), value), Reader(Stream(data, end), n))))
  {
    end := pos + n + 4 + |value|;
    ReadPartsAt(data, pos, tagBytes, lengthBytes, value, rest);
    ReadEntrySteps(Reader(Stream(data, pos), n), tagBytes, Stream(data, pos + n), text, |value|,
                   Stream(data, pos + n + 4), value, Stream(data, end));
  }

  /** The three reads of one entry, each taking its part of the buffer. */
  lemma ReadPartsAt(data: Bytes, pos: nat, tagBytes: Bytes, lengthBytes: Bytes, value: Bytes, rest: Bytes)
    requires pos <= |data| && data[pos..] == tagBytes + lengthBytes + value + rest
    requires |lengthBytes| == 4 && BinaryHelper.DecodeSigned(lengthBytes) == |value|
    ensures var p1, p2 := pos + |tagBytes|, pos + |tagBytes| + 4;
            && Read(Stream(data, pos), |tagBytes|) == (tagBytes, Stream(data, p1))
            && BinaryHelper.ReadInt32(Stream(data, p1)) == Success((|value|, Stream(data, p2)))
            && Read(Stream(data, p2), |value|) == (value, Stream(data, p2 + |value|))
            && data[p2 + |value|..] == rest
  {
    var p1, p2 := pos + |tagBytes|, pos + |tagBytes| + 4;
    assert data[pos..] == tagBytes + (lengthBytes + (value + rest));
    ReadPrefix(data, pos, tagBytes, lengthBytes + (value + rest));
    ReadPrefix(data, p1, lengthBytes, value + rest);
    ReadPrefix(data, p2, value, rest);
  }

  lemma DictFromStripCons(acc: map<string, Bytes>, entries: seq<(string, Bytes)>)
    requires |entries| > 0
    ensures DictFrom(acc, StripTags(entries))
            == DictFrom(acc[Strip(entries[0].0) := entries[0].1], StripTags(entries[1..]))
  {
    assert StripTags(entries)[1..] == StripTags(entries[1..]);
  }

  lemma ReadRemainingStep(r: Reader, acc: map<string, Bytes>, tv: TagValue, next: Reader)
    requires ReadEntry(r) == Success(Some((tv, next)))
    ensures ReadRemaining(r, acc) == ReadRemaining(next, acc[tv.tag := tv.value])
  {
  }

  /** Parsing a built list gives the mapping of the stripped tags, later
      entries winning when two tags strip to the same text. */
  lemma ParseBuild(entries: seq<(string, Bytes)>, n: int)
    requires 1 <= n < 256 && Fits(entries) && ValidFrom([], entries, n)
    ensures BuildTlvList(entries, n).Success?
    ensures TlvListFromBytes(BuildTlvList(entries, n).value) == Success(DictFrom(map[], StripTags(entries)))
  {
    var data := BuildTlvList(entries, n).value;
    assert data[1..] == EntriesBytes(entries, n);
    ReadRemainingOf(data, 1, entries, n, map[]);
  }

  /** The tags are non-empty ASCII, at most `n` long, free of edge
      whitespace and distinct; the values fit their length field. */
  predicate WellFormedEntries(entries: seq<(string, Bytes)>, n: int) {
    && 1 <= n < 256
    && Fits(entries)
    && ValidFrom([], entries, n)
    && forall i :: 0 <= i < |entries| ==> NoEdgeSpace(entries[i].0)
  }

  /** `tlv_list_from_bytes(build_tlv_list(M, n)) == M`. */
  lemma BuildParseRoundTrip(entries: seq<(string, Bytes)>, n: int)
    requires WellFormedEntries(entries, n)
    ensures BuildTlvList(entries, n).Success?
    ensures var parsed := TlvListFromBytes(BuildTlvList(entries, n).value);
            && parsed.Success?
            && parsed.value.Keys == (set i | 0 <= i < |entries| :: entries[i].0)
            && forall i :: 0 <= i < |entries| ==> parsed.value[entries[i].0] == entries[i].1
  {
    ParseBuild(entries, n);
    assert StripTags(entries) == entries;
    DictFromKeys(map[], entries);
    forall i | 0 <= i < |entries|
      ensures DictFrom(map[], entries)[entries[i].0] == entries[i].1
    {
      DictFromLastWins(map[], entries, i);
    }
  }

  /** A tag refused for its length has already been recorded, so writing it
      again is refused as a duplicate; neither call writes a byte. */
  lemma OverlongTagRemembered(w: Writer, tag: string, value: Bytes)
    requires IsAscii(tag) && |value| < ValueLengthBound
    requires tag != "" && tag !in w.tags && |tag| > w.tagLength
    ensures var first := Write(w, tag, Some(value));
            var second := Write(first.writer, tag, Some(value));
            && first.error == Some(InvalidTagLength)
            && second.error == Some(AlreadyWritten(tag))
            && second.writer.out == w.out
  {
  }

  /** A second write of a tag is refused and keeps the first entry's bytes. */
  lemma DuplicateTagRefused(w: Writer, tag: string, first: Bytes, second: Option<Bytes>)
    requires IsAscii(tag) && |first| < ValueLengthBound
    requires second.Some? ==> |second.value| < ValueLengthBound
    requires Write(w, tag, Some(first)).error.None?
    ensures var once := Write(w, tag, Some(first)).writer;
            var twice := Write(once, tag, second);
            && twice.error == Some(if second.Some? then AlreadyWritten(tag) else NoneValue)
            && twice.writer == once
  {
  }

  /** Reading everything restarts from the first byte: on a built list,
      whatever the reader has already consumed, `read_all` returns every
      entry written. */
  lemma ReadAllBuilt(entries: seq<(string, Bytes)>, n: int, r: Reader)
    requires 1 <= n < 256 && Fits(entries) && ValidFrom([], entries, n)
    requires BuildTlvList(entries, n).Success? && r.stream.data == BuildTlvList(entries, n).value
    ensures ReadAll(r) == Success(DictFrom(map[], StripTags(entries)))
  {
    ParseBuild(entries, n);
  }
}

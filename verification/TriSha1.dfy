/** The three-range file hash (tri_sha1.rs). The SHA-1 hasher is the byte string it has been fed. */
module TriSha1 {
  import opened ByteOrder

  /** An inclusive range of file positions. */
  datatype Range = Range(first: nat, last: nat)

  const THRESHOLD := 31457280
  const PART := 10485760

  predicate In(p: nat, r: Range) {
    r.first <= p <= r.last
  }

  predicate InAny(p: nat, ranges: seq<Range>) {
    exists i :: 0 <= i < |ranges| && In(p, ranges[i])
  }

  /** In file order and disjoint. */
  predicate Sorted(ranges: seq<Range>) {
    (forall i :: 0 <= i < |ranges| ==> ranges[i].first <= ranges[i].last)
    && forall i, j :: 0 <= i < j < |ranges| ==> ranges[i].last < ranges[j].first
  }

  function RangesOf(fileSize: nat): (r: seq<Range>)
    ensures Sorted(r)
  {
    if fileSize < THRESHOLD then [Range(0, fileSize)]
    else
      [Range(0, PART - 1), Range(fileSize / 2 - PART / 2, fileSize / 2 + PART / 2 - 1), Range(fileSize - PART, fileSize - 1)]
  }

  /** The bytes of data that lie in a range, once each and in order, when data starts at this file position. */
  function Select(ranges: seq<Range>, data: seq<byte>, start: nat): seq<byte>
    decreases |data|
  {
    if data == [] then []
    else (if InAny(start, ranges) then [data[0]] else []) + Select(ranges, data[1..], start + 1)
  }

  lemma {:induction false} SelectAppend(ranges: seq<Range>, a: seq<byte>, b: seq<byte>, start: nat)
    ensures Select(ranges, a + b, start) == Select(ranges, a, start) + Select(ranges, b, start + |a|)
    decreases |a|
  {
    hide InAny;
    if a == [] {
      assert a + b == b;
    } else {
      assert (a + b)[1..] == a[1..] + b;
      SelectAppend(ranges, a[1..], b, start + 1);
    }
  }

  /** Selection depends only on which positions of the data are in a range. */
  lemma {:induction false} SelectSame(rs: seq<Range>, qs: seq<Range>, data: seq<byte>, start: nat)
    requires forall p :: start <= p < start + |data| ==> (InAny(p, rs) <==> InAny(p, qs))
    ensures Select(rs, data, start) == Select(qs, data, start)
    decreases |data|
  {
    hide InAny;
    if data != [] {
      SelectSame(rs, qs, data[1..], start + 1);
    }
  }

  lemma {:induction false} SelectEvery(ranges: seq<Range>, data: seq<byte>, start: nat)
    requires forall p :: start <= p < start + |data| ==> InAny(p, ranges)
    ensures Select(ranges, data, start) == data
    decreases |data|
  {
    hide InAny;
    if data != [] {
      SelectEvery(ranges, data[1..], start + 1);
    }
  }

  lemma {:induction false} SelectNone(ranges: seq<Range>, data: seq<byte>, start: nat)
    requires forall p :: start <= p < start + |data| ==> !InAny(p, ranges)
    ensures Select(ranges, data, start) == []
    decreases |data|
  {
    hide InAny;
    if data != [] {
      SelectNone(ranges, data[1..], start + 1);
    }
  }

  function Max(a: int, b: int): int {
    if a > b then a else b
  }

  function Min(a: int, b: int): int {
    if a < b then a else b
  }

  /** The part of data that update takes for one range. */
  function Slice(r: Range, data: seq<byte>, start: nat): seq<byte> {
    var from, to := Max(start, r.first), Min(start + |data|, r.last + 1);
    if from < to then data[from - start..to - start] else []
  }

  lemma InAnyPrefix(p: nat, ranges: seq<Range>, k: nat)
    requires Sorted(ranges) && k < |ranges|
    ensures InAny(p, ranges[..k + 1]) <==> InAny(p, ranges[..k]) || In(p, ranges[k])
    ensures InAny(p, ranges[..k]) ==> p < ranges[k].first
  {
    var longer, shorter := ranges[..k + 1], ranges[..k];
    assert longer == shorter + [ranges[k]];
    if InAny(p, longer) {
      var i :| 0 <= i < |longer| && In(p, longer[i]);
      assert i < k ==> shorter[i] == longer[i];
    }
    if InAny(p, shorter) {
      var i :| 0 <= i < |shorter| && In(p, shorter[i]);
      assert longer[i] == shorter[i] == ranges[i];
    }
    assert longer[k] == ranges[k];
  }

  /** Adding the next range of a sorted list adds its slice behind what the earlier ranges select. */
  lemma SelectNext(ranges: seq<Range>, k: nat, data: seq<byte>, start: nat)
    requires Sorted(ranges) && k < |ranges|
    ensures Select(ranges[..k + 1], data, start) == Select(ranges[..k], data, start) + Slice(ranges[k], data, start)
  {
    hide InAny, Select;
    var r, end := ranges[k], start + |data|;
    assert r.first <= r.last by {
      assert Sorted(ranges);
    }
    forall p: nat
      ensures InAny(p, ranges[..k + 1]) <==> InAny(p, ranges[..k]) || In(p, r)
      ensures InAny(p, ranges[..k]) ==> p < r.first
    {
      InAnyPrefix(p, ranges, k);
    }
    SelectPieces(ranges[..k + 1], ranges[..k], r, data, start);
  }

  /** The bytes in front of a range, in it, and behind it. */
  lemma Pieces(r: Range, data: seq<byte>, start: nat) returns (a: seq<byte>, b: seq<byte>, c: seq<byte>)
    requires r.first <= r.last
    ensures data == a + (b + c) && b == Slice(r, data, start)
    ensures a != [] ==> start + |a| <= r.first
    ensures b + c != [] ==> r.first <= start + |a|
    ensures b != [] ==> start + |a + b| <= r.last + 1
    ensures c != [] ==> r.last < start + |a + b|
  {
    var i := if r.first <= start then 0 else if r.first - start <= |data| then r.first - start else |data|;
    var j := if r.last + 1 - start <= i then i else if r.last + 1 - start <= |data| then r.last + 1 - start else |data|;
    a, b, c := data[..i], data[i..j], data[j..];
    assert b + c == data[i..];
    assert a + data[i..] == data;
    assert i < j ==> start + i == Max(start, r.first) && start + j == Min(start + |data|, r.last + 1);
  }

  lemma SelectPieces(more: seq<Range>, fewer: seq<Range>, r: Range, data: seq<byte>, start: nat)
    requires r.first <= r.last
    requires forall p: nat :: InAny(p, more) <==> InAny(p, fewer) || In(p, r)
    requires forall p: nat :: InAny(p, fewer) ==> p < r.first
    ensures Select(more, data, start) == Select(fewer, data, start) + Slice(r, data, start)
  {
    hide InAny, Select, Slice;
    var a, b, c := Pieces(r, data, start);
    var from := start + |a|;
    var to := from + |b|;
    SelectAppend(more, a, b + c, start);
    SelectAppend(more, b, c, from);
    SelectAppend(fewer, a, b + c, start);
    SelectSame(more, fewer, a, start);
    SelectEvery(more, b, from);
    SelectNone(more, c, to);
    SelectNone(fewer, b + c, from);
  }

  lemma SelectNoRange(data: seq<byte>, start: nat)
    ensures Select([], data, start) == []
  {
    SelectNone([], data, start);
  }

  class TriSha1 {
    var fed: seq<byte>
    var offset: nat
    const fileSize: nat
    const ranges: seq<Range>

    constructor (fileSize: nat)
      ensures fed == [] && offset == 0 && this.fileSize == fileSize && ranges == RangesOf(fileSize)
    {
      fed := [];
      offset := 0;
      this.fileSize := fileSize;
      ranges := RangesOf(fileSize);
    }

    /** The body of the loop over the ranges. */
    method FeedRange(r: Range, data: seq<byte>, start: nat)
      modifies this`fed
      ensures fed == old(fed) + Slice(r, data, start)
    {
      var from := Max(start, r.first);
      var to := Min(start + |data|, r.last + 1);
      if from < to {
        fed := fed + data[from - start..to - start];
      }
    }

    method Update(data: seq<byte>)
      requires Sorted(ranges)
      modifies this
      ensures fed == old(fed) + Select(ranges, data, old(offset))
      ensures offset == old(offset) + |data|
    {
      hide Select, Slice, InAny, Sorted;
      var start := offset;
      var end := start + |data|;
      SelectNoRange(data, start);
      for i := 0 to |ranges|
        invariant fed == old(fed) + Select(ranges[..i], data, start)
      {
        SelectNext(ranges, i, data, start);
        FeedRange(ranges[i], data, start);
      }
      assert ranges[..|ranges|] == ranges;
      offset := end;
    }

    /** The message that is hashed in the end; the size is written in the byte order of the machine. */
    method Finalize(littleEndian: bool) returns (message: seq<byte>)
      ensures message == fed + SizeBytes(fileSize, littleEndian)
    {
      message := fed + SizeBytes(fileSize, littleEndian);
    }
  }

  function SizeBytes(n: nat, littleEndian: bool): seq<byte> {
    if littleEndian then LittleEndian(n, 8) else BigEndian(n, 8)
  }

  /** Whatever the chunks, the hasher gets the bytes in the ranges, then the size; of the announced file, its sample. */
  method HashChunks(fileSize: nat, chunks: seq<seq<byte>>, littleEndian: bool) returns (message: seq<byte>)
    ensures message == Select(RangesOf(fileSize), Concat(chunks), 0) + SizeBytes(fileSize, littleEndian)
    ensures |Concat(chunks)| == fileSize ==> message == Sample(Concat(chunks)) + SizeBytes(fileSize, littleEndian)
  {
    hide Select, RangesOf, Sample;
    var h := new TriSha1(fileSize);
    SelectEmpty(h.ranges);
    for i := 0 to |chunks|
      invariant fresh(h) && h.offset == |Concat(chunks[..i])|
      invariant h.fed == Select(h.ranges, Concat(chunks[..i]), 0)
    {
      assert chunks[..i + 1][..i] == chunks[..i];
      ConcatLast(chunks[..i + 1]);
      SelectAppend(h.ranges, Concat(chunks[..i]), chunks[i], 0);
      h.Update(chunks[i]);
    }
    assert chunks[..|chunks|] == chunks;
    message := h.Finalize(littleEndian);
    if |Concat(chunks)| == fileSize {
      SelectIsSample(Concat(chunks));
    }
  }

  lemma SelectEmpty(ranges: seq<Range>)
    ensures Select(ranges, [], 0) == []
  {
  }

  /** The sample of a file: all of a small one, and the first, middle and last 10 MiB of a large one. */
  function Sample(file: seq<byte>): seq<byte> {
    var n := |file|;
    if n < 31457280 then file
    else file[..10485760] + file[n / 2 - 5242880..n / 2 + 5242880] + file[n - 10485760..]
  }

  lemma SelectOne(ranges: seq<Range>, data: seq<byte>)
    requires Sorted(ranges) && |ranges| == 1
    ensures Select(ranges, data, 0) == Slice(ranges[0], data, 0)
  {
    hide Select, Slice, InAny;
    SelectNoRange(data, 0);
    assert ranges[..0] == [] && ranges[..1] == ranges;
    SelectNext(ranges, 0, data, 0);
  }

  lemma SelectThree(ranges: seq<Range>, data: seq<byte>)
    requires Sorted(ranges) && |ranges| == 3
    ensures Select(ranges, data, 0) == Slice(ranges[0], data, 0) + Slice(ranges[1], data, 0) + Slice(ranges[2], data, 0)
  {
    hide Select, Slice, InAny;
    SelectNoRange(data, 0);
    assert ranges[..0] == [] && ranges[..3] == ranges;
    SelectNext(ranges, 0, data, 0);
    SelectNext(ranges, 1, data, 0);
    SelectNext(ranges, 2, data, 0);
  }

  /** A file of the announced size contributes its sample; a large sample is 30 MiB, and at 30 MiB it is the file. */
  lemma SelectIsSample(file: seq<byte>)
    ensures Select(RangesOf(|file|), file, 0) == Sample(file)
    ensures |file| >= 31457280 ==> |Sample(file)| == 31457280
    ensures |file| <= 31457280 ==> Sample(file) == file
  {
    hide Select, InAny, Sorted;
    var ranges := RangesOf(|file|);
    if |file| < THRESHOLD {
      SelectOne(ranges, file);
      assert file[0..|file|] == file;
    } else {
      SelectThree(ranges, file);
      if |file| == THRESHOLD {
        assert file[..PART] + file[PART..2 * PART] + file[2 * PART..] == file;
      }
    }
  }

  /** The ranges of a large file lie inside it. */
  lemma RangesInside(fileSize: nat)
    requires fileSize >= THRESHOLD
    ensures forall p: nat :: InAny(p, RangesOf(fileSize)) ==> p < fileSize
  {
  }

  /**
   The range of a small file ends at the file size instead of one before it, so a byte too many is hashed: what is fed
   counts as the announced file exactly when no more than that file is fed.
   */
  lemma SmallFileOverfed(fileSize: nat, data: seq<byte>)
    requires fileSize < 31457280 && fileSize <= |data|
    ensures Select(RangesOf(fileSize), data, 0) == data[..fileSize] <==> |data| == fileSize
  {
    hide Select, InAny, Sorted;
    SelectOne(RangesOf(fileSize), data);
    var n := Min(|data|, fileSize + 1);
    assert data[0..n] == data[..n];
  }

  /** What is fed behind a large file is not hashed: only a prefix of the announced size counts. */
  lemma LargeFileIgnoresRest(fileSize: nat, data: seq<byte>)
    requires 31457280 <= fileSize <= |data|
    ensures Select(RangesOf(fileSize), data, 0) == Sample(data[..fileSize])
  {
    hide Select, InAny, Sorted, RangesOf, Sample;
    var ranges, file, rest := RangesOf(fileSize), data[..fileSize], data[fileSize..];
    assert data == file + rest;
    SelectAppend(ranges, file, rest, 0);
    RangesInside(fileSize);
    SelectNone(ranges, rest, fileSize);
    SelectIsSample(file);
    assert Select(ranges, file, 0) + [] == Select(ranges, file, 0);
  }

  /** The eight bytes of the size, in the byte order of the machine. */
  lemma SizeBytesAt(n: nat, i: nat)
    requires i < 8
    ensures |SizeBytes(n, true)| == |SizeBytes(n, false)| == 8
    ensures SizeBytes(n, true)[i] == n / Limit(i) % 256
    ensures SizeBytes(n, false)[i] == n / Limit(7 - i) % 256
  {
    hide BigEndian, Limit;
    LittleEndianAt(n, 8, i);
    BigEndianAt(n, 8, i);
  }
}

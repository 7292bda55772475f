/** The highway upload (hw_frame_codec.rs, hw_client.rs): the frame codec, and the passes that send a file chunk by chunk. */
module Highway {
  import opened Wrappers
  import opened ByteOrder

  const START: byte := 0x28
  const END: byte := 0x29

  datatype Frame = Frame(head: seq<byte>, body: seq<byte>)

  datatype Error = InvalidFrame

  type Result<T> = Outcome<T, Error>

  function Encoded(f: Frame): seq<byte> {
    [START] + BigEndian(|f.head| % U32_LIMIT, 4) + BigEndian(|f.body| % U32_LIMIT, 4) + f.head + f.body + [END]
  }

  /** One call of decode: its result, and the bytes it leaves in the buffer. */
  function Decoded(src: seq<byte>): (Result<Option<Frame>>, seq<byte>) {
    if |src| < 10 then (Ok(None), src)
    else
      var h, b, rest := FromBigEndian(src[1..5]), FromBigEndian(src[5..9]), src[9..];
      if |rest| < h + b + 1 then (Ok(None), rest)
      else if src[0] != START || rest[h + b] != END then (Err(InvalidFrame), rest[h + b + 1..])
      else (Ok(Some(Frame(rest[..h], rest[h..h + b]))), rest[h + b + 1..])
  }

  /** A growable byte buffer, consumed from the front. */
  class BytesMut {
    var data: seq<byte>

    constructor (data: seq<byte>)
      ensures this.data == data
    {
      this.data := data;
    }

    method Put(bytes: seq<byte>)
      modifies this
      ensures data == old(data) + bytes
    {
      data := data + bytes;
    }

    /** What the get_ operations of the buffer do besides reading its front. */
    method Advance(n: nat)
      requires n <= |data|
      modifies this
      ensures data == old(data)[n..]
    {
      data := data[n..];
    }

    method SplitTo(n: nat) returns (r: seq<byte>)
      requires n <= |data|
      modifies this
      ensures r == old(data)[..n] && data == old(data)[n..]
    {
      r := data[..n];
      data := data[n..];
    }
  }

  method Encode(item: Frame, dst: BytesMut)
    modifies dst
    ensures dst.data == old(dst.data) + Encoded(item)
  {
    hide BigEndian;
    ghost var before := dst.data;
    dst.Put([START]);
    dst.Put(BigEndian(|item.head| % U32_LIMIT, 4));
    dst.Put(BigEndian(|item.body| % U32_LIMIT, 4));
    dst.Put(item.head);
    dst.Put(item.body);
    dst.Put([END]);
    assert dst.data == before + Encoded(item);
  }

  method Decode(src: BytesMut) returns (r: Result<Option<Frame>>)
    modifies src
    ensures (r, src.data) == Decoded(old(src.data))
  {
    hide FromBigEndian;
    if |src.data| < 1 + 4 + 4 + 1 {
      return Ok(None);
    }
    var start, h, b := src.data[0], FromBigEndian(src.data[1..5]), FromBigEndian(src.data[5..9]);
    src.Advance(9);
    if |src.data| < h + b + 1 {
      return Ok(None);
    }
    ghost var rest := src.data;
    var head := src.SplitTo(h);
    var body := src.SplitTo(b);
    var end := src.data[0];
    src.Advance(1);
    assert body == rest[h..h + b] && end == rest[h + b] && src.data == rest[h + b + 1..];
    if start != START || end != END {
      return Err(InvalidFrame);
    }
    r := Ok(Some(Frame(head, body)));
  }

  predicate Fits(f: Frame) {
    |f.head| < U32_LIMIT && |f.body| < U32_LIMIT
  }

  function Size(f: Frame): nat {
    10 + |f.head| + |f.body|
  }

  lemma EncodedParts(f: Frame, rest: seq<byte>)
    requires Fits(f)
    ensures var s, h, b := Encoded(f) + rest, |f.head|, |f.body|;
            && |Encoded(f)| == Size(f)
            && s[0] == START && FromBigEndian(s[1..5]) == h && FromBigEndian(s[5..9]) == b
            && s[9..][..h] == f.head && s[9..][h..h + b] == f.body && s[9..][h + b] == END && s[9..][h + b + 1..] == rest
  {
    hide BigEndian, FromBigEndian;
    LimitValues();
    BigEndianRoundTrip(|f.head|, 4);
    BigEndianRoundTrip(|f.body|, 4);
    var s := Encoded(f) + rest;
    assert s[1..5] == BigEndian(|f.head|, 4) && s[5..9] == BigEndian(|f.body|, 4);
    assert s[9..] == f.head + f.body + [END] + rest;
  }

  /** Decoding a whole frame returns it and leaves exactly what follows it. */
  lemma DecodeOfEncode(f: Frame, rest: seq<byte>)
    requires Fits(f)
    ensures Decoded(Encoded(f) + rest) == (Ok(Some(f)), rest)
  {
    hide Encoded, FromBigEndian;
    EncodedParts(f, rest);
  }

  function Layout(start: byte, head: seq<byte>, body: seq<byte>, end: byte): seq<byte> {
    [start] + BigEndian(|head|, 4) + BigEndian(|body|, 4) + head + body + [end]
  }

  lemma LayoutParts(start: byte, head: seq<byte>, body: seq<byte>, end: byte, rest: seq<byte>)
    requires |head| < U32_LIMIT && |body| < U32_LIMIT
    ensures var s, h, b := Layout(start, head, body, end) + rest, |head|, |body|;
            && |s| >= 10 && |s[9..]| >= h + b + 1
            && s[0] == start && FromBigEndian(s[1..5]) == h && FromBigEndian(s[5..9]) == b
            && s[9..][..h] == head && s[9..][h..h + b] == body && s[9..][h + b] == end && s[9..][h + b + 1..] == rest
  {
    hide BigEndian, FromBigEndian;
    LimitValues();
    BigEndianRoundTrip(|head|, 4);
    BigEndianRoundTrip(|body|, 4);
    var s := Layout(start, head, body, end) + rest;
    assert s[1..5] == BigEndian(|head|, 4) && s[5..9] == BigEndian(|body|, 4);
    assert s[9..] == head + body + [end] + rest;
  }

  /** Any bytes in the layout of a frame are one between the markers 0x28 and 0x29, and an error between other ones. */
  lemma FrameMarkers(start: byte, head: seq<byte>, body: seq<byte>, end: byte, rest: seq<byte>)
    requires |head| < U32_LIMIT && |body| < U32_LIMIT
    ensures Decoded(Layout(start, head, body, end) + rest)
            == (if start == 0x28 && end == 0x29 then Ok(Some(Frame(head, body))) else Err(InvalidFrame), rest)
    ensures Encoded(Frame(head, body)) == Layout(0x28, head, body, 0x29)
  {
    LayoutParts(start, head, body, end, rest);
    EncodedLayout(head, body);
    hide Layout, Encoded, FromBigEndian;
  }

  lemma EncodedLayout(head: seq<byte>, body: seq<byte>)
    requires |head| < U32_LIMIT && |body| < U32_LIMIT
    ensures Encoded(Frame(head, body)) == Layout(0x28, head, body, 0x29)
  {
    hide BigEndian;
  }

  function EncodedAll(fs: seq<Frame>): seq<byte> {
    if fs == [] then [] else Encoded(fs[0]) + EncodedAll(fs[1..])
  }

  /** What a reader gets that calls decode until there is no frame. */
  function DecodeAll(src: seq<byte>): (seq<Frame>, seq<byte>)
    decreases |src|
  {
    var (r, rest) := Decoded(src);
    if r.Ok? && r.value.Some? && |rest| < |src| then
      var (fs, left) := DecodeAll(rest);
      ([r.value.value] + fs, left)
    else ([], rest)
  }

  /** Any frames that arrive whole come out in order, and nothing is left. */
  lemma {:induction false} DecodeOfFrames(fs: seq<Frame>)
    requires forall f :: f in fs ==> Fits(f)
    ensures DecodeAll(EncodedAll(fs)) == (fs, [])
  {
    hide Encoded, Decoded, FromBigEndian;
    if fs == [] {
      assert Decoded([]) == (Ok(None), []) by {
        DecodeNothing();
      }
    } else {
      DecodeOfEncode(fs[0], EncodedAll(fs[1..]));
      EncodedParts(fs[0], EncodedAll(fs[1..]));
      DecodeOfFrames(fs[1..]);
      assert fs == [fs[0]] + fs[1..];
    }
  }

  lemma DecodeNothing()
    ensures Decoded([]) == (Ok(None), [])
  {
  }

  /** A decoded frame was encoded in bytes that are gone from the buffer. */
  lemma DecodedSize(src: seq<byte>)
    ensures var (r, rest) := Decoded(src);
            r.Ok? && r.value.Some? ==> Size(r.value.value) <= |src|
  {
  }

  /** What a framed reader yields first: decode runs on what is left in the buffer and every piece that arrives. */
  function FirstDecoded(buffer: seq<byte>, pieces: seq<seq<byte>>): Result<Option<Frame>>
    decreases |pieces|
  {
    if pieces == [] then Ok(None)
    else
      var (r, rest) := Decoded(buffer + pieces[0]);
      if r == Ok(None) then FirstDecoded(rest, pieces[1..]) else r
  }

  /** A stage of decode that needs more bytes leaves the buffer alone or has consumed the nine bytes of a header. */
  lemma DecodedNeedsMore(src: seq<byte>)
    requires Decoded(src).0 == Ok(None)
    ensures Decoded(src).1 == if |src| < 10 then src else src[9..]
  {
  }

  /** No frame comes out that is larger than all the bytes there are for it. */
  lemma {:induction false} FirstDecodedSize(buffer: seq<byte>, pieces: seq<seq<byte>>)
    ensures var r := FirstDecoded(buffer, pieces);
            r.Ok? && r.value.Some? ==> Size(r.value.value) <= |buffer| + |Concat(pieces)|
    decreases |pieces|
  {
    hide Decoded, FromBigEndian;
    if pieces != [] {
      DecodedSize(buffer + pieces[0]);
      var (r, rest) := Decoded(buffer + pieces[0]);
      if r == Ok(None) {
        DecodedNeedsMore(buffer + pieces[0]);
        FirstDecodedSize(rest, pieces[1..]);
      }
    }
  }

  /** A proper part of a frame is never enough. */
  lemma PartIsNotEnough(f: Frame, k: nat)
    requires Fits(f) && k < Size(f)
    ensures |Encoded(f)| == Size(f) && Decoded(Encoded(f)[..k]).0 == Ok(None)
  {
    hide Encoded, FromBigEndian;
    var s := Encoded(f);
    EncodedParts(f, []);
    assert s + [] == s;
    if k >= 10 {
      assert s[..k][1..5] == s[1..5] && s[..k][5..9] == s[5..9];
    }
  }

  lemma {:induction false} PiecesIff(f: Frame, buffer: seq<byte>, pieces: seq<seq<byte>>)
    requires Fits(f) && |buffer| < 10 && pieces != [] && buffer + Concat(pieces) == Encoded(f)
    requires forall i :: 0 <= i < |pieces| ==> pieces[i] != []
    ensures FirstDecoded(buffer, pieces) == Ok(Some(f)) <==> Size(f) - |pieces[|pieces| - 1]| < 10
    decreases |pieces|
  {
    hide Encoded, Decoded, FromBigEndian, BigEndian;
    var s, first, tail := Encoded(f), buffer + pieces[0], pieces[1..];
    EncodedParts(f, []);
    assert first + Concat(tail) == s;
    if tail == [] {
      DecodeOfEncode(f, []);
      assert s + [] == s == first;
    } else {
      ConcatLast(tail);
      assert tail[|tail| - 1] == pieces[|pieces| - 1];
      assert first == s[..|first|];
      PartIsNotEnough(f, |first|);
      DecodedNeedsMore(first);
      if |first| < 10 {
        PiecesIff(f, first, tail);
      } else {
        FirstDecodedSize(first[9..], tail);
      }
    }
  }

  /**
   Between its two stages decode consumes the nine header bytes even when the frame is not complete. So a frame that
   arrives in any number of pieces, with a call of decode after each, comes out exactly when the pieces before the last
   are together still shorter than the smallest frame.
   */
  lemma SplitFrameIff(f: Frame, pieces: seq<seq<byte>>)
    requires Fits(f) && pieces != [] && Concat(pieces) == Encoded(f)
    requires forall i :: 0 <= i < |pieces| ==> pieces[i] != []
    ensures FirstDecoded([], pieces) == Ok(Some(f)) <==> |Concat(pieces[..|pieces| - 1])| < 10
  {
    hide Encoded, FirstDecoded, Concat;
    assert [] + Concat(pieces) == Encoded(f);
    PiecesIff(f, [], pieces);
    ConcatLast(pieces);
    EncodedParts(f, []);
  }

  // ----- the upload passes

  /** A seekable stream over a file. */
  class Stream {
    const data: seq<byte>
    var pos: nat

    ghost predicate Valid()
      reads this
    {
      pos <= |data|
    }

    constructor (data: seq<byte>)
      ensures Valid() && this.data == data
    {
      this.data := data;
      pos := 0;
    }

    method SeekToStart()
      modifies this
      ensures Valid() && pos == 0
    {
      pos := 0;
    }

    /** read_stream: up to chunkSize bytes, fewer only at the end of the file. */
    method ReadStream(chunkSize: nat) returns (buf: seq<byte>)
      requires Valid()
      modifies this
      ensures Valid()
      ensures pos == Min(old(pos) + chunkSize, |data|)
      ensures buf == data[old(pos)..pos]
    {
      var end := Min(pos + chunkSize, |data|);
      buf := data[pos..end];
      pos := end;
    }
  }

  function Min(a: nat, b: nat): nat {
    if a < b then a else b
  }

  /** What a frame says about its chunk: build_pic_up_head's offset and length, and the body. */
  datatype Chunk = Chunk(offset: nat, length: nat, body: seq<byte>)

  /** The chunks of a pass over a file of this announced size, from chunk number i on. */
  function Chunks(data: seq<byte>, size: nat, chunkSize: nat, i: nat): seq<Chunk>
    requires chunkSize > 0
    decreases size - i * chunkSize
  {
    if i * chunkSize >= size then []
    else
      NextChunk(i, chunkSize);
      [ChunkAt(data, chunkSize, i)] + Chunks(data, size, chunkSize, i + 1)
  }

  function ChunkAt(data: seq<byte>, chunkSize: nat, i: nat): Chunk
    requires chunkSize > 0
  {
    var from := Min(i * chunkSize, |data|);
    NextChunk(i, chunkSize);
    var body := data[from..Min((i + 1) * chunkSize, |data|)];
    Chunk(i * chunkSize, |body|, body)
  }

  lemma NextChunk(i: nat, chunkSize: nat)
    ensures (i + 1) * chunkSize == i * chunkSize + chunkSize
  {
  }

  /** Where a pass fails: reading or sending the chunk of this number, or with its reply. */
  datatype Failure = OnSend(chunk: nat) | OnReply(chunk: nat)

  /** Whether this failure lies inside a pass over n chunks. */
  predicate Hits(failure: Option<Failure>, n: nat) {
    failure.Some? && failure.value.chunk < n
  }

  /** The chunks that a pass sends. */
  function SentBefore(chunks: seq<Chunk>, failure: Option<Failure>): seq<Chunk> {
    if !Hits(failure, |chunks|) then chunks
    else chunks[..failure.value.chunk + if failure.value.OnReply? then 1 else 0]
  }

  /** The loop shared by tcp_upload and http_upload: seek to the start, then one frame and its reply per step of the offset. */
  method UploadPass(stream: Stream, size: nat, chunkSize: nat, failure: Option<Failure>) returns (sent: seq<Chunk>, ok: bool)
    requires stream.Valid() && chunkSize > 0
    modifies stream
    ensures stream.Valid()
    ensures sent == SentBefore(Chunks(stream.data, size, chunkSize, 0), failure)
    ensures ok <==> !Hits(failure, |Chunks(stream.data, size, chunkSize, 0)|)
  {
    stream.SeekToStart();
    sent := [];
    var offset := 0;
    ghost var i := 0;
    ghost var all := Chunks(stream.data, size, chunkSize, 0);
    assert all == sent + Chunks(stream.data, size, chunkSize, 0);
    while offset < size
      invariant stream.Valid() && offset == i * chunkSize
      invariant stream.pos == Min(offset, |stream.data|)
      invariant all == sent + Chunks(stream.data, size, chunkSize, i)
      invariant !Hits(failure, |sent|)
      decreases size - offset
    {
      NextChunk(i, chunkSize);
      ghost var before, here := sent, ChunkAt(stream.data, chunkSize, i);
      ghost var later := Chunks(stream.data, size, chunkSize, i + 1);
      assert all == before + ([here] + later);
      if failure == Some(OnSend(|sent|)) {
        return sent, false;
      }
      var body := stream.ReadStream(chunkSize);
      var chunk := Chunk(offset, |body|, body);
      assert chunk == here;
      sent := sent + [chunk];
      assert all == sent + later;
      if failure == Some(OnReply(|sent| - 1)) {
        return sent, false;
      }
      offset := offset + chunkSize;
      i := i + 1;
    }
    ok := true;
  }

  /** upload: the TCP pass, if a connection comes up, and the HTTP pass from the start again if there was a failure. */
  method Upload(stream: Stream, size: nat, chunkSize: nat, connects: bool, tcpFails: Option<Failure>, httpFails: Option<Failure>)
    returns (tcp: seq<Chunk>, http: seq<Chunk>, ok: bool)
    requires stream.Valid() && chunkSize > 0
    modifies stream
    ensures var all := Chunks(stream.data, size, chunkSize, 0);
            var tcpOk, httpOk := connects && !Hits(tcpFails, |all|), !Hits(httpFails, |all|);
            && tcp == (if connects then SentBefore(all, tcpFails) else [])
            && http == (if tcpOk then [] else SentBefore(all, httpFails))
            && (ok <==> tcpOk || httpOk)
    ensures |stream.data| == size ==>
              && Tiles(tcp, 0) && Tiles(http, 0) && Bodies(tcp) <= stream.data && Bodies(http) <= stream.data
              && (ok ==> Bodies(tcp) == stream.data || Bodies(http) == stream.data)
  {
    http := [];
    tcp, ok := [], false;
    if connects {
      tcp, ok := UploadPass(stream, size, chunkSize, tcpFails);
    } else {
      stream.SeekToStart();
    }
    if !ok {
      http, ok := UploadPass(stream, size, chunkSize, httpFails);
    }
    if |stream.data| == size {
      hide Chunks, Tiles, Bodies;
      WholePass(stream.data, chunkSize);
      CutPass(stream.data, chunkSize, tcp);
      CutPass(stream.data, chunkSize, http);
    }
  }

  function Bodies(chunks: seq<Chunk>): seq<byte> {
    if chunks == [] then [] else chunks[0].body + Bodies(chunks[1..])
  }

  /** Every chunk starts where the ones before it end, and is not empty. */
  predicate Tiles(chunks: seq<Chunk>, from: nat) {
    chunks == []
    || (chunks[0].offset == from && chunks[0].body != [] && chunks[0].length == |chunks[0].body|
        && Tiles(chunks[1..], from + chunks[0].length))
  }

  lemma {:induction false} ChunksTile(data: seq<byte>, chunkSize: nat, i: nat)
    requires chunkSize > 0 && i * chunkSize <= |data|
    ensures Bodies(Chunks(data, |data|, chunkSize, i)) == data[i * chunkSize..]
    ensures Tiles(Chunks(data, |data|, chunkSize, i), i * chunkSize)
    decreases |data| - i * chunkSize
  {
    NextChunk(i, chunkSize);
    var at := i * chunkSize;
    if at < |data| {
      var chunk, tail := ChunkAt(data, chunkSize, i), Chunks(data, |data|, chunkSize, i + 1);
      if at + chunkSize <= |data| {
        ChunksTile(data, chunkSize, i + 1);
        assert data[at..] == chunk.body + data[at + chunkSize..];
      } else {
        assert tail == [];
        assert chunk.body == data[at..];
      }
      assert ([chunk] + tail)[1..] == tail;
    }
  }

  /** A whole pass over a file of the announced size sends non-empty bodies that tile the file from its start. */
  lemma WholePass(data: seq<byte>, chunkSize: nat)
    requires chunkSize > 0
    ensures Bodies(Chunks(data, |data|, chunkSize, 0)) == data
    ensures Tiles(Chunks(data, |data|, chunkSize, 0), 0)
  {
    ChunksTile(data, chunkSize, 0);
    assert data[0..] == data;
  }

  lemma {:induction false} PrefixTiles(chunks: seq<Chunk>, sent: seq<Chunk>, from: nat)
    requires Tiles(chunks, from) && sent <= chunks
    ensures Tiles(sent, from) && Bodies(sent) <= Bodies(chunks)
  {
    if sent != [] {
      PrefixTiles(chunks[1..], sent[1..], from + chunks[0].length);
    }
  }

  /** A pass that is cut short has sent a prefix of the file, tiled the same way. */
  lemma CutPass(data: seq<byte>, chunkSize: nat, sent: seq<Chunk>)
    requires chunkSize > 0 && sent <= Chunks(data, |data|, chunkSize, 0)
    ensures Tiles(sent, 0) && Bodies(sent) <= data
  {
    WholePass(data, chunkSize);
    PrefixTiles(Chunks(data, |data|, chunkSize, 0), sent, 0);
  }
}

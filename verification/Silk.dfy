/** The framing of the SILK encoder (silk_encoder.rs) and the duration counter that reads it (highway_op.rs). */
module Silk {
  import opened Wrappers
  import opened ByteOrder
  import opened Quotients

  const HEADER: seq<byte> := [0x02, 0x23, 0x21, 0x53, 0x49, 0x4C, 0x4B, 0x5F, 0x56, 0x33]
  const MAX_OUTPUT := 1250

  /** The codec call for one frame: an error code, or the bytes it wrote into its buffer. */
  datatype Codec = Failed(code: int) | Wrote(bytes: seq<byte>)

  datatype Error = CodecError(code: int)

  type Result = Outcome<seq<byte>, Error>

  /** The codec on the i-th frame of the stream; its output buffer is MAX_OUTPUT bytes. */
  type CodecCalls = (nat, seq<byte>) -> Codec

  ghost predicate RespectsBuffer(codec: CodecCalls) {
    forall i: nat, chunk: seq<byte> :: codec(i, chunk).Wrote? ==> |codec(i, chunk).bytes| <= MAX_OUTPUT
  }

  /** The bytes of 20 ms of 16-bit samples; whole kilohertz only. */
  function FrameSize(sampleRate: nat): nat {
    sampleRate / 1000 * 40
  }

  function Word(n: nat): (r: seq<byte>)
    requires n < U16_LIMIT
    ensures |r| == 2
  {
    [n % 256, n / 256]
  }

  /** One frame of the output: the length, then the bytes. */
  function Framed(bytes: seq<byte>): seq<byte>
    requires |bytes| <= MAX_OUTPUT
  {
    Word(|bytes|) + bytes
  }

  /** The output for whole frames i, i + 1, .. of the stream; an incomplete last frame is dropped. */
  function EncodeFrames(stream: seq<byte>, frameSize: nat, codec: CodecCalls, i: nat): Result
    requires frameSize > 0 && RespectsBuffer(codec)
    decreases |stream|
  {
    if |stream| < frameSize then Ok([])
    else
      match codec(i, stream[..frameSize])
      case Failed(code) => Err(CodecError(code))
      case Wrote(bytes) =>
        var rest :- EncodeFrames(stream[frameSize..], frameSize, codec, i + 1);
        Ok(Framed(bytes) + rest)
  }

  /** SilkEncoder::encode on the bytes of the samples; a rate below 1000 makes the chunk size 0, which panics. */
  function Encoded(stream: seq<byte>, sampleRate: nat, codec: CodecCalls): Result
    requires RespectsBuffer(codec)
  {
    if FrameSize(sampleRate) == 0 then Panic
    else
      var frames :- EncodeFrames(stream, FrameSize(sampleRate), codec, 0);
      Ok(HEADER + frames)
  }

  /** The loop of SilkEncoder::encode. */
  method Encode(stream: seq<byte>, sampleRate: nat, codec: CodecCalls) returns (r: Result)
    requires RespectsBuffer(codec)
    ensures r == Encoded(stream, sampleRate, codec)
  {
    hide RespectsBuffer;
    var frameSize := sampleRate / 1000 * 40;
    if frameSize == 0 {
      return Panic;
    }
    var result, rest, i := HEADER, stream, 0;
    ghost var whole := EncodeFrames(stream, frameSize, codec, 0);
    assert result[|HEADER|..] == [];
    assert whole.Ok? ==> [] + whole.value == whole.value;
    assert whole == Prepend([], whole);
    while |rest| > 0
      invariant |result| >= |HEADER| && result[..|HEADER|] == HEADER
      invariant whole == Prepend(result[|HEADER|..], EncodeFrames(rest, frameSize, codec, i))
      decreases |rest|
    {
      if |rest| < frameSize {
        break;
      }
      var chunk := rest[..frameSize];
      var output := codec(i, chunk);
      if output.Failed? {
        return Err(CodecError(output.code));
      }
      BufferBound(codec, i, chunk);
      PrependTwice(result[|HEADER|..], Framed(output.bytes), EncodeFrames(rest[frameSize..], frameSize, codec, i + 1));
      ghost var before := result[|HEADER|..];
      result := result + Word(|output.bytes|);
      result := result + output.bytes;
      assert result[|HEADER|..] == before + Framed(output.bytes);
      rest := rest[frameSize..];
      i := i + 1;
    }
    assert result[|HEADER|..] + [] == result[|HEADER|..];
    assert result == HEADER + result[|HEADER|..];
    r := Ok(result);
  }

  function Prepend(front: seq<byte>, r: Result): Result {
    if r.Ok? then Ok(front + r.value) else r
  }

  lemma PrependTwice(a: seq<byte>, b: seq<byte>, r: Result)
    ensures Prepend(a, Prepend(b, r)) == Prepend(a + b, r)
  {
    if r.Ok? {
      assert a + (b + r.value) == a + b + r.value;
    }
  }

  lemma BufferBound(codec: CodecCalls, i: nat, chunk: seq<byte>)
    requires RespectsBuffer(codec) && codec(i, chunk).Wrote?
    ensures |codec(i, chunk).bytes| <= MAX_OUTPUT
  {
  }

  /** What the codec makes of frame k of a list, when the first one is number i of the stream. */
  function OutputOf(codec: CodecCalls, frames: seq<seq<byte>>, i: nat, k: nat): Codec
    requires k < |frames|
  {
    codec(i + k, frames[k])
  }

  /** What is written for one frame: the length with its low byte first, then the bytes. */
  function BlockOf(c: Codec): seq<byte> {
    if c.Wrote? then [|c.bytes| % 256, |c.bytes| / 256 % 256] + c.bytes else []
  }

  /** Samples cut into whole frames, and what is left of them. */
  ghost predicate Cuts(stream: seq<byte>, frameSize: nat, frames: seq<seq<byte>>, left: seq<byte>) {
    stream == Concat(frames) + left && |left| < frameSize && forall f :: f in frames ==> |f| == frameSize
  }

  lemma CutsStep(stream: seq<byte>, frameSize: nat, frames: seq<seq<byte>>, left: seq<byte>)
    requires Cuts(stream, frameSize, frames, left) && frames != []
    ensures |stream| >= frameSize && stream[..frameSize] == frames[0] && Cuts(stream[frameSize..], frameSize, frames[1..], left)
  {
    assert frames[0] in frames;
    assert stream == frames[0] + (Concat(frames[1..]) + left);
  }

  lemma {:induction false} AllFrames(codec: CodecCalls, stream: seq<byte>, frameSize: nat, frames: seq<seq<byte>>, left: seq<byte>, i: nat,
                                     blocks: seq<seq<byte>>)
    requires frameSize > 0 && RespectsBuffer(codec) && Cuts(stream, frameSize, frames, left) && |blocks| == |frames|
    requires forall k :: 0 <= k < |frames| ==> OutputOf(codec, frames, i, k).Wrote? && blocks[k] == BlockOf(OutputOf(codec, frames, i, k))
    ensures EncodeFrames(stream, frameSize, codec, i) == Ok(Concat(blocks))
    decreases |frames|
  {
    hide RespectsBuffer, Cuts, EncodeFrames, OutputOf;
    if frames == [] {
      LeftIsShort(stream, frameSize, left);
      EncodeNone(codec, stream, frameSize, i);
    } else {
      CutsStep(stream, frameSize, frames, left);
      var tail, next := frames[1..], i + 1;
      OutputShift(codec, frames, i);
      assert OutputOf(codec, frames, i, 0).Wrote? && blocks[0] == BlockOf(OutputOf(codec, frames, i, 0));
      forall k | 0 <= k < |tail|
        ensures OutputOf(codec, tail, next, k).Wrote? && blocks[1..][k] == BlockOf(OutputOf(codec, tail, next, k))
      {
        assert OutputOf(codec, frames, i, k + 1).Wrote?;
      }
      AllFrames(codec, stream[frameSize..], frameSize, tail, left, next, blocks[1..]);
      EncodeOne(codec, stream, frameSize, i);
    }
  }

  lemma OutputShift(codec: CodecCalls, frames: seq<seq<byte>>, i: nat)
    requires frames != []
    ensures OutputOf(codec, frames, i, 0) == codec(i, frames[0])
    ensures var tail, next := frames[1..], i + 1;
            forall k: nat :: k < |tail| ==> OutputOf(codec, tail, next, k) == OutputOf(codec, frames, i, k + 1)
  {
  }

  lemma EncodeNone(codec: CodecCalls, stream: seq<byte>, frameSize: nat, i: nat)
    requires RespectsBuffer(codec) && |stream| < frameSize
    ensures EncodeFrames(stream, frameSize, codec, i) == Ok([])
  {
  }

  /** The first frame of the samples, and its block or its error. */
  lemma EncodeOne(codec: CodecCalls, stream: seq<byte>, frameSize: nat, i: nat)
    requires 0 < frameSize <= |stream| && RespectsBuffer(codec)
    ensures var output, rest := codec(i, stream[..frameSize]), EncodeFrames(stream[frameSize..], frameSize, codec, i + 1);
            EncodeFrames(stream, frameSize, codec, i)
            == if output.Failed? then Err(CodecError(output.code)) else Prepend(BlockOf(output), rest)
  {
    hide RespectsBuffer;
    var output := codec(i, stream[..frameSize]);
    if output.Wrote? {
      BufferBound(codec, i, stream[..frameSize]);
      assert Framed(output.bytes) == BlockOf(output);
    }
  }

  lemma LeftIsShort(stream: seq<byte>, frameSize: nat, left: seq<byte>)
    requires Cuts(stream, frameSize, [], left)
    ensures |stream| < frameSize
  {
  }

  lemma {:induction false} FirstFailure(codec: CodecCalls, stream: seq<byte>, frameSize: nat, frames: seq<seq<byte>>, left: seq<byte>, i: nat,
                                        k: nat)
    requires frameSize > 0 && RespectsBuffer(codec) && Cuts(stream, frameSize, frames, left)
    requires k < |frames| && OutputOf(codec, frames, i, k).Failed?
    requires forall j :: 0 <= j < k ==> OutputOf(codec, frames, i, j).Wrote?
    ensures EncodeFrames(stream, frameSize, codec, i) == Err(CodecError(OutputOf(codec, frames, i, k).code))
    decreases |frames|
  {
    hide RespectsBuffer, Cuts, EncodeFrames, OutputOf;
    CutsStep(stream, frameSize, frames, left);
    OutputShift(codec, frames, i);
    EncodeOne(codec, stream, frameSize, i);
    if k > 0 {
      var tail, next := frames[1..], i + 1;
      assert OutputOf(codec, frames, i, 0).Wrote?;
      forall j | 0 <= j < k - 1
        ensures OutputOf(codec, tail, next, j).Wrote?
      {
        assert OutputOf(codec, frames, i, j + 1).Wrote?;
      }
      FirstFailure(codec, stream[frameSize..], frameSize, tail, left, next, k - 1);
    }
  }

  /**
   The whole output, however the samples are cut into whole frames and a shorter rest: ten header bytes and one block for
   every frame in order; or the code of the first frame that fails; or a panic on a rate below 1000.
   */
  lemma EncodedIs(codec: CodecCalls, stream: seq<byte>, sampleRate: nat, frames: seq<seq<byte>>, left: seq<byte>, k: nat)
    requires RespectsBuffer(codec) && Cuts(stream, sampleRate / 1000 * 40, frames, left)
    ensures (forall j :: 0 <= j < |frames| ==> OutputOf(codec, frames, 0, j).Wrote?) ==>
              Encoded(stream, sampleRate, codec)
              == Ok([0x02, 0x23, 0x21, 0x53, 0x49, 0x4C, 0x4B, 0x5F, 0x56, 0x33]
                    + Concat(seq(|frames|, j requires 0 <= j < |frames| => BlockOf(OutputOf(codec, frames, 0, j)))))
    ensures k < |frames| && OutputOf(codec, frames, 0, k).Failed? && (forall j :: 0 <= j < k ==> OutputOf(codec, frames, 0, j).Wrote?) ==>
              Encoded(stream, sampleRate, codec) == Err(CodecError(OutputOf(codec, frames, 0, k).code))
  {
    hide RespectsBuffer, EncodeFrames, Cuts, Concat, OutputOf, BlockOf;
    assert sampleRate / 1000 * 40 > 0 by {
      FrameIsLonger(stream, sampleRate / 1000 * 40, frames, left);
    }
    if forall j :: 0 <= j < |frames| ==> OutputOf(codec, frames, 0, j).Wrote? {
      AllFrames(codec, stream, FrameSize(sampleRate), frames, left, 0,
                seq(|frames|, j requires 0 <= j < |frames| => BlockOf(OutputOf(codec, frames, 0, j))));
    } else if k < |frames| && OutputOf(codec, frames, 0, k).Failed? && forall j :: 0 <= j < k ==> OutputOf(codec, frames, 0, j).Wrote? {
      FirstFailure(codec, stream, FrameSize(sampleRate), frames, left, 0, k);
    }
  }

  lemma FrameIsLonger(stream: seq<byte>, frameSize: nat, frames: seq<seq<byte>>, left: seq<byte>)
    requires Cuts(stream, frameSize, frames, left)
    ensures frameSize > 0
  {
  }

  /** A rate below one kilohertz has frames of no bytes, on which the chunking panics. */
  lemma LowRatePanics(codec: CodecCalls, stream: seq<byte>, sampleRate: nat)
    requires RespectsBuffer(codec)
    ensures Encoded(stream, sampleRate, codec) == Panic <==> sampleRate < 1000
  {
    hide RespectsBuffer;
    if sampleRate >= 1000 {
      FramesDoNotPanic(codec, stream, FrameSize(sampleRate), 0);
    }
  }

  lemma {:induction false} FramesDoNotPanic(codec: CodecCalls, stream: seq<byte>, frameSize: nat, i: nat)
    requires frameSize > 0 && RespectsBuffer(codec)
    ensures !EncodeFrames(stream, frameSize, codec, i).Panic?
    decreases |stream|
  {
    hide RespectsBuffer;
    if |stream| >= frameSize {
      FramesDoNotPanic(codec, stream[frameSize..], frameSize, i + 1);
    }
  }

  // ----- the counter

  /** The little-endian u16 at position i. */
  function WordAt(data: seq<byte>, i: nat): nat
    requires i + 2 <= |data|
  {
    data[i] as int + data[i + 1] as int * 256
  }

  /** How many blocks the counter sees from position i on, and where its cursor stops. */
  function CountFrom(data: seq<byte>, i: nat): (nat, nat)
    decreases |data| - i
  {
    if i + 2 > |data| then (0, i)
    else
      var (n, end) := CountFrom(data, i + 2 + WordAt(data, i));
      (n + 1, end)
  }

  /** The iterator of get_ten_silk_time, before the count is scaled to seconds. */
  method CountBlocks(data: seq<byte>) returns (count: nat, cursor: nat)
    ensures (count, cursor) == CountFrom(data, 10)
  {
    var i := 10;
    count := 0;
    while i + 2 <= |data|
      invariant CountFrom(data, 10) == (count + CountFrom(data, i).0, CountFrom(data, i).1)
      decreases |data| - i
    {
      var blockLen := WordAt(data, i);
      i := i + 2 + blockLen;
      count := count + 1;
    }
    cursor := i;
  }

  /** The counter steps over one frame. */
  lemma CountStep(data: seq<byte>, i: nat, bytes: seq<byte>, rest: seq<byte>)
    requires i <= |data| && |bytes| <= MAX_OUTPUT && data[i..] == Framed(bytes) + rest
    ensures CountFrom(data, i) == (CountFrom(data, i + 2 + |bytes|).0 + 1, CountFrom(data, i + 2 + |bytes|).1)
    ensures i + 2 + |bytes| <= |data| && data[i + 2 + |bytes|..] == rest
  {
    var s := Framed(bytes) + rest;
    assert data[i] == s[0] == |bytes| % 256 && data[i + 1] == s[1] == |bytes| / 256;
    assert WordAt(data, i) == |bytes|;
    assert data[i + 2 + |bytes|..] == data[i..][2 + |bytes|..];
  }

  lemma {:induction false} CountOfFrames(data: seq<byte>, at: nat, stream: seq<byte>, frameSize: nat, codec: CodecCalls, i: nat)
    requires frameSize > 0 && RespectsBuffer(codec)
    requires at <= |data| && EncodeFrames(stream, frameSize, codec, i) == Ok(data[at..])
    ensures CountFrom(data, at) == (|stream| / frameSize, |data|)
    decreases |stream|
  {
    hide RespectsBuffer, CountFrom, Framed;
    if |stream| < frameSize {
      QuotientIs(|stream|, frameSize, 0, |stream|);
      CountAtEnd(data, at);
    } else {
      BufferBound(codec, i, stream[..frameSize]);
      var bytes := codec(i, stream[..frameSize]).bytes;
      var rest := EncodeFrames(stream[frameSize..], frameSize, codec, i + 1).value;
      CountStep(data, at, bytes, rest);
      CountOfFrames(data, at + 2 + |bytes|, stream[frameSize..], frameSize, codec, i + 1);
      QuotientStep(|stream|, frameSize);
    }
  }

  lemma CountAtEnd(data: seq<byte>, i: nat)
    requires i <= |data| && data[i..] == []
    ensures CountFrom(data, i) == (0, |data|)
  {
    assert |data[i..]| == |data| - i;
  }

  lemma QuotientStep(n: nat, d: nat)
    requires n >= d > 0
    ensures (n - d) / d + 1 == n / d
  {
    QuotientIs(n - d, d, n / d - 1, n % d);
  }

  /** In the encoder's output the counter finds one block for every whole frame of samples, and ends at its end. */
  lemma CounterAgrees(stream: seq<byte>, sampleRate: nat, codec: CodecCalls)
    requires RespectsBuffer(codec) && Encoded(stream, sampleRate, codec).Ok?
    ensures sampleRate >= 1000
    ensures var data := Encoded(stream, sampleRate, codec).value;
            CountFrom(data, 10) == (|stream| / (sampleRate / 1000 * 40), |data|)
  {
    hide RespectsBuffer;
    var data, frames := Encoded(stream, sampleRate, codec).value, EncodeFrames(stream, FrameSize(sampleRate), codec, 0).value;
    assert data == HEADER + frames && data[10..] == frames;
    CountOfFrames(data, 10, stream, FrameSize(sampleRate), codec, 0);
  }

  /** On any input the cursor never goes back, and the counter counts no more blocks than two bytes each allow. */
  lemma {:induction false} CountBound(data: seq<byte>, i: nat)
    requires i <= |data|
    ensures 2 * CountFrom(data, i).0 <= |data| - i
    ensures CountFrom(data, i).1 >= i && CountFrom(data, i).1 + 2 > |data|
    decreases |data| - i
  {
    if i + 2 <= |data| {
      var next := i + 2 + WordAt(data, i);
      if next <= |data| {
        CountBound(data, next);
      }
    }
  }
}

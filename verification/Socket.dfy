/** The framing loop of the connection (socket.rs, recv_loop) over the bytes that the server sends. */
module Socket {
  import opened Wrappers
  import opened ByteOrder
  import opened Packet

  const MAX_PACKET := 1024 * 1024 * 64

  /** How the loop stops on a finite stream: at its end, or by a panic on a length below 4. */
  datatype End = Eof | Panicked

  /** The packets that the loop delivers from a stream, and how it stops. */
  function Receive(stream: seq<byte>): (seq<seq<byte>>, End)
    decreases |stream|
  {
    if |stream| < 4 then ([], Eof)
    else
      var length, rest := FromBigEndian(stream[..4]), stream[4..];
      if length > MAX_PACKET then Receive(rest)
      else if length < 4 then ([], Panicked)
      else if |rest| < length - 4 then ([], Eof)
      else
        var (packets, end) := Receive(rest[length - 4..]);
        ([BigEndian(length, 4) + rest[..length - 4]] + packets, end)
  }

  /** The read half of the connection. */
  class Stream {
    const data: seq<byte>
    var pos: nat

    ghost predicate Valid()
      reads this
    {
      pos <= |data|
    }

    constructor (data: seq<byte>)
      ensures Valid() && this.data == data && pos == 0
    {
      this.data := data;
      pos := 0;
    }

    /** read_exact; None is an unexpected end of the stream. */
    method ReadExact(n: nat) returns (r: Option<seq<byte>>)
      requires Valid()
      modifies this
      ensures Valid()
      ensures r.Some? <==> old(pos) + n <= |data|
      ensures r.Some? ==> pos == old(pos) + n && r.value == data[old(pos)..pos]
      ensures r.None? ==> pos == old(pos)
    {
      if pos + n > |data| {
        return None;
      }
      r := Some(data[pos..pos + n]);
      pos := pos + n;
    }
  }

  /** One turn of the loop, case by case. */
  lemma ReceiveTurn(stream: seq<byte>)
    requires |stream| >= 4
    ensures var length, rest := FromBigEndian(stream[..4]), stream[4..];
            if length > MAX_PACKET then Receive(stream) == Receive(rest)
            else if length < 4 then Receive(stream) == ([], Panicked)
            else if |rest| < length - 4 then Receive(stream) == ([], Eof)
            else
              && Receive(stream).0 == [BigEndian(length, 4) + rest[..length - 4]] + Receive(rest[length - 4..]).0
              && Receive(stream).1 == Receive(rest[length - 4..]).1
  {
    hide BigEndian, FromBigEndian;
  }

  /** recv_loop, with the packets it sends to the channel collected in order. */
  method RecvLoop(stream: Stream) returns (delivered: seq<seq<byte>>, end: End)
    requires stream.Valid()
    modifies stream
    ensures delivered == Receive(old(stream.data[stream.pos..])).0
    ensures end == Receive(old(stream.data[stream.pos..])).1
  {
    hide BigEndian, FromBigEndian, Receive;
    delivered := [];
    ghost var input := stream.data[stream.pos..];
    while true
      invariant stream.Valid()
      invariant Receive(input).0 == delivered + Receive(stream.data[stream.pos..]).0
      invariant Receive(input).1 == Receive(stream.data[stream.pos..]).1
      decreases |stream.data| - stream.pos
    {
      ghost var here := stream.data[stream.pos..];
      var header := stream.ReadExact(4);
      if header.None? {
        ReceiveShort(here);
        return delivered, Eof;
      }
      ReceiveTurn(here);
      assert header.value == here[..4];
      assert stream.data[stream.pos..] == here[4..];
      var length := FromBigEndian(header.value);
      if length > MAX_PACKET {
        continue;
      }
      var buffer := seq(length, _ => 0);
      if length < 4 {
        return delivered, Panicked;
      }
      buffer := BigEndian(length, 4) + buffer[4..];
      var body := stream.ReadExact(length - 4);
      if body.None? {
        return delivered, Eof;
      }
      assert body.value == here[4..][..length - 4];
      assert stream.data[stream.pos..] == here[4..][length - 4..];
      buffer := buffer[..4] + body.value;
      assert buffer == BigEndian(length, 4) + here[4..][..length - 4];
      delivered := delivered + [buffer];
    }
  }

  lemma ReceiveShort(stream: seq<byte>)
    requires |stream| < 4
    ensures Receive(stream) == ([], Eof)
  {
  }

  /** A packet whose first four bytes are its own length, of 4 bytes to 64 MiB. */
  predicate IsPacket(p: seq<byte>) {
    4 <= |p| <= MAX_PACKET && FromBigEndian(p[..4]) == |p|
  }

  /** What the loop makes of one packet at the front of the stream. */
  lemma ReceivePacket(p: seq<byte>, rest: seq<byte>)
    requires IsPacket(p)
    ensures Receive(p + rest).0 == [p] + Receive(rest).0 && Receive(p + rest).1 == Receive(rest).1
  {
    hide BigEndian, FromBigEndian;
    var stream := p + rest;
    FromBigEndianRoundTrip(p[..4]);
    assert stream[..4] == p[..4];
    assert stream[4..][..|p| - 4] == p[4..];
    assert stream[4..][|p| - 4..] == rest;
    assert p == p[..4] + p[4..];
  }

  /** A list of packets, however they are packed together, is delivered whole and in order. */
  lemma {:induction false} ReceiveAll(ps: seq<seq<byte>>, rest: seq<byte>)
    requires forall p :: p in ps ==> IsPacket(p)
    ensures Receive(Concat(ps) + rest).0 == ps + Receive(rest).0
    ensures Receive(Concat(ps) + rest).1 == Receive(rest).1
  {
    hide Receive, IsPacket;
    if ps == [] {
      assert Concat(ps) + rest == rest;
    } else {
      assert Concat(ps) + rest == ps[0] + (Concat(ps[1..]) + rest);
      ReceivePacket(ps[0], Concat(ps[1..]) + rest);
      ReceiveAll(ps[1..], rest);
    }
  }

  /** Everything that is ever delivered is a packet. */
  lemma {:induction false} DeliversPackets(stream: seq<byte>)
    ensures forall p :: p in Receive(stream).0 ==> IsPacket(p)
    decreases |stream|
  {
    hide BigEndian, FromBigEndian;
    if |stream| >= 4 {
      var length, rest := FromBigEndian(stream[..4]), stream[4..];
      LimitValues();
      if length > MAX_PACKET {
        DeliversPackets(rest);
      } else if 4 <= length <= |rest| + 4 {
        DeliversPackets(rest[length - 4..]);
        BigEndianRoundTrip(length, 4);
        var p := BigEndian(length, 4) + rest[..length - 4];
        assert p[..4] == BigEndian(length, 4);
      }
    }
  }

  /** Whatever an outermost section builds is delivered, if it is not larger than 64 MiB. */
  lemma SectionIsPacket(body: seq<Field>)
    requires |EncodeAll(body)| + 4 <= MAX_PACKET
    ensures IsPacket(Encode(Framed(Section(4), body)))
  {
    hide Encode, EncodeAll, FromBigEndian;
    SectionLength(body);
  }

  /** The body of an oversized packet stays in the stream and is taken for the next packets. */
  lemma OversizedNotDrained(length: u32, body: seq<byte>)
    requires length > MAX_PACKET
    ensures Receive(BigEndian(length, 4) + body) == Receive(body)
  {
    hide BigEndian, FromBigEndian;
    LimitValues();
    BigEndianRoundTrip(length, 4);
    var stream := BigEndian(length, 4) + body;
    assert stream[..4] == BigEndian(length, 4) && stream[4..] == body;
  }

  /** All packets inside the body of an oversized one are delivered as if they had been sent on their own. */
  lemma OversizedBody(length: u32, inside: seq<seq<byte>>, ps: seq<seq<byte>>)
    requires length > MAX_PACKET
    requires forall p :: p in inside + ps ==> IsPacket(p)
    ensures Receive(BigEndian(length, 4) + (Concat(inside) + Concat(ps))) == (inside + ps, Eof)
  {
    hide Receive, IsPacket, BigEndian, Concat;
    OversizedNotDrained(length, Concat(inside) + Concat(ps));
    ReceiveAll(inside, Concat(ps));
    ReceiveAll(ps, []);
    assert Concat(ps) + [] == Concat(ps) && ps + [] == ps;
    ReceiveShort([]);
  }

  /** A packet as the other side frames it, of any size that its length field can state. */
  predicate StatesLength(p: seq<byte>) {
    |p| >= 4 && FromBigEndian(p[..4]) == |p|
  }

  /** The packets of a stream are all delivered, in order and up to its end, exactly when none of them is oversized. */
  lemma ReceiveAllIff(ps: seq<seq<byte>>)
    requires forall p :: p in ps ==> StatesLength(p)
    ensures Receive(Concat(ps)) == (ps, Eof) <==> forall p :: p in ps ==> |p| <= 0x400_0000
  {
    hide Receive, Concat, FromBigEndian;
    if forall p :: p in ps ==> |p| <= MAX_PACKET {
      ReceiveAll(ps, []);
      ReceiveShort([]);
      assert Concat(ps) + [] == Concat(ps);
      assert ps + [] == ps;
    } else {
      DeliversPackets(Concat(ps));
    }
  }

  /** How the loop ends on a finite stream: it panics on a length below 4, and waits in vain inside a packet or its length. */
  lemma HowItEnds(length: u32, part: seq<byte>)
    requires length <= 0x400_0000
    ensures length < 4 ==> Receive(BigEndian(length, 4) + part) == ([], Panicked)
    ensures length >= 4 && |part| < length - 4 ==> Receive(BigEndian(length, 4) + part) == ([], Eof)
    ensures |part| < 4 ==> Receive(part) == ([], Eof)
  {
    hide BigEndian, FromBigEndian;
    LimitValues();
    BigEndianRoundTrip(length, 4);
    var stream := BigEndian(length, 4) + part;
    assert stream[..4] == BigEndian(length, 4) && stream[4..] == part;
  }
}

/**
 What a server sends, written as a specification encoder for the layout that SsoPacket::parse reads, and what
 parsing makes of every such frame. SsoPacket::build writes other layouts and is not an inverse of parse.
 */
module ServerFrame {
  import opened Wrappers
  import opened ByteOrder
  import opened Packet
  import opened SsoPacket
  import Decimal
  import Tea

  datatype Body = Body(length: u32, sequence: u32, retCode: u32, extra: seq<byte>, command: seq<byte>,
                       unknown: seq<byte>, compressed: u32, dummy: seq<byte>, content: seq<byte>)

  /** fill is the random fill of an encrypted body; trailing is whatever follows an inner section. */
  datatype Frame = Frame(length: u32, protocol: u32, authFlag: byte, flag: byte, uin: seq<byte>,
                         fill: seq<byte>, body: Body, trailing: seq<byte>)

  predicate FitsSection(s: seq<byte>) {
    |s| + 4 < U32_LIMIT
  }

  predicate FitsBody(b: Body) {
    FitsSection(b.extra) && FitsSection(b.command) && FitsSection(b.unknown)
    && |b.dummy| < U32_LIMIT && FitsSection(b.content)
  }

  function Sect(s: seq<byte>): seq<byte> {
    Wrapped(Section(4), s)
  }

  /** An uncompressed content is carried as it is, a compressed one in a section, which may have a trailer. */
  function EncodeBody(b: Body, trailing: seq<byte>): seq<byte> {
    BigEndian(b.length, 4) + (BigEndian(b.sequence, 4) + (BigEndian(b.retCode, 4)
    + (Sect(b.extra) + (Sect(b.command) + (Sect(b.unknown) + (BigEndian(b.compressed, 4)
    + (Wrapped(Prefixed(4, false, 0), b.dummy) + EncodeTail(b, trailing))))))))
  }

  function EncodeTail(b: Body, trailing: seq<byte>): seq<byte> {
    if b.compressed == 0 then b.content else Sect(b.content) + trailing
  }

  predicate Fits(f: Frame) {
    FitsSection(f.uin) && FitsBody(f.body)
    && (f.authFlag in {1, 2} ==> Tea.IsFill(EncodeBody(f.body, f.trailing), f.fill))
  }

  function Locked(f: Frame, ctx: Context): seq<byte>
    requires Fits(f)
  {
    var plain := EncodeBody(f.body, f.trailing);
    if f.authFlag == 1 then Tea.Encrypted(Tea.CipherOf(ctx.d2Key), plain, f.fill)
    else if f.authFlag == 2 then Tea.Encrypted(Tea.CipherOf(Zeros(16)), plain, f.fill)
    else plain
  }

  function EncodeFrame(f: Frame, ctx: Context): seq<byte>
    requires Fits(f)
  {
    BigEndian(f.length, 4) + (BigEndian(f.protocol, 4) + ([f.authFlag] + ([f.flag] + (Sect(f.uin) + Locked(f, ctx)))))
  }

  /** The code between -2^31 and 2^31 that is sent as this u32. */
  function SignedCode(n: u32): int {
    (n + 0x8000_0000) % 0x1_0000_0000 - 0x8000_0000
  }

  /** What the body of a well-formed frame means. */
  function MeaningOfBody(b: Body, inflate: Inflate): Result<SsoPacket> {
    if b.compressed != 0 && inflate(b.content).None? then Err(InflateFailed)
    else if b.retCode != 0 then Err(RetFailed(b.command, b.sequence, SignedCode(b.retCode), b.extra))
    else Ok(SsoPacket(T12, b.command, b.sequence, if b.compressed == 0 then b.content else Rebuilt(inflate(b.content).value)))
  }

  /** What a well-formed frame means to a client: the first reason to reject it, or the packet it carries. */
  function Meaning(f: Frame, ctx: Context, inflate: Inflate): Result<SsoPacket> {
    if f.protocol != 12 && f.protocol != 13 then Err(UnknownSsoPacketType(f.protocol))
    else if Decimal.ParseU32(f.uin).None? then Err(InvalidUin(f.uin))
    else if f.protocol == 12 && Decimal.ParseU32(f.uin).value != ctx.uin
    then Err(UinMismatch(ctx.uin, Decimal.ParseU32(f.uin).value))
    else if f.authFlag > 2 then Err(UnknownAuthFlag(f.authFlag))
    else MeaningOfBody(f.body, inflate)
  }

  lemma NextU32Of(n: u32, rest: seq<byte>)
    ensures NextU32(BigEndian(n, 4) + rest) == Some((n, rest))
  {
    LimitValues();
    TakeIntOf(n, 4, rest);
  }

  lemma NextSectionOf(s: seq<byte>, rest: seq<byte>)
    requires FitsSection(s)
    ensures NextSection(Sect(s) + rest) == Some((s, rest))
  {
    LimitValues();
    TakeWrapped(Section(4), s, rest);
  }

  lemma DummyOf(s: seq<byte>, rest: seq<byte>)
    requires |s| < U32_LIMIT
    ensures TakeFrame(DUMMY_HEADER, Wrapped(DUMMY_HEADER, s) + rest) == Some((s, rest))
  {
    LimitValues();
    TakeWrapped(DUMMY_HEADER, s, rest);
  }

  lemma OpenTailOf(b: Body, trailing: seq<byte>, inflate: Inflate)
    requires FitsBody(b)
    ensures OpenTail(b.compressed, EncodeTail(b, trailing), inflate)
            == if b.compressed == 0 then Ok(b.content)
               else if inflate(b.content).None? then Err(InflateFailed)
               else Ok(Rebuilt(inflate(b.content).value))
  {
    hide NextSection;
    if b.compressed != 0 {
      NextSectionOf(b.content, trailing);
    }
  }

  /** Parsing the body of a frame finds its meaning. */
  lemma ParseBodyOf(b: Body, trailing: seq<byte>, inflate: Inflate)
    requires FitsBody(b)
    ensures ParseBody(EncodeBody(b, trailing), inflate) == MeaningOfBody(b, inflate)
  {
    hide NextU32, NextSection, TakeFrame, BigEndian, Sect, Wrapped, OpenTail, EncodeTail;
    var tail := EncodeTail(b, trailing);
    var s8 := Wrapped(Prefixed(4, false, 0), b.dummy) + tail;
    var s7 := BigEndian(b.compressed, 4) + s8;
    var s6 := Sect(b.unknown) + s7;
    var s5 := Sect(b.command) + s6;
    var s4 := Sect(b.extra) + s5;
    var s3 := BigEndian(b.retCode, 4) + s4;
    var s2 := BigEndian(b.sequence, 4) + s3;
    NextU32Of(b.length, s2);
    NextU32Of(b.sequence, s3);
    NextU32Of(b.retCode, s4);
    NextSectionOf(b.extra, s5);
    NextSectionOf(b.command, s6);
    NextSectionOf(b.unknown, s7);
    NextU32Of(b.compressed, s8);
    DummyOf(b.dummy, tail);
    OpenTailOf(b, trailing, inflate);
  }

  lemma UnlockOf(f: Frame, ctx: Context)
    requires Fits(f) && f.authFlag <= 2
    ensures Unlock(f.authFlag, Locked(f, ctx), ctx) == Ok(EncodeBody(f.body, f.trailing))
  {
    hide EncodeBody, Tea.Encrypted, Tea.Decrypted, Tea.CipherOf, Tea.IsFill;
    var plain := EncodeBody(f.body, f.trailing);
    if f.authFlag == 1 {
      Tea.RoundTrip(plain, ctx.d2Key, f.fill);
    } else if f.authFlag == 2 {
      assert Zeros(16) == ZERO_KEY;
      Tea.RoundTrip(plain, ZERO_KEY, f.fill);
    }
  }

  /** Parsing finds the meaning of every well-formed frame: each error in its order, and every packet. */
  lemma ParseOfFrame(f: Frame, ctx: Context, inflate: Inflate)
    requires Fits(f)
    ensures Parse(EncodeFrame(f, ctx), ctx, inflate) == Meaning(f, ctx, inflate)
  {
    hide NextU32, NextSection, BigEndian, Sect, Unlock, Locked, ParseBody, EncodeBody, MeaningOfBody, Decimal.ParseU32;
    var locked := Locked(f, ctx);
    var s5 := Sect(f.uin) + locked;
    var s4 := [f.flag] + s5;
    var s3 := [f.authFlag] + s4;
    NextU32Of(f.length, BigEndian(f.protocol, 4) + s3);
    NextU32Of(f.protocol, s3);
    assert NextU8(s3) == Some((f.authFlag, s4)) by {
      assert s3[1..] == s4;
    }
    assert NextU8(s4) == Some((f.flag, s5)) by {
      assert s4[1..] == s5;
    }
    NextSectionOf(f.uin, locked);
    if f.authFlag <= 2 {
      UnlockOf(f, ctx);
      ParseBodyOf(f.body, f.trailing, inflate);
    } else {
      assert Unlock(f.authFlag, locked, ctx) == Err(UnknownAuthFlag(f.authFlag)) by {
        UnknownFlag(f.authFlag, locked, ctx);
      }
    }
  }

  /** A frame whose return code is not 0 is rejected with exactly that code, negative ones included. */
  lemma ReturnCode(f: Frame, ctx: Context, inflate: Inflate, code: int)
    requires Fits(f) && f.protocol in {12, 13} && f.authFlag <= 2
    requires Decimal.ParseU32(f.uin).Some? && (f.protocol == 12 ==> Decimal.ParseU32(f.uin).value == ctx.uin)
    requires f.body.compressed == 0 || inflate(f.body.content).Some?
    requires -0x8000_0000 <= code < 0x8000_0000 && code != 0 && f.body.retCode == code % 0x1_0000_0000
    ensures Parse(EncodeFrame(f, ctx), ctx, inflate) == Err(RetFailed(f.body.command, f.body.sequence, code, f.body.extra))
  {
    hide Parse, EncodeFrame, Decimal.ParseU32;
    ParseOfFrame(f, ctx, inflate);
  }

  lemma UnknownFlag(authFlag: byte, body: seq<byte>, ctx: Context)
    requires authFlag > 2
    ensures Unlock(authFlag, body, ctx) == Err(UnknownAuthFlag(authFlag))
  {
  }

  /** What resolve_event hands to the parser of the packet's command. */
  datatype Event = Event(command: seq<byte>, payload: seq<byte>)

  datatype EventError = UnsupportedEvent(command: seq<byte>)

  /** resolve_event: the payload section is read before the command is looked up. */
  function ResolveEvent(packet: SsoPacket, commands: set<seq<byte>>): Outcome<Event, EventError> {
    var (payload, _) :- OrPanic(NextSection(packet.payload));
    if packet.command in commands then Ok(Event(packet.command, payload))
    else Err(UnsupportedEvent(packet.command))
  }

  /** The payload is read first: without a section in front it is a panic, whatever the command. */
  lemma EventWithoutPayload(packet: SsoPacket, commands: set<seq<byte>>)
    requires |packet.payload| < 4
    ensures ResolveEvent(packet, commands) == Panic
  {
  }

  /** The content field of a frame that carries this payload, given the other end's compressor. */
  ghost predicate Carries(b: Body, payload: seq<byte>, inflate: Inflate) {
    if b.compressed == 0 then exists junk :: b.content == Sect(payload) + junk
    else inflate(b.content) == Some(payload)
  }

  /**
   Whatever the authentication flag, and compressed or not, the client recovers sequence, command and payload of
   every successful frame of its own account.
   */
  lemma PayloadRecovered(f: Frame, payload: seq<byte>, ctx: Context, inflate: Inflate, commands: set<seq<byte>>)
    requires Fits(f) && f.authFlag <= 2 && f.body.retCode == 0
    requires f.protocol in {12, 13} && f.uin == Decimal.ToDecimal(ctx.uin)
    requires FitsSection(payload) && Carries(f.body, payload, inflate)
    ensures var r := Parse(EncodeFrame(f, ctx), ctx, inflate);
            && r.Ok?
            && r.value.sequence == f.body.sequence
            && r.value.command == f.body.command
            && ResolveEvent(r.value, commands)
               == if f.body.command in commands then Ok(Event(f.body.command, payload))
                  else Err(UnsupportedEvent(f.body.command))
  {
    hide EncodeFrame, Parse, NextSection, BigEndian, Sect, Wrapped, Decimal.ParseU32;
    ParseOfFrame(f, ctx, inflate);
    Decimal.ParseOfDecimal(ctx.uin);
    if f.body.compressed == 0 {
      var junk :| f.body.content == Sect(payload) + junk;
      NextSectionOf(payload, junk);
    } else {
      RebuiltIsSection(payload);
      NextSectionOf(payload, []);
      assert Sect(payload) + [] == Sect(payload);
    }
  }

  /** Rebuilding the length of an inflated body makes it a section again. */
  lemma RebuiltIsSection(plain: seq<byte>)
    requires FitsSection(plain)
    ensures Rebuilt(plain) == Sect(plain)
  {
    LimitValues();
    assert EncodeAll([Raw(plain)]) == plain;
    EncodeFramed(Section(4), [Raw(plain)], []);
  }
}

/** The receive side of SsoPacket (packet.rs, SsoPacket::parse) and the payload extraction of event.rs. */
module SsoPacket {
  import opened Wrappers
  import opened ByteOrder
  import opened Packet
  import Decimal
  import Tea

  datatype PacketType = T12 | T13

  datatype SsoPacket = SsoPacket(packetType: PacketType, command: seq<byte>, sequence: u32, payload: seq<byte>)

  datatype PacketError =
    | UnknownSsoPacketType(value: u32)
    | UnknownAuthFlag(flag: byte)
    | InvalidUin(text: seq<byte>)
    | UinMismatch(expected: u32, got: u32)
    | InflateFailed
    | RetFailed(command: seq<byte>, sequence: u32, retCode: int, extra: seq<byte>)

  type TeaKey = k: seq<byte> | |k| == 16 witness [0, 0, 0, 0, 0, 0, 0, 0, 0, 0, 0, 0, 0, 0, 0, 0]

  /** The account and the key that parsing reads from the key store. */
  datatype Context = Context(uin: u32, d2Key: TeaKey)

  /** The zlib decoder: None where it reports an error. */
  type Inflate = seq<byte> -> Option<seq<byte>>

  type Result<T> = Outcome<T, PacketError>

  const ZERO_KEY: TeaKey := [0, 0, 0, 0, 0, 0, 0, 0, 0, 0, 0, 0, 0, 0, 0, 0]

  function ToPacketType(n: u32): Result<PacketType> {
    match n
    case 12 => Ok(T12)
    case 13 => Ok(T13)
    case _ => Err(UnknownSsoPacketType(n))
  }

  /** A u32 read as an i32. */
  function Signed(n: u32): int {
    if n < 0x8000_0000 then n else n - U32_LIMIT
  }

  function NextU32(input: seq<byte>): Option<(u32, seq<byte>)> {
    var (n, rest) :- TakeInt(4, input);
    LimitValues();
    FromBigEndianRoundTrip(input[..4]);
    Some((n, rest))
  }

  function NextU8(input: seq<byte>): Option<(byte, seq<byte>)> {
    if input == [] then None else Some((input[0], input[1..]))
  }

  /** reader.section with a closure that takes everything. */
  function NextSection(input: seq<byte>): Option<(seq<byte>, seq<byte>)> {
    TakeFrame(Section(4), input)
  }

  const DUMMY_HEADER: Frame := Prefixed(4, false, 0)

  /** The body behind the authentication flag. */
  function Unlock(authFlag: byte, body: seq<byte>, ctx: Context): Result<seq<byte>> {
    match authFlag
    case 0 => Ok(body)
    case 1 => OrPanic(Tea.Decrypted(Tea.CipherOf(ctx.d2Key), body))
    case 2 => OrPanic(Tea.Decrypted(Tea.CipherOf(ZERO_KEY), body))
    case _ => Err(UnknownAuthFlag(authFlag))
  }

  /** The inflated body behind a rebuilt 32-bit length that counts itself. */
  function Rebuilt(plain: seq<byte>): seq<byte> {
    BigEndian(Cut(|plain| + 4, 4), 4) + plain
  }

  /** The tail of a packet: the rest of the reader, or the inflated section in front of it. */
  function OpenTail(compressed: u32, tail: seq<byte>, inflate: Inflate): Result<seq<byte>> {
    if compressed == 0 then Ok(tail)
    else
      var (body, _) :- OrPanic(NextSection(tail));
      match inflate(body)
      case None => Err(InflateFailed)
      case Some(plain) => Ok(Rebuilt(plain))
  }

  function ParseBody(body: seq<byte>, inflate: Inflate): Result<SsoPacket> {
    var (_, input) :- OrPanic(NextU32(body));
    var (sequence, input) :- OrPanic(NextU32(input));
    var (ret, input) :- OrPanic(NextU32(input));
    var (extra, input) :- OrPanic(NextSection(input));
    var (command, input) :- OrPanic(NextSection(input));
    var (_, input) :- OrPanic(NextSection(input));
    var (compressed, input) :- OrPanic(NextU32(input));
    var (_, input) :- OrPanic(TakeFrame(DUMMY_HEADER, input));
    var payload :- OpenTail(compressed, input, inflate);
    if ret == 0 then Ok(SsoPacket(T12, command, sequence, payload))
    else Err(RetFailed(command, sequence, Signed(ret), extra))
  }

  function Parse(packet: seq<byte>, ctx: Context, inflate: Inflate): Result<SsoPacket> {
    var (_, input) :- OrPanic(NextU32(packet));
    var (protocol, input) :- OrPanic(NextU32(input));
    var packetType :- ToPacketType(protocol);
    var (authFlag, input) :- OrPanic(NextU8(input));
    var (_, input) :- OrPanic(NextU8(input));
    var (text, input) :- OrPanic(NextSection(input));
    match Decimal.ParseU32(text)
    case None => Err(InvalidUin(text))
    case Some(uin) =>
      if uin != ctx.uin && packetType == T12 then Err(UinMismatch(ctx.uin, uin))
      else
        var body :- Unlock(authFlag, input, ctx);
        ParseBody(body, inflate)
  }

  /** SsoPacket::parse, with its two readers. */
  method ParsePacket(packet: seq<byte>, ctx: Context, inflate: Inflate) returns (r: Result<SsoPacket>)
    ensures r == Parse(packet, ctx, inflate)
  {
    hide TakeInt, TakeFrame, Tea.Decrypted, Tea.CipherOf, BigEndian, FromBigEndian, Decimal.ParseU32;
    var reader := new PacketReader(packet);
    var length := ReadU32(reader);
    if length.None? { return Panic; }
    var protocol := ReadU32(reader);
    if protocol.None? { return Panic; }
    if protocol.value != 12 && protocol.value != 13 {
      return Err(UnknownSsoPacketType(protocol.value));
    }
    var authFlag := ReadU8(reader);
    if authFlag.None? { return Panic; }
    var flag := ReadU8(reader);
    if flag.None? { return Panic; }
    var text := reader.Enter(Section(4));
    if text.None? { return Panic; }
    var uin := Decimal.ParseU32(text.value);
    if uin.None? {
      return Err(InvalidUin(text.value));
    }
    if uin.value != ctx.uin && protocol.value == 12 {
      return Err(UinMismatch(ctx.uin, uin.value));
    }
    var body := reader.Rest();
    if authFlag.value == 1 || authFlag.value == 2 {
      var plain := Tea.TeaDecrypt(body, if authFlag.value == 1 then ctx.d2Key else ZERO_KEY);
      if plain.None? { return Panic; }
      body := plain.value;
    } else if authFlag.value != 0 {
      return Err(UnknownAuthFlag(authFlag.value));
    }
    r := ParseSso(body, inflate);
  }

  /** The second half of SsoPacket::parse. */
  method ParseSso(body: seq<byte>, inflate: Inflate) returns (r: Result<SsoPacket>)
    ensures r == ParseBody(body, inflate)
  {
    hide TakeInt, TakeFrame, BigEndian, FromBigEndian;
    var reader := new PacketReader(body);
    var length := ReadU32(reader);
    if length.None? { return Panic; }
    var sequence := ReadU32(reader);
    if sequence.None? { return Panic; }
    var retCode := ReadU32(reader);
    if retCode.None? { return Panic; }
    var extra := reader.Enter(Section(4));
    if extra.None? { return Panic; }
    var command := reader.Enter(Section(4));
    if command.None? { return Panic; }
    var unknown := reader.Enter(Section(4));
    if unknown.None? { return Panic; }
    var compressed := ReadU32(reader);
    if compressed.None? { return Panic; }
    var dummy := reader.Enter(DUMMY_HEADER);
    if dummy.None? { return Panic; }
    var payload;
    if compressed.value != 0 {
      var deflated := reader.Enter(Section(4));
      if deflated.None? { return Panic; }
      var plain := inflate(deflated.value);
      if plain.None? {
        return Err(InflateFailed);
      }
      payload := BigEndian(0, 4) + plain.value;
      payload := BigEndian(Cut(|payload|, 4), 4) + payload[4..];
    } else {
      payload := reader.Rest();
    }
    if retCode.value == 0 {
      r := Ok(SsoPacket(T12, command.value, sequence.value, payload));
    } else {
      r := Err(RetFailed(command.value, sequence.value, Signed(retCode.value), extra.value));
    }
  }

  method ReadU32(reader: PacketReader) returns (r: Option<u32>)
    modifies reader
    ensures r.Some? <==> NextU32(old(reader.reader)).Some?
    ensures r.Some? ==> NextU32(old(reader.reader)) == Some((r.value, reader.reader))
  {
    LimitValues();
    if |reader.reader| >= 4 {
      FromBigEndianRoundTrip(reader.reader[..4]);
    }
    var n :- reader.Int(4);
    r := Some(n);
  }

  method ReadU8(reader: PacketReader) returns (r: Option<byte>)
    modifies reader
    ensures r.Some? <==> NextU8(old(reader.reader)).Some?
    ensures r.Some? ==> NextU8(old(reader.reader)) == Some((r.value, reader.reader))
  {
    if reader.reader == [] {
      return None;
    }
    r := Some(reader.reader[0]);
    reader.reader := reader.reader[1..];
  }
}

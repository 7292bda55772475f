/** The wtlogin envelope: building it, building the trans_emp request inside it, and opening a reply (trans_emp.rs). */
module WtLogin {
  import opened Wrappers
  import opened ByteOrder
  import opened Packet
  import Tea
  import Sso = SsoPacket

  type TeaKey = Sso.TeaKey

  /** What building reads from the application, the session and the key store. */
  datatype Context = Context(uin: u32, appId: u32, clientVersion: u16, randomKey: seq<byte>, publicKey: seq<byte>,
                             sharedKey: TeaKey, tgtgtKey: TeaKey)

  // ----- build_wtlogin_packet

  function EnvelopeBody(ctx: Context, cmd: u16, sequence: u16, encrypted: seq<byte>): seq<Field> {
    [Int(2, 8001), Int(2, cmd), Int(2, sequence), Int(4, ctx.uin), Int(1, 3), Int(1, 135), Int(4, 0), Int(1, 19),
     Int(2, 0), Int(2, ctx.clientVersion), Int(4, 0), Int(1, 2), Int(1, 1), Raw(ctx.randomKey), Int(2, 0x0131),
     Int(2, 0x0001), Int(2, |ctx.publicKey|), Raw(ctx.publicKey), Raw(encrypted), Int(1, 3)]
  }

  function Envelope(ctx: Context, cmd: u16, sequence: u16, encrypted: seq<byte>): seq<Field> {
    [Int(1, 2), Framed(Prefixed(2, true, 1), EnvelopeBody(ctx, cmd, sequence, encrypted))]
  }

  lemma EncodeTwo(a: Field, b: Field)
    ensures EncodeAll([a, b]) == Encode(a) + Encode(b)
    ensures PanicsAny([a, b]) <==> Panics(a) || Panics(b)
  {
    assert [a, b][1..] == [b];
    assert [b][1..] == [];
    assert EncodeAll([b]) == Encode(b) + EncodeAll([]);
    assert PanicsAny([b]) <==> Panics(b) || PanicsAny([]);
  }

  /** The u16 at offset 1 counts the whole packet exactly when the whole packet is shorter than 64 KiB. */
  lemma EnvelopeLength(ctx: Context, cmd: u16, sequence: u16, encrypted: seq<byte>)
    ensures var packet := EncodeAll(Envelope(ctx, cmd, sequence, encrypted));
            && |packet| >= 3
            && (FromBigEndian(packet[1..3]) == |packet| <==> |packet| < U16_LIMIT)
  {
    hide EnvelopeBody;
    var body := EnvelopeBody(ctx, cmd, sequence, encrypted);
    PrefixedLength(1, 2, body, 3);
    EncodeTwo(Int(1, 2), Framed(Prefixed(2, true, 1), body));
  }

  /** A 16-bit length behind some bytes holds the true length exactly when that length fits. */
  lemma PrefixedLength(width: nat, value: nat, body: seq<Field>, overhead: nat)
    requires overhead == width + 2
    ensures var packet := BigEndian(value, width) + Encode(Framed(Prefixed(2, true, overhead - 2), body));
            && |packet| == overhead + |EncodeAll(body)|
            && (FromBigEndian(packet[width..width + 2]) == |packet| <==> |packet| < U16_LIMIT)
  {
    hide EncodeAll, Cut, BigEndian, FromBigEndian;
    LimitValues();
    var n := |EncodeAll(body)| + overhead;
    var head, size := BigEndian(value, width), BigEndian(Cut(n, 2), 2);
    BigEndianRoundTrip(Cut(n, 2), 2);
    assert Encode(Framed(Prefixed(2, true, overhead - 2), body)) == size + EncodeAll(body);
    assert (head + (size + EncodeAll(body)))[width..width + 2] == size;
  }

  lemma NoPanics(ctx: Context, cmd: u16, sequence: u16, encrypted: seq<byte>)
    ensures !PanicsAny(Envelope(ctx, cmd, sequence, encrypted))
  {
    hide PanicsAny;
    var body := EnvelopeBody(ctx, cmd, sequence, encrypted);
    PlainFieldsDoNotPanic(body);
    EncodeTwo(Int(1, 2), Framed(Prefixed(2, true, 1), body));
  }

  lemma {:induction false} PlainFieldsDoNotPanic(fs: seq<Field>)
    requires forall f :: f in fs ==> !f.Framed?
    ensures !PanicsAny(fs)
  {
    if fs != [] {
      PlainFieldsDoNotPanic(fs[1..]);
    }
  }

  /** build_wtlogin_packet, with its sequence number and the fill of its encryption as parameters. */
  method BuildEnvelope(ctx: Context, cmd: u16, sequence: u16, body: seq<byte>, fill: seq<byte>) returns (packet: seq<byte>)
    requires Tea.IsFill(body, fill)
    ensures packet == EncodeAll(Envelope(ctx, cmd, sequence, Tea.Encrypted(Tea.CipherOf(ctx.sharedKey), body, fill)))
  {
    hide *;
    var encrypted := Tea.TeaEncrypt(body, ctx.sharedKey, fill);
    var builder := new PacketBuilder();
    NoPanics(ctx, cmd, sequence, encrypted[..]);
    var ok := builder.WriteAll(Envelope(ctx, cmd, sequence, encrypted[..]));
    packet := builder.buffer;
    assert [] + packet == packet;
  }

  // ----- build_trans_emp_body

  function InnerFields(cmd: u16, tlvs: seq<byte>): seq<Field> {
    [Int(1, 2), Int(2, 43 + |tlvs| + 1), Int(2, cmd), Raw(Zeros(21)), Int(1, 3), Int(2, 0), Int(2, 0x32), Int(4, 0),
     Int(8, 0), Raw(tlvs), Int(1, 3)]
  }

  function RequestBody(timestamp: u32, cmd: u16, tlvs: seq<byte>): seq<byte> {
    EncodeAll([Int(4, timestamp), Raw(EncodeAll(InnerFields(cmd, tlvs)))])
  }

  function TransEmpFields(ctx: Context, request: seq<byte>): seq<Field> {
    [Int(1, 0), Int(2, |request|), Int(4, ctx.appId), Int(4, 0x72), Framed(Prefixed(2, false, 0), [Raw([])]),
     Framed(Prefixed(1, false, 0), [Raw([])]), Raw(request)]
  }

  /** Peels the first field off a list. */
  lemma EncodeFrom(fs: seq<Field>, i: nat)
    requires i < |fs|
    ensures EncodeAll(fs[i..]) == Encode(fs[i]) + EncodeAll(fs[i + 1..])
  {
    assert fs[i..][1..] == fs[i + 1..];
  }

  /** The second field of a packet, when the first is one byte and the second a u16 that is cut to fit. */
  lemma SecondField(fs: seq<Field>, n: nat)
    requires |fs| >= 2 && fs[0].Int? && fs[0].width == 1 && fs[1] == Int(2, n)
    ensures |EncodeAll(fs)| >= 3
    ensures FromBigEndian(EncodeAll(fs)[1..3]) == n % U16_LIMIT
  {
    hide EncodeAll, FromBigEndian, BigEndian;
    assert fs[0..] == fs;
    EncodeFrom(fs, 0);
    EncodeFrom(fs, 1);
    assert EncodeAll(fs)[1..3] == BigEndian(n, 2);
    LowBytes(n);
  }

  lemma LowBytes(n: nat)
    ensures FromBigEndian(BigEndian(n, 2)) == n % U16_LIMIT
  {
    var high, low := n / 256 % 256, n % 256;
    assert BigEndian(n / 256, 1) == [high];
    assert BigEndian(n, 2) == [high, low];
    TwoBytes(high, low);
    assert high * 256 + low == n % U16_LIMIT;
  }

  lemma TwoBytes(a: byte, b: byte)
    ensures FromBigEndian([a, b]) == a as int * 256 + b
  {
    assert [a, b][..1] == [a];
    OneByte([a]);
  }

  lemma InnerSize(cmd: u16, tlvs: seq<byte>)
    ensures |EncodeAll(InnerFields(cmd, tlvs))| == 43 + |tlvs| + 1
  {
    hide EncodeAll, BigEndian;
    var fs := InnerFields(cmd, tlvs);
    assert fs[0..] == fs && fs[11..] == [];
    for i := 0 to 11
      invariant |EncodeAll(fs)| == SizeUpTo(i, |tlvs|) + |EncodeAll(fs[i..])|
    {
      EncodeFrom(fs, i);
    }
    EncodeNone();
  }

  /** The bytes in front of field i of the inner packet. */
  function SizeUpTo(i: nat, tlvs: nat): nat {
    match i
    case 0 => 0
    case 1 => 1
    case 2 => 3
    case 3 => 5
    case 4 => 26
    case 5 => 27
    case 6 => 29
    case 7 => 31
    case 8 => 35
    case 9 => 43
    case 10 => 43 + tlvs
    case _ => 44 + tlvs
  }

  lemma EncodeNone()
    ensures EncodeAll([]) == []
  {
  }

  /** Each u16 at offset 1 is the length it describes exactly when that length fits. */
  lemma TransEmpLengths(ctx: Context, timestamp: u32, cmd: u16, tlvs: seq<byte>)
    ensures var inner := EncodeAll(InnerFields(cmd, tlvs));
            var request := RequestBody(timestamp, cmd, tlvs);
            var packet := EncodeAll(TransEmpFields(ctx, request));
            && |inner| >= 3 && |packet| >= 3 && |request| == 4 + |inner|
            && request[4..] == inner
            && (FromBigEndian(inner[1..3]) == |inner| <==> |inner| < U16_LIMIT)
            && (FromBigEndian(packet[1..3]) == |request| <==> |request| < U16_LIMIT)
  {
    hide EncodeAll, FromBigEndian, BigEndian;
    InnerSize(cmd, tlvs);
    SecondField(InnerFields(cmd, tlvs), 43 + |tlvs| + 1);
    EncodeTwo(Int(4, timestamp), Raw(EncodeAll(InnerFields(cmd, tlvs))));
    var request := RequestBody(timestamp, cmd, tlvs);
    SecondField(TransEmpFields(ctx, request), |request|);
  }

  // ----- parse_wtlogin_packet

  datatype LoginError =
    | InvalidHeader
    | InvalidEnd
    | MissingTlv(tag: u16)
    | UnsupportedCommand(command: u16)
    | UnknownState(state: byte)

  type Result<T> = Outcome<T, LoginError>

  /** The number of bytes that are skipped behind the header byte: length, version, command, sequence, uin, flag, time. */
  const SKIPPED := 2 + 2 + 2 + 2 + 4 + 1 + 2

  function OpenEnvelope(packet: seq<byte>, key: TeaKey): Result<seq<byte>> {
    if packet == [] then Panic
    else if packet[0] != 2 then Err(InvalidHeader)
    else if |packet| < 1 + SKIPPED + 1 then Panic
    else if packet[|packet| - 1] != 3 then Err(InvalidEnd)
    else OrPanic(Tea.Decrypted(Tea.CipherOf(key), packet[1 + SKIPPED..|packet| - 1]))
  }

  /** parse_wtlogin_packet. */
  method ParseEnvelope(packet: seq<byte>, ctx: Context) returns (r: Result<seq<byte>>)
    ensures r == OpenEnvelope(packet, ctx.sharedKey)
  {
    hide Tea.Decrypted, Tea.CipherOf, FromBigEndian;
    var reader := new PacketReader(packet);
    var header := reader.Int(1);
    if header.None? { return Panic; }
    OneByte(packet[..1]);
    if header.value != 2 {
      return Err(InvalidHeader);
    }
    var skipped := reader.SplitTo(SKIPPED);
    if skipped.None? { return Panic; }
    var encrypted := reader.Rest();
    if encrypted == [] { return Panic; }
    assert encrypted == packet[1..][SKIPPED..] == packet[1 + SKIPPED..];
    if encrypted[|encrypted| - 1] != 3 {
      return Err(InvalidEnd);
    }
    assert encrypted[..|encrypted| - 1] == packet[1 + SKIPPED..|packet| - 1];
    var plain := Tea.TeaDecrypt(encrypted[..|encrypted| - 1], ctx.sharedKey);
    r := OrPanic(plain);
  }

  lemma OneByte(s: seq<byte>)
    requires |s| == 1
    ensures FromBigEndian(s) == s[0]
  {
    assert FromBigEndian([]) == 0;
    assert s[..0] == [];
  }

  /** What a server sends: any skipped fields, the encrypted body, and the two marker bytes. */
  function ServerEnvelope(skipped: seq<byte>, key: TeaKey, body: seq<byte>, fill: seq<byte>): seq<byte>
    requires |skipped| == 15 && Tea.IsFill(body, fill)
  {
    [2] + skipped + Tea.Encrypted(Tea.CipherOf(key), body, fill) + [3]
  }

  lemma OpenOfEnvelope(skipped: seq<byte>, key: TeaKey, body: seq<byte>, fill: seq<byte>)
    requires |skipped| == 15 && Tea.IsFill(body, fill)
    ensures OpenEnvelope(ServerEnvelope(skipped, key, body, fill), key) == Ok(body)
  {
    hide Tea.Decrypted, Tea.CipherOf, Tea.Encrypted, Tea.IsFill;
    var encrypted := Tea.Encrypted(Tea.CipherOf(key), body, fill);
    var packet := ServerEnvelope(skipped, key, body, fill);
    assert packet[1 + SKIPPED..|packet| - 1] == encrypted;
    Tea.RoundTrip(body, key, fill);
  }

  /** Any packet of two marker bytes around fifteen skipped bytes and a rest: both markers are checked, the first one first. */
  lemma Markers(first: byte, skipped: seq<byte>, encrypted: seq<byte>, last: byte, key: TeaKey)
    requires |skipped| == 15
    ensures OpenEnvelope([first] + skipped + encrypted + [last], key)
            == if first != 2 then Err(InvalidHeader) else if last != 3 then Err(InvalidEnd)
               else OrPanic(Tea.Decrypted(Tea.CipherOf(key), encrypted))
  {
    hide Tea.Decrypted, Tea.CipherOf;
    var packet := [first] + skipped + encrypted + [last];
    assert packet[16..|packet| - 1] == encrypted;
  }

  /** A packet that ends before the second marker byte panics once its first one is right. */
  lemma TooShort(packet: seq<byte>, key: TeaKey)
    requires |packet| < 17
    ensures OpenEnvelope(packet, key) == if packet != [] && packet[0] != 2 then Err(InvalidHeader) else Panic
  {
  }

  // ----- the layouts in bytes

  function EnvelopeParts(ctx: Context, cmd: u16, sequence: u16, encrypted: seq<byte>): seq<seq<byte>> {
    [[31, 65], BigEndian(cmd, 2), BigEndian(sequence, 2), BigEndian(ctx.uin, 4), [3], [135], [0, 0, 0, 0], [19],
     [0, 0], BigEndian(ctx.clientVersion, 2), [0, 0, 0, 0], [2], [1], ctx.randomKey, [1, 49],
     [0, 1], BigEndian(|ctx.publicKey|, 2), ctx.publicKey, encrypted, [3]]
  }

  /** Every byte of build_wtlogin_packet, when its length fits. */
  lemma EnvelopeBytes(ctx: Context, cmd: u16, sequence: u16, encrypted: seq<byte>)
    requires |Concat(EnvelopeParts(ctx, cmd, sequence, encrypted))| + 3 < U16_LIMIT
    ensures var parts := Concat(EnvelopeParts(ctx, cmd, sequence, encrypted));
            EncodeAll(Envelope(ctx, cmd, sequence, encrypted)) == [2] + BigEndian(|parts| + 3, 2) + parts
  {
    EnvelopePartsAre(ctx, cmd, sequence, encrypted);
    LimitValues();
    ConstantBytes(2, 0, 0, 0);
    hide BigEndian, EnvelopeBody, EnvelopeParts, EncodeAll, Concat, Limit;
    var body := EnvelopeBody(ctx, cmd, sequence, encrypted);
    FittingFrame(Prefixed(2, true, 1), body);
    EncodeTwo(Int(1, 2), Framed(Prefixed(2, true, 1), body));
  }

  lemma EnvelopePartsAre(ctx: Context, cmd: u16, sequence: u16, encrypted: seq<byte>)
    ensures EncodeAll(EnvelopeBody(ctx, cmd, sequence, encrypted)) == Concat(EnvelopeParts(ctx, cmd, sequence, encrypted))
  {
    ConstantBytes(31, 65, 0, 0);
    ConstantBytes(3, 0, 0, 0);
    ConstantBytes(135, 0, 0, 0);
    ConstantBytes(0, 0, 0, 0);
    ConstantBytes(19, 0, 0, 0);
    ConstantBytes(2, 0, 0, 0);
    ConstantBytes(1, 49, 0, 0);
    ConstantBytes(0, 1, 0, 0);
    hide BigEndian, EncodeAll, Concat;
    EncodeAllIsConcat(EnvelopeBody(ctx, cmd, sequence, encrypted), EnvelopeParts(ctx, cmd, sequence, encrypted));
  }

  function InnerParts(cmd: u16, tlvs: seq<byte>): seq<seq<byte>> {
    [[2], BigEndian(44 + |tlvs|, 2), BigEndian(cmd, 2), [0, 0, 0, 0, 0, 0, 0, 0, 0, 0, 0, 0, 0, 0, 0, 0, 0, 0, 0, 0, 0], [3], [0, 0], [0, 50],
     [0, 0, 0, 0], [0, 0, 0, 0, 0, 0, 0, 0], tlvs, [3]]
  }

  function TransEmpParts(ctx: Context, request: seq<byte>): seq<seq<byte>> {
    [[0], BigEndian(|request|, 2), BigEndian(ctx.appId, 4), [0, 0, 0, 114], [0, 0], [0], request]
  }

  /** Every byte of the inner packet of build_trans_emp_body. */
  lemma InnerBytes(cmd: u16, tlvs: seq<byte>)
    ensures EncodeAll(InnerFields(cmd, tlvs)) == Concat(InnerParts(cmd, tlvs))
  {
    ConstantBytes(2, 0, 0, 0);
    ConstantBytes(3, 0, 0, 0);
    ConstantBytes(0, 0, 0, 0);
    ConstantBytes(0, 50, 0, 0);
    EightZeros();
    hide BigEndian, EncodeAll, Concat;
    EncodeAllIsConcat(InnerFields(cmd, tlvs), InnerParts(cmd, tlvs));
  }

  lemma EightZeros()
    ensures BigEndian(0, 8) == [0, 0, 0, 0, 0, 0, 0, 0]
  {
    hide BigEndian, Limit;
    forall i | 0 <= i < 8
      ensures BigEndian(0, 8)[i] == 0
    {
      BigEndianAt(0, 8, i);
    }
  }

  /** Every byte around the request: its length, the application, two empty sections. */
  lemma TransEmpBytes(ctx: Context, timestamp: u32, cmd: u16, tlvs: seq<byte>)
    ensures RequestBody(timestamp, cmd, tlvs) == BigEndian(timestamp, 4) + Concat(InnerParts(cmd, tlvs))
    ensures var request := RequestBody(timestamp, cmd, tlvs);
            EncodeAll(TransEmpFields(ctx, request)) == Concat(TransEmpParts(ctx, request))
  {
    InnerBytes(cmd, tlvs);
    EncodeTwo(Int(4, timestamp), Raw(EncodeAll(InnerFields(cmd, tlvs))));
    FieldsAround(ctx, RequestBody(timestamp, cmd, tlvs));
  }

  lemma FieldsAround(ctx: Context, request: seq<byte>)
    ensures EncodeAll(TransEmpFields(ctx, request)) == Concat(TransEmpParts(ctx, request))
  {
    ConstantBytes(0, 0, 0, 0);
    ConstantBytes(0, 0, 0, 114);
    EmptyFrame(2);
    EmptyFrame(1);
    hide BigEndian, EncodeAll, Concat;
    EncodeAllIsConcat(TransEmpFields(ctx, request), TransEmpParts(ctx, request));
  }

  lemma EmptyFrame(prefix: nat)
    requires prefix in {1, 2}
    ensures Encode(Framed(Prefixed(prefix, false, 0), [Raw([])])) == BigEndian(0, prefix)
  {
    hide BigEndian;
    LimitValues();
    assert EncodeAll([Raw([])]) == [];
    FittingFrame(Prefixed(prefix, false, 0), [Raw([])]);
  }
}

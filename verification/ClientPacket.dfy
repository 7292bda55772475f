/**
 The packets that the client sends (packet.rs, SsoPacket::build): their layouts as field trees, and what a server that
 reads the same layouts gets back. Neither layout is the one that SsoPacket::parse reads.
 */
module ClientPacket {
  import opened Wrappers
  import opened ByteOrder
  import opened Packet
  import Decimal
  import Socket
  import Sso = SsoPacket
  import Tea

  /** What building reads from the packet, the application, the device, the key store and the sign provider. */
  datatype Request = Request(sequence: u32, command: seq<byte>, payload: seq<byte>, subAppId: u32, version: seq<byte>,
                             uuid: seq<byte>, uin: u32, uid: seq<byte>, tgt: seq<byte>, d2: seq<byte>, d2Key: Sso.TeaKey,
                             signature: seq<byte>)

  function Sect(bytes: seq<byte>): Field {
    Framed(Section(4), [Raw(bytes)])
  }

  const SECTION: Shape := ReadFramed(Section(4), [ReadRest])

  // ----- protocol 12

  function Header12(r: Request): seq<Field> {
    [Int(4, r.sequence), Int(4, r.subAppId), Int(4, 2052), Raw([2, 0, 0, 0, 0, 0, 0, 0, 0, 0, 0, 0]), Sect(r.tgt), Sect(r.command),
     Framed(Section(4), []), Sect(r.uuid), Framed(Section(4), []), Framed(Section16(2), [Raw(r.version)]), Sect(r.signature)]
  }

  function Body12(r: Request): seq<byte> {
    EncodeAll([Framed(Section(4), Header12(r)), Sect(r.payload)])
  }

  function Protocol12(r: Request, encrypted: seq<byte>): Field {
    Framed(Section(4), [Int(4, 12), Int(1, if r.d2 == [] then 2 else 1), Sect(r.d2), Int(1, 0), Sect(Decimal.ToDecimal(r.uin)),
                        Raw(encrypted)])
  }

  const HEADER12: seq<Shape> :=
    [ReadInt(4), ReadInt(4), ReadInt(4), ReadPacket(12), SECTION, SECTION, SECTION, SECTION, SECTION,
     ReadFramed(Section16(2), [ReadRest]), SECTION]

  const BODY12: seq<Shape> := [ReadFramed(Section(4), HEADER12), SECTION]

  const PROTOCOL12: Shape := ReadFramed(Section(4), [ReadInt(4), ReadInt(1), SECTION, ReadInt(1), SECTION, ReadRest])

  // ----- protocol 13

  function Names13(r: Request): seq<Field> {
    [Sect(r.command), Framed(Section(4), []), Sect(r.uid)]
  }

  function Protocol13(r: Request): Field {
    Framed(Section(4), [Int(4, 13), Int(1, 0), Int(4, r.sequence), Int(1, 0), Sect([48]), Framed(Section(4), Names13(r)), Sect(r.payload)])
  }

  const PROTOCOL13: Shape :=
    ReadFramed(Section(4), [ReadInt(4), ReadInt(1), ReadInt(4), ReadInt(1), SECTION,
                            ReadFramed(Section(4), [SECTION, SECTION, SECTION]), SECTION])

  // ----- reading lists of fields position by position

  lemma {:induction false} MatchesByIndex(fs: seq<Field>, ss: seq<Shape>)
    requires |ss| <= |fs| && forall i :: 0 <= i < |ss| ==> Matches(fs[i], ss[i])
    ensures MatchesBody(fs, ss)
    ensures ss != [ReadRest] ==> ExpectedBody(fs, ss) == seq(|ss|, i requires 0 <= i < |ss| => Expected(fs[i], ss[i]))
  {
    hide Matches, Expected;
    if ss != [] && ss != [ReadRest] {
      var fs', ss' := fs[1..], ss[1..];
      assert forall i :: 0 <= i < |ss'| ==> fs'[i] == fs[i + 1] && ss'[i] == ss[i + 1];
      MatchesByIndex(fs', ss');
      NotRest(fs, ss);
    }
  }

  lemma NotRest(fs: seq<Field>, ss: seq<Shape>)
    requires |ss| <= |fs| && forall i :: 0 <= i < |ss| ==> Matches(fs[i], ss[i])
    ensures forall i :: 0 <= i < |ss| ==> ss[i] != ReadRest
    ensures |ss| >= 1 ==> ss[1..] != [ReadRest]
  {
    assert |ss| == 2 ==> ss[1..] == [ss[1]];
  }

  lemma SectMatches(frame: Frame, bytes: seq<byte>)
    requires frame.Added() == frame.Subtracted()
    ensures Matches(Framed(frame, [Raw(bytes)]), ReadFramed(frame, [ReadRest]))
    ensures Expected(Framed(frame, [Raw(bytes)]), ReadFramed(frame, [ReadRest])) == Group([Bytes(bytes)])
    ensures Matches(Framed(frame, []), ReadFramed(frame, [ReadRest]))
    ensures Expected(Framed(frame, []), ReadFramed(frame, [ReadRest])) == Group([Bytes([])])
  {
    assert [Raw(bytes)][1..] == [] && EncodeAll([Raw(bytes)]) == bytes;
  }

  lemma FramedMatches(frame: Frame, fs: seq<Field>, ss: seq<Shape>, values: seq<Value>)
    requires frame.Added() == frame.Subtracted() && ss != [ReadRest]
    requires |values| == |ss| <= |fs|
    requires forall i :: 0 <= i < |ss| ==> Matches(fs[i], ss[i]) && Expected(fs[i], ss[i]) == values[i]
    ensures Matches(Framed(frame, fs), ReadFramed(frame, ss))
    ensures Expected(Framed(frame, fs), ReadFramed(frame, ss)) == Group(values)
  {
    MatchesByIndex(fs, ss);
    assert ExpectedBody(fs, ss) == values;
  }

  /** What a reader of the protocol 13 layout sees of a request. */
  function Seen13(r: Request): Value {
    Group([Number(13), Number(0), Number(r.sequence), Number(0), Group([Bytes([48])]),
           Group([Group([Bytes(r.command)]), Group([Bytes([])]), Group([Bytes(r.uid)])]), Group([Bytes(r.payload)])])
  }

  /** A request whose lengths fit is built without a panic, read back in full, and framed for the connection. */
  lemma Request13Recovered(r: Request, rest: seq<byte>)
    requires Fits(Protocol13(r))
    ensures !Panics(Protocol13(r))
    ensures Read(PROTOCOL13, Encode(Protocol13(r)) + rest) == Some((Seen13(r), rest))
    ensures |Encode(Protocol13(r))| <= Socket.MAX_PACKET ==> Socket.IsPacket(Encode(Protocol13(r)))
  {
    FitsDoesNotPanic(Protocol13(r));
    Shape13(r);
    hide Read, Encode, Matches, Fits, Expected, Socket.IsPacket;
    ReadOfEncode(Protocol13(r), PROTOCOL13, rest);
    OutermostIsPacket(Protocol13(r));
  }

  lemma OutermostIsPacket(f: Field)
    requires f.Framed? && f.frame == Section(4) && Fits(f)
    ensures |Encode(f)| <= Socket.MAX_PACKET ==> Socket.IsPacket(Encode(f))
  {
    hide EncodeAll, BigEndian, Socket.IsPacket;
    LimitValues();
    EncodeFramed(f.frame, f.body, []);
    if |Encode(f)| <= Socket.MAX_PACKET {
      Socket.SectionIsPacket(f.body);
    }
  }

  lemma Shape13(r: Request)
    ensures Matches(Protocol13(r), PROTOCOL13) && Expected(Protocol13(r), PROTOCOL13) == Seen13(r)
  {
    SectMatches(Section(4), [48]);
    SectMatches(Section(4), r.command);
    SectMatches(Section(4), r.uid);
    SectMatches(Section(4), r.payload);
    FramedMatches(Section(4), Names13(r), [SECTION, SECTION, SECTION], Seen13(r).values[5].values);
    FramedMatches(Section(4), Protocol13(r).body, PROTOCOL13.body, Seen13(r).values);
  }

  /** What a reader of the protocol 12 layout sees outside the encryption, and inside it. */
  function Seen12(r: Request, encrypted: seq<byte>): Value {
    Group([Number(12), Number(if r.d2 == [] then 2 else 1), Group([Bytes(r.d2)]), Number(0),
           Group([Bytes(Decimal.ToDecimal(r.uin))]), Bytes(encrypted)])
  }

  function SeenBody12(r: Request): seq<Value> {
    [Group([Number(r.sequence), Number(r.subAppId), Number(2052), Bytes([2, 0, 0, 0, 0, 0, 0, 0, 0, 0, 0, 0]), Group([Bytes(r.tgt)]),
            Group([Bytes(r.command)]), Group([Bytes([])]), Group([Bytes(r.uuid)]), Group([Bytes([])]), Group([Bytes(r.version)]),
            Group([Bytes(r.signature)])]),
     Group([Bytes(r.payload)])]
  }

  lemma ShapeHeader12(r: Request)
    ensures Matches(Framed(Section(4), Header12(r)), BODY12[0])
    ensures Expected(Framed(Section(4), Header12(r)), BODY12[0]) == SeenBody12(r)[0]
  {
    SectMatches(Section(4), r.tgt);
    SectMatches(Section(4), r.command);
    SectMatches(Section(4), r.uuid);
    SectMatches(Section16(2), r.version);
    SectMatches(Section(4), r.signature);
    FramedMatches(Section(4), Header12(r), HEADER12, SeenBody12(r)[0].values);
  }

  lemma {:induction false} MatchesThenRest(fs: seq<Field>, ss: seq<Shape>, values: seq<Value>)
    requires |values| == |ss| <= |fs|
    requires forall i :: 0 <= i < |ss| ==> Matches(fs[i], ss[i]) && Expected(fs[i], ss[i]) == values[i]
    ensures MatchesBody(fs, ss + [ReadRest])
    ensures ExpectedBody(fs, ss + [ReadRest]) == values + [Bytes(EncodeAll(fs[|ss|..]))]
  {
    hide Matches, Expected;
    if ss == [] {
      assert ss + [ReadRest] == [ReadRest] && fs[0..] == fs;
    } else {
      assert (ss + [ReadRest])[1..] == ss[1..] + [ReadRest];
      assert fs[1..][|ss| - 1..] == fs[|ss|..];
      MatchesThenRest(fs[1..], ss[1..], values[1..]);
      assert values == [values[0]] + values[1..];
    }
  }

  lemma Shape12(r: Request, encrypted: seq<byte>)
    ensures Matches(Protocol12(r, encrypted), PROTOCOL12)
    ensures Expected(Protocol12(r, encrypted), PROTOCOL12) == Seen12(r, encrypted)
  {
    hide Decimal.ToDecimal, BigEndian;
    var body, ss := Protocol12(r, encrypted).body, PROTOCOL12.body[..5];
    SectMatches(Section(4), r.d2);
    SectMatches(Section(4), Decimal.ToDecimal(r.uin));
    MatchesThenRest(body, ss, Seen12(r, encrypted).values[..5]);
    assert body[5..] == [Raw(encrypted)];
    assert EncodeAll([Raw(encrypted)]) == encrypted;
    assert ss + [ReadRest] == PROTOCOL12.body;
    assert Seen12(r, encrypted).values[..5] + [Bytes(encrypted)] == Seen12(r, encrypted).values;
  }

  lemma Body12Recovered(r: Request)
    requires FitsAll([Framed(Section(4), Header12(r)), Sect(r.payload)])
    ensures ReadAll(BODY12, Body12(r)) == Some((SeenBody12(r), []))
  {
    var fs := [Framed(Section(4), Header12(r)), Sect(r.payload)];
    ShapeHeader12(r);
    SectMatches(Section(4), r.payload);
    hide Matches, Expected, Encode, FitsAll, Read;
    MatchesByIndex(fs, BODY12);
    ReadOfEncodeAll(fs, BODY12);
    assert ExpectedBody(fs, BODY12) == SeenBody12(r);
    assert fs[1..][1..] == [] && BODY12[1..][1..] == [];
    assert Unread(fs, BODY12) == Unread(fs[1..], BODY12[1..]) == Unread([], []) == [];
  }

  /** The same of protocol 12, whose body travels encrypted under the session key. */
  lemma Request12Recovered(r: Request, fill: seq<byte>, rest: seq<byte>)
    requires FitsAll([Framed(Section(4), Header12(r)), Sect(r.payload)]) && Tea.IsFill(Body12(r), fill)
    requires Fits(Protocol12(r, Tea.Encrypted(Tea.CipherOf(r.d2Key), Body12(r), fill)))
    ensures var encrypted := Tea.Encrypted(Tea.CipherOf(r.d2Key), Body12(r), fill);
            var packet := Encode(Protocol12(r, encrypted));
            && !PanicsAny([Framed(Section(4), Header12(r)), Sect(r.payload)]) && !Panics(Protocol12(r, encrypted))
            && Read(PROTOCOL12, packet + rest) == Some((Seen12(r, encrypted), rest))
            && Tea.Decrypted(Tea.CipherOf(r.d2Key), encrypted) == Some(Body12(r))
            && ReadAll(BODY12, Body12(r)) == Some((SeenBody12(r), []))
            && (|packet| <= Socket.MAX_PACKET ==> Socket.IsPacket(packet))
  {
    hide Read, ReadAll, Encode, EncodeAll, Matches, FitsAll, Fits, Expected, Panics, PanicsAny, Socket.IsPacket, Body12, Seen12,
         SeenBody12, Header12, Protocol12,
         Tea.Encrypted, Tea.Decrypted, Tea.CipherOf, Tea.IsFill;
    var encrypted := Tea.Encrypted(Tea.CipherOf(r.d2Key), Body12(r), fill);
    FitsAllDoesNotPanic([Framed(Section(4), Header12(r)), Sect(r.payload)]);
    FitsDoesNotPanic(Protocol12(r, encrypted));
    Shape12(r, encrypted);
    ReadOfEncode(Protocol12(r, encrypted), PROTOCOL12, rest);
    Tea.RoundTrip(Body12(r), r.d2Key, fill);
    Body12Recovered(r);
    assert Protocol12(r, encrypted).Framed? && Protocol12(r, encrypted).frame == Section(4) by {
      Outermost12(r, encrypted);
    }
    OutermostIsPacket(Protocol12(r, encrypted));
  }

  lemma Outermost12(r: Request, encrypted: seq<byte>)
    ensures Protocol12(r, encrypted).Framed? && Protocol12(r, encrypted).frame == Section(4)
  {
  }

  // ----- the layouts in bytes

  /** Bytes behind a 32-bit length that counts itself. */
  function Long(bytes: seq<byte>): seq<byte> {
    BigEndian(|bytes| + 4, 4) + bytes
  }

  lemma SectBytes(bytes: seq<byte>)
    requires |bytes| + 4 < U32_LIMIT
    ensures Encode(Sect(bytes)) == Long(bytes)
    ensures bytes == [] ==> Encode(Framed(Section(4), [])) == Long([])
  {
    hide BigEndian;
    LimitValues();
    assert EncodeAll([Raw(bytes)]) == bytes;
    FittingFrame(Section(4), [Raw(bytes)]);
    FittingFrame(Section(4), []);
  }

  lemma SectionOf(fs: seq<Field>, parts: seq<seq<byte>>)
    requires |fs| == |parts| && forall i :: 0 <= i < |fs| ==> Encode(fs[i]) == parts[i]
    requires |Concat(parts)| + 4 < U32_LIMIT
    ensures Encode(Framed(Section(4), fs)) == Long(Concat(parts))
  {
    hide BigEndian, Encode, EncodeAll, Concat;
    LimitValues();
    EncodeAllIsConcat(fs, parts);
    FittingFrame(Section(4), fs);
  }

  lemma Version16Bytes(bytes: seq<byte>)
    requires |bytes| + 2 < U16_LIMIT
    ensures Encode(Framed(Section16(2), [Raw(bytes)])) == BigEndian(|bytes| + 2, 2) + bytes
  {
    hide BigEndian;
    LimitValues();
    assert EncodeAll([Raw(bytes)]) == bytes;
    FittingFrame(Section16(2), [Raw(bytes)]);
  }

  function Names13Bytes(r: Request): seq<seq<byte>> {
    [Long(r.command), Long([]), Long(r.uid)]
  }

  function Parts13(r: Request): seq<seq<byte>> {
    [[0, 0, 0, 13], [0], BigEndian(r.sequence, 4), [0], Long([48]), Long(Concat(Names13Bytes(r))), Long(r.payload)]
  }

  /** Every byte of a protocol 13 packet: the sequence, a constant section, the names, and the payload. */
  lemma Bytes13(r: Request)
    requires |r.command| + 4 < U32_LIMIT && |r.uid| + 4 < U32_LIMIT && |r.payload| + 4 < U32_LIMIT
    requires |Concat(Names13Bytes(r))| + 4 < U32_LIMIT && |Concat(Parts13(r))| + 4 < U32_LIMIT
    ensures Encode(Protocol13(r)) == Long(Concat(Parts13(r)))
  {
    NamesAre13(r);
    SectBytes([48]);
    SectBytes(r.payload);
    ConstantBytes(0, 0, 0, 13);
    ConstantBytes(0, 0, 0, 0);
    hide BigEndian, EncodeAll, Concat, Long, Names13, Names13Bytes;
    SectionOf(Protocol13(r).body, Parts13(r));
  }

  lemma NamesAre13(r: Request)
    requires |r.command| + 4 < U32_LIMIT && |r.uid| + 4 < U32_LIMIT && |Concat(Names13Bytes(r))| + 4 < U32_LIMIT
    ensures Encode(Framed(Section(4), Names13(r))) == Long(Concat(Names13Bytes(r)))
  {
    SectBytes([]);
    SectBytes(r.command);
    SectBytes(r.uid);
    hide BigEndian, EncodeAll, Concat, Long;
    SectionOf(Names13(r), Names13Bytes(r));
  }

  function Header12Bytes(r: Request): seq<seq<byte>> {
    [BigEndian(r.sequence, 4), BigEndian(r.subAppId, 4), [0, 0, 8, 4], [2, 0, 0, 0, 0, 0, 0, 0, 0, 0, 0, 0], Long(r.tgt), Long(r.command),
     Long([]), Long(r.uuid), Long([]), BigEndian(|r.version| + 2, 2) + r.version, Long(r.signature)]
  }

  /** Every byte of the part of a protocol 12 packet that is encrypted. */
  lemma BodyBytes12(r: Request)
    requires |r.tgt| + 4 < U32_LIMIT && |r.command| + 4 < U32_LIMIT && |r.uuid| + 4 < U32_LIMIT && |r.version| + 2 < U16_LIMIT
    requires |r.signature| + 4 < U32_LIMIT && |r.payload| + 4 < U32_LIMIT && |Concat(Header12Bytes(r))| + 4 < U32_LIMIT
    ensures Body12(r) == Long(Concat(Header12Bytes(r))) + Long(r.payload)
  {
    HeaderIs12(r);
    SectBytes(r.payload);
    hide BigEndian, Encode, EncodeAll, Concat, Long, Header12, Header12Bytes;
    var fs, parts := [Framed(Section(4), Header12(r)), Sect(r.payload)], [Long(Concat(Header12Bytes(r))), Long(r.payload)];
    EncodeAllIsConcat(fs, parts);
    ConcatTwo(parts[0], parts[1]);
  }

  lemma HeaderIs12(r: Request)
    requires |r.tgt| + 4 < U32_LIMIT && |r.command| + 4 < U32_LIMIT && |r.uuid| + 4 < U32_LIMIT && |r.version| + 2 < U16_LIMIT
    requires |r.signature| + 4 < U32_LIMIT && |Concat(Header12Bytes(r))| + 4 < U32_LIMIT
    ensures Encode(Framed(Section(4), Header12(r))) == Long(Concat(Header12Bytes(r)))
  {
    HeaderFront12(r);
    HeaderBack12(r);
    hide BigEndian, Encode, EncodeAll, Concat, Long;
    EncodeAllAppend(Header12(r)[..6], Header12(r)[6..]);
    ConcatAppend(Header12Bytes(r)[..6], Header12Bytes(r)[6..]);
    assert Header12(r)[..6] + Header12(r)[6..] == Header12(r);
    assert Header12Bytes(r)[..6] + Header12Bytes(r)[6..] == Header12Bytes(r);
    LimitValues();
    FittingFrame(Section(4), Header12(r));
    LongIs(Concat(Header12Bytes(r)));
  }

  lemma LongIs(bytes: seq<byte>)
    ensures Long(bytes) == BigEndian(|bytes| + 4, 4) + bytes
  {
  }

  lemma HeaderFront12(r: Request)
    requires |r.tgt| + 4 < U32_LIMIT && |r.command| + 4 < U32_LIMIT
    ensures EncodeAll(Header12(r)[..6]) == Concat(Header12Bytes(r)[..6])
  {
    SectBytes(r.tgt);
    SectBytes(r.command);
    ConstantBytes(0, 0, 8, 4);
    hide BigEndian, EncodeAll, Concat, Long;
    EncodeAllIsConcat(Header12(r)[..6], Header12Bytes(r)[..6]);
  }

  lemma HeaderBack12(r: Request)
    requires |r.uuid| + 4 < U32_LIMIT && |r.version| + 2 < U16_LIMIT && |r.signature| + 4 < U32_LIMIT
    ensures EncodeAll(Header12(r)[6..]) == Concat(Header12Bytes(r)[6..])
  {
    SectBytes([]);
    SectBytes(r.uuid);
    SectBytes(r.signature);
    Version16Bytes(r.version);
    hide BigEndian, EncodeAll, Concat, Long;
    EncodeAllIsConcat(Header12(r)[6..], Header12Bytes(r)[6..]);
  }

  lemma ConcatTwo(a: seq<byte>, b: seq<byte>)
    ensures Concat([a, b]) == a + b
  {
    assert [a, b][1..] == [b];
    assert [b][1..] == [];
    assert Concat([b]) == b + Concat([]);
  }

  function Parts12(r: Request, encrypted: seq<byte>): seq<seq<byte>> {
    [[0, 0, 0, 12], [if r.d2 == [] then 2 else 1], Long(r.d2), [0], Long(Decimal.ToDecimal(r.uin)), encrypted]
  }

  /** Every byte around it. */
  lemma Bytes12(r: Request, encrypted: seq<byte>)
    requires |r.d2| + 4 < U32_LIMIT && |Decimal.ToDecimal(r.uin)| + 4 < U32_LIMIT && |Concat(Parts12(r, encrypted))| + 4 < U32_LIMIT
    ensures Encode(Protocol12(r, encrypted)) == Long(Concat(Parts12(r, encrypted)))
  {
    SectBytes(r.d2);
    SectBytes(Decimal.ToDecimal(r.uin));
    ConstantBytes(0, 0, 0, 12);
    ConstantBytes(0, 0, 0, 0);
    ConstantBytes(if r.d2 == [] then 2 else 1, 0, 0, 0);
    hide BigEndian, EncodeAll, Concat, Long, Decimal.ToDecimal;
    SectionOf(Protocol12(r, encrypted).body, Parts12(r, encrypted));
  }
}

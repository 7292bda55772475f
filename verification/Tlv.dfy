/** Tag-length-value sets (tlv.rs): writing them, and reading them back into a map by tag. */
module Tlv {
  import opened Wrappers
  import opened ByteOrder
  import opened Packet
  import Tea

  datatype Entry = Entry(tag: u16, value: seq<byte>)

  /** The two deserializer tables: QR-code sets and login sets. */
  datatype Registry = QrCodeTags | LoginTags

  /** The values of the tags that the tables know; protobuf messages stay uninterpreted. */
  datatype TlvValue =
    | Blob(bytes: seq<byte>)
    | Expiration(seconds: nat, minutes: nat)
    | Notice(state: nat, tag: seq<byte>, message: seq<byte>, field0: nat)
    | SelfInfo(faceId: nat, age: nat, gender: nat, nickName: seq<byte>)
    | Message(content: seq<byte>)

  datatype TlvError = UnsupportedTag(tag: u16) | ProtobufDecodeError

  type Decoded = Outcome<TlvValue, TlvError>

  /** The protobuf decoders of tags 0x0d1 and 0x543: None where they report an error. */
  datatype Protos = Protos(qrCodeD1: seq<byte> -> Option<seq<byte>>, uid543: seq<byte> -> Option<seq<byte>>)

  function Supported(reg: Registry): set<u16> {
    match reg
    case QrCodeTags => {0x017, 0x018, 0x019, 0x01c, 0x01e, 0x0d1}
    case LoginTags => {0x106, 0x10A, 0x119, 0x143, 0x146, 0x305, 0x543, 0x11A}
  }

  const VALUE: Frame := Section16(0)

  function DecodeExpiration(body: seq<byte>): Option<TlvValue> {
    var (seconds, rest) :- TakeInt(4, body);
    var (minutes, _) :- TakeInt(2, rest);
    Some(Expiration(seconds, minutes))
  }

  function DecodeNotice(body: seq<byte>): Option<TlvValue> {
    var (state, rest) :- TakeInt(4, body);
    var (tag, rest) :- TakeFrame(VALUE, rest);
    var (message, rest) :- TakeFrame(VALUE, rest);
    var (field0, _) :- TakeInt(4, rest);
    Some(Notice(state, tag, message, field0))
  }

  function DecodeSelfInfo(body: seq<byte>): Option<TlvValue> {
    var (faceId, rest) :- TakeInt(2, body);
    var (age, rest) :- TakeInt(1, rest);
    var (gender, rest) :- TakeInt(1, rest);
    var (nickName, _) :- TakeFrame(NICK_NAME, rest);
    Some(SelfInfo(faceId, age, gender, nickName))
  }

  /** The closure that a supported tag runs on its value; only 0x0d1 has an error that is not a panic. */
  function DecodeValue(reg: Registry, tag: u16, body: seq<byte>, protos: Protos): Decoded
    requires tag in Supported(reg)
  {
    if reg == QrCodeTags && tag == 0x01c then OrPanic(DecodeExpiration(body))
    else if reg == QrCodeTags && tag == 0x0d1 then
      match protos.qrCodeD1(body)
      case None => Err(ProtobufDecodeError)
      case Some(content) => Ok(Message(content))
    else if reg == LoginTags && tag == 0x146 then OrPanic(DecodeNotice(body))
    else if reg == LoginTags && tag == 0x11A then OrPanic(DecodeSelfInfo(body))
    else if reg == LoginTags && tag == 0x543 then
      match protos.uid543(body)
      case None => Panic
      case Some(content) => Ok(Message(content))
    else Ok(Blob(body))
  }

  /** The structured values read back the fields that are written in their layouts, and ignore what is behind them. */
  lemma ExpirationRecovered(seconds: u32, minutes: u16, junk: seq<byte>)
    ensures DecodeExpiration(BigEndian(seconds, 4) + (BigEndian(minutes, 2) + junk)) == Some(Expiration(seconds, minutes))
  {
    hide TakeInt, BigEndian;
    LimitValues();
    TakeIntOf(seconds, 4, BigEndian(minutes, 2) + junk);
    TakeIntOf(minutes, 2, junk);
  }

  lemma NoticeRecovered(state: u32, tag: seq<byte>, message: seq<byte>, field0: u32, junk: seq<byte>)
    requires |tag| < U16_LIMIT && |message| < U16_LIMIT
    ensures DecodeNotice(BigEndian(state, 4) + (Wrapped(VALUE, tag) + (Wrapped(VALUE, message) + (BigEndian(field0, 4) + junk))))
            == Some(Notice(state, tag, message, field0))
  {
    hide TakeInt, TakeFrame, BigEndian, Wrapped;
    LimitValues();
    var s3 := BigEndian(field0, 4) + junk;
    var s2 := Wrapped(VALUE, message) + s3;
    TakeIntOf(state, 4, Wrapped(VALUE, tag) + s2);
    TakeWrapped(VALUE, tag, s2);
    TakeWrapped(VALUE, message, s3);
    TakeIntOf(field0, 4, junk);
  }

  const NICK_NAME: Frame := Prefixed(1, false, 0)

  lemma SelfInfoRecovered(faceId: u16, age: byte, gender: byte, nickName: seq<byte>, junk: seq<byte>)
    requires |nickName| < 256
    ensures DecodeSelfInfo(BigEndian(faceId, 2) + (BigEndian(age, 1) + (BigEndian(gender, 1) + (Wrapped(NICK_NAME, nickName) + junk))))
            == Some(SelfInfo(faceId, age, gender, nickName))
  {
    hide TakeInt, TakeFrame, BigEndian, Wrapped;
    LimitValues();
    var s3 := Wrapped(NICK_NAME, nickName) + junk;
    var s2 := BigEndian(gender, 1) + s3;
    TakeIntOf(faceId, 2, BigEndian(age, 1) + s2);
    TakeIntOf(age, 1, s2);
    TakeIntOf(gender, 1, s3);
    TakeWrapped(NICK_NAME, nickName, junk);
  }

  /** What an entry decodes to on its own. */
  function Meaning(reg: Registry, e: Entry, protos: Protos): Decoded {
    if e.tag in Supported(reg) then DecodeValue(reg, e.tag, e.value, protos) else Err(UnsupportedTag(e.tag))
  }

  /** deserialize_tlv and deserialize_qrcode_tlv: the result, its tag, and the bytes left; None is a panic. */
  function DeserializeTlv(reg: Registry, input: seq<byte>, protos: Protos): Option<((u16, Decoded), seq<byte>)> {
    var (tag, rest) :- NextU16(input);
    if tag !in Supported(reg) then
      var (length, rest) :- NextU16(rest);
      if |rest| < length then None else Some(((tag, Err(UnsupportedTag(tag))), rest[length..]))
    else
      var (body, rest) :- TakeFrame(VALUE, rest);
      var r := DecodeValue(reg, tag, body, protos);
      if r.Panic? then None else Some(((tag, r), rest))
  }

  function NextU16(input: seq<byte>): Option<(u16, seq<byte>)> {
    var (n, rest) :- TakeInt(2, input);
    LimitValues();
    FromBigEndianRoundTrip(input[..2]);
    Some((n, rest))
  }

  type Tlvs = map<u16, TlvValue>

  function Insert(m: Tlvs, tag: u16, r: Decoded): Tlvs {
    if r.Ok? then m[tag := r.value] else m
  }

  function DeserializeEntries(reg: Registry, count: nat, input: seq<byte>, m: Tlvs, protos: Protos): Option<Tlvs> {
    if count == 0 then Some(m)
    else
      var ((tag, r), rest) :- DeserializeTlv(reg, input, protos);
      DeserializeEntries(reg, count - 1, rest, Insert(m, tag, r), protos)
  }

  function DeserializeSet(reg: Registry, packet: seq<byte>, protos: Protos): Option<Tlvs> {
    var (count, rest) :- NextU16(packet);
    DeserializeEntries(reg, count, rest, map[], protos)
  }

  /** TlvSet::deserialize and TlvSet::deserialize_qrcode. */
  method Deserialize(reg: Registry, packet: seq<byte>, protos: Protos) returns (r: Option<Tlvs>)
    ensures r == DeserializeSet(reg, packet, protos)
  {
    hide NextU16, DeserializeTlv;
    var result: Tlvs := map[];
    var reader := new PacketReader(packet);
    var count :- ReadU16(reader);
    for i := 0 to count
      invariant DeserializeSet(reg, packet, protos) == DeserializeEntries(reg, count - i, reader.reader, result, protos)
    {
      var tlv :- ReadTlv(reg, reader, protos);
      if tlv.1.Ok? {
        result := result[tlv.0 := tlv.1.value];
      }
    }
    r := Some(result);
  }

  method ReadU16(reader: PacketReader) returns (r: Option<u16>)
    modifies reader
    ensures r.Some? <==> NextU16(old(reader.reader)).Some?
    ensures r.Some? ==> NextU16(old(reader.reader)) == Some((r.value, reader.reader))
  {
    LimitValues();
    if |reader.reader| >= 2 {
      FromBigEndianRoundTrip(reader.reader[..2]);
    }
    var n :- reader.Int(2);
    r := Some(n);
  }

  method ReadTlv(reg: Registry, reader: PacketReader, protos: Protos) returns (r: Option<(u16, Decoded)>)
    modifies reader
    ensures r.Some? <==> DeserializeTlv(reg, old(reader.reader), protos).Some?
    ensures r.Some? ==> DeserializeTlv(reg, old(reader.reader), protos) == Some((r.value, reader.reader))
  {
    hide NextU16, TakeFrame, DecodeValue;
    var tag :- ReadU16(reader);
    if tag !in Supported(reg) {
      var length :- ReadU16(reader);
      var _ :- reader.SplitTo(length);
      return Some((tag, Err(UnsupportedTag(tag))));
    }
    var body :- reader.Enter(VALUE);
    var value := DecodeValue(reg, tag, body, protos);
    r := if value.Panic? then None else Some((tag, value));
  }

  function EncodeEntry(e: Entry): seq<byte> {
    BigEndian(e.tag, 2) + Wrapped(VALUE, e.value)
  }

  function EncodeEntries(entries: seq<Entry>): seq<byte> {
    if entries == [] then [] else EncodeEntry(entries[0]) + EncodeEntries(entries[1..])
  }

  function EncodeSet(entries: seq<Entry>): seq<byte> {
    BigEndian(Cut(|entries|, 2), 2) + EncodeEntries(entries)
  }

  predicate FitsSet(entries: seq<Entry>) {
    |entries| < U16_LIMIT && FitValues(entries)
  }

  predicate FitValues(entries: seq<Entry>) {
    forall i :: 0 <= i < |entries| ==> |entries[i].value| < U16_LIMIT
  }

  lemma {:induction false} EncodeEntriesAppend(entries: seq<Entry>, e: Entry)
    ensures EncodeEntries(entries + [e]) == EncodeEntries(entries) + EncodeEntry(e)
  {
    if entries == [] {
      assert EncodeEntries([]) == [];
      assert ([e])[1..] == [];
    } else {
      assert (entries + [e])[1..] == entries[1..] + [e];
      EncodeEntriesAppend(entries[1..], e);
    }
  }

  /** serialize_tlv_set, with the values that the tags have in this context; false is a panic. */
  method SerializeSet(entries: seq<Entry>, packet: PacketBuilder) returns (ok: bool)
    modifies packet
    ensures ok <==> FitValues(entries)
    ensures ok ==> packet.buffer == old(packet.buffer) + EncodeSet(entries)
  {
    hide BigEndian, Encode, EncodeEntry, Panics;
    packet.WriteInt(2, Cut(|entries|, 2));
    ghost var start := packet.buffer;
    for i := 0 to |entries|
      invariant FitValues(entries[..i])
      invariant packet.buffer == start + EncodeEntries(entries[..i])
    {
      ok := WriteTlv(entries[i], packet);
      assert entries[..i + 1] == entries[..i] + [entries[i]];
      EncodeEntriesAppend(entries[..i], entries[i]);
      if !ok {
        return;
      }
    }
    assert entries[..|entries|] == entries;
    ok := true;
  }

  /** PacketBuilder::tlv. */
  method WriteTlv(e: Entry, packet: PacketBuilder) returns (ok: bool)
    modifies packet
    ensures ok <==> |e.value| < U16_LIMIT
    ensures ok ==> packet.buffer == old(packet.buffer) + EncodeEntry(e)
  {
    WrappedPanics(VALUE, e.value);
    packet.WriteInt(2, e.tag);
    ok := packet.Write(Framed(VALUE, [Raw(e.value)]));
  }

  /** Later entries of a tag win; entries that do not decode leave the map alone. */
  function Winners(reg: Registry, entries: seq<Entry>, m: Tlvs, protos: Protos): Tlvs {
    if entries == [] then m
    else Winners(reg, entries[1..], Insert(m, entries[0].tag, Meaning(reg, entries[0], protos)), protos)
  }

  predicate AnyPanic(reg: Registry, entries: seq<Entry>, protos: Protos) {
    exists i :: 0 <= i < |entries| && Meaning(reg, entries[i], protos).Panic?
  }

  /** Reading one entry stops at its exact end, whether or not its tag is known and its value is used up. */
  lemma DeserializeTlvOf(reg: Registry, e: Entry, rest: seq<byte>, protos: Protos)
    requires |e.value| < U16_LIMIT
    ensures DeserializeTlv(reg, EncodeEntry(e) + rest, protos)
            == if Meaning(reg, e, protos).Panic? then None else Some(((e.tag, Meaning(reg, e, protos)), rest))
  {
    hide DecodeValue, BigEndian, Wrapped, FromBigEndian, TakeInt;
    LimitValues();
    TakeIntOf(e.tag, 2, Wrapped(VALUE, e.value) + rest);
    assert EncodeEntry(e) + rest == BigEndian(e.tag, 2) + (Wrapped(VALUE, e.value) + rest);
    TakeWrapped(VALUE, e.value, rest);
    if e.tag !in Supported(reg) {
      var (length, tail) := TakeInt(2, Wrapped(VALUE, e.value) + rest).value;
      assert tail[..length] == e.value && tail[length..] == rest;
    }
  }

  lemma {:induction false} DeserializeEntriesOf(reg: Registry, entries: seq<Entry>, rest: seq<byte>, m: Tlvs, protos: Protos)
    requires FitValues(entries)
    ensures DeserializeEntries(reg, |entries|, EncodeEntries(entries) + rest, m, protos)
            == if AnyPanic(reg, entries, protos) then None else Some(Winners(reg, entries, m, protos))
  {
    hide DeserializeTlv, EncodeEntry, Meaning;
    if entries != [] {
      var e, tail := entries[0], EncodeEntries(entries[1..]) + rest;
      assert EncodeEntries(entries) + rest == EncodeEntry(e) + tail;
      DeserializeTlvOf(reg, e, tail, protos);
      assert AnyPanic(reg, entries, protos) <==> Meaning(reg, e, protos).Panic? || AnyPanic(reg, entries[1..], protos) by {
        PanicHeadOrTail(reg, entries, protos);
      }
      DeserializeEntriesOf(reg, entries[1..], rest, Insert(m, e.tag, Meaning(reg, e, protos)), protos);
    }
  }

  lemma PanicHeadOrTail(reg: Registry, entries: seq<Entry>, protos: Protos)
    requires entries != []
    ensures AnyPanic(reg, entries, protos)
            <==> Meaning(reg, entries[0], protos).Panic? || AnyPanic(reg, entries[1..], protos)
  {
    hide Meaning;
    if i :| 0 <= i < |entries| && Meaning(reg, entries[i], protos).Panic? {
      assert i > 0 ==> entries[1..][i - 1] == entries[i];
    }
    if i :| 0 <= i < |entries| - 1 && Meaning(reg, entries[1..][i], protos).Panic? {
      assert entries[1..][i] == entries[i + 1];
    }
  }

  /**
   Decoding a framed set gives the last good value of every tag; entries that are unknown, undecodable or not used up
   cost no other entry. It panics exactly when some entry on its own does.
   */
  lemma SetRoundTrip(reg: Registry, entries: seq<Entry>, rest: seq<byte>, protos: Protos)
    requires FitsSet(entries)
    ensures DeserializeSet(reg, EncodeSet(entries) + rest, protos)
            == if AnyPanic(reg, entries, protos) then None else Some(Winners(reg, entries, map[], protos))
  {
    hide BigEndian, EncodeEntries, DeserializeEntries, TakeInt, AnyPanic;
    LimitValues();
    var tail := EncodeEntries(entries) + rest;
    assert EncodeSet(entries) + rest == BigEndian(|entries|, 2) + tail;
    TakeIntOf(|entries|, 2, tail);
    DeserializeEntriesOf(reg, entries, rest, map[], protos);
  }

  /** Entry i is good and no later entry of its tag is. */
  ghost predicate Wins(reg: Registry, entries: seq<Entry>, i: nat, protos: Protos) {
    i < |entries| && Meaning(reg, entries[i], protos).Ok?
    && forall j :: i < j < |entries| && entries[j].tag == entries[i].tag ==> !Meaning(reg, entries[j], protos).Ok?
  }

  ghost predicate Bound(reg: Registry, entries: seq<Entry>, tag: u16, value: TlvValue, protos: Protos) {
    exists i: nat :: Wins(reg, entries, i, protos) && entries[i].tag == tag && Meaning(reg, entries[i], protos) == Ok(value)
  }

  ghost predicate NoneGood(reg: Registry, entries: seq<Entry>, tag: u16, protos: Protos) {
    forall i :: 0 <= i < |entries| && entries[i].tag == tag ==> !Meaning(reg, entries[i], protos).Ok?
  }

  /** The map that decoding builds, said without its loop. */
  lemma {:induction false} WinnersAre(reg: Registry, entries: seq<Entry>, m: Tlvs, tag: u16, protos: Protos)
    ensures var w := Winners(reg, entries, m, protos);
            if NoneGood(reg, entries, tag, protos)
            then (tag in w <==> tag in m) && (tag in m ==> w[tag] == m[tag])
            else tag in w && Bound(reg, entries, tag, w[tag], protos)
  {
    hide Meaning;
    if entries != [] {
      var e, tail := entries[0], entries[1..];
      var m' := Insert(m, e.tag, Meaning(reg, e, protos));
      var w := Winners(reg, tail, m', protos);
      WinnersAre(reg, tail, m', tag, protos);
      if NoneGood(reg, tail, tag, protos) {
        assert forall i :: 1 <= i < |entries| ==> entries[i] == tail[i - 1];
        if e.tag == tag && Meaning(reg, e, protos).Ok? {
          assert Wins(reg, entries, 0, protos);
        }
      } else {
        var i: nat :| Wins(reg, tail, i, protos) && tail[i].tag == tag && Meaning(reg, tail[i], protos) == Ok(w[tag]);
        assert forall j :: 1 <= j < |entries| ==> entries[j] == tail[j - 1];
        assert Wins(reg, entries, i + 1, protos);
      }
    }
  }

  /** The same holds of a set that travels through tea_encrypt and tea_decrypt, as tags 0x144 and 0x119 do. */
  lemma EncryptedSetRoundTrip(reg: Registry, entries: seq<Entry>, key: seq<byte>, fill: seq<byte>, protos: Protos)
    requires FitsSet(entries) && |key| == 16 && Tea.IsFill(EncodeSet(entries), fill)
    ensures var plain := Tea.Decrypted(Tea.CipherOf(key), Tea.Encrypted(Tea.CipherOf(key), EncodeSet(entries), fill));
            plain.Some?
            && DeserializeSet(reg, plain.value, protos)
               == if AnyPanic(reg, entries, protos) then None else Some(Winners(reg, entries, map[], protos))
  {
    hide *;
    Tea.RoundTrip(EncodeSet(entries), key, fill);
    SetRoundTrip(reg, entries, [], protos);
    assert EncodeSet(entries) + [] == EncodeSet(entries);
  }

  /** A set that ends before its count is reached panics. */
  lemma TooFewEntries(reg: Registry, entries: seq<Entry>, count: u16, protos: Protos)
    requires FitValues(entries) && |entries| < count
    ensures DeserializeSet(reg, BigEndian(count, 2) + EncodeEntries(entries), protos) == None
  {
    hide BigEndian, EncodeEntries, DeserializeEntries, TakeInt;
    LimitValues();
    TakeIntOf(count, 2, EncodeEntries(entries));
    EntriesRunOut(reg, entries, count, map[], protos);
  }

  lemma {:induction false} EntriesRunOut(reg: Registry, entries: seq<Entry>, count: nat, m: Tlvs, protos: Protos)
    requires FitValues(entries) && |entries| < count
    ensures DeserializeEntries(reg, count, EncodeEntries(entries), m, protos) == None
    decreases |entries|
  {
    hide DeserializeTlv, EncodeEntry, Meaning;
    if entries == [] {
      NoEntry(reg, protos);
    } else {
      DeserializeTlvOf(reg, entries[0], EncodeEntries(entries[1..]), protos);
      EntriesRunOut(reg, entries[1..], count - 1, Insert(m, entries[0].tag, Meaning(reg, entries[0], protos)), protos);
    }
  }

  lemma NoEntry(reg: Registry, protos: Protos)
    ensures DeserializeTlv(reg, [], protos) == None
  {
  }

  // ----- the tables

  /** The tags that hold plain bytes, and those of each table that do not. */
  lemma TagTable(e: Entry, protos: Protos)
    ensures Meaning(QrCodeTags, e, protos)
            == if e.tag in {0x017, 0x018, 0x019, 0x01e} then Ok(Blob(e.value))
               else if e.tag == 0x01c then OrPanic(DecodeExpiration(e.value))
               else if e.tag == 0x0d1 && protos.qrCodeD1(e.value).Some? then Ok(Message(protos.qrCodeD1(e.value).value))
               else if e.tag == 0x0d1 then Err(ProtobufDecodeError)
               else Err(UnsupportedTag(e.tag))
    ensures Meaning(LoginTags, e, protos)
            == if e.tag in {0x106, 0x10A, 0x119, 0x143, 0x305} then Ok(Blob(e.value))
               else if e.tag == 0x146 then OrPanic(DecodeNotice(e.value))
               else if e.tag == 0x11A then OrPanic(DecodeSelfInfo(e.value))
               else if e.tag == 0x543 && protos.uid543(e.value).Some? then Ok(Message(protos.uid543(e.value).value))
               else if e.tag == 0x543 then Panic
               else Err(UnsupportedTag(e.tag))
  {
    hide DecodeExpiration, DecodeNotice, DecodeSelfInfo;
  }

  /** Entry i is the last one of this tag. */
  ghost predicate LastEntry(entries: seq<Entry>, i: int, tag: u16) {
    0 <= i < |entries| && entries[i].tag == tag && forall j :: i < j < |entries| ==> entries[j].tag != tag
  }

  /** The last entry of a tag wins if it is good. */
  lemma LastWins(reg: Registry, entries: seq<Entry>, i: int, tag: u16, protos: Protos)
    requires LastEntry(entries, i, tag) && Meaning(reg, entries[i], protos).Ok?
    ensures var w := Winners(reg, entries, map[], protos);
            tag in w && w[tag] == Meaning(reg, entries[i], protos).value
  {
    hide Meaning, Winners;
    WinnersAre(reg, entries, map[], tag, protos);
    assert !NoneGood(reg, entries, tag, protos);
    var w := Winners(reg, entries, map[], protos);
    var k: nat :| Wins(reg, entries, k, protos) && entries[k].tag == tag && Meaning(reg, entries[k], protos) == Ok(w[tag]);
    assert k == i;
  }

  /** A tag that is on no entry is not in the result. */
  lemma NoneWins(reg: Registry, entries: seq<Entry>, tag: u16, protos: Protos)
    requires forall i :: 0 <= i < |entries| ==> entries[i].tag != tag
    ensures tag !in Winners(reg, entries, map[], protos)
  {
    hide Meaning, Winners;
    WinnersAre(reg, entries, map[], tag, protos);
  }

  /** The value of the last entry of a tag. */
  function LastValue(entries: seq<Entry>, tag: u16): Option<seq<byte>> {
    if entries == [] then None
    else if entries[|entries| - 1].tag == tag then Some(entries[|entries| - 1].value)
    else LastValue(entries[..|entries| - 1], tag)
  }

  lemma {:induction false} LastValueIs(entries: seq<Entry>, tag: u16)
    ensures LastValue(entries, tag).Some? ==> exists i :: LastEntry(entries, i, tag)
    ensures forall i :: LastEntry(entries, i, tag) ==> LastValue(entries, tag) == Some(entries[i].value)
    ensures LastValue(entries, tag).None? ==> forall i :: 0 <= i < |entries| ==> entries[i].tag != tag
  {
    if entries != [] {
      var n := |entries| - 1;
      var front := entries[..n];
      LastValueIs(front, tag);
      assert forall i :: 0 <= i < n ==> front[i] == entries[i];
      if entries[n].tag == tag {
        assert LastEntry(entries, n, tag);
      } else {
        assert forall i :: LastEntry(front, i, tag) ==> LastEntry(entries, i, tag);
        assert forall i :: LastEntry(entries, i, tag) ==> LastEntry(front, i, tag);
      }
    }
  }

  /** When no entry of a tag can fail softly, the last one wins, and a tag without an entry is missing. */
  lemma WinnerIsLast(reg: Registry, entries: seq<Entry>, tag: u16, protos: Protos)
    requires !AnyPanic(reg, entries, protos)
    requires forall e: Entry :: e.tag == tag ==> !Meaning(reg, e, protos).Err?
    ensures var w := Winners(reg, entries, map[], protos);
            match LastValue(entries, tag)
            case None => tag !in w
            case Some(v) => tag in w && Meaning(reg, Entry(tag, v), protos) == Ok(w[tag])
  {
    hide Meaning, Winners;
    LastValueIs(entries, tag);
    if LastValue(entries, tag).Some? {
      var i :| LastEntry(entries, i, tag);
      assert entries[i] == Entry(tag, entries[i].value);
      LastWins(reg, entries, i, tag, protos);
    } else {
      NoneWins(reg, entries, tag, protos);
    }
  }
}

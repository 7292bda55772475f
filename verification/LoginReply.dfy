/** The login replies inside the wtlogin envelope: WtLogin::parse and TransEmp::parse. */
module LoginReply {
  import opened Wrappers
  import opened ByteOrder
  import opened Packet
  import opened Tlv
  import opened WtLogin
  import Tea
  import Decimal
  import Sso = SsoPacket
  import ServerFrame

  // ----- WtLogin::parse

  /** What a login stores in the key store and the session; the new tgtgt key is the MD5 of the d2 key. */
  datatype Session = Session(tgtgtKey: seq<byte>, tgt: seq<byte>, d2: seq<byte>, d2Key: seq<byte>, tempPassword: seq<byte>,
                             uid: seq<byte>, info: TlvValue)

  type Md5 = seq<byte> -> seq<byte>

  datatype LoginReply = LoggedIn(session: Session) | Refused(code: byte, message: seq<byte>)

  function GetBlob(m: Tlvs, tag: u16): Result<seq<byte>> {
    if tag in m && m[tag].Blob? then Ok(m[tag].bytes) else Err(MissingTlv(tag))
  }

  /** The session that a decoded set sets up; a d2 key of the wrong length panics. */
  function SessionFrom(m: Tlvs, md5: Md5): Result<Session> {
    var tgt :- GetBlob(m, 0x10A);
    var d2 :- GetBlob(m, 0x143);
    var d2Key :- GetBlob(m, 0x305);
    if |d2Key| != 16 then Panic
    else
      var tempPassword :- GetBlob(m, 0x106);
      if !(0x543 in m && m[0x543].Message?) then Err(MissingTlv(0x543))
      else if !(0x11A in m && m[0x11A].SelfInfo?) then Err(MissingTlv(0x11A))
      else Ok(Session(md5(d2Key), tgt, d2, d2Key, tempPassword, m[0x543].content, m[0x11A]))
  }

  /** The answer to a refused login: its code and the notice of the set. */
  function RefusedFrom(code: byte, m: Tlvs): Result<LoginReply> {
    if 0x146 in m && m[0x146].Notice? then Ok(Refused(code, m[0x146].message)) else Err(MissingTlv(0x146))
  }

  function ParseLogin(packet: seq<byte>, ctx: Context, protos: Protos, md5: Md5): Result<LoginReply> {
    var plain :- OpenEnvelope(packet, ctx.sharedKey);
    if |plain| < 3 then Panic
    else
      var original :- OrPanic(DeserializeSet(LoginTags, plain[3..], protos));
      if plain[2] == 0 then
        var encrypted :- GetBlob(original, 0x119);
        var decrypted :- OrPanic(Tea.Decrypted(Tea.CipherOf(ctx.tgtgtKey), encrypted));
        var m :- OrPanic(DeserializeSet(LoginTags, decrypted, protos));
        var session :- SessionFrom(m, md5);
        Ok(LoggedIn(session))
      else RefusedFrom(plain[2], original)
  }

  /** A successful login: the inner set, encrypted for the session, is the last entry 0x119 of the outer set. */
  datatype Login = Login(start: seq<byte>, skipped: seq<byte>, fill: seq<byte>, before: seq<Entry>, after: seq<Entry>,
                         inner: seq<Entry>, innerFill: seq<byte>)

  function Outer(l: Login, ctx: Context): seq<Entry>
    requires Tea.IsFill(EncodeSet(l.inner), l.innerFill)
  {
    l.before + [Entry(0x119, Tea.Encrypted(Tea.CipherOf(ctx.tgtgtKey), EncodeSet(l.inner), l.innerFill))] + l.after
  }

  function LoginBody(l: Login, ctx: Context): seq<byte>
    requires Tea.IsFill(EncodeSet(l.inner), l.innerFill)
  {
    l.start + [0] + EncodeSet(Outer(l, ctx))
  }

  ghost predicate Valid(l: Login, ctx: Context, protos: Protos) {
    && |l.start| == 2 && |l.skipped| == 15
    && FitsSet(l.inner) && !AnyPanic(LoginTags, l.inner, protos)
    && Tea.IsFill(EncodeSet(l.inner), l.innerFill)
    && FitsSet(Outer(l, ctx)) && !AnyPanic(LoginTags, Outer(l, ctx), protos)
    && (forall e :: e in l.after ==> e.tag != 0x119)
    && Tea.IsFill(LoginBody(l, ctx), l.fill)
  }

  /** There are such logins: one with an empty inner set, for instance. */
  lemma SomeLogin(ctx: Context, protos: Protos)
    ensures exists l :: Valid(l, ctx, protos)
  {
    hide Tea.Encrypted, Tea.CipherOf;
    var set0 := EncodeSet([]);
    var innerFill := Zeros(Tea.FillCount(|set0|));
    var l0 := Login(Zeros(2), Zeros(15), [], [], [], [], innerFill);
    var fill := Zeros(Tea.FillCount(|LoginBody(l0, ctx)|));
    var l := Login(Zeros(2), Zeros(15), fill, [], [], [], innerFill);
    OneBlob(Outer(l, ctx)[0].value, protos);
    assert Outer(l, ctx) == [Outer(l, ctx)[0]];
    assert Valid(l, ctx, protos);
  }

  lemma OneBlob(bytes: seq<byte>, protos: Protos)
    ensures !AnyPanic(LoginTags, [Entry(0x119, bytes)], protos)
  {
  }

  lemma OuterWinner(l: Login, ctx: Context, protos: Protos)
    requires Valid(l, ctx, protos)
    ensures GetBlob(Winners(LoginTags, Outer(l, ctx), map[], protos), 0x119)
            == Ok(Tea.Encrypted(Tea.CipherOf(ctx.tgtgtKey), EncodeSet(l.inner), l.innerFill))
  {
    hide Tea.Encrypted, Tea.CipherOf, Tea.IsFill, EncodeSet, Winners, LoginBody, FitsSet;
    var outer, k := Outer(l, ctx), |l.before|;
    var blob := Tea.Encrypted(Tea.CipherOf(ctx.tgtgtKey), EncodeSet(l.inner), l.innerFill);
    WinnersAre(LoginTags, outer, map[], 0x119, protos);
    assert outer[k] == Entry(0x119, blob);
    assert Meaning(LoginTags, outer[k], protos) == Ok(Blob(blob));
    assert !NoneGood(LoginTags, outer, 0x119, protos);
    var w := Winners(LoginTags, outer, map[], protos);
    var i: nat :| Wins(LoginTags, outer, i, protos) && outer[i].tag == 0x119
                  && Meaning(LoginTags, outer[i], protos) == Ok(w[0x119]);
    assert i == k;
  }

  /** The session of a login reply is the one its inner set describes, through both layers of encryption. */
  lemma LoginRecovered(l: Login, ctx: Context, protos: Protos, md5: Md5)
    requires Valid(l, ctx, protos)
    ensures ParseLogin(ServerEnvelope(l.skipped, ctx.sharedKey, LoginBody(l, ctx), l.fill), ctx, protos, md5)
            == (match SessionFrom(Winners(LoginTags, l.inner, map[], protos), md5)
                case Ok(session) => Ok(LoggedIn(session))
                case Err(e) => Err(e)
                case Panic => Panic)
  {
    hide Tea.Encrypted, Tea.Decrypted, Tea.CipherOf, Tea.IsFill, EncodeSet, DeserializeSet, SessionFrom, Winners, Outer,
         OpenEnvelope, ServerEnvelope, FitsSet, AnyPanic, GetBlob;
    var body, outer := LoginBody(l, ctx), Outer(l, ctx);
    OpenOfEnvelope(l.skipped, ctx.sharedKey, body, l.fill);
    assert body[2] == 0 && body[3..] == EncodeSet(outer);
    assert EncodeSet(outer) + [] == EncodeSet(outer);
    SetRoundTrip(LoginTags, outer, [], protos);
    OuterWinner(l, ctx, protos);
    EncryptedSetRoundTrip(LoginTags, l.inner, ctx.tgtgtKey, l.innerFill, protos);
  }

  /** A refused login gives back its code and the winning notice of its set. */
  lemma RefusalRecovered(start: seq<byte>, code: byte, entries: seq<Entry>, skipped: seq<byte>, fill: seq<byte>, ctx: Context,
                         protos: Protos, md5: Md5)
    requires |start| == 2 && code != 0 && |skipped| == 15
    requires FitsSet(entries) && !AnyPanic(LoginTags, entries, protos)
    requires Tea.IsFill(start + [code] + EncodeSet(entries), fill)
    ensures ParseLogin(ServerEnvelope(skipped, ctx.sharedKey, start + [code] + EncodeSet(entries), fill), ctx, protos, md5)
            == RefusedFrom(code, Winners(LoginTags, entries, map[], protos))
  {
    hide Tea.Encrypted, Tea.Decrypted, Tea.CipherOf, Tea.IsFill, EncodeSet, DeserializeSet, SessionFrom, RefusedFrom, Winners,
         OpenEnvelope, ServerEnvelope, FitsSet, AnyPanic, GetBlob;
    var body := start + [code] + EncodeSet(entries);
    OpenOfEnvelope(skipped, ctx.sharedKey, body, fill);
    assert body[2] == code && body[3..] == EncodeSet(entries);
    assert EncodeSet(entries) + [] == EncodeSet(entries);
    SetRoundTrip(LoginTags, entries, [], protos);
  }

  // ----- the same from the entries

  /** The tags of each table that hold plain bytes. */
  predicate IsBlobTag(reg: Registry, tag: u16) {
    match reg
    case LoginTags => tag in {0x106, 0x10A, 0x119, 0x143, 0x305}
    case QrCodeTags => tag in {0x017, 0x018, 0x019, 0x01e}
  }

  lemma BlobMeaning(reg: Registry, e: Entry, protos: Protos)
    requires IsBlobTag(reg, e.tag)
    ensures Meaning(reg, e, protos) == Ok(Blob(e.value))
  {
    hide Meaning;
    TagTable(e, protos);
  }

  lemma BlobIsLast(reg: Registry, entries: seq<Entry>, tag: u16, protos: Protos)
    requires !AnyPanic(reg, entries, protos) && IsBlobTag(reg, tag)
    ensures GetBlob(Winners(reg, entries, map[], protos), tag)
            == match LastValue(entries, tag) { case None => Err(MissingTlv(tag)) case Some(v) => Ok(v) }
  {
    hide Meaning, Winners, AnyPanic, LastValue, IsBlobTag;
    forall e: Entry | e.tag == tag
      ensures Meaning(reg, e, protos) == Ok(Blob(e.value))
    {
      BlobMeaning(reg, e, protos);
    }
    WinnerIsLast(reg, entries, tag, protos);
  }

  lemma UidIsLast(entries: seq<Entry>, protos: Protos)
    requires !AnyPanic(LoginTags, entries, protos)
    ensures var w := Winners(LoginTags, entries, map[], protos);
            match LastValue(entries, 0x543)
            case None => 0x543 !in w
            case Some(v) => protos.uid543(v).Some? && 0x543 in w && w[0x543] == Message(protos.uid543(v).value)
  {
    hide Winners, AnyPanic, LastValue;
    forall e: Entry | e.tag == 0x543
      ensures Meaning(LoginTags, e, protos) == if protos.uid543(e.value).Some? then Ok(Message(protos.uid543(e.value).value)) else Panic
    {
      TagTable(e, protos);
    }
    WinnerIsLast(LoginTags, entries, 0x543, protos);
  }

  lemma InfoIsLast(entries: seq<Entry>, protos: Protos)
    requires !AnyPanic(LoginTags, entries, protos)
    ensures var w := Winners(LoginTags, entries, map[], protos);
            match LastValue(entries, 0x11A)
            case None => 0x11A !in w
            case Some(v) => DecodeSelfInfo(v).Some? && 0x11A in w && w[0x11A] == DecodeSelfInfo(v).value && w[0x11A].SelfInfo?
  {
    hide Winners, AnyPanic, LastValue, TakeInt, TakeFrame;
    forall e: Entry | e.tag == 0x11A
      ensures Meaning(LoginTags, e, protos) == OrPanic(DecodeSelfInfo(e.value))
    {
      TagTable(e, protos);
    }
    WinnerIsLast(LoginTags, entries, 0x11A, protos);
  }

  lemma NoticeIsLast(entries: seq<Entry>, protos: Protos)
    requires !AnyPanic(LoginTags, entries, protos)
    ensures var w := Winners(LoginTags, entries, map[], protos);
            match LastValue(entries, 0x146)
            case None => 0x146 !in w
            case Some(v) => DecodeNotice(v).Some? && 0x146 in w && w[0x146] == DecodeNotice(v).value && w[0x146].Notice?
  {
    hide Winners, AnyPanic, LastValue, TakeInt, TakeFrame;
    forall e: Entry | e.tag == 0x146
      ensures Meaning(LoginTags, e, protos) == OrPanic(DecodeNotice(e.value))
    {
      TagTable(e, protos);
    }
    WinnerIsLast(LoginTags, entries, 0x146, protos);
  }

  lemma SessionFromEntries(entries: seq<Entry>, protos: Protos, md5: Md5)
    requires !AnyPanic(LoginTags, entries, protos)
    ensures var tgt, d2, d2Key := LastValue(entries, 0x10A), LastValue(entries, 0x143), LastValue(entries, 0x305);
            var password, uid, info := LastValue(entries, 0x106), LastValue(entries, 0x543), LastValue(entries, 0x11A);
            var r := SessionFrom(Winners(LoginTags, entries, map[], protos), md5);
            if tgt.None? then r == Err(MissingTlv(0x10A))
            else if d2.None? then r == Err(MissingTlv(0x143))
            else if d2Key.None? then r == Err(MissingTlv(0x305))
            else if |d2Key.value| != 16 then r == Panic
            else if password.None? then r == Err(MissingTlv(0x106))
            else if uid.None? then r == Err(MissingTlv(0x543))
            else if info.None? then r == Err(MissingTlv(0x11A))
            else
              && protos.uid543(uid.value).Some? && DecodeSelfInfo(info.value).Some?
              && r.Ok? && r.value.tgt == tgt.value && r.value.d2 == d2.value && r.value.d2Key == d2Key.value
              && r.value.tgtgtKey == md5(d2Key.value) && r.value.tempPassword == password.value
              && r.value.uid == protos.uid543(uid.value).value && r.value.info == DecodeSelfInfo(info.value).value
  {
    BlobIsLast(LoginTags, entries, 0x10A, protos);
    BlobIsLast(LoginTags, entries, 0x143, protos);
    BlobIsLast(LoginTags, entries, 0x305, protos);
    BlobIsLast(LoginTags, entries, 0x106, protos);
    UidIsLast(entries, protos);
    InfoIsLast(entries, protos);
    hide GetBlob, Winners, AnyPanic, LastValue, DecodeSelfInfo;
  }

  /**
   What a login comes to, from the last entry of each tag of its inner set: the first one that is missing, a panic on a
   d2 key of the wrong length, or the session with every value in its place.
   */
  ghost predicate IsLoginOf(r: Result<LoginReply>, inner: seq<Entry>, protos: Protos, md5: Md5) {
    var tgt, d2, d2Key := LastValue(inner, 0x10A), LastValue(inner, 0x143), LastValue(inner, 0x305);
    var password, uid, info := LastValue(inner, 0x106), LastValue(inner, 0x543), LastValue(inner, 0x11A);
    if tgt.None? then r == Err(MissingTlv(0x10A))
    else if d2.None? then r == Err(MissingTlv(0x143))
    else if d2Key.None? then r == Err(MissingTlv(0x305))
    else if |d2Key.value| != 16 then r == Panic
    else if password.None? then r == Err(MissingTlv(0x106))
    else if uid.None? then r == Err(MissingTlv(0x543))
    else if info.None? then r == Err(MissingTlv(0x11A))
    else
      && protos.uid543(uid.value).Some? && DecodeSelfInfo(info.value).Some?
      && r.Ok? && r.value.LoggedIn?
      && var s := r.value.session;
         && s.tgt == tgt.value && s.d2 == d2.value && s.d2Key == d2Key.value && s.tgtgtKey == md5(d2Key.value)
         && s.tempPassword == password.value && s.uid == protos.uid543(uid.value).value
         && s.info == DecodeSelfInfo(info.value).value
  }

  /** A login reply comes to what the entries of its inner set say. */
  lemma LoginFromEntries(l: Login, ctx: Context, protos: Protos, md5: Md5)
    requires Valid(l, ctx, protos)
    ensures IsLoginOf(ParseLogin(ServerEnvelope(l.skipped, ctx.sharedKey, LoginBody(l, ctx), l.fill), ctx, protos, md5), l.inner, protos, md5)
  {
    hide ParseLogin, ServerEnvelope, LoginBody, SessionFrom, Winners, LastValue, DecodeSelfInfo, Tea.IsFill, FitsSet, AnyPanic, Outer;
    LoginRecovered(l, ctx, protos, md5);
    SessionFromEntries(l.inner, protos, md5);
  }

  /** What a refused login comes to: the message in the bytes of the last notice of its set, or the missing tag. */
  lemma RefusalFromEntries(start: seq<byte>, code: byte, entries: seq<Entry>, skipped: seq<byte>, fill: seq<byte>, ctx: Context,
                           protos: Protos, md5: Md5, state: u32, title: seq<byte>, message: seq<byte>, field0: u32, junk: seq<byte>)
    requires |start| == 2 && code != 0 && |skipped| == 15
    requires FitsSet(entries) && !AnyPanic(LoginTags, entries, protos)
    requires Tea.IsFill(start + [code] + EncodeSet(entries), fill)
    requires |title| < U16_LIMIT && |message| < U16_LIMIT
    ensures var r := ParseLogin(ServerEnvelope(skipped, ctx.sharedKey, start + [code] + EncodeSet(entries), fill), ctx, protos, md5);
            && (LastValue(entries, 0x146).None? ==> r == Err(MissingTlv(0x146)))
            && (LastValue(entries, 0x146)
                == Some(BigEndian(state, 4) + (Wrapped(VALUE, title) + (Wrapped(VALUE, message) + (BigEndian(field0, 4) + junk)))) ==>
                  r == Ok(Refused(code, message)))
  {
    hide ParseLogin, ServerEnvelope, Winners, LastValue, DecodeNotice, EncodeSet, Wrapped, BigEndian, Tea.IsFill, FitsSet, AnyPanic;
    RefusalRecovered(start, code, entries, skipped, fill, ctx, protos, md5);
    NoticeIsLast(entries, protos);
    NoticeRecovered(state, title, message, field0, junk);
  }

  /** The whole way of a login reply: server frame, SSO packet, event payload, envelope, session. */
  lemma LoginEndToEnd(l: Login, ctx: Context, protos: Protos, f: ServerFrame.Frame, sso: Sso.Context,
                      inflate: Sso.Inflate, commands: set<seq<byte>>, md5: Md5)
    requires Valid(l, ctx, protos)
    requires ServerFrame.Fits(f) && f.authFlag <= 2 && f.body.retCode == 0
    requires f.protocol in {12, 13} && f.uin == Decimal.ToDecimal(sso.uin)
    requires var payload := ServerEnvelope(l.skipped, ctx.sharedKey, LoginBody(l, ctx), l.fill);
             ServerFrame.FitsSection(payload) && ServerFrame.Carries(f.body, payload, inflate)
    requires f.body.command in commands
    ensures var packet := Sso.Parse(ServerFrame.EncodeFrame(f, sso), sso, inflate);
            && packet.Ok?
            && ServerFrame.ResolveEvent(packet.value, commands).Ok?
            && IsLoginOf(ParseLogin(ServerFrame.ResolveEvent(packet.value, commands).value.payload, ctx, protos, md5), l.inner, protos, md5)
  {
    hide ServerEnvelope, LoginBody, IsLoginOf, ParseLogin, ServerFrame.EncodeFrame, ServerFrame.ResolveEvent, Sso.Parse,
         ServerFrame.Fits, Tea.IsFill, FitsSet, AnyPanic, Outer;
    var payload := ServerEnvelope(l.skipped, ctx.sharedKey, LoginBody(l, ctx), l.fill);
    ServerFrame.PayloadRecovered(f, payload, sso, inflate, commands);
    LoginFromEntries(l, ctx, protos, md5);
  }

  // ----- TransEmp::parse

  datatype TransEmp =
    | QrImage(signature: seq<byte>, qrCode: seq<byte>, expiration: nat, login: seq<byte>)
    | Confirmed(tgtgtKey: seq<byte>, tempPassword: seq<byte>, noPicSig: seq<byte>)
    | CodeExpired
    | WaitingForScan
    | WaitingForConfirm
    | Canceled

  /** The answer to 0x31 from its signature and its decoded set. */
  function QrImageFrom(signature: seq<byte>, m: Tlvs): Result<TransEmp> {
    var qrCode :- GetBlob(m, 0x017);
    if !(0x01c in m && m[0x01c].Expiration?) then Err(MissingTlv(0x01c))
    else if !(0x0d1 in m && m[0x0d1].Message?) then Err(MissingTlv(0x0d1))
    else Ok(QrImage(signature, qrCode, m[0x01c].seconds, m[0x0d1].content))
  }

  /** The answer to 0x12 from its decoded set, once the login is confirmed. */
  function ConfirmedFrom(m: Tlvs): Result<TransEmp> {
    var tgtgtKey :- GetBlob(m, 0x01e);
    var tempPassword :- GetBlob(m, 0x018);
    var noPicSig :- GetBlob(m, 0x019);
    Ok(Confirmed(tgtgtKey, tempPassword, noPicSig))
  }

  function ParseQrImage(input: seq<byte>, protos: Protos): Result<TransEmp> {
    if input == [] then Panic
    else
      var (signature, rest) :- OrPanic(TakeFrame(VALUE, input[1..]));
      var m :- OrPanic(DeserializeSet(QrCodeTags, rest, protos));
      QrImageFrom(signature, m)
  }

  function ParseState(input: seq<byte>, protos: Protos): Result<TransEmp> {
    if input == [] then Panic
    else match input[0]
      case 0 =>
        if |input| < 13 then Panic
        else
          var m :- OrPanic(DeserializeSet(QrCodeTags, input[13..], protos));
          ConfirmedFrom(m)
      case 17 => Ok(CodeExpired)
      case 48 => Ok(WaitingForScan)
      case 53 => Ok(WaitingForConfirm)
      case 54 => Ok(Canceled)
      case _ => Err(UnknownState(input[0]))
  }

  function ParseTransEmp(packet: seq<byte>, ctx: Context, protos: Protos): Result<TransEmp> {
    var plain :- OpenEnvelope(packet, ctx.sharedKey);
    if |plain| < 54 then Panic
    else
      var (command, _) :- OrPanic(NextU16(plain[8..10]));
      if command == 0x31 then ParseQrImage(plain[54..], protos)
      else if command == 0x12 then ParseState(plain[54..], protos)
      else Err(UnsupportedCommand(command))
  }

  /** TransEmp::parse, with the reader of the envelope and the reader of the answer. */
  method ParseReply(packet: seq<byte>, ctx: Context, protos: Protos) returns (r: WtLogin.Result<TransEmp>)
    ensures r == ParseTransEmp(packet, ctx, protos)
  {
    hide OpenEnvelope, FromBigEndian, ParseQrImage, ParseState;
    var plain := ParseEnvelope(packet, ctx);
    if !plain.Ok? {
      return if plain.Err? then Err(plain.error) else Panic;
    }
    var reader := new PacketReader(plain.value);
    var length := reader.SplitTo(4);
    if length.None? { return Panic; }
    var misc := reader.SplitTo(4);
    if misc.None? { return Panic; }
    assert reader.reader == plain.value[8..];
    var command := ReadU16(reader);
    if command.None? { return Panic; }
    var skipped := reader.SplitTo(40);
    if skipped.None? { return Panic; }
    var appId := reader.SplitTo(4);
    if appId.None? { return Panic; }
    assert plain.value[8..][..2] == plain.value[8..10][..2];
    assert reader.reader == plain.value[54..];
    var answer := new PacketReader(reader.reader);
    if command.value == 0x31 {
      r := ReadQrImage(answer, protos);
    } else if command.value == 0x12 {
      r := ReadState(answer, protos);
    } else {
      r := Err(UnsupportedCommand(command.value));
    }
  }

  method ReadQrImage(reader: PacketReader, protos: Protos) returns (r: WtLogin.Result<TransEmp>)
    modifies reader
    ensures r == ParseQrImage(old(reader.reader), protos)
  {
    hide TakeFrame, DeserializeSet, QrImageFrom;
    var mark := reader.SplitTo(1);
    if mark.None? { return Panic; }
    var signature := reader.Enter(VALUE);
    if signature.None? { return Panic; }
    var rest := reader.Rest();
    var tlvs := Deserialize(QrCodeTags, rest, protos);
    if tlvs.None? { return Panic; }
    r := QrImageFrom(signature.value, tlvs.value);
  }

  method ReadState(reader: PacketReader, protos: Protos) returns (r: WtLogin.Result<TransEmp>)
    modifies reader
    ensures r == ParseState(old(reader.reader), protos)
  {
    hide DeserializeSet, ConfirmedFrom;
    var state := reader.SplitTo(1);
    if state.None? { return Panic; }
    match state.value[0]
    case 0 =>
      var misc := reader.SplitTo(12);
      if misc.None? { return Panic; }
      assert reader.reader == old(reader.reader)[13..];
      var rest := reader.Rest();
      var tlvs := Deserialize(QrCodeTags, rest, protos);
      if tlvs.None? { return Panic; }
      r := ConfirmedFrom(tlvs.value);
    case 17 => r := Ok(CodeExpired);
    case 48 => r := Ok(WaitingForScan);
    case 53 => r := Ok(WaitingForConfirm);
    case 54 => r := Ok(Canceled);
    case _ => r := Err(UnknownState(state.value[0]));
  }

  /** A reply to command 0x31 or 0x12: 8 unread bytes, the command, 44 unread bytes, then the answer. */
  function TransEmpBody(start: seq<byte>, command: u16, unread: seq<byte>, answer: seq<byte>): seq<byte> {
    start + BigEndian(command, 2) + unread + answer
  }

  /** A QR code reply gives back the signature and the winning values of its set. */
  lemma QrImageRecovered(start: seq<byte>, unread: seq<byte>, mark: byte, signature: seq<byte>, entries: seq<Entry>,
                         skipped: seq<byte>, fill: seq<byte>, ctx: Context, protos: Protos)
    requires |start| == 8 && |unread| == 44 && |skipped| == 15 && |signature| < U16_LIMIT
    requires FitsSet(entries) && !AnyPanic(QrCodeTags, entries, protos)
    requires var answer := [mark] + (Wrapped(VALUE, signature) + EncodeSet(entries));
             Tea.IsFill(TransEmpBody(start, 0x31, unread, answer), fill)
    ensures var answer := [mark] + (Wrapped(VALUE, signature) + EncodeSet(entries));
            ParseTransEmp(ServerEnvelope(skipped, ctx.sharedKey, TransEmpBody(start, 0x31, unread, answer), fill), ctx, protos)
            == QrImageFrom(signature, Winners(QrCodeTags, entries, map[], protos))
  {
    hide Wrapped, EncodeSet, TransEmpBody, Tea.IsFill, ServerEnvelope, ParseTransEmp, QrImageFrom, Winners, ParseQrImage, ParseState,
         FitsSet, AnyPanic;
    var answer := [mark] + (Wrapped(VALUE, signature) + EncodeSet(entries));
    TransEmpRouted(start, 0x31, unread, answer, skipped, fill, ctx, protos);
    QrImageOf(mark, signature, entries, protos);
  }

  /** A confirmed login gives back the winning values of its set. */
  lemma ConfirmedRecovered(start: seq<byte>, unread: seq<byte>, misc: seq<byte>, entries: seq<Entry>,
                           skipped: seq<byte>, fill: seq<byte>, ctx: Context, protos: Protos)
    requires |start| == 8 && |unread| == 44 && |skipped| == 15 && |misc| == 12
    requires FitsSet(entries) && !AnyPanic(QrCodeTags, entries, protos)
    requires Tea.IsFill(TransEmpBody(start, 0x12, unread, [0] + misc + EncodeSet(entries)), fill)
    ensures var body := TransEmpBody(start, 0x12, unread, [0] + misc + EncodeSet(entries));
            ParseTransEmp(ServerEnvelope(skipped, ctx.sharedKey, body, fill), ctx, protos)
            == ConfirmedFrom(Winners(QrCodeTags, entries, map[], protos))
  {
    hide EncodeSet, TransEmpBody, Tea.IsFill, ServerEnvelope, ParseTransEmp, ConfirmedFrom, Winners, ParseQrImage, ParseState,
         FitsSet, AnyPanic;
    TransEmpRouted(start, 0x12, unread, [0] + misc + EncodeSet(entries), skipped, fill, ctx, protos);
    ConfirmedOf(misc, entries, protos);
  }

  lemma TransEmpRouted(start: seq<byte>, command: u16, unread: seq<byte>, answer: seq<byte>,
                       skipped: seq<byte>, fill: seq<byte>, ctx: Context, protos: Protos)
    requires |start| == 8 && |unread| == 44 && |skipped| == 15
    requires Tea.IsFill(TransEmpBody(start, command, unread, answer), fill)
    ensures ParseTransEmp(ServerEnvelope(skipped, ctx.sharedKey, TransEmpBody(start, command, unread, answer), fill), ctx, protos)
            == if command == 0x31 then ParseQrImage(answer, protos)
               else if command == 0x12 then ParseState(answer, protos)
               else Err(UnsupportedCommand(command))
  {
    hide Tea.IsFill, OpenEnvelope, ServerEnvelope, BigEndian, TakeInt, ParseQrImage, ParseState;
    var plain := TransEmpBody(start, command, unread, answer);
    OpenOfEnvelope(skipped, ctx.sharedKey, plain, fill);
    assert plain[54..] == answer;
    assert plain[8..10] == BigEndian(command, 2) == BigEndian(command, 2) + [];
    LimitValues();
    TakeIntOf(command, 2, []);
  }

  lemma QrImageOf(mark: byte, signature: seq<byte>, entries: seq<Entry>, protos: Protos)
    requires |signature| < U16_LIMIT && FitsSet(entries) && !AnyPanic(QrCodeTags, entries, protos)
    ensures ParseQrImage([mark] + (Wrapped(VALUE, signature) + EncodeSet(entries)), protos)
            == QrImageFrom(signature, Winners(QrCodeTags, entries, map[], protos))
  {
    hide TakeFrame, Wrapped, EncodeSet, DeserializeSet, QrImageFrom, Winners, AnyPanic, FitsSet;
    var rest := Wrapped(VALUE, signature) + EncodeSet(entries);
    assert ([mark] + rest)[1..] == rest;
    LimitValues();
    TakeWrapped(VALUE, signature, EncodeSet(entries));
    SetRoundTrip(QrCodeTags, entries, [], protos);
    assert EncodeSet(entries) + [] == EncodeSet(entries);
  }

  lemma ConfirmedOf(misc: seq<byte>, entries: seq<Entry>, protos: Protos)
    requires |misc| == 12 && FitsSet(entries) && !AnyPanic(QrCodeTags, entries, protos)
    ensures ParseState([0] + misc + EncodeSet(entries), protos) == ConfirmedFrom(Winners(QrCodeTags, entries, map[], protos))
  {
    hide EncodeSet, DeserializeSet, ConfirmedFrom, Winners, AnyPanic, FitsSet;
    assert ([0] + misc + EncodeSet(entries))[13..] == EncodeSet(entries);
    SetRoundTrip(QrCodeTags, entries, [], protos);
    assert EncodeSet(entries) + [] == EncodeSet(entries);
  }

  // ----- the same from the entries

  /** Entry i is the last readable one of the protobuf tag 0x0d1. */
  ghost predicate LastReadable(entries: seq<Entry>, i: int, protos: Protos) {
    && 0 <= i < |entries| && entries[i].tag == 0x0d1 && protos.qrCodeD1(entries[i].value).Some?
    && forall j :: i < j < |entries| && entries[j].tag == 0x0d1 ==> protos.qrCodeD1(entries[j].value).None?
  }

  lemma ReadableWins(entries: seq<Entry>, protos: Protos)
    ensures var w := Winners(QrCodeTags, entries, map[], protos);
            && (forall i :: LastReadable(entries, i, protos) ==>
                  0x0d1 in w && w[0x0d1] == Message(protos.qrCodeD1(entries[i].value).value))
            && ((forall i :: 0 <= i < |entries| && entries[i].tag == 0x0d1 ==> protos.qrCodeD1(entries[i].value).None?) ==> 0x0d1 !in w)
  {
    hide Meaning, Winners;
    forall e: Entry | e.tag == 0x0d1
      ensures Meaning(QrCodeTags, e, protos)
              == if protos.qrCodeD1(e.value).Some? then Ok(Message(protos.qrCodeD1(e.value).value)) else Err(ProtobufDecodeError)
    {
      TagTable(e, protos);
    }
    var w := Winners(QrCodeTags, entries, map[], protos);
    WinnersAre(QrCodeTags, entries, map[], 0x0d1, protos);
    forall i | LastReadable(entries, i, protos)
      ensures 0x0d1 in w && w[0x0d1] == Message(protos.qrCodeD1(entries[i].value).value)
    {
      assert !NoneGood(QrCodeTags, entries, 0x0d1, protos);
      var k: nat :| Wins(QrCodeTags, entries, k, protos) && entries[k].tag == 0x0d1
                    && Meaning(QrCodeTags, entries[k], protos) == Ok(w[0x0d1]);
      assert k == i;
    }
  }

  lemma ExpirationIsLast(entries: seq<Entry>, protos: Protos)
    requires !AnyPanic(QrCodeTags, entries, protos)
    ensures var w := Winners(QrCodeTags, entries, map[], protos);
            match LastValue(entries, 0x01c)
            case None => 0x01c !in w
            case Some(v) => DecodeExpiration(v).Some? && 0x01c in w && w[0x01c] == DecodeExpiration(v).value && w[0x01c].Expiration?
  {
    hide Winners, AnyPanic, LastValue, TakeInt;
    forall e: Entry | e.tag == 0x01c
      ensures Meaning(QrCodeTags, e, protos) == OrPanic(DecodeExpiration(e.value))
    {
      TagTable(e, protos);
    }
    WinnerIsLast(QrCodeTags, entries, 0x01c, protos);
  }

  /** What a QR code reply comes to, from its entries: the image, the seconds, the readable message and the signature. */
  lemma QrImageFromEntries(start: seq<byte>, unread: seq<byte>, mark: byte, signature: seq<byte>, entries: seq<Entry>,
                           skipped: seq<byte>, fill: seq<byte>, ctx: Context, protos: Protos, i: int)
    requires |start| == 8 && |unread| == 44 && |skipped| == 15 && |signature| < U16_LIMIT
    requires FitsSet(entries) && !AnyPanic(QrCodeTags, entries, protos)
    requires var answer := [mark] + (Wrapped(VALUE, signature) + EncodeSet(entries));
             Tea.IsFill(TransEmpBody(start, 0x31, unread, answer), fill)
    ensures var answer := [mark] + (Wrapped(VALUE, signature) + EncodeSet(entries));
            var body := TransEmpBody(start, 0x31, unread, answer);
            var r := ParseTransEmp(ServerEnvelope(skipped, ctx.sharedKey, body, fill), ctx, protos);
            var image, expiration := LastValue(entries, 0x017), LastValue(entries, 0x01c);
            if image.None? then r == Err(MissingTlv(0x017))
            else if expiration.None? then r == Err(MissingTlv(0x01c))
            else
              && DecodeExpiration(expiration.value).Some?
              && ((forall k :: 0 <= k < |entries| && entries[k].tag == 0x0d1 ==> protos.qrCodeD1(entries[k].value).None?) ==>
                    r == Err(MissingTlv(0x0d1)))
              && (LastReadable(entries, i, protos) ==>
                    && r.Ok? && r.value.QrImage? && r.value.qrCode == image.value && r.value.signature == signature
                    && r.value.expiration == DecodeExpiration(expiration.value).value.seconds
                    && r.value.login == protos.qrCodeD1(entries[i].value).value)
  {
    hide EncodeSet, TransEmpBody, Tea.IsFill, ServerEnvelope, ParseTransEmp, GetBlob, Winners, FitsSet, AnyPanic, LastValue,
         DecodeExpiration, LastReadable, Wrapped;
    QrImageRecovered(start, unread, mark, signature, entries, skipped, fill, ctx, protos);
    BlobIsLast(QrCodeTags, entries, 0x017, protos);
    ExpirationIsLast(entries, protos);
    ReadableWins(entries, protos);
  }

  /** What a confirmed login comes to, from its entries. */
  lemma ConfirmedFromEntries(start: seq<byte>, unread: seq<byte>, misc: seq<byte>, entries: seq<Entry>,
                             skipped: seq<byte>, fill: seq<byte>, ctx: Context, protos: Protos)
    requires |start| == 8 && |unread| == 44 && |skipped| == 15 && |misc| == 12
    requires FitsSet(entries) && !AnyPanic(QrCodeTags, entries, protos)
    requires Tea.IsFill(TransEmpBody(start, 0x12, unread, [0] + misc + EncodeSet(entries)), fill)
    ensures var body := TransEmpBody(start, 0x12, unread, [0] + misc + EncodeSet(entries));
            var r := ParseTransEmp(ServerEnvelope(skipped, ctx.sharedKey, body, fill), ctx, protos);
            var key, password, sig := LastValue(entries, 0x01e), LastValue(entries, 0x018), LastValue(entries, 0x019);
            if key.None? then r == Err(MissingTlv(0x01e))
            else if password.None? then r == Err(MissingTlv(0x018))
            else if sig.None? then r == Err(MissingTlv(0x019))
            else r.Ok? && r.value.Confirmed? && r.value.tgtgtKey == key.value && r.value.tempPassword == password.value
                 && r.value.noPicSig == sig.value
  {
    hide EncodeSet, TransEmpBody, Tea.IsFill, ServerEnvelope, ParseTransEmp, GetBlob, Winners, FitsSet, AnyPanic, LastValue;
    ConfirmedRecovered(start, unread, misc, entries, skipped, fill, ctx, protos);
    BlobIsLast(QrCodeTags, entries, 0x01e, protos);
    BlobIsLast(QrCodeTags, entries, 0x018, protos);
    BlobIsLast(QrCodeTags, entries, 0x019, protos);
  }

  /** The other states of a QR code, by the byte the server sends. */
  lemma StateCodes(start: seq<byte>, unread: seq<byte>, state: byte, rest: seq<byte>, skipped: seq<byte>, fill: seq<byte>,
                   ctx: Context, protos: Protos)
    requires |start| == 8 && |unread| == 44 && |skipped| == 15 && state != 0
    requires Tea.IsFill(TransEmpBody(start, 0x12, unread, [state] + rest), fill)
    ensures ParseTransEmp(ServerEnvelope(skipped, ctx.sharedKey, TransEmpBody(start, 0x12, unread, [state] + rest), fill), ctx, protos)
            == if state == 17 then Ok(CodeExpired) else if state == 48 then Ok(WaitingForScan)
               else if state == 53 then Ok(WaitingForConfirm) else if state == 54 then Ok(Canceled)
               else Err(UnknownState(state))
  {
    hide TransEmpBody, Tea.IsFill, ServerEnvelope, ParseTransEmp, ParseQrImage;
    TransEmpRouted(start, 0x12, unread, [state] + rest, skipped, fill, ctx, protos);
  }

  /** Replies that are too short for what is skipped and read in front of their answer panic. */
  lemma ShortReplies(skipped: seq<byte>, plain: seq<byte>, fill: seq<byte>, ctx: Context, protos: Protos, md5: Md5)
    requires |skipped| == 15 && Tea.IsFill(plain, fill)
    ensures |plain| < 54 ==> ParseTransEmp(ServerEnvelope(skipped, ctx.sharedKey, plain, fill), ctx, protos) == Panic
    ensures |plain| < 5 ==> ParseLogin(ServerEnvelope(skipped, ctx.sharedKey, plain, fill), ctx, protos, md5) == Panic
  {
    hide Tea.IsFill, OpenEnvelope, ServerEnvelope, FromBigEndian, DeserializeEntries;
    OpenOfEnvelope(skipped, ctx.sharedKey, plain, fill);
  }
}

/**
 The length-prefixed wire format of packet.rs. The closures that the builder and the reader take are
 trees here: a Field says what a builder closure writes, a Shape what a reader closure reads.
 */
module Packet {
  import opened Wrappers
  import opened ByteOrder

  /** The three length-prefixing operations and their constant parameters. */
  datatype Frame =
    | Section(addition: int)                              // section_with_addition
    | Section16(addition: int)                            // section_16_with_addition
    | Prefixed(prefix: nat, counted: bool, addition: int) // write_with_length, read_with_length
  {
    function Width(): nat {
      match this
      case Section(_) => 4
      case Section16(_) => 2
      case Prefixed(prefix, _, _) => prefix
    }

    /** What the builder adds to the length of the body. */
    function Added(): int {
      match this
      case Section(a) => a
      case Section16(a) => a
      case Prefixed(prefix, counted, a) => (if counted then prefix else 0) + a
    }

    /** What the reader takes off the length it reads; read_with_length has no addition. */
    function Subtracted(): int {
      match this
      case Section(a) => a
      case Section16(a) => a
      case Prefixed(prefix, counted, _) => if counted then prefix else 0
    }

    predicate Valid() {
      Width() in {0, 1, 2, 4}
    }
  }

  datatype Field =
    | Int(width: nat, value: nat)
    | Raw(bytes: seq<byte>)
    | Framed(frame: Frame, body: seq<Field>)

  lemma ModBelow(n: int, m: int)
    requires m > 0
    ensures 0 <= n % m < m
    ensures 0 <= n < m ==> n % m == n
  {
  }

  /** A length cut to the width of its prefix, as the casts of the builder cut it. */
  function Cut(n: int, width: nat): (r: nat)
    ensures r < Limit(width)
    ensures 0 <= n < Limit(width) ==> r == n
  {
    ModBelow(n, Limit(width));
    n % Limit(width)
  }

  /** The pure encoding: every length is cut to the width of its prefix. */
  function Encode(f: Field): seq<byte>
    decreases f, 1
  {
    match f
    case Int(width, value) => BigEndian(value, width)
    case Raw(bytes) => bytes
    case Framed(frame, body) =>
      var inner := EncodeAll(body);
      BigEndian(Cut(|inner| + frame.Added(), frame.Width()), frame.Width()) + inner
  }

  function EncodeAll(fs: seq<Field>): seq<byte>
    decreases fs, 0
  {
    if fs == [] then [] else Encode(fs[0]) + EncodeAll(fs[1..])
  }

  /** Where building panics: an unknown prefix, or a 16-bit section whose length is too large. */
  predicate Panics(f: Field)
    decreases f, 1
  {
    f.Framed?
    && (!f.frame.Valid() || PanicsAny(f.body)
        || (f.frame.Section16? && |EncodeAll(f.body)| + f.frame.Added() >= U16_LIMIT))
  }

  predicate PanicsAny(fs: seq<Field>)
    decreases fs, 0
  {
    fs != [] && (Panics(fs[0]) || PanicsAny(fs[1..]))
  }

  lemma {:induction false} EncodeAllAppend(fs: seq<Field>, gs: seq<Field>)
    ensures EncodeAll(fs + gs) == EncodeAll(fs) + EncodeAll(gs)
  {
    if fs == [] {
      assert fs + gs == gs;
    } else {
      assert (fs + gs)[1..] == fs[1..] + gs;
      EncodeAllAppend(fs[1..], gs);
    }
  }

  /** PacketBuilder: appends to one buffer and patches the lengths of finished sections in place. */
  class PacketBuilder {
    var buffer: seq<byte>

    constructor ()
      ensures buffer == []
    {
      buffer := [];
    }

    method WriteInt(width: nat, value: nat)
      modifies this
      ensures buffer == old(buffer) + BigEndian(value, width)
    {
      buffer := buffer + BigEndian(value, width);
    }

    method WriteBytes(bytes: seq<byte>)
      modifies this
      ensures buffer == old(buffer) + bytes
    {
      buffer := buffer + bytes;
    }

    /** byteorder's write_u16 and write_u32 into the buffer from start on. */
    method Patch(start: nat, width: nat, value: nat)
      requires start + width <= |buffer|
      modifies this
      ensures buffer == old(buffer)[..start] + BigEndian(value, width) + old(buffer)[start + width..]
    {
      var bytes := BigEndian(value, width);
      for i := 0 to width
        invariant |buffer| == old(|buffer|)
        invariant buffer == old(buffer)[..start] + bytes[..i] + old(buffer)[start + i..]
      {
        buffer := buffer[start + i := bytes[i]];
      }
      assert bytes[..width] == bytes;
    }

    /**
     Runs one builder operation; false is a panic. Whatever the buffer held before stays where it was,
     and the in-place patching adds up to the pure encoding.
     */
    method Write(f: Field) returns (ok: bool)
      modifies this
      ensures ok <==> !Panics(f)
      ensures ok ==> buffer == old(buffer) + Encode(f)
      decreases f, 1
    {
      hide Limit, BigEndian, Cut;
      match f {
        case Int(width, value) =>
          WriteInt(width, value);
          ok := true;
        case Raw(bytes) =>
          WriteBytes(bytes);
          ok := true;
        case Framed(frame, body) =>
          if !frame.Valid() {
            return false;
          }
          var start := |buffer|;
          WriteInt(frame.Width(), 0);
          ok := WriteAll(body);
          if !ok {
            return;
          }
          var length := |buffer| - start - frame.Width() + frame.Added();
          if frame.Section16? && length >= U16_LIMIT {
            return false;
          }
          Patch(start, frame.Width(), Cut(length, frame.Width()));
      }
    }

    method WriteAll(fs: seq<Field>) returns (ok: bool)
      modifies this
      ensures ok <==> !PanicsAny(fs)
      ensures ok ==> buffer == old(buffer) + EncodeAll(fs)
      decreases fs, 0
    {
      hide Encode, Panics;
      if fs == [] {
        return true;
      }
      ok := Write(fs[0]);
      if ok {
        ok := WriteAll(fs[1..]);
      }
    }
  }

  datatype Shape =
    | ReadInt(width: nat)
    | ReadPacket(count: nat)
    | ReadRest
    | ReadFramed(frame: Frame, body: seq<Shape>)

  datatype Value =
    | Number(n: nat)
    | Bytes(bytes: seq<byte>)
    | Group(values: seq<Value>)

  type Step = (Value, seq<byte>)

  /** get_u8, get_u16, get_u32 and get_u64: the number in front and the bytes behind it. */
  function TakeInt(width: nat, input: seq<byte>): Option<(nat, seq<byte>)> {
    if |input| < width then None else Some((FromBigEndian(input[..width]), input[width..]))
  }

  /** The bytes inside the section in front and the bytes behind it. */
  function TakeFrame(frame: Frame, input: seq<byte>): Option<(seq<byte>, seq<byte>)> {
    if !frame.Valid() then None
    else
      var (n, rest) :- TakeInt(frame.Width(), input);
      SplitTo(n - frame.Subtracted(), rest)
  }

  /** split_to: panics on a negative length, which wraps to a huge one, and on one behind the end. */
  function SplitTo(length: int, input: seq<byte>): Option<(seq<byte>, seq<byte>)> {
    if 0 <= length <= |input| then Some((input[..length], input[length..])) else None
  }

  /** The value one reader operation returns and the bytes it leaves, or None where it panics. */
  function Read(s: Shape, input: seq<byte>): Option<Step>
    decreases s, 1
  {
    match s
    case ReadInt(width) =>
      var (n, rest) :- TakeInt(width, input);
      Some((Number(n), rest))
    case ReadPacket(count) =>
      if |input| < count then None else Some((Bytes(input[..count]), input[count..]))
    case ReadRest => Some((Bytes(input), []))
    case ReadFramed(frame, body) =>
      var (inner, rest) :- TakeFrame(frame, input);
      var (vs, _) :- ReadAll(body, inner);
      Some((Group(vs), rest))
  }

  function ReadAll(ss: seq<Shape>, input: seq<byte>): (r: Option<(seq<Value>, seq<byte>)>)
    decreases ss, 0
  {
    if ss == [] then Some(([], input))
    else
      var (v, rest) :- Read(ss[0], input);
      var (vs, rest') :- ReadAll(ss[1..], rest);
      Some(([v] + vs, rest'))
  }

  /** PacketReader: consumes one buffer from the front. */
  class PacketReader {
    var reader: seq<byte>

    constructor (packet: seq<byte>)
      ensures reader == packet
    {
      reader := packet;
    }

    method Int(width: nat) returns (r: Option<nat>)
      modifies this
      ensures r.Some? <==> TakeInt(width, old(reader)).Some?
      ensures r.Some? ==> TakeInt(width, old(reader)) == Some((r.value, reader))
    {
      if |reader| < width {
        return None;
      }
      r := Some(FromBigEndian(reader[..width]));
      reader := reader[width..];
    }

    /** split_to, which read_packet and skip come down to as well. */
    method SplitTo(count: int) returns (r: Option<seq<byte>>)
      modifies this
      ensures r.Some? <==> 0 <= count <= |old(reader)|
      ensures r.Some? ==> r.value == old(reader)[..count] && reader == old(reader)[count..]
    {
      if !(0 <= count <= |reader|) {
        return None;
      }
      r := Some(reader[..count]);
      reader := reader[count..];
    }

    method Rest() returns (r: seq<byte>)
      modifies this
      ensures r == old(reader) && reader == []
    {
      r := reader;
      reader := [];
    }

    /** Splits a section off, leaving the reader at its exact end. */
    method Enter(frame: Frame) returns (r: Option<seq<byte>>)
      modifies this
      ensures r.Some? <==> TakeFrame(frame, old(reader)).Some?
      ensures r.Some? ==> TakeFrame(frame, old(reader)) == Some((r.value, reader))
    {
      if !frame.Valid() {
        return None;
      }
      var n :- Int(frame.Width());
      r := SplitTo(n - frame.Subtracted());
    }

    /** Runs one reader operation; a section gets a reader of its own. */
    method Walk(s: Shape) returns (r: Option<Value>)
      modifies this
      ensures r.Some? <==> Read(s, old(reader)).Some?
      ensures r.Some? ==> Read(s, old(reader)) == Some((r.value, reader))
      decreases s, 1
    {
      match s {
        case ReadInt(width) =>
          var n :- Int(width);
          r := Some(Number(n));
        case ReadPacket(count) =>
          var bytes :- SplitTo(count);
          r := Some(Bytes(bytes));
        case ReadRest =>
          var bytes := Rest();
          r := Some(Bytes(bytes));
        case ReadFramed(frame, body) =>
          var buffer :- Enter(frame);
          var inner := new PacketReader(buffer);
          var vs :- inner.WalkAll(body);
          r := Some(Group(vs));
      }
    }

    method WalkAll(ss: seq<Shape>) returns (r: Option<seq<Value>>)
      modifies this
      ensures r.Some? <==> ReadAll(ss, old(reader)).Some?
      ensures r.Some? ==> ReadAll(ss, old(reader)) == Some((r.value, reader))
      decreases ss, 0
    {
      if ss == [] {
        return Some([]);
      }
      var v :- Walk(ss[0]);
      var vs :- WalkAll(ss[1..]);
      r := Some([v] + vs);
    }
  }

  /** The numbers fit their widths, and so does every length. */
  predicate Fits(f: Field)
    decreases f, 1
  {
    match f
    case Int(width, value) => value < Limit(width)
    case Raw(_) => true
    case Framed(frame, body) =>
      frame.Valid() && frame.Width() > 0 && FitsAll(body)
      && 0 <= |EncodeAll(body)| + frame.Added() < Limit(frame.Width())
  }

  predicate FitsAll(fs: seq<Field>)
    decreases fs, 0
  {
    fs == [] || (Fits(fs[0]) && FitsAll(fs[1..]))
  }

  /** A tree that fits is built without a panic. */
  lemma FitsDoesNotPanic(f: Field)
    requires Fits(f)
    ensures !Panics(f)
    decreases f, 1
  {
    if f.Framed? {
      LimitValues();
      FitsAllDoesNotPanic(f.body);
    }
  }

  lemma FitsAllDoesNotPanic(fs: seq<Field>)
    requires FitsAll(fs)
    ensures !PanicsAny(fs)
    decreases fs, 0
  {
    if fs != [] {
      FitsDoesNotPanic(fs[0]);
      FitsAllDoesNotPanic(fs[1..]);
    }
  }

  /** The reader operation undoes the builder operation. */
  predicate Matches(f: Field, s: Shape)
    decreases f, 1
  {
    match s
    case ReadInt(width) => f.Int? && f.width == width
    case ReadPacket(count) => f.Raw? && |f.bytes| == count
    case ReadRest => false
    case ReadFramed(frame, body) =>
      f.Framed? && f.frame == frame && frame.Added() == frame.Subtracted() && MatchesBody(f.body, body)
  }

  /** A reader may take the rest of its section at any point, and may leave bytes of it unread. */
  predicate MatchesBody(fs: seq<Field>, ss: seq<Shape>)
    decreases fs, 0
  {
    ss == [] || ss == [ReadRest] || (fs != [] && Matches(fs[0], ss[0]) && MatchesBody(fs[1..], ss[1..]))
  }

  /** What the reader is meant to see of a field. */
  function Expected(f: Field, s: Shape): Value
    requires Matches(f, s)
    decreases f, 1
  {
    match f
    case Int(_, value) => Number(value)
    case Raw(bytes) => Bytes(bytes)
    case Framed(_, body) => Group(ExpectedBody(body, s.body))
  }

  function ExpectedBody(fs: seq<Field>, ss: seq<Shape>): seq<Value>
    requires MatchesBody(fs, ss)
    decreases fs, 0
  {
    if ss == [] then []
    else if ss == [ReadRest] then [Bytes(EncodeAll(fs))]
    else [Expected(fs[0], ss[0])] + ExpectedBody(fs[1..], ss[1..])
  }

  /** The bytes behind the last field that was read. */
  function Unread(fs: seq<Field>, ss: seq<Shape>): seq<byte>
    requires MatchesBody(fs, ss)
    decreases fs, 0
  {
    if ss == [] then EncodeAll(fs) else if ss == [ReadRest] then [] else Unread(fs[1..], ss[1..])
  }

  lemma ReadAllRest(input: seq<byte>)
    ensures ReadAll([ReadRest], input) == Some(([Bytes(input)], []))
  {
    var ss := [ReadRest];
    assert ss[1..] == [];
    assert ReadAll(ss[1..], []) == Some(([], []));
    assert [Bytes(input)] + [] == [Bytes(input)];
  }

  lemma TakeIntOf(n: nat, width: nat, rest: seq<byte>)
    requires n < Limit(width)
    ensures TakeInt(width, BigEndian(n, width) + rest) == Some((n, rest))
  {
    BigEndianRoundTrip(n, width);
    assert (BigEndian(n, width) + rest)[..width] == BigEndian(n, width);
  }

  /** A frame around bytes whose length fits hands exactly those bytes to the reader of its body. */
  lemma TakeFrameOf(frame: Frame, inner: seq<byte>, rest: seq<byte>)
    requires frame.Valid() && frame.Added() == frame.Subtracted()
    requires 0 <= |inner| + frame.Added() < Limit(frame.Width())
    ensures TakeFrame(frame, BigEndian(|inner| + frame.Added(), frame.Width()) + (inner + rest)) == Some((inner, rest))
  {
    hide TakeInt, SplitTo, BigEndian, Limit;
    var width, n := frame.Width(), |inner| + frame.Added();
    TakeIntOf(n, width, inner + rest);
    SplitToOf(inner, rest);
    assert n - frame.Subtracted() == |inner|;
  }

  lemma SplitToOf(a: seq<byte>, b: seq<byte>)
    ensures SplitTo(|a|, a + b) == Some((a, b))
  {
  }

  lemma EncodeFramed(frame: Frame, body: seq<Field>, rest: seq<byte>)
    requires 0 <= |EncodeAll(body)| + frame.Added() < Limit(frame.Width())
    ensures Encode(Framed(frame, body)) + rest
            == BigEndian(|EncodeAll(body)| + frame.Added(), frame.Width()) + (EncodeAll(body) + rest)
  {
    hide Cut;
  }

  lemma FittingFrame(frame: Frame, body: seq<Field>)
    requires 0 <= |EncodeAll(body)| + frame.Added() < Limit(frame.Width())
    ensures Encode(Framed(frame, body)) == BigEndian(|EncodeAll(body)| + frame.Added(), frame.Width()) + EncodeAll(body)
  {
    hide Cut;
  }

  /** Reading back a field gives its value and stops exactly at its end. */
  lemma {:induction false} ReadOfEncode(f: Field, s: Shape, rest: seq<byte>)
    requires Fits(f) && Matches(f, s)
    ensures Read(s, Encode(f) + rest) == Some((Expected(f, s), rest))
    decreases f, 2
  {
    match f {
      case Int(width, value) =>
        TakeIntOf(value, width, rest);
      case Raw(bytes) =>
        assert (bytes + rest)[..|bytes|] == bytes;
      case Framed(frame, body) =>
        ReadOfFramed(frame, body, s.body, rest);
    }
  }

  lemma {:induction false} ReadOfFramed(frame: Frame, body: seq<Field>, ss: seq<Shape>, rest: seq<byte>)
    requires Fits(Framed(frame, body)) && Matches(Framed(frame, body), ReadFramed(frame, ss))
    ensures Read(ReadFramed(frame, ss), Encode(Framed(frame, body)) + rest) == Some((Group(ExpectedBody(body, ss)), rest))
    decreases Framed(frame, body), 1
  {
    hide Encode, EncodeAll, TakeFrame, Limit;
    ReadOfEncodeAll(body, ss);
    TakeFrameOf(frame, EncodeAll(body), rest);
    EncodeFramed(frame, body, rest);
  }

  lemma {:induction false} ReadOfEncodeAll(fs: seq<Field>, ss: seq<Shape>)
    requires FitsAll(fs) && MatchesBody(fs, ss)
    ensures ReadAll(ss, EncodeAll(fs)) == Some((ExpectedBody(fs, ss), Unread(fs, ss)))
    decreases fs, 0
  {
    if ss != [] && ss != [ReadRest] {
      ReadOfEncode(fs[0], ss[0], EncodeAll(fs[1..]));
      ReadOfEncodeAll(fs[1..], ss[1..]);
    } else if ss == [ReadRest] {
      ReadAllRest(EncodeAll(fs));
    }
  }

  /** The length field of an outermost section counts the whole packet. */
  lemma SectionLength(body: seq<Field>)
    requires |EncodeAll(body)| + 4 < U32_LIMIT
    ensures var packet := Encode(Framed(Section(4), body));
            |packet| == |EncodeAll(body)| + 4 && FromBigEndian(packet[..4]) == |packet|
  {
    hide EncodeAll, BigEndian, FromBigEndian, Limit;
    var n := |EncodeAll(body)| + 4;
    LimitValues();
    BigEndianRoundTrip(n, 4);
    assert Encode(Framed(Section(4), body)) == BigEndian(n, 4) + EncodeAll(body);
  }

  /** A byte string in a frame of its own. */
  function Wrapped(frame: Frame, bytes: seq<byte>): seq<byte> {
    Encode(Framed(frame, [Raw(bytes)]))
  }

  /** Where a frame around a byte string panics: on an unknown prefix, and in section_16 on a length above 65535. */
  lemma WrappedPanics(frame: Frame, bytes: seq<byte>)
    ensures Panics(Framed(frame, [Raw(bytes)]))
            <==> (frame.Prefixed? && frame.prefix !in {0, 1, 2, 4}) || (frame.Section16? && |bytes| + frame.addition >= 0x1_0000)
  {
    var body := [Raw(bytes)];
    assert EncodeAll(body) == bytes;
    assert body[1..] == [];
    assert !Panics(body[0]) && !PanicsAny(body[1..]);
  }

  lemma TakeWrapped(frame: Frame, bytes: seq<byte>, rest: seq<byte>)
    requires frame.Valid() && frame.Added() == frame.Subtracted()
    requires 0 <= |bytes| + frame.Added() < Limit(frame.Width())
    ensures TakeFrame(frame, Wrapped(frame, bytes) + rest) == Some((bytes, rest))
  {
    assert EncodeAll([Raw(bytes)]) == bytes;
    hide BigEndian, Limit, TakeFrame, Encode, EncodeAll;
    EncodeFramed(frame, [Raw(bytes)], rest);
    TakeFrameOf(frame, bytes, rest);
  }

  /**
   A byte string survives its frame exactly when the length that is written fits the prefix: a longer one is
   cut without an error, unless section_16 panics on it first.
   */
  lemma WrappedIffFits(frame: Frame, bytes: seq<byte>, rest: seq<byte>)
    requires frame.Valid() && frame.Added() == frame.Subtracted()
    ensures TakeFrame(frame, Wrapped(frame, bytes) + rest) == Some((bytes, rest))
            <==> 0 <= |bytes| + frame.Added() < Limit(frame.Width())
  {
    hide Limit, BigEndian, FromBigEndian, TakeInt;
    var width, n := frame.Width(), |bytes| + frame.Added();
    if 0 <= n < Limit(width) {
      TakeWrapped(frame, bytes, rest);
    } else {
      assert EncodeAll([Raw(bytes)]) == bytes;
      var head := BigEndian(Cut(n, width), width);
      TakeIntOf(Cut(n, width), width, bytes + rest);
      assert Wrapped(frame, bytes) + rest == head + (bytes + rest);
      assert Cut(n, width) - frame.Subtracted() != |bytes|;
    }
  }

  // ----- layouts in bytes

  /** The bytes of the three frames around any body: the length, wrapped to its width, then the body. */
  lemma FrameBytes(body: seq<Field>, addition: int, prefix: nat)
    requires prefix in {1, 2, 4}
    ensures var inner, limit := EncodeAll(body), if prefix == 1 then 0x100 else if prefix == 2 then 0x1_0000 else 0x1_0000_0000;
            && Encode(Framed(Section(addition), body)) == BigEndian((|inner| + addition) % 0x1_0000_0000, 4) + inner
            && Encode(Framed(Section16(addition), body)) == BigEndian((|inner| + addition) % 0x1_0000, 2) + inner
            && Encode(Framed(Prefixed(prefix, false, addition), body)) == BigEndian((|inner| + addition) % limit, prefix) + inner
            && Encode(Framed(Prefixed(prefix, true, addition), body)) == BigEndian((|inner| + prefix + addition) % limit, prefix) + inner
  {
    hide EncodeAll, BigEndian, Limit;
    LimitValues();
  }

  /** Reading a section: its length must count its own four bytes and no more than there are, or the reader panics. */
  lemma SectionRead(n: u32, rest: seq<byte>)
    ensures TakeFrame(Section(4), BigEndian(n, 4) + rest)
            == if 4 <= n <= |rest| + 4 then Some((rest[..n - 4], rest[n - 4..])) else None
  {
    hide BigEndian, Limit;
    LimitValues();
    TakeIntOf(n, 4, rest);
  }

  /** A length that counts its own prefix is taken off again when the section is read. */
  lemma CountedPrefixRead(prefix: nat, bytes: seq<byte>, rest: seq<byte>)
    requires prefix in {1, 2, 4} && |bytes| + prefix < Limit(prefix)
    ensures TakeFrame(Prefixed(prefix, true, 0), BigEndian(|bytes| + prefix, prefix) + bytes + rest) == Some((bytes, rest))
  {
    hide BigEndian, Limit, TakeFrame;
    assert BigEndian(|bytes| + prefix, prefix) + bytes + rest == BigEndian(|bytes| + prefix, prefix) + (bytes + rest);
    TakeFrameOf(Prefixed(prefix, true, 0), bytes, rest);
  }

  /** The fields of a list behind each other. */
  lemma {:induction false} EncodeAllIsConcat(fs: seq<Field>, parts: seq<seq<byte>>)
    requires |fs| == |parts| && forall i :: 0 <= i < |fs| ==> Encode(fs[i]) == parts[i]
    ensures EncodeAll(fs) == Concat(parts)
  {
    hide Encode;
    if fs != [] {
      EncodeAllIsConcat(fs[1..], parts[1..]);
    }
  }

  /** Constant numbers, as their bytes. */
  lemma ConstantBytes(a: byte, b: byte, c: byte, d: byte)
    ensures BigEndian(a, 1) == [a]
    ensures BigEndian(a as int * 256 + b, 2) == [a, b]
    ensures BigEndian(a as int * 0x100_0000 + b as int * 0x1_0000 + c as int * 0x100 + d, 4) == [a, b, c, d]
  {
    NetworkOrder(a, b, c, d);
    assert BigEndian(a as int, 1) == [a];
    assert (a as int * 256 + b) / 256 == a;
  }
}

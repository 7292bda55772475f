/** Bytes and the big-endian integers that every wire format of the client is made of. */
module ByteOrder {
  import opened Quotients

  type byte = n: int | 0 <= n < 256

  const U16_LIMIT := 0x1_0000
  const U32_LIMIT := 0x1_0000_0000

  type u16 = n: int | 0 <= n < U16_LIMIT
  type u32 = n: int | 0 <= n < U32_LIMIT

  /** The number of values that fit in width bytes. */
  function Limit(width: nat): (r: nat)
    ensures r > 0
  {
    if width == 0 then 1 else 256 * Limit(width - 1)
  }

  lemma LimitValues()
    ensures Limit(0) == 1
    ensures Limit(1) == 256
    ensures Limit(2) == U16_LIMIT
    ensures Limit(3) == 0x100_0000
    ensures Limit(4) == U32_LIMIT
    ensures Limit(8) == U32_LIMIT * U32_LIMIT
  {
    assert Limit(5) == 256 * Limit(4);
    assert Limit(6) == 256 * Limit(5);
    assert Limit(7) == 256 * Limit(6);
  }

  /** The low width bytes of n, most significant first. */
  function BigEndian(n: nat, width: nat): (r: seq<byte>)
    ensures |r| == width
  {
    if width == 0 then [] else BigEndian(n / 256, width - 1) + [n % 256]
  }

  function FromBigEndian(s: seq<byte>): nat {
    if s == [] then 0 else FromBigEndian(s[..|s| - 1]) * 256 + s[|s| - 1]
  }

  /** Reading back what was written gives the number, provided it fits the width. */
  lemma {:induction false} BigEndianRoundTrip(n: nat, width: nat)
    requires n < Limit(width)
    ensures FromBigEndian(BigEndian(n, width)) == n
  {
    if width > 0 {
      BigEndianRoundTrip(n / 256, width - 1);
      var s := BigEndian(n, width);
      assert s[..|s| - 1] == BigEndian(n / 256, width - 1);
    }
  }

  /** Writing back what was read gives the bytes, and a width only holds numbers below its limit. */
  lemma {:induction false} FromBigEndianRoundTrip(s: seq<byte>)
    ensures FromBigEndian(s) < Limit(|s|)
    ensures BigEndian(FromBigEndian(s), |s|) == s
  {
    if s != [] {
      FromBigEndianRoundTrip(s[..|s| - 1]);
      assert s == s[..|s| - 1] + [s[|s| - 1]];
    }
  }

  /** Network order: the most significant of the four bytes of a u32 comes first. */
  lemma NetworkOrder(a: byte, b: byte, c: byte, d: byte)
    ensures BigEndian(a as int * 0x100_0000 + b as int * 0x1_0000 + c as int * 0x100 + d as int, 4) == [a, b, c, d]
  {
    var n := a as int * 0x100_0000 + b as int * 0x1_0000 + c as int * 0x100 + d as int;
    assert n / 256 == a as int * 0x1_0000 + b as int * 0x100 + c as int;
    assert n / 256 / 256 == a as int * 0x100 + b as int;
    assert BigEndian(a, 1) == [a];
    assert BigEndian(n / 256 / 256, 2) == [a, b];
    assert BigEndian(n / 256, 3) == [a, b, c];
  }

  /** Byte i from the front, by its place value. */
  lemma {:induction false} BigEndianAt(n: nat, width: nat, i: nat)
    requires i < width
    ensures BigEndian(n, width)[i] == n / Limit(width - 1 - i) % 256
  {
    if i < width - 1 {
      BigEndianAt(n / 256, width - 1, i);
      DivideTwice(n, 256, Limit(width - 2 - i));
    }
  }

  /** A number is built up from its bytes, the most significant first. */
  lemma FromBigEndianAppend(s: seq<byte>, b: byte)
    ensures FromBigEndian(s + [b]) == FromBigEndian(s) * 256 + b
  {
    assert (s + [b])[..|s|] == s;
  }

  lemma FromFourBytes(a: byte, b: byte, c: byte, d: byte)
    ensures FromBigEndian([a, b, c, d]) == a as int * 0x100_0000 + b as int * 0x1_0000 + c as int * 0x100 + d as int
  {
    assert [a, b, c, d] == [] + [a] + [b] + [c] + [d];
    FromBigEndianAppend([], a);
    FromBigEndianAppend([] + [a], b);
    FromBigEndianAppend([] + [a] + [b], c);
    FromBigEndianAppend([] + [a] + [b] + [c], d);
  }

  // ----- byte strings

  function Zeros(n: nat): (r: seq<byte>)
    ensures |r| == n
  {
    seq(n, _ => 0)
  }

  function Reversed(s: seq<byte>): (r: seq<byte>)
    ensures |r| == |s|
  {
    if s == [] then [] else Reversed(s[1..]) + [s[0]]
  }

  /** All the parts behind each other. */
  function Concat(parts: seq<seq<byte>>): seq<byte> {
    if parts == [] then [] else parts[0] + Concat(parts[1..])
  }

  lemma {:induction false} ConcatAppend(a: seq<seq<byte>>, b: seq<seq<byte>>)
    ensures Concat(a + b) == Concat(a) + Concat(b)
  {
    if a == [] {
      assert a + b == b;
    } else {
      var all, tail := a + b, a[1..];
      ConcatAppend(tail, b);
      assert all[0] == a[0] && all[1..] == tail + b;
      hide Concat;
      ConcatHead(all);
      ConcatHead(a);
    }
  }

  lemma ConcatHead(parts: seq<seq<byte>>)
    requires parts != []
    ensures Concat(parts) == parts[0] + Concat(parts[1..])
  {
  }

  lemma {:induction false} ConcatLast(parts: seq<seq<byte>>)
    requires parts != []
    ensures Concat(parts) == Concat(parts[..|parts| - 1]) + parts[|parts| - 1]
  {
    if |parts| > 1 {
      ConcatLast(parts[1..]);
      assert parts[1..][..|parts| - 2] == parts[..|parts| - 1][1..];
    }
  }

  lemma {:induction false} ReversedAt(s: seq<byte>, i: nat)
    requires i < |s|
    ensures Reversed(s)[i] == s[|s| - 1 - i]
  {
    if i < |s| - 1 {
      ReversedAt(s[1..], i);
    }
  }

  function LittleEndian(n: nat, width: nat): (r: seq<byte>)
    ensures |r| == width
  {
    Reversed(BigEndian(n, width))
  }

  lemma LittleEndianAt(n: nat, width: nat, i: nat)
    requires i < width
    ensures LittleEndian(n, width)[i] == n / Limit(i) % 256
  {
    ReversedAt(BigEndian(n, width), i);
    BigEndianAt(n, width, width - 1 - i);
  }

  /** The least significant of the four bytes of a u32 comes first. */
  lemma LittleOrder(a: byte, b: byte, c: byte, d: byte)
    ensures LittleEndian(a as int + b as int * 0x100 + c as int * 0x1_0000 + d as int * 0x100_0000, 4) == [a, b, c, d]
  {
    hide BigEndian, Reversed;
    var n := a as int + b as int * 0x100 + c as int * 0x1_0000 + d as int * 0x100_0000;
    NetworkOrder(d, c, b, a);
    forall i | 0 <= i < 4
      ensures Reversed(BigEndian(n, 4))[i] == [a, b, c, d][i]
    {
      ReversedAt(BigEndian(n, 4), i);
    }
  }
}

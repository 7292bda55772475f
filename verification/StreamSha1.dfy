/**
 The streaming SHA-1 of stream_sha1.rs over an arbitrary compression function: state snapshots every block_size
 bytes, then the SHA-1 digest of everything (padding of section 5.1.1 and iteration of section 6.1.2 of FIPS 180-4).
 */
module StreamSha1 {
  import opened Wrappers
  import opened ByteOrder
  import opened Quotients

  /** The five 32-bit words of the chaining state. */
  datatype State = State(h0: u32, h1: u32, h2: u32, h3: u32, h4: u32)

  type Block = b: seq<byte> | |b| == 64 witness Zeros(64)

  type Compress = (State, Block) -> State

  const INITIAL := State(0x67452301, 0xEFCDAB89, 0x98BADCFE, 0x10325476, 0xC3D2E1F0)

  // ----- the one-shot forms

  /** The state after compressing every whole block of data, from h. */
  function Fold(c: Compress, h: State, data: seq<byte>): State
    decreases |data|
  {
    if |data| < 64 then h else Fold(c, c(h, data[..64]), data[64..])
  }

  /** The bytes behind the last whole block. */
  function Leftover(data: seq<byte>): (r: seq<byte>)
    ensures |r| < 64 && |r| <= |data|
  {
    if |data| < 64 then data else Leftover(data[64..])
  }

  /** The padding of section 5.1.1: a one bit, zeros up to 56 bytes modulo 64, and the length in bits. */
  function Padding(length: nat): seq<byte> {
    [0x80] + Zeros((119 - length % 64) % 64) + BigEndian(8 * length, 8)
  }

  /** A padded message is whole blocks, and the padding is the shortest one that leaves room for the length. */
  lemma PaddingFillsBlocks(length: nat)
    ensures (length + |Padding(length)|) % 64 == 0
    ensures 9 <= |Padding(length)| <= 72
  {
    hide BigEndian, Zeros;
    var q, m := length / 64, length % 64;
    assert (119 - m) % 64 == if m <= 55 then 55 - m else 119 - m;
    assert length + |Padding(length)| == 64 * (if m <= 55 then q + 1 else q + 2);
  }

  function WordsBe(h: State): seq<byte> {
    BigEndian(h.h0, 4) + BigEndian(h.h1, 4) + BigEndian(h.h2, 4) + BigEndian(h.h3, 4) + BigEndian(h.h4, 4)
  }

  function WordsLe(h: State): seq<byte> {
    LittleEndian(h.h0, 4) + LittleEndian(h.h1, 4) + LittleEndian(h.h2, 4) + LittleEndian(h.h3, 4) + LittleEndian(h.h4, 4)
  }

  /** SHA-1 with this compression function. */
  function Sha1(c: Compress, message: seq<byte>): seq<byte> {
    WordsBe(Fold(c, INITIAL, message + Padding(|message|)))
  }

  /** The snapshot taken after a prefix: the state of its whole blocks, little-endian. */
  function Snapshot(c: Compress, prefix: seq<byte>): seq<byte> {
    WordsLe(Fold(c, INITIAL, prefix))
  }

  /** One snapshot behind each of the first n whole block_size pieces. */
  function Snapshots(c: Compress, data: seq<byte>, blockSize: nat, n: nat): (r: seq<seq<byte>>)
    requires n * blockSize <= |data|
    ensures |r| == n
  {
    if n == 0 then []
    else
      assert (n - 1) * blockSize <= n * blockSize;
      Snapshots(c, data, blockSize, n - 1) + [Snapshot(c, data[..n * blockSize])]
  }

  /** What StreamSha1 returns, in one piece: a snapshot for every whole block_size bytes, and the digest. */
  function Digests(c: Compress, data: seq<byte>, blockSize: nat): seq<seq<byte>>
    requires blockSize > 0
  {
    var n := |data| / blockSize;
    assert n * blockSize <= |data|;
    Snapshots(c, data, blockSize, n) + [Sha1(c, data)]
  }

  lemma {:induction false} FoldAppend(c: Compress, h: State, a: seq<byte>, b: seq<byte>)
    ensures Fold(c, h, a + b) == Fold(c, Fold(c, h, a), Leftover(a) + b)
    ensures Leftover(a + b) == Leftover(Leftover(a) + b)
    decreases |a|
  {
    if |a| >= 64 {
      FoldAppend(c, c(h, a[..64]), a[64..], b);
      assert (a + b)[..64] == a[..64];
      assert (a + b)[64..] == a[64..] + b;
    }
  }

  lemma {:induction false} LeftoverLength(data: seq<byte>)
    ensures |Leftover(data)| == |data| % 64
  {
    if |data| >= 64 {
      LeftoverLength(data[64..]);
    }
  }

  lemma FoldBlock(c: Compress, h: State, b: Block, rest: seq<byte>)
    ensures Fold(c, h, b + rest) == Fold(c, c(h, b), rest)
    ensures Leftover(b + rest) == Leftover(rest)
  {
    assert (b + rest)[..64] == b && (b + rest)[64..] == rest;
  }

  // ----- the results, byte by byte

  function Word(h: State, w: nat): u32
    requires w < 5
  {
    [h.h0, h.h1, h.h2, h.h3, h.h4][w]
  }

  lemma WordsAt(h: State, w: nat, i: nat)
    requires w < 5 && i < 4
    ensures |WordsLe(h)| == |WordsBe(h)| == 20
    ensures WordsLe(h)[4 * w + i] == Word(h, w) / Limit(i) % 256
    ensures WordsBe(h)[4 * w + i] == Word(h, w) / Limit(3 - i) % 256
  {
    hide BigEndian, LittleEndian, Limit;
    LittleEndianAt(Word(h, w), 4, i);
    BigEndianAt(Word(h, w), 4, i);
  }

  lemma {:induction false} SnapshotsAt(c: Compress, data: seq<byte>, blockSize: nat, n: nat, j: nat)
    requires n * blockSize <= |data| && j < n
    ensures (j + 1) * blockSize <= |data|
    ensures Snapshots(c, data, blockSize, n)[j] == Snapshot(c, data[..(j + 1) * blockSize])
  {
    hide Snapshot;
    MulMonotone(j + 1, n, blockSize);
    if j < n - 1 {
      MulMonotone(n - 1, n, blockSize);
      SnapshotsAt(c, data, blockSize, n - 1, j);
    }
  }

  /** Byte i of word w of snapshot j: the state after j + 1 pieces, each word with its least significant byte first. */
  lemma SnapshotBytes(c: Compress, data: seq<byte>, blockSize: nat, j: nat, w: nat, i: nat)
    requires blockSize > 0 && j < |data| / blockSize && w < 5 && i < 4
    ensures (j + 1) * blockSize <= |data|
    ensures |Digests(c, data, blockSize)| == |data| / blockSize + 1 && |Digests(c, data, blockSize)[j]| == 20
    ensures Digests(c, data, blockSize)[j][4 * w + i]
            == Word(Fold(c, INITIAL, data[..(j + 1) * blockSize]), w) / [1, 0x100, 0x1_0000, 0x100_0000][i] % 256
  {
    hide Fold, WordsLe, WordsBe, Snapshots, Limit, Word;
    var n := |data| / blockSize;
    assert n * blockSize <= |data|;
    SnapshotsAt(c, data, blockSize, n, j);
    WordsAt(Fold(c, INITIAL, data[..(j + 1) * blockSize]), w, i);
    LimitValues();
  }

  /** The last result: the state after the padded data, each word with its most significant byte first. */
  lemma DigestBytes(c: Compress, data: seq<byte>, blockSize: nat, w: nat, i: nat)
    requires blockSize > 0 && w < 5 && i < 4
    ensures |Digests(c, data, blockSize)| == |data| / blockSize + 1 && |Digests(c, data, blockSize)[|data| / blockSize]| == 20
    ensures Digests(c, data, blockSize)[|data| / blockSize][4 * w + i]
            == Word(Fold(c, INITIAL, data + Padding(|data|)), w) / [0x100_0000, 0x1_0000, 0x100, 1][i] % 256
  {
    hide Fold, WordsLe, WordsBe, Snapshots, Limit, Word, Padding;
    WordsAt(Fold(c, INITIAL, data + Padding(|data|)), w, i);
    LimitValues();
  }

  /** The padding is a one bit, zeros, and the number of bits in eight bytes, as short as whole blocks allow. */
  lemma PaddingBytes(length: nat)
    ensures var p := Padding(length);
            && (length + |p|) % 64 == 0 && 9 <= |p| <= 72
            && p[0] == 0x80 && (forall k :: 0 < k < |p| - 8 ==> p[k] == 0)
            && p[|p| - 8..] == BigEndian(8 * length, 8)
  {
    hide BigEndian;
    PaddingFillsBlocks(length);
  }

  /** Folding starts from the state of section 5.3.1 of FIPS 180-4, so before the first whole block a snapshot shows it. */
  lemma FirstSnapshot(c: Compress, prefix: seq<byte>)
    requires |prefix| < 64
    ensures Snapshot(c, prefix)
            == [0x01, 0x23, 0x45, 0x67, 0x89, 0xAB, 0xCD, 0xEF, 0xFE, 0xDC, 0xBA, 0x98, 0x76, 0x54, 0x32, 0x10, 0xF0, 0xE1, 0xD2, 0xC3]
  {
    hide BigEndian, Reversed, LittleEndian;
    LittleOrder(0x01, 0x23, 0x45, 0x67);
    LittleOrder(0x89, 0xAB, 0xCD, 0xEF);
    LittleOrder(0xFE, 0xDC, 0xBA, 0x98);
    LittleOrder(0x76, 0x54, 0x32, 0x10);
    LittleOrder(0xF0, 0xE1, 0xD2, 0xC3);
  }

  // ----- the buffered core

  /** StreamSha1Core: the state, the count of compressed blocks, and the eager 64-byte block buffer. */
  class Core {
    const compress: Compress
    var h: State
    var blockLen: nat
    const buffer: array<byte>
    var pos: nat

    ghost predicate Valid()
      reads this, buffer
    {
      buffer.Length == 64 && pos < 64
    }

    /** The state and the buffer are those of this message. */
    ghost predicate Holds(message: seq<byte>)
      reads this, buffer
    {
      && Valid()
      && h == Fold(compress, INITIAL, message)
      && buffer[..pos] == Leftover(message)
      && |message| == 64 * blockLen + pos
    }

    constructor (compress: Compress)
      ensures Holds([]) && fresh(buffer) && this.compress == compress
    {
      this.compress := compress;
      h := INITIAL;
      blockLen := 0;
      buffer := new byte[64](_ => 0);
      pos := 0;
    }

    method CompressBlock(block: Block)
      modifies this`h, this`blockLen
      ensures h == compress(old(h), block) && blockLen == old(blockLen) + 1
    {
      h := compress(h, block);
      blockLen := blockLen + 1;
    }

    method Store(at: nat, bytes: seq<byte>)
      requires Valid() && at + |bytes| <= 64
      modifies buffer
      ensures buffer[..at + |bytes|] == old(buffer[..at]) + bytes
    {
      forall i | 0 <= i < |bytes| {
        buffer[at + i] := bytes[i];
      }
      assert buffer[..at] == old(buffer[..at]);
    }

    /** BlockBuffer::digest_blocks of an eager buffer: a full buffer is compressed at once. */
    method Update(input: seq<byte>, ghost message: seq<byte>)
      requires Holds(message)
      modifies this`h, this`blockLen, this`pos, buffer
      ensures Holds(message + input)
    {
      var rem := 64 - pos;
      FoldAppend(compress, INITIAL, message, input);
      if |input| < rem {
        Store(pos, input);
        pos := pos + |input|;
        return;
      }
      var rest := input;
      if pos != 0 {
        var left := input[..rem];
        rest := input[rem..];
        ghost var head := buffer[..pos];
        Store(pos, left);
        assert buffer[..] == head + left;
        assert head + input == buffer[..] + rest;
        FoldBlock(compress, h, buffer[..], rest);
        CompressBlock(buffer[..]);
      } else {
        assert buffer[..pos] + input == input;
      }
      ghost var total := message + input;
      while |rest| >= 64
        invariant Valid() && |total| == 64 * blockLen + |rest|
        invariant Fold(compress, h, rest) == Fold(compress, INITIAL, total)
        invariant Leftover(rest) == Leftover(total)
      {
        CompressBlock(rest[..64]);
        rest := rest[64..];
      }
      Store(0, rest);
      pos := |rest|;
    }

    /** The snapshot: the words of the state as they stand, little-endian. */
    method Hash() returns (digest: seq<byte>)
      ensures digest == WordsLe(h)
    {
      digest := WordsLe(h);
    }

    /** len64_padding_be and the big-endian words of the result; a second block when the length does not fit. */
    method Finalize(ghost message: seq<byte>) returns (out: seq<byte>)
      requires Holds(message)
      modifies buffer
      ensures out == Sha1(compress, message)
    {
      hide Fold, Leftover, WordsBe, BigEndian, Zeros;
      var bitLen := 8 * (pos + 64 * blockLen);
      var state := h;
      var suffix := BigEndian(bitLen, 8);
      ghost var tail := buffer[..pos];
      LeftoverLength(message);
      FoldAppend(compress, INITIAL, message, Padding(|message|));
      Store(pos, [0x80] + Zeros(63 - pos));
      var block := buffer[..];
      assert block == tail + [0x80] + Zeros(63 - pos);
      if 63 - pos < 8 {
        PaddingSplit(pos, tail, suffix);
        FoldBlock(compress, h, block, Zeros(56) + suffix);
        state := compress(state, block);
        block := Zeros(56) + suffix;
        FoldLast(compress, state, block);
        state := compress(state, block);
      } else {
        ZerosAppend(55 - pos, 8);
        block := block[..56] + suffix;
        assert block == tail + ([0x80] + Zeros(55 - pos) + suffix);
        FoldLast(compress, h, block);
        state := compress(state, block);
      }
      out := WordsBe(state);
    }
  }

  lemma ZerosAppend(a: nat, b: nat)
    ensures Zeros(a) + Zeros(b) == Zeros(a + b)
  {
  }

  lemma PaddingSplit(pos: nat, tail: seq<byte>, suffix: seq<byte>)
    requires 56 <= pos < 64
    ensures tail + ([0x80] + Zeros((119 - pos) % 64) + suffix) == (tail + [0x80] + Zeros(63 - pos)) + (Zeros(56) + suffix)
  {
    assert (119 - pos) % 64 == 119 - pos;
    ZerosAppend(63 - pos, 56);
  }

  lemma FoldLast(c: Compress, h: State, block: Block)
    ensures Fold(c, h, block) == c(h, block)
  {
    FoldBlock(c, h, block, []);
    assert block + [] == block;
  }

  // ----- the snapshot stream

  lemma {:induction false} SnapshotsAppend(c: Compress, a: seq<byte>, b: seq<byte>, blockSize: nat, n: nat)
    requires n * blockSize <= |a|
    ensures n * blockSize <= |a + b|
    ensures Snapshots(c, a + b, blockSize, n) == Snapshots(c, a, blockSize, n)
  {
    hide Snapshot;
    if n > 0 {
      assert (n - 1) * blockSize <= n * blockSize;
      SnapshotsAppend(c, a, b, blockSize, n - 1);
      assert (a + b)[..n * blockSize] == a[..n * blockSize];
    }
  }

  class StreamSha1 {
    const hasher: Core
    const blockSize: nat
    var offset: nat
    var digests: seq<seq<byte>>

    /** The hasher has seen this message, and there are n snapshots of it. */
    ghost predicate Streams(message: seq<byte>, n: nat)
      reads this, hasher, hasher.buffer
    {
      && hasher.Holds(message)
      && offset < blockSize
      && |message| == n * blockSize + offset
      && digests == Snapshots(hasher.compress, message, blockSize, n)
    }

    /** new_with_size; a block size of 0 makes update run forever. */
    constructor (compress: Compress, blockSize: nat)
      requires blockSize > 0
      ensures Streams([], 0)
      ensures fresh(hasher) && fresh(hasher.buffer)
      ensures hasher.compress == compress && this.blockSize == blockSize
    {
      hasher := new Core(compress);
      this.blockSize := blockSize;
      offset := 0;
      digests := [];
    }

    method Update(data: seq<byte>, ghost message: seq<byte>, ghost n: nat) returns (ghost n': nat)
      requires Streams(message, n)
      modifies this, hasher, hasher.buffer
      ensures Streams(message + data, n')
      decreases |data|
    {
      hide Snapshots, Core.Holds;
      if |data| + offset < blockSize {
        hasher.Update(data, message);
        offset := offset + |data|;
        SnapshotsAppend(hasher.compress, message, data, blockSize, n);
        n' := n;
      } else {
        var range := blockSize - offset;
        var block := data[..range];
        hasher.Update(block, message);
        var hash := hasher.Hash();
        SnapshotsAppend(hasher.compress, message, block, blockSize, n);
        ghost var total := message + block;
        assert |total| == (n + 1) * blockSize;
        HashIsSnapshot(hasher, total);
        SnapshotsNext(hasher.compress, total, blockSize, n);
        digests := digests + [hash];
        offset := 0;
        n' := Update(data[range..], total, n + 1);
        assert total + data[range..] == message + data;
      }
    }

    method Finalize(ghost message: seq<byte>, ghost n: nat) returns (r: seq<seq<byte>>)
      requires Streams(message, n)
      modifies this, hasher, hasher.buffer
      ensures r == Digests(hasher.compress, message, blockSize)
    {
      var digest := hasher.Finalize(message);
      QuotientIs(|message|, blockSize, n, offset);
      r := digests + [digest];
      digests := [];
    }
  }

  lemma HashIsSnapshot(hasher: Core, message: seq<byte>)
    requires hasher.Holds(message)
    ensures WordsLe(hasher.h) == Snapshot(hasher.compress, message)
  {
  }

  lemma SnapshotsNext(c: Compress, data: seq<byte>, blockSize: nat, n: nat)
    requires |data| == (n + 1) * blockSize && n * blockSize <= |data|
    ensures Snapshots(c, data, blockSize, n + 1) == Snapshots(c, data, blockSize, n) + [Snapshot(c, data)]
  {
    hide Snapshot;
    assert data[..(n + 1) * blockSize] == data;
  }

  /** Feeding data in any chunks gives the digests of the data in one piece. */
  method DigestChunks(compress: Compress, blockSize: nat, chunks: seq<seq<byte>>) returns (r: seq<seq<byte>>)
    requires blockSize > 0
    ensures r == Digests(compress, Concat(chunks), blockSize)
  {
    hide Digests, Snapshots, Core.Holds;
    var s := new StreamSha1(compress, blockSize);
    ghost var n := 0;
    for i := 0 to |chunks|
      invariant fresh(s) && fresh(s.hasher) && fresh(s.hasher.buffer)
      invariant s.Streams(Concat(chunks[..i]), n)
    {
      assert chunks[..i + 1][..i] == chunks[..i];
      ConcatLast(chunks[..i + 1]);
      n := s.Update(chunks[i], Concat(chunks[..i]), n);
    }
    assert chunks[..|chunks|] == chunks;
    r := s.Finalize(Concat(chunks), n);
  }

  /** One turn of update's recursion on n bytes: None when it ends, otherwise the next offset and byte count. */
  function Turn(blockSize: nat, offset: nat, n: nat): Option<(nat, nat)>
    requires offset <= blockSize
  {
    if n + offset < blockSize then None else Some((0, n - (blockSize - offset)))
  }

  /** The state after k turns, or None when the recursion has ended by then. */
  function Turns(blockSize: nat, offset: nat, n: nat, k: nat): Option<(nat, nat)>
    requires offset <= blockSize
    decreases k
  {
    if k == 0 then Some((offset, n))
    else
      match Turn(blockSize, offset, n)
      case None => None
      case Some((o, m)) => Turns(blockSize, o, m, k - 1)
  }

  /** update ends exactly when the block size is positive. */
  lemma {:induction false} UpdateEnds(blockSize: nat, offset: nat, n: nat)
    requires offset < blockSize || (offset == 0 && blockSize == 0)
    ensures blockSize > 0 <==> exists k :: Turns(blockSize, offset, n, k).None?
  {
    if blockSize > 0 {
      EndsWithin(blockSize, offset, n);
    } else {
      forall k
        ensures Turns(blockSize, offset, n, k).Some?
      {
        NeverEnds(n, k);
      }
    }
  }

  lemma {:induction false} EndsWithin(blockSize: nat, offset: nat, n: nat)
    requires offset < blockSize
    ensures Turns(blockSize, offset, n, n + 1).None?
    decreases n
  {
    if n + offset >= blockSize {
      var m := n - (blockSize - offset);
      EndsWithin(blockSize, 0, m);
      StaysEnded(blockSize, 0, m, m + 1, n);
    }
  }

  lemma {:induction false} StaysEnded(blockSize: nat, offset: nat, n: nat, k: nat, l: nat)
    requires offset <= blockSize && k <= l && Turns(blockSize, offset, n, k).None?
    ensures Turns(blockSize, offset, n, l).None?
    decreases k
  {
    if n + offset >= blockSize && k > 0 {
      StaysEnded(blockSize, 0, n - (blockSize - offset), k - 1, l - 1);
    }
  }

  lemma {:induction false} NeverEnds(n: nat, k: nat)
    ensures Turns(0, 0, n, k) == Some((0, n))
  {
    if k > 0 {
      NeverEnds(n, k - 1);
    }
  }
}

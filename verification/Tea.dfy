/** The padded, chained TEA message cipher (tea.rs, tea_encrypt and tea_decrypt). */
module Tea {
  import opened Wrappers
  import opened ByteOrder
  import opened Words
  import opened TeaChain
  import TeaBlock

  /** The 64-bit blocks of a byte string, as read_u64_into reads them. */
  function ToBlocks(s: seq<byte>): (r: seq<u64>)
    ensures |r| == |s| / 8
  {
    seq(|s| / 8, i requires 0 <= i < |s| / 8 => Block(s, i))
  }

  function Block(s: seq<byte>, i: nat): u64
    requires i < |s| / 8
  {
    FromBigEndianRoundTrip(s[8 * i..8 * i + 8]);
    LimitValues();
    FromBigEndian(s[8 * i..8 * i + 8])
  }

  /** The bytes of a list of blocks, as write_u64_into writes them. */
  function FromBlocks(blocks: seq<u64>): (r: seq<byte>)
    ensures |r| == 8 * |blocks|
  {
    seq(8 * |blocks|, j requires 0 <= j < 8 * |blocks| => BigEndian(blocks[j / 8], 8)[j % 8])
  }

  lemma FromBlocksSlice(blocks: seq<u64>, i: nat)
    requires i < |blocks|
    ensures FromBlocks(blocks)[8 * i..8 * i + 8] == BigEndian(blocks[i], 8)
  {
    forall j | 0 <= j < 8
      ensures FromBlocks(blocks)[8 * i + j] == BigEndian(blocks[i], 8)[j]
    {
      assert (8 * i + j) / 8 == i && (8 * i + j) % 8 == j;
    }
  }

  lemma BlocksRoundTrip(blocks: seq<u64>)
    ensures ToBlocks(FromBlocks(blocks)) == blocks
  {
    forall i | 0 <= i < |blocks|
      ensures ToBlocks(FromBlocks(blocks))[i] == blocks[i]
    {
      FromBlocksSlice(blocks, i);
      LimitValues();
      BigEndianRoundTrip(blocks[i], 8);
    }
  }

  lemma BytesRoundTrip(s: seq<byte>)
    requires |s| % 8 == 0
    ensures FromBlocks(ToBlocks(s)) == s
  {
    forall j | 0 <= j < |s|
      ensures FromBlocks(ToBlocks(s))[j] == s[j]
    {
      var i := j / 8;
      FromBigEndianRoundTrip(s[8 * i..8 * i + 8]);
      assert s[8 * i..8 * i + 8][j % 8] == s[j];
    }
  }

  const TRAILER := 7

  function FillCount(length: nat): (r: nat)
    ensures 2 <= r <= 9
    ensures (1 + r + length + TRAILER) % 8 == 0
  {
    9 - (length + 1) % 8
  }

  /** The five high bits of 0xF8 or-ed onto a number of three bits. */
  function Header(fillCount: nat): byte
    requires 2 <= fillCount <= 9
  {
    0xF8 + (fillCount - 2)
  }

  /** A fill of the length the padding of this text needs; release builds draw it at random. */
  predicate IsFill(text: seq<byte>, fill: seq<byte>) {
    |fill| == FillCount(|text|)
  }

  function Padded(text: seq<byte>, fill: seq<byte>): (r: seq<byte>)
    requires IsFill(text, fill)
    ensures |r| % 8 == 0 && |r| >= 16
  {
    [Header(|fill|)] + fill + text + Zeros(TRAILER)
  }

  function Encrypted(c: Cipher, text: seq<byte>, fill: seq<byte>): (r: seq<byte>)
    requires IsFill(text, fill)
    ensures |r| == 1 + |fill| + |text| + TRAILER && |r| % 8 == 0 && |r| >= 16
  {
    FromBlocks(EncryptChain(c, ToBlocks(Padded(text, fill)), 0, 0))
  }

  function BeginPos(header: byte): nat {
    header % 8 + 3
  }

  /** The decrypted bytes, padding included. */
  function Unchained(c: Cipher, coded: seq<byte>): (r: seq<byte>)
    requires |coded| % 8 == 0
    ensures |r| == |coded|
  {
    FromBlocks(DecryptChain(c, ToBlocks(coded), 0, 0))
  }

  /** The text between the fill and the trailer, or None where one of the slices panics. */
  function Unpadded(result: seq<byte>): Option<seq<byte>>
    requires result != []
  {
    if BeginPos(result[0]) <= |result| - TRAILER
    then Some(result[BeginPos(result[0])..|result| - TRAILER])
    else None
  }

  function Decrypted(c: Cipher, coded: seq<byte>): Option<seq<byte>> {
    if |coded| % 8 != 0 || coded == [] then None else Unpadded(Unchained(c, coded))
  }

  lemma UnpaddedOfPadded(text: seq<byte>, fill: seq<byte>)
    requires IsFill(text, fill)
    ensures Unpadded(Padded(text, fill)) == Some(text)
    ensures BeginPos(Padded(text, fill)[0]) == FillCount(|text|) + 1
  {
    var p := Padded(text, fill);
    assert p[|fill| + 1..|p| - TRAILER] == text;
  }

  lemma UnchainedOfEncrypted(c: Cipher, text: seq<byte>, fill: seq<byte>)
    requires IsPermutation(c) && IsFill(text, fill)
    ensures Unchained(c, Encrypted(c, text, fill)) == Padded(text, fill)
  {
    var p := ToBlocks(Padded(text, fill));
    BlocksRoundTrip(EncryptChain(c, p, 0, 0));
    DecryptOfEncrypt(c, p, 0, 0);
    BytesRoundTrip(Padded(text, fill));
  }

  /** Over any block permutation, decryption recovers the text for every fill, right behind that fill. */
  lemma DecryptedOfEncrypted(c: Cipher, text: seq<byte>, fill: seq<byte>)
    requires IsPermutation(c) && IsFill(text, fill)
    ensures Decrypted(c, Encrypted(c, text, fill)) == Some(text)
    ensures BeginPos(Unchained(c, Encrypted(c, text, fill))[0]) == FillCount(|text|) + 1
  {
    UnchainedOfEncrypted(c, text, fill);
    UnpaddedOfPadded(text, fill);
  }

  /** The checks that tea_decrypt leaves out: the high bits of the header and the zero trailer. */
  predicate HasPadding(result: seq<byte>) {
    |result| >= 16 && result[0] >= 0xF8 && result[|result| - TRAILER..] == Zeros(TRAILER)
  }

  /** The fill of a decrypted message. */
  function FillOf(result: seq<byte>): seq<byte>
    requires result != [] && BeginPos(result[0]) <= |result| - TRAILER
  {
    result[1..BeginPos(result[0])]
  }

  lemma PaddedShape(result: seq<byte>)
    requires |result| % 8 == 0 && HasPadding(result) && Unpadded(result).Some?
    ensures IsFill(Unpadded(result).value, FillOf(result))
    ensures Padded(Unpadded(result).value, FillOf(result)) == result
  {
    var text, fill := Unpadded(result).value, FillOf(result);
    assert |fill| == FillCount(|text|);
    assert result == [result[0]] + fill + text + result[|result| - TRAILER..];
  }

  lemma EncryptedOfUnpadded(c: Cipher, coded: seq<byte>)
    requires IsPermutation(c) && |coded| % 8 == 0
    ensures FromBlocks(EncryptChain(c, ToBlocks(Unchained(c, coded)), 0, 0)) == coded
  {
    BlocksRoundTrip(DecryptChain(c, ToBlocks(coded), 0, 0));
    EncryptOfDecrypt(c, ToBlocks(coded), 0, 0);
    BytesRoundTrip(coded);
  }

  /** What tea_decrypt returns encrypts back to its ciphertext, under some fill, exactly when the padding is intact. */
  lemma DecryptedImage(c: Cipher, coded: seq<byte>)
    requires IsPermutation(c) && Decrypted(c, coded).Some?
    ensures (exists fill :: IsFill(Decrypted(c, coded).value, fill) && Encrypted(c, Decrypted(c, coded).value, fill) == coded)
            <==> HasPadding(Unchained(c, coded))
  {
    var result, text := Unchained(c, coded), Decrypted(c, coded).value;
    if HasPadding(result) {
      PaddedShape(result);
      EncryptedOfUnpadded(c, coded);
      assert Encrypted(c, text, FillOf(result)) == coded;
    }
    if fill :| IsFill(text, fill) && Encrypted(c, text, fill) == coded {
      UnchainedOfEncrypted(c, text, fill);
      assert Padded(text, fill)[|result| - TRAILER..] == Zeros(TRAILER);
    }
  }

  lemma BlocksPrefix(s: seq<byte>, s': seq<byte>, n: nat)
    requires 8 * n <= |s| && 8 * n <= |s'| && s[..8 * n] == s'[..8 * n]
    ensures ToBlocks(s)[..n] == ToBlocks(s')[..n]
  {
    forall i | 0 <= i < n
      ensures ToBlocks(s)[i] == ToBlocks(s')[i]
    {
      assert s[8 * i..8 * i + 8] == s[..8 * n][8 * i..8 * i + 8];
      assert s'[8 * i..8 * i + 8] == s'[..8 * n][8 * i..8 * i + 8];
    }
  }

  lemma BytesPrefix(b: seq<u64>, n: nat)
    requires n <= |b|
    ensures FromBlocks(b)[..8 * n] == FromBlocks(b[..n])
  {
  }

  /** The first n ciphertext blocks depend on the first n padded plaintext blocks only. */
  lemma CiphertextPrefix(c: Cipher, text: seq<byte>, fill: seq<byte>, text': seq<byte>, fill': seq<byte>, n: nat)
    requires IsFill(text, fill) && IsFill(text', fill')
    requires 8 * n <= |Padded(text, fill)| && 8 * n <= |Padded(text', fill')|
    requires Padded(text, fill)[..8 * n] == Padded(text', fill')[..8 * n]
    ensures Encrypted(c, text, fill)[..8 * n] == Encrypted(c, text', fill')[..8 * n]
  {
    var p, p' := ToBlocks(Padded(text, fill)), ToBlocks(Padded(text', fill'));
    BlocksPrefix(Padded(text, fill), Padded(text', fill'), n);
    EncryptPrefix(c, p, 0, 0, n);
    EncryptPrefix(c, p', 0, 0, n);
    BytesPrefix(EncryptChain(c, p, 0, 0), n);
    BytesPrefix(EncryptChain(c, p', 0, 0), n);
  }

  function KeyOf(key: seq<byte>): (k: TeaBlock.Key)
    requires |key| == 16
    ensures k.rounds == 16
  {
    LimitValues();
    FromBigEndianRoundTrip(key[0..4]);
    FromBigEndianRoundTrip(key[4..8]);
    FromBigEndianRoundTrip(key[8..12]);
    FromBigEndianRoundTrip(key[12..16]);
    TeaBlock.Key(FromBigEndian(key[0..4]), FromBigEndian(key[4..8]), FromBigEndian(key[8..12]), FromBigEndian(key[12..16]), 16)
  }

  function BlockCipher(k: TeaBlock.Key): Cipher {
    Cipher(b => TeaBlock.Encrypt(k, b), b => TeaBlock.Decrypt(k, b))
  }

  function CipherOf(key: seq<byte>): Cipher
    requires |key| == 16
  {
    BlockCipher(KeyOf(key))
  }

  lemma CipherOfIsPermutation(key: seq<byte>)
    requires |key| == 16
    ensures IsPermutation(CipherOf(key))
  {
    var k := KeyOf(key);
    forall b: u64
      ensures CipherOf(key).decrypt(CipherOf(key).encrypt(b)) == b
      ensures CipherOf(key).encrypt(CipherOf(key).decrypt(b)) == b
    {
      TeaBlock.Permutation(k, b);
    }
  }

  /** tea_decrypt undoes tea_encrypt for every text, every 16-byte key and every fill. */
  lemma RoundTrip(text: seq<byte>, key: seq<byte>, fill: seq<byte>)
    requires |key| == 16 && IsFill(text, fill)
    ensures Decrypted(CipherOf(key), Encrypted(CipherOf(key), text, fill)) == Some(text)
  {
    hide *;
    CipherOfIsPermutation(key);
    DecryptedOfEncrypted(CipherOf(key), text, fill);
  }

  // ----- the ciphertext, told without the functions that compute it

  /** The padded message: the header over the fill count, the fill, the text, and seven zero bytes. */
  lemma PaddedBytes(text: seq<byte>, fill: seq<byte>)
    requires IsFill(text, fill)
    ensures var p, f := Padded(text, fill), 9 - (|text| + 1) % 8;
            && |fill| == f && |p| == 1 + f + |text| + 7
            && p[0] == 0xF8 + f - 2 && p[1..1 + f] == fill && p[1 + f..1 + f + |text|] == text
            && p[1 + f + |text|..] == [0, 0, 0, 0, 0, 0, 0]
  {
    var p, f := Padded(text, fill), |fill|;
    assert p == ([Header(f)] + fill) + (text + Zeros(7));
    assert p[1 + f..] == text + Zeros(7);
    assert p[1 + f + |text|..] == p[1 + f..][|text|..] == Zeros(7);
  }

  /** The blocks of a byte string, most significant byte first. */
  ghost predicate AreBlocksOf(blocks: seq<u64>, bytes: seq<byte>) {
    |bytes| == 8 * |blocks| && forall i :: 0 <= i < |blocks| ==> bytes[8 * i..8 * i + 8] == BigEndian(blocks[i], 8)
  }

  /** Every ciphertext block is what the cipher makes of its masked plaintext block, masked in its turn. */
  ghost predicate IsChain(c: Cipher, plain: seq<u64>, coded: seq<u64>) {
    |plain| == |coded|
    && forall i :: 0 <= i < |coded| ==> coded[i] == Xor(c.encrypt(Holder(plain, coded, 0, i)), Mask(plain, coded, 0, 0, i))
  }

  /** The blocks of padded message and ciphertext, and how the chain links them. */
  lemma CiphertextIs(text: seq<byte>, key: seq<byte>, fill: seq<byte>) returns (plain: seq<u64>, coded: seq<u64>)
    requires |key| == 16 && IsFill(text, fill)
    ensures AreBlocksOf(plain, Padded(text, fill))
    ensures AreBlocksOf(coded, Encrypted(CipherOf(key), text, fill))
    ensures IsChain(CipherOf(key), plain, coded)
  {
    hide CipherOf, Xor, EncryptChain, Holder, Mask, Padded, AreBlocksOf, IsChain, ToBlocks, FromBlocks;
    var c := CipherOf(key);
    plain := ToBlocks(Padded(text, fill));
    coded := EncryptChain(c, plain, 0, 0);
    BlocksOfBytes(Padded(text, fill));
    BytesOfBlocks(coded);
    ChainIs(c, plain);
  }

  lemma ChainIs(c: Cipher, plain: seq<u64>)
    ensures IsChain(c, plain, EncryptChain(c, plain, 0, 0))
  {
    hide Xor, Xor64, EncryptChain, Holder, Mask;
    var coded := EncryptChain(c, plain, 0, 0);
    forall i | 0 <= i < |coded|
      ensures coded[i] == Xor(c.encrypt(Holder(plain, coded, 0, i)), Mask(plain, coded, 0, 0, i))
    {
      EncryptChainAt(c, plain, 0, 0, i);
      Xor64Is(c.encrypt(Holder(plain, coded, 0, i)), Mask(plain, coded, 0, 0, i));
    }
  }

  lemma Xor64Is(a: u64, b: u64)
    ensures Xor64(a, b) == Xor(a, b)
  {
    hide Xor;
  }

  lemma BlocksOfBytes(s: seq<byte>)
    requires |s| % 8 == 0
    ensures AreBlocksOf(ToBlocks(s), s)
  {
    forall i | 0 <= i < |s| / 8
      ensures s[8 * i..8 * i + 8] == BigEndian(ToBlocks(s)[i], 8)
    {
      FromBigEndianRoundTrip(s[8 * i..8 * i + 8]);
    }
  }

  lemma BytesOfBlocks(blocks: seq<u64>)
    ensures AreBlocksOf(blocks, FromBlocks(blocks))
  {
    forall i | 0 <= i < |blocks|
      ensures FromBlocks(blocks)[8 * i..8 * i + 8] == BigEndian(blocks[i], 8)
    {
      FromBlocksSlice(blocks, i);
    }
  }

  /** A word of the key, from its four bytes. */
  function KeyWord(key: seq<byte>, i: nat): nat
    requires i + 4 <= |key|
  {
    key[i] as int * 0x100_0000 + key[i + 1] as int * 0x1_0000 + key[i + 2] as int * 0x100 + key[i + 3] as int
  }

  /** The block cipher of a key: sixteen rounds under the four words of the key, from the halves of the block. */
  lemma BlockTrace(key: seq<byte>, n: u64) returns (trace: seq<TeaBlock.Halves>)
    requires |key| == 16
    ensures |trace| == 17 && trace[0] == TeaBlock.Halves(n / 0x1_0000_0000, n % 0x1_0000_0000)
    ensures KeyWord(key, 0) < U32_LIMIT && KeyWord(key, 4) < U32_LIMIT && KeyWord(key, 8) < U32_LIMIT && KeyWord(key, 12) < U32_LIMIT
    ensures forall i :: 0 <= i < 16 ==>
              TeaBlock.IsRound(KeyWord(key, 0), KeyWord(key, 4), KeyWord(key, 8), KeyWord(key, 12),
                               (i + 1) * 0x9E3779B9 % 0x1_0000_0000, trace[i], trace[i + 1])
    ensures CipherOf(key).encrypt(n) == trace[16].x * 0x1_0000_0000 + trace[16].y
  {
    hide TeaBlock.IsRound, TeaBlock.Encrypt;
    var k := KeyOf(key);
    KeyWords(key);
    trace := TeaBlock.EncryptTrace(k, n);
  }

  lemma KeyWords(key: seq<byte>)
    requires |key| == 16
    ensures var k := KeyOf(key);
            k.k0 == KeyWord(key, 0) && k.k1 == KeyWord(key, 4) && k.k2 == KeyWord(key, 8) && k.k3 == KeyWord(key, 12)
  {
    hide FromBigEndian, KeyWord;
    KeyWordIs(key, 0);
    KeyWordIs(key, 4);
    KeyWordIs(key, 8);
    KeyWordIs(key, 12);
  }

  lemma KeyWordIs(key: seq<byte>, i: nat)
    requires i + 4 <= |key|
    ensures FromBigEndian(key[i..i + 4]) == KeyWord(key, i)
  {
    FromFourBytes(key[i], key[i + 1], key[i + 2], key[i + 3]);
    assert key[i..i + 4] == [key[i], key[i + 1], key[i + 2], key[i + 3]];
  }

  /** Decryption panics on anything but whole blocks, on fewer than two, and on two whose header asks for the longest fill. */
  lemma DecryptPanics(c: Cipher, coded: seq<byte>)
    ensures Decrypted(c, coded).None?
            <==> |coded| % 8 != 0 || |coded| < 16 || (|coded| == 16 && Unchained(c, coded)[0] % 8 == 7)
  {
    hide Unchained;
  }

  method ReadBlocks(src: array<byte>) returns (dst: array<u64>)
    requires src.Length % 8 == 0
    ensures fresh(dst) && dst[..] == ToBlocks(src[..])
  {
    dst := new u64[src.Length / 8];
    for i := 0 to dst.Length
      invariant forall k :: 0 <= k < i ==> dst[k] == ToBlocks(src[..])[k]
    {
      FromBigEndianRoundTrip(src[8 * i..8 * i + 8]);
      LimitValues();
      assert src[..][8 * i..8 * i + 8] == src[8 * i..8 * i + 8];
      dst[i] := FromBigEndian(src[8 * i..8 * i + 8]);
    }
  }

  method WriteBlocks(src: array<u64>, dst: array<byte>)
    requires dst.Length == 8 * src.Length
    modifies dst
    ensures dst[..] == FromBlocks(src[..])
  {
    for i := 0 to src.Length
      invariant forall j :: 0 <= j < 8 * i ==> dst[j] == FromBlocks(src[..])[j]
    {
      FromBlocksSlice(src[..], i);
      var bytes := BigEndian(src[i], 8);
      forall j | 0 <= j < 8 {
        dst[8 * i + j] := bytes[j];
      }
      forall j | 8 * i <= j < 8 * i + 8
        ensures dst[j] == FromBlocks(src[..])[j]
      {
        assert dst[8 * i + (j - 8 * i)] == bytes[j - 8 * i];
        assert FromBlocks(src[..])[8 * i..8 * i + 8][j - 8 * i] == bytes[j - 8 * i];
      }
    }
  }

  lemma EncryptStep(k: TeaBlock.Key, plain: seq<u64>, i: nat, iv1: u64, iv2: u64)
    requires i < |plain|
    ensures var holder := Xor64(plain[i], iv1);
            var out := Xor64(TeaBlock.Encrypt(k, holder), iv2);
            EncryptChain(BlockCipher(k), plain[i..], iv1, iv2) == [out] + EncryptChain(BlockCipher(k), plain[i + 1..], out, holder)
  {
    hide Xor64, TeaBlock.Encrypt, TeaBlock.Decrypt;
    assert plain[i..][1..] == plain[i + 1..];
  }

  lemma DecryptStep(k: TeaBlock.Key, coded: seq<u64>, i: nat, iv1: u64, iv2: u64)
    requires i < |coded|
    ensures var tmp := TeaBlock.Decrypt(k, Xor64(coded[i], iv2));
            DecryptChain(BlockCipher(k), coded[i..], iv1, iv2)
            == [Xor64(tmp, iv1)] + DecryptChain(BlockCipher(k), coded[i + 1..], coded[i], tmp)
  {
    hide Xor64, TeaBlock.Encrypt, TeaBlock.Decrypt;
    assert coded[i..][1..] == coded[i + 1..];
  }

  /** The loop of tea_encrypt over its work blocks, in place. */
  method EncryptBlocks(k: TeaBlock.Key, work: array<u64>)
    modifies work
    ensures work[..] == EncryptChain(BlockCipher(k), old(work[..]), 0, 0)
  {
    hide *;
    var iv1: u64, iv2: u64 := 0, 0;
    ghost var plain, c := work[..], BlockCipher(k);
    ghost var coded := EncryptChain(c, plain, 0, 0);
    assert plain[0..] == plain;
    for i := 0 to work.Length
      invariant work[i..] == plain[i..]
      invariant work[..i] == coded[..i]
      invariant EncryptChain(c, plain[i..], iv1, iv2) == coded[i..]
    {
      assert work[i] == work[i..][0] == plain[i];
      EncryptStep(k, plain, i, iv1, iv2);
      var holder := Xor64(work[i], iv1);
      iv1 := TeaBlock.EncryptBlock(k, holder);
      iv1 := Xor64(iv1, iv2);
      iv2 := holder;
      work[i] := iv1;
      assert coded[i] == coded[i..][0] == iv1;
      assert coded[i + 1..] == coded[i..][1..];
      assert work[i + 1..] == plain[i..][1..] == plain[i + 1..];
    }
  }

  /** The loop of tea_decrypt over its work blocks, in place. */
  method DecryptBlocks(k: TeaBlock.Key, work: array<u64>)
    requires k.rounds == 16
    modifies work
    ensures work[..] == DecryptChain(BlockCipher(k), old(work[..]), 0, 0)
  {
    hide *;
    var iv1: u64, iv2: u64 := 0, 0;
    ghost var coded, c := work[..], BlockCipher(k);
    ghost var plain := DecryptChain(c, coded, 0, 0);
    assert coded[0..] == coded;
    for i := 0 to work.Length
      invariant work[i..] == coded[i..]
      invariant work[..i] == plain[..i]
      invariant DecryptChain(c, coded[i..], iv1, iv2) == plain[i..]
    {
      assert work[i] == work[i..][0] == coded[i];
      DecryptStep(k, coded, i, iv1, iv2);
      var tmp := Xor64(work[i], iv2);
      tmp := TeaBlock.DecryptBlock(k, tmp);
      iv2 := tmp;
      var holder := Xor64(tmp, iv1);
      iv1 := work[i];
      work[i] := holder;
      assert plain[i] == plain[i..][0] == holder;
      assert plain[i + 1..] == plain[i..][1..];
      assert work[i + 1..] == coded[i..][1..] == coded[i + 1..];
    }
  }

  /** tea_encrypt, with the random fill as a parameter. */
  method TeaEncrypt(text: seq<byte>, key: seq<byte>, fill: seq<byte>) returns (plaintext: array<byte>)
    requires |key| == 16 && IsFill(text, fill)
    ensures fresh(plaintext) && plaintext[..] == Encrypted(CipherOf(key), text, fill)
  {
    hide KeyOf, EncryptChain, ToBlocks, FromBlocks;
    var fillCount := 9 - (|text| + 1) % 8;
    plaintext := new byte[1 + fillCount + |text| + 7](_ => 0);
    plaintext[0] := Header(fillCount);
    forall i | 0 <= i < fillCount {
      plaintext[1 + i] := fill[i];
    }
    forall i | 0 <= i < |text| {
      plaintext[fillCount + 1 + i] := text[i];
    }
    assert plaintext[..] == Padded(text, fill);
    var work := ReadBlocks(plaintext);
    EncryptBlocks(KeyOf(key), work);
    WriteBlocks(work, plaintext);
  }

  /** tea_decrypt; None where the source panics. */
  method TeaDecrypt(text: seq<byte>, key: seq<byte>) returns (r: Option<seq<byte>>)
    requires |key| == 16
    ensures r == Decrypted(CipherOf(key), text)
  {
    hide KeyOf, DecryptChain, ToBlocks, FromBlocks;
    if |text| % 8 != 0 || |text| == 0 {
      return None;
    }
    var input := new byte[|text|](i requires 0 <= i < |text| => text[i]);
    assert input[..] == text;
    var work := ReadBlocks(input);
    DecryptBlocks(KeyOf(key), work);
    var result := new byte[|text|](_ => 0);
    WriteBlocks(work, result);
    var beginPos := result[0] % 8 + 3;
    var endPos := result.Length - 7;
    if beginPos > endPos {
      return None;
    }
    r := Some(result[beginPos..endPos]);
    assert result[beginPos..endPos] == result[..][beginPos..endPos];
  }
}

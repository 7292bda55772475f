/** The two cross-chained 64-bit vectors of tea_encrypt and tea_decrypt, over any block permutation. */
module TeaChain {
  import opened Words

  datatype Cipher = Cipher(encrypt: u64 -> u64, decrypt: u64 -> u64)

  ghost predicate IsPermutation(c: Cipher) {
    forall b: u64 :: c.decrypt(c.encrypt(b)) == b && c.encrypt(c.decrypt(b)) == b
  }

  function EncryptChain(c: Cipher, plain: seq<u64>, iv1: u64, iv2: u64): (r: seq<u64>)
    ensures |r| == |plain|
  {
    if plain == [] then []
    else
      var holder := Xor64(plain[0], iv1);
      var out := Xor64(c.encrypt(holder), iv2);
      [out] + EncryptChain(c, plain[1..], out, holder)
  }

  function DecryptChain(c: Cipher, coded: seq<u64>, iv1: u64, iv2: u64): (r: seq<u64>)
    ensures |r| == |coded|
  {
    if coded == [] then []
    else
      var tmp := c.decrypt(Xor64(coded[0], iv2));
      [Xor64(tmp, iv1)] + DecryptChain(c, coded[1..], coded[0], tmp)
  }

  /** Decrypting a chain with the vectors it was encrypted with gives the plaintext. */
  lemma {:induction false} DecryptOfEncrypt(c: Cipher, plain: seq<u64>, iv1: u64, iv2: u64)
    requires IsPermutation(c)
    ensures DecryptChain(c, EncryptChain(c, plain, iv1, iv2), iv1, iv2) == plain
  {
    if plain != [] {
      var holder := Xor64(plain[0], iv1);
      var out := Xor64(c.encrypt(holder), iv2);
      XorCancels(plain[0], iv1);
      XorCancels(c.encrypt(holder), iv2);
      DecryptOfEncrypt(c, plain[1..], out, holder);
      assert EncryptChain(c, plain, iv1, iv2)[1..] == EncryptChain(c, plain[1..], out, holder);
    }
  }

  /** Every ciphertext is the encryption of what it decrypts to. */
  lemma {:induction false} EncryptOfDecrypt(c: Cipher, coded: seq<u64>, iv1: u64, iv2: u64)
    requires IsPermutation(c)
    ensures EncryptChain(c, DecryptChain(c, coded, iv1, iv2), iv1, iv2) == coded
  {
    if coded != [] {
      var tmp := c.decrypt(Xor64(coded[0], iv2));
      XorCancels(tmp, iv1);
      XorCancels(coded[0], iv2);
      EncryptOfDecrypt(c, coded[1..], coded[0], tmp);
      assert DecryptChain(c, coded, iv1, iv2)[1..] == DecryptChain(c, coded[1..], coded[0], tmp);
    }
  }

  /** Ciphertext block i depends on plaintext blocks 0..i only. */
  lemma {:induction false} EncryptPrefix(c: Cipher, plain: seq<u64>, iv1: u64, iv2: u64, n: nat)
    requires n <= |plain|
    ensures EncryptChain(c, plain, iv1, iv2)[..n] == EncryptChain(c, plain[..n], iv1, iv2)
  {
    if n > 0 {
      var holder := Xor64(plain[0], iv1);
      var out := Xor64(c.encrypt(holder), iv2);
      EncryptPrefix(c, plain[1..], out, holder, n - 1);
      assert plain[..n][1..] == plain[1..][..n - 1];
    }
  }

  /** Plaintext block i depends on ciphertext blocks 0..i only. */
  lemma {:induction false} DecryptPrefix(c: Cipher, coded: seq<u64>, iv1: u64, iv2: u64, n: nat)
    requires n <= |coded|
    ensures DecryptChain(c, coded, iv1, iv2)[..n] == DecryptChain(c, coded[..n], iv1, iv2)
  {
    if n > 0 {
      DecryptPrefix(c, coded[1..], coded[0], c.decrypt(Xor64(coded[0], iv2)), n - 1);
      assert coded[..n][1..] == coded[1..][..n - 1];
    }
  }

  /** What goes into the cipher for block i: the block, masked by the ciphertext in front of it. */
  function Holder(plain: seq<u64>, coded: seq<u64>, iv1: u64, i: nat): u64
    requires i < |plain| == |coded|
  {
    Xor64(plain[i], if i == 0 then iv1 else coded[i - 1])
  }

  /** What masks the output for block i: what went into the cipher for the block in front of it. */
  function Mask(plain: seq<u64>, coded: seq<u64>, iv1: u64, iv2: u64, i: nat): u64
    requires i < |plain| == |coded|
  {
    if i == 0 then iv2 else Holder(plain, coded, iv1, i - 1)
  }

  /** Ciphertext block i, from the blocks around it: what comes out of the cipher, masked by what went in for the block before. */
  lemma {:induction false} EncryptChainAt(c: Cipher, plain: seq<u64>, iv1: u64, iv2: u64, i: nat)
    requires i < |plain|
    ensures var coded := EncryptChain(c, plain, iv1, iv2);
            coded[i] == Xor64(c.encrypt(Holder(plain, coded, iv1, i)), Mask(plain, coded, iv1, iv2, i))
  {
    hide Xor64;
    if i > 0 {
      var holder := Xor64(plain[0], iv1);
      var out := Xor64(c.encrypt(holder), iv2);
      EncryptChainAt(c, plain[1..], out, holder, i - 1);
      assert EncryptChain(c, plain, iv1, iv2)[1..] == EncryptChain(c, plain[1..], out, holder);
    }
  }
}

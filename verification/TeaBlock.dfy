/** The 16-round block permutation (tea.rs, Tea16), on 32-bit words that wrap. */
module TeaBlock {
  import opened ByteOrder
  import opened Words

  const DELTA: u32 := 0x9E3779B9

  /** A key and a number of rounds; Tea16 runs 16 of them. */
  datatype Key = Key(k0: u32, k1: u32, k2: u32, k3: u32, rounds: nat)

  datatype Halves = Halves(x: u32, y: u32)

  function Split(n: u64): Halves {
    Halves(n / U32_LIMIT, n % U32_LIMIT)
  }

  function Join(p: Halves): u64 {
    p.x * U32_LIMIT + p.y
  }

  function Mix(a: u32, b: u32, v: u32, sum: u32): u32 {
    Xor32(Xor32(WrappingAdd(a, ShiftLeft4(v)), WrappingAdd(v, sum)), WrappingAdd(b, v / 32))
  }

  /** The mixing function of one half of one round, applied to the other half. */
  type Mixer = (nat, u32) -> u32

  function Round(f: Mixer, g: Mixer, i: nat, p: Halves): Halves {
    var x := WrappingAdd(p.x, f(i, p.y));
    Halves(x, WrappingAdd(p.y, g(i, x)))
  }

  function Unround(f: Mixer, g: Mixer, i: nat, p: Halves): Halves {
    var y := WrappingSub(p.y, g(i, p.x));
    Halves(WrappingSub(p.x, f(i, y)), y)
  }

  lemma RoundInverse(f: Mixer, g: Mixer, i: nat, p: Halves)
    ensures Unround(f, g, i, Round(f, g, i, p)) == p
    ensures Round(f, g, i, Unround(f, g, i, p)) == p
  {
  }

  /** Rounds 1..n, in order. */
  function Rounds(f: Mixer, g: Mixer, p: Halves, n: nat): Halves
    decreases n
  {
    if n == 0 then p else Round(f, g, n, Rounds(f, g, p, n - 1))
  }

  /** Undoes rounds n, n - 1, .., 1. */
  function Unrounds(f: Mixer, g: Mixer, p: Halves, n: nat): Halves
    decreases n
  {
    if n == 0 then p else Unrounds(f, g, Unround(f, g, n, p), n - 1)
  }

  /** Any number of rounds can be undone, in both orders, whatever the mixing functions are. */
  lemma {:induction false} RoundsInverse(f: Mixer, g: Mixer, p: Halves, n: nat)
    ensures Unrounds(f, g, Rounds(f, g, p, n), n) == p
    ensures Rounds(f, g, Unrounds(f, g, p, n), n) == p
    decreases n
  {
    if n > 0 {
      RoundInverse(f, g, n, Rounds(f, g, p, n - 1));
      RoundsInverse(f, g, p, n - 1);
      RoundInverse(f, g, n, p);
      RoundsInverse(f, g, Unround(f, g, n, p), n - 1);
    }
  }

  /** The running sum after n rounds. */
  function Sum(n: nat): u32 {
    if n == 0 then 0 else WrappingAdd(Sum(n - 1), DELTA)
  }

  /** Decryption starts from the shifted constant TEA_DELTA << 4, where encryption's running sum ends. */
  lemma SumEnds()
    ensures Sum(16) == ShiftLeft4(DELTA)
  {
    assert Sum(4) == 0x78DDE6E4;
    assert Sum(8) == 0xF1BBCDC8;
    assert Sum(12) == 0x6A99B4AC;
    assert Sum(16) == 0xE3779B90;
  }

  function MixX(k: Key): Mixer {
    (i, v) => Mix(k.k0, k.k1, v, Sum(i))
  }

  function MixY(k: Key): Mixer {
    (i, v) => Mix(k.k2, k.k3, v, Sum(i))
  }

  function Encrypt(k: Key, n: u64): u64 {
    Join(Rounds(MixX(k), MixY(k), Split(n), k.rounds))
  }

  function Decrypt(k: Key, n: u64): u64 {
    Join(Unrounds(MixX(k), MixY(k), Split(n), k.rounds))
  }

  lemma SplitJoin(n: u64)
    ensures Join(Split(n)) == n
  {
  }

  lemma JoinSplit(p: Halves)
    ensures Split(Join(p)) == p
  {
  }

  /** For every key the block functions are two-sided inverses. */
  lemma Permutation(k: Key, n: u64)
    ensures Decrypt(k, Encrypt(k, n)) == n
    ensures Encrypt(k, Decrypt(k, n)) == n
  {
    var f, g := MixX(k), MixY(k);
    JoinSplit(Rounds(f, g, Split(n), k.rounds));
    JoinSplit(Unrounds(f, g, Split(n), k.rounds));
    RoundsInverse(f, g, Split(n), k.rounds);
    SplitJoin(n);
  }

  // ----- what one round computes, bit by bit

  const WORD := 0x1_0000_0000

  lemma WrapsAround(a: nat, b: u32)
    ensures WrappingAdd(a % WORD, b) == (a + b) % WORD
  {
  }

  /** The running sum, whatever the number of rounds. */
  lemma {:induction false} SumIs(n: nat)
    ensures Sum(n) == n * 0x9E3779B9 % WORD
  {
    hide WrappingAdd;
    if n > 0 {
      SumIs(n - 1);
      WrapsAround((n - 1) * 0x9E3779B9, 0x9E3779B9);
      assert n * 0x9E3779B9 == (n - 1) * 0x9E3779B9 + 0x9E3779B9;
    }
  }

  /** Bit j of a word is the parity of the bits of three sums that wrap. */
  ghost predicate HasMixedBit(word: nat, a: u32, b: u32, v: u32, sum: u32, j: nat) {
    Bit(word, j) == (Bit((a + 16 * v) % WORD, j) + Bit((v + sum) % WORD, j) + Bit((b + v / 32) % WORD, j)) % 2
  }

  ghost predicate IsMixed(word: nat, a: u32, b: u32, v: u32, sum: u32) {
    forall j: nat :: HasMixedBit(word, a, b, v, sum, j)
  }

  lemma MixIsXor(a: u32, b: u32, v: u32, sum: u32)
    ensures Mix(a, b, v, sum) == Xor(Xor((a + 16 * v) % WORD, (v + sum) % WORD), (b + v / 32) % WORD)
  {
    hide Xor;
    assert ShiftLeft4(v) == 16 * v % WORD;
    assert WrappingAdd(a, ShiftLeft4(v)) == (a + 16 * v) % WORD;
  }

  lemma XorOfThree(p: nat, q: nat, r: nat, j: nat)
    ensures Bit(Xor(Xor(p, q), r), j) == (Bit(p, j) + Bit(q, j) + Bit(r, j)) % 2
  {
    XorBits(p, q, j);
    XorBits(Xor(p, q), r, j);
    BitIs(p, j);
    BitIs(q, j);
    BitIs(r, j);
    hide Bit, Xor, Pow2;
  }

  lemma MixBits(a: u32, b: u32, v: u32, sum: u32)
    ensures IsMixed(Mix(a, b, v, sum), a, b, v, sum)
  {
    hide Bit, Xor, Mix;
    MixIsXor(a, b, v, sum);
    var word := Mix(a, b, v, sum);
    forall j: nat
      ensures HasMixedBit(word, a, b, v, sum, j)
    {
      XorOfThree((a + 16 * v) % WORD, (v + sum) % WORD, (b + v / 32) % WORD, j);
    }
  }

  /** One round from p to q under four key words and this running sum, told by the bits of what it adds to each half. */
  ghost predicate IsRound(k0: u32, k1: u32, k2: u32, k3: u32, sum: u32, p: Halves, q: Halves) {
    IsMixed((q.x - p.x) % WORD, k0, k1, p.y, sum) && IsMixed((q.y - p.y) % WORD, k2, k3, q.x, sum)
  }

  lemma RoundBits(k: Key, i: nat, p: Halves)
    ensures IsRound(k.k0, k.k1, k.k2, k.k3, i * 0x9E3779B9 % WORD, p, Round(MixX(k), MixY(k), i, p))
  {
    hide IsMixed, Mix;
    var q := Round(MixX(k), MixY(k), i, p);
    SumIs(i);
    Difference(p.x, Mix(k.k0, k.k1, p.y, Sum(i)));
    Difference(p.y, Mix(k.k2, k.k3, q.x, Sum(i)));
    MixBits(k.k0, k.k1, p.y, Sum(i));
    MixBits(k.k2, k.k3, q.x, Sum(i));
  }

  lemma Difference(a: u32, b: u32)
    ensures (WrappingAdd(a, b) - a) % WORD == b
  {
  }

  /** Encryption is a chain of such rounds from the two halves of the block to the two halves of the result. */
  lemma EncryptTrace(k: Key, n: u64) returns (trace: seq<Halves>)
    ensures |trace| == k.rounds + 1
    ensures trace[0] == Halves(n / WORD, n % WORD)
    ensures forall i :: 0 <= i < k.rounds ==>
              IsRound(k.k0, k.k1, k.k2, k.k3, (i + 1) * 0x9E3779B9 % WORD, trace[i], trace[i + 1])
    ensures Encrypt(k, n) == trace[k.rounds].x * WORD + trace[k.rounds].y
  {
    hide IsRound, MixX, MixY, Round;
    var f, g := MixX(k), MixY(k);
    trace := seq(k.rounds + 1, i requires 0 <= i <= k.rounds => Rounds(f, g, Split(n), i));
    assert trace[0] == Rounds(f, g, Split(n), 0) == Split(n) == Halves(n / WORD, n % WORD);
    forall i | 0 <= i < k.rounds
      ensures IsRound(k.k0, k.k1, k.k2, k.k3, (i + 1) * 0x9E3779B9 % WORD, trace[i], trace[i + 1])
    {
      RoundBits(k, i + 1, trace[i]);
      assert trace[i + 1] == Round(f, g, i + 1, trace[i]);
    }
  }

  /** The body of the encryption loop, performing round i. */
  method DoRound(k: Key, ghost i: nat, sum: u32, x: u32, y: u32) returns (x': u32, y': u32)
    requires sum == Sum(i)
    ensures Halves(x', y') == Round(MixX(k), MixY(k), i, Halves(x, y))
  {
    x' := WrappingAdd(x, Mix(k.k0, k.k1, y, sum));
    y' := WrappingAdd(y, Mix(k.k2, k.k3, x', sum));
  }

  /** Tea16::encrypt. */
  method EncryptBlock(k: Key, n: u64) returns (r: u64)
    ensures r == Encrypt(k, n)
  {
    hide Mix;
    var sum: u32 := 0;
    var x: u32, y: u32 := Split(n).x, Split(n).y;
    for i := 0 to k.rounds
      invariant sum == Sum(i)
      invariant Halves(x, y) == Rounds(MixX(k), MixY(k), Split(n), i)
    {
      sum := WrappingAdd(sum, DELTA);
      x, y := DoRound(k, i + 1, sum, x, y);
    }
    r := Join(Halves(x, y));
  }

  /** The body of the decryption loop, undoing round i. */
  method UndoRound(k: Key, ghost i: nat, sum: u32, x: u32, y: u32) returns (x': u32, y': u32)
    requires sum == Sum(i)
    ensures Halves(x', y') == Unround(MixX(k), MixY(k), i, Halves(x, y))
  {
    y' := WrappingSub(y, Mix(k.k2, k.k3, x, sum));
    x' := WrappingSub(x, Mix(k.k0, k.k1, y', sum));
  }

  /** The loop of Tea16::decrypt, from the sum that the last round used. */
  method DecryptLoop(k: Key, n: u64, start: u32) returns (r: u64)
    requires start == Sum(k.rounds)
    ensures r == Decrypt(k, n)
  {
    hide Mix;
    var sum: u32 := start;
    var x: u32, y: u32 := Split(n).x, Split(n).y;
    ghost var f, g, q := MixX(k), MixY(k), Unrounds(MixX(k), MixY(k), Split(n), k.rounds);
    for i := k.rounds downto 0
      invariant sum == Sum(i)
      invariant Unrounds(f, g, Halves(x, y), i) == q
    {
      x, y := UndoRound(k, i + 1, sum, x, y);
      sum := WrappingSub(sum, DELTA);
    }
    r := Join(Halves(x, y));
  }

  /** Tea16::decrypt: the sum starts from TEA_DELTA << 4. */
  method DecryptBlock(k: Key, n: u64) returns (r: u64)
    requires k.rounds == 16
    ensures r == Decrypt(k, n)
  {
    hide Decrypt;
    SumEnds();
    r := DecryptLoop(k, n, ShiftLeft4(DELTA));
  }
}

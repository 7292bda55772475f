/** Bitwise exclusive or and wrapping arithmetic on unsigned words held as integers. */
module Words {
  import opened ByteOrder
  import opened Quotients

  type u64 = n: int | 0 <= n < U32_LIMIT * U32_LIMIT

  function Xor(a: nat, b: nat): nat {
    if a == 0 && b == 0 then 0 else 2 * Xor(a / 2, b / 2) + (a + b) % 2
  }

  /** The last bit and the other bits of an exclusive or. */
  lemma XorParts(a: nat, b: nat)
    ensures Xor(a, b) / 2 == Xor(a / 2, b / 2)
    ensures Xor(a, b) % 2 == (a + b) % 2
  {
  }

  lemma {:induction false} XorCancels(a: nat, b: nat)
    ensures Xor(Xor(a, b), b) == a
    decreases a + b
  {
    if a > 0 || b > 0 {
      hide Xor;
      var x := Xor(a, b);
      XorParts(a, b);
      XorParts(x, b);
      XorCancels(a / 2, b / 2);
      SameParts(Xor(x, b), a, x, b);
    }
  }

  lemma SameParts(y: nat, a: nat, x: nat, b: nat)
    requires y / 2 == a / 2 && x % 2 == (a + b) % 2 && y % 2 == (x + b) % 2
    ensures y == a
  {
  }

  /** Bit i of n, counted from the lowest. */
  function Bit(n: nat, i: nat): nat {
    if i == 0 then n % 2 else Bit(n / 2, i - 1)
  }

  /** Every bit of an exclusive or is set exactly when the two bits differ. */
  lemma {:induction false} XorBits(a: nat, b: nat, i: nat)
    ensures Bit(Xor(a, b), i) == if Bit(a, i) != Bit(b, i) then 1 else 0
  {
    hide Xor;
    XorParts(a, b);
    if i > 0 {
      XorBits(a / 2, b / 2, i - 1);
    }
  }

  function Pow2(k: nat): (r: nat)
    ensures r > 0
  {
    if k == 0 then 1 else 2 * Pow2(k - 1)
  }

  lemma {:induction false} XorBound(a: nat, b: nat, bits: nat)
    requires a < Pow2(bits) && b < Pow2(bits)
    ensures Xor(a, b) < Pow2(bits)
  {
    if bits > 0 && (a > 0 || b > 0) {
      XorBound(a / 2, b / 2, bits - 1);
    }
  }

  lemma Pow2Values()
    ensures Pow2(32) == U32_LIMIT
    ensures Pow2(64) == U32_LIMIT * U32_LIMIT
  {
    assert Pow2(8) == 0x100;
    assert Pow2(16) == Pow2(8) * 0x100;
    assert Pow2(24) == Pow2(16) * 0x100;
    assert Pow2(32) == Pow2(24) * 0x100;
    assert Pow2(40) == Pow2(32) * 0x100;
    assert Pow2(48) == Pow2(40) * 0x100;
    assert Pow2(56) == Pow2(48) * 0x100;
    assert Pow2(64) == Pow2(56) * 0x100;
  }

  function Xor32(a: u32, b: u32): u32 {
    Pow2Values();
    XorBound(a, b, 32);
    Xor(a, b)
  }

  function Xor64(a: u64, b: u64): u64 {
    Pow2Values();
    XorBound(a, b, 64);
    Xor(a, b)
  }

  function WrappingAdd(a: u32, b: u32): u32 {
    if a + b < U32_LIMIT then a + b else a + b - U32_LIMIT
  }

  function WrappingSub(a: u32, b: u32): u32 {
    if a < b then a - b + U32_LIMIT else a - b
  }

  /** The left shift of a u32, which drops the bits that leave the word. */
  function ShiftLeft4(a: u32): u32 {
    a % 0x1000_0000 * 16
  }

  lemma {:induction false} BitIs(n: nat, i: nat)
    ensures Bit(n, i) == n / Pow2(i) % 2
  {
    if i > 0 {
      BitIs(n / 2, i - 1);
      DivideTwice(n, 2, Pow2(i - 1));
    }
  }

  /** Numbers with the same bits are the same. */
  lemma {:induction false} SameBits(a: nat, b: nat)
    requires forall i: nat :: Bit(a, i) == Bit(b, i)
    ensures a == b
  {
    if a > 0 || b > 0 {
      assert Bit(a, 0) == Bit(b, 0);
      forall i: nat
        ensures Bit(a / 2, i) == Bit(b / 2, i)
      {
        assert Bit(a, i + 1) == Bit(b, i + 1);
      }
      SameBits(a / 2, b / 2);
    }
  }
}

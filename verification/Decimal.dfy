/** Decimal account numbers: Rust's str::parse::<u32> and u32::to_string. */
module Decimal {
  import opened Wrappers
  import opened ByteOrder

  const ZERO: byte := 48
  const PLUS: byte := 43

  predicate IsDigit(b: byte) {
    ZERO <= b < ZERO + 10
  }

  predicate AllDigits(s: seq<byte>) {
    forall i :: 0 <= i < |s| ==> IsDigit(s[i])
  }

  function DigitsValue(s: seq<byte>): (r: int)
    requires AllDigits(s)
    ensures r >= 0
  {
    if s == [] then 0
    else
      assert IsDigit(s[|s| - 1]);
      DigitsValue(s[..|s| - 1]) * 10 + (s[|s| - 1] - ZERO)
  }

  function Unsigned(s: seq<byte>): seq<byte> {
    if |s| > 1 && s[0] == PLUS then s[1..] else s
  }

  /** One optional plus sign, then at least one digit and nothing else, with a value that fits. */
  function ParseU32(s: seq<byte>): Option<u32> {
    var digits := Unsigned(s);
    if digits == [] || !AllDigits(digits) then None
    else if DigitsValue(digits) < U32_LIMIT then Some(DigitsValue(digits))
    else None
  }

  function ToDecimal(n: nat): seq<byte> {
    if n < 10 then [ZERO + n] else ToDecimal(n / 10) + [ZERO + n % 10]
  }

  lemma {:induction false} ToDecimalDigits(n: nat)
    ensures ToDecimal(n) != []
    ensures AllDigits(ToDecimal(n))
    ensures DigitsValue(ToDecimal(n)) == n
  {
    if n >= 10 {
      ToDecimalDigits(n / 10);
      var s := ToDecimal(n);
      assert s[..|s| - 1] == ToDecimal(n / 10);
    } else {
      assert DigitsValue([]) == 0;
    }
  }

  /** The decimal text of every account number parses to that number. */
  lemma ParseOfDecimal(n: u32)
    ensures ParseU32(ToDecimal(n)) == Some(n)
  {
    ToDecimalDigits(n);
  }

  /** Decimal text by its last digit, both ways. */
  lemma LastDigit(n: nat, d: nat)
    requires d < 10
    ensures ToDecimal(d) == [48 + d]
    ensures n > 0 ==> ToDecimal(10 * n + d) == ToDecimal(n) + [48 + d]
  {
  }

  lemma DigitsAppend(s: seq<byte>, b: byte)
    requires AllDigits(s) && IsDigit(b)
    ensures AllDigits(s + [b]) && DigitsValue(s + [b]) == DigitsValue(s) * 10 + (b - 48)
  {
    assert (s + [b])[..|s|] == s;
  }

  /** One digit is its own value, and one more digit behind a number counts as long as the result fits 32 bits. */
  lemma ParseDigits(s: seq<byte>, d: nat)
    requires d < 10
    ensures ParseU32([48 + d]) == Some(d)
    ensures ParseU32(s).Some? ==>
              ParseU32(s + [48 + d])
              == if ParseU32(s).value * 10 + d < 0x1_0000_0000 then Some(ParseU32(s).value * 10 + d) else None
  {
    DigitsAppend([], 48 + d);
    assert [] + [48 + d] == [48 + d];
    if ParseU32(s).Some? {
      UnsignedAppend(s, 48 + d);
      DigitsAppend(Unsigned(s), 48 + d);
    }
  }

  lemma UnsignedAppend(s: seq<byte>, b: byte)
    requires AllDigits(Unsigned(s)) && s != []
    ensures Unsigned(s + [b]) == Unsigned(s) + [b]
  {
    if |s| == 1 {
      assert IsDigit(Unsigned(s)[0]);
    }
  }

  /** A leading plus sign is ignored once; nothing else but digits is accepted, and there has to be a digit. */
  lemma ParseRejects(s: seq<byte>, i: nat)
    ensures ParseU32([]) == None && ParseU32([43]) == None
    ensures s != [] && s[0] != 43 ==> ParseU32([43] + s) == ParseU32(s)
    ensures i < |s| && !(48 <= s[i] <= 57) && (i > 0 || s[i] != 43) ==> ParseU32(s) == None
  {
    assert ([43] + s)[1..] == s;
    assert !IsDigit([43][0]);
    if i < |s| && !(48 <= s[i] <= 57) && (i > 0 || s[i] != 43) {
      assert !IsDigit(if Unsigned(s) == s then Unsigned(s)[i] else Unsigned(s)[i - 1]);
    }
  }
}

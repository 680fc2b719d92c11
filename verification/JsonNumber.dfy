/**
  Model of the integer decoder of src/net4cxx/common/configuration/json.cpp (decodeNumber), which
  accumulates a uint64 and guards every step against overflow, and of the decimal text it inverts.
*/
module JsonNumber {
  import opened Basics
  import opened JsonText

  const INT64_MAX: int := 0x7FFF_FFFF_FFFF_FFFF
  const UINT64_MAX: int := 0xFFFF_FFFF_FFFF_FFFF
  const MINUS: byte := 45

  /** A decoded number. Real stands for the double that sscanf makes of the token. */
  datatype Number = Int(i: int) | UInt(u: nat) | Real

  predicate IsDigit(c: byte) { 48 <= c <= 57 }

  predicate AllDigits(ds: bytes) { forall i :: 0 <= i < |ds| ==> IsDigit(ds[i]) }

  /** The mathematical value of a string of digits, of any length. */
  function DigitsValue(ds: bytes): nat
    requires AllDigits(ds)
  {
    if ds == [] then 0 else DigitsValue(ds[..|ds| - 1]) * 10 + (ds[|ds| - 1] - 48)
  }

  function Negative(token: bytes): bool { token != [] && token[0] == MINUS }

  function DigitsOf(token: bytes): bytes { if Negative(token) then token[1..] else token }

  /** The largest magnitude that still is an integer. */
  function Largest(negative: bool): nat { if negative then INT64_MAX + 1 else UINT64_MAX }

  /** What a number token means. */
  function NumberOf(token: bytes): Number {
    var ds := DigitsOf(token);
    if !AllDigits(ds) || DigitsValue(ds) > Largest(Negative(token)) then Real
    else if Negative(token) then Int(0 - DigitsValue(ds))
    else if DigitsValue(ds) <= INT64_MAX then Int(DigitsValue(ds))
    else UInt(DigitsValue(ds))
  }

  lemma {:induction false} DigitsPrefix(ds: bytes, k: nat)
    requires k <= |ds| && AllDigits(ds)
    ensures AllDigits(ds[..k]) && DigitsValue(ds[..k]) <= DigitsValue(ds)
    ensures k < |ds| ==> DigitsValue(ds[..k]) * 10 + (ds[k] - 48) <= DigitsValue(ds)
    ensures k + 1 < |ds| ==> DigitsValue(ds[..k]) * 100 <= DigitsValue(ds)
    decreases |ds| - k
  {
    if k == |ds| {
      assert ds[..k] == ds;
    } else {
      DigitsPrefix(ds, k + 1);
      assert ds[..k + 1][..k] == ds[..k];
    }
  }

  lemma {:induction false} NoDigits(ds: bytes)
    ensures ds[..0] == [] && AllDigits([]) && DigitsValue([]) == 0
  {
  }

  lemma {:induction false} NotDigits(ds: bytes, k: nat)
    requires k < |ds| && !IsDigit(ds[k])
    ensures !AllDigits(ds)
  {
  }

  lemma {:induction false} DigitAdded(ds: bytes, k: nat)
    requires k < |ds| && AllDigits(ds[..k]) && IsDigit(ds[k])
    ensures AllDigits(ds[..k + 1]) && DigitsValue(ds[..k + 1]) == DigitsValue(ds[..k]) * 10 + (ds[k] - 48)
  {
    assert ds[..k + 1][..k] == ds[..k];
  }

  /** A value that has reached a tenth of the largest one leaves room for one more digit at most. */
  lemma {:induction false} TooLarge(token: bytes, k: nat, threshold: nat)
    requires var ds := DigitsOf(token); k < |ds| && AllDigits(ds[..k]) && IsDigit(ds[k])
    requires var ds := DigitsOf(token); var value := DigitsValue(ds[..k]); var largest := Largest(Negative(token));
      && threshold == largest / 10 && value >= threshold
      && (value > threshold || k + 1 != |ds| || ds[k] - 48 > largest % 10)
    ensures NumberOf(token).Real?
  {
    hide DigitsValue;
    var ds := DigitsOf(token);
    if AllDigits(ds) { DigitsPrefix(ds, k); }
  }

  /** decodeNumber: accumulates digits in a uint64 that never overflows, and falls back to a double
      exactly when the token is no integer or its value does not fit. */
  method DecodeNumber(token: bytes) returns (decoded: Number)
    requires token != []
    ensures decoded == NumberOf(token)
  {
    hide DigitsValue, AllDigits;
    var isNegative := token[0] == MINUS;
    var current := if isNegative then 1 else 0;
    ghost var ds := DigitsOf(token);
    ghost var start := current;
    var maxIntegerValue := if isNegative then INT64_MAX + 1 else UINT64_MAX;
    var threshold := maxIntegerValue / 10;
    var value: int := 0;
    NoDigits(ds);
    while current < |token|
      invariant start <= current <= |token|
      invariant AllDigits(ds[..current - start]) && value == DigitsValue(ds[..current - start])
      invariant 0 <= value <= maxIntegerValue
    {
      var c := token[current];
      ghost var k := current - start;
      assert ds[k] == c;
      current := current + 1;
      if !IsDigit(c) {
        NotDigits(ds, k);
        return Real;
      }
      var digit := c - 48;
      if value >= threshold {
        if value > threshold || current != |token| || digit > maxIntegerValue % 10 {
          TooLarge(token, k, threshold);
          return Real;
        }
      }
      DigitAdded(ds, k);
      value := value * 10 + digit;
    }
    assert ds[..current - start] == ds;
    if isNegative {
      decoded := Int(0 - value);
    } else if value <= INT64_MAX {
      decoded := Int(value);
    } else {
      decoded := UInt(value);
    }
  }

  /** Zeros in front change nothing. */
  lemma {:induction false} LeadingZeros(zeros: bytes, ds: bytes)
    requires AllDigits(ds) && forall i :: 0 <= i < |zeros| ==> zeros[i] == 48
    ensures AllDigits(zeros + ds) && DigitsValue(zeros + ds) == DigitsValue(ds)
    ensures NumberOf(zeros + ds) == NumberOf(ds)
    decreases |zeros| + |ds|
  {
    if ds == [] {
      assert zeros + ds == zeros;
      if zeros != [] {
        LeadingZeros(zeros[..|zeros| - 1], []);
        assert zeros[..|zeros| - 1] + [] == zeros[..|zeros| - 1];
      }
    } else {
      assert (zeros + ds)[..|zeros + ds| - 1] == zeros + ds[..|ds| - 1];
      LeadingZeros(zeros, ds[..|ds| - 1]);
    }
  }

  /** std::to_string on a non-negative number. */
  function Decimal(n: nat): bytes {
    if n < 10 then [48 + n] else Decimal(n / 10) + [48 + n % 10]
  }

  function IntText(i: int): bytes { if i < 0 then [MINUS] + Decimal(-i) else Decimal(i) }

  lemma {:induction false} DecimalInverse(n: nat)
    ensures Decimal(n) != [] && AllDigits(Decimal(n)) && DigitsValue(Decimal(n)) == n
  {
    if n >= 10 {
      DecimalInverse(n / 10);
      assert Decimal(n)[..|Decimal(n)| - 1] == Decimal(n / 10);
    } else {
      assert Decimal(n)[..0] == [];
    }
  }

  /** Integers read back as they were printed; an unsigned one that fits comes back signed. */
  lemma {:induction false} NumberOfText(i: int)
    requires -INT64_MAX - 1 <= i <= UINT64_MAX
    ensures NumberOf(IntText(i)) == if i <= INT64_MAX then Int(i) else UInt(i)
  {
    hide DigitsValue, Decimal;
    if i < 0 {
      DecimalInverse(-i);
      assert IntText(i)[1..] == Decimal(-i);
    } else {
      DecimalInverse(i);
      assert IsDigit(Decimal(i)[0]);
    }
  }

  predicate AllZeros(ds: bytes) { forall i :: 0 <= i < |ds| ==> ds[i] == 48 }

  lemma {:induction false} ZeroValue(ds: bytes)
    requires AllDigits(ds)
    ensures DigitsValue(ds) == 0 <==> AllZeros(ds)
  {
    if ds != [] {
      ZeroValue(ds[..|ds| - 1]);
    }
  }

  /** A token is decoded to zero if and only if nothing but zeros follows its sign, so a lone minus sign is. */
  lemma {:induction false} ZeroExactly(token: bytes)
    ensures NumberOf(token) == Int(0) <==> AllZeros(DigitsOf(token))
  {
    if AllDigits(DigitsOf(token)) { ZeroValue(DigitsOf(token)); }
  }
}

/**
  The conversions of src/net4cxx/common/serialization/byteconvert.h between the byte order of the host and
  that of the wire.
*/
module ByteConvert {
  import opened Basics

  datatype Endian = Little | Big

  datatype ByteOrder = Native | Network | LittleEndian | BigEndian

  const TWO16: int := 0x1_0000
  const TWO32: int := 0x1_0000_0000
  const TWO64: int := 0x1_0000_0000_0000_0000

  /** The order on the wire of a value converted for a byte order. */
  function WireOrder(order: ByteOrder, host: Endian): Endian {
    match order
    case Native => host
    case LittleEndian => Little
    case _ => Big
  }

  function LittleBytes(n: nat, width: nat): (b: bytes)
    ensures |b| == width
  {
    if width == 0 then [] else [n % 256] + LittleBytes(n / 256, width - 1)
  }

  function Reversed(s: bytes): (r: bytes)
    ensures |r| == |s|
    ensures forall i :: 0 <= i < |s| ==> r[i] == s[|s| - 1 - i]
  {
    if s == [] then [] else Reversed(s[1..]) + [s[0]]
  }

  /** The memory of an unsigned integer of the given width. */
  function Bytes(n: nat, width: nat, e: Endian): (b: bytes)
    ensures |b| == width
  {
    if e.Little? then LittleBytes(n, width) else Reversed(LittleBytes(n, width))
  }

  function LittleValue(b: bytes): nat {
    if b == [] then 0 else b[0] + 256 * LittleValue(b[1..])
  }

  /** The unsigned integer in memory. */
  function Value(b: bytes, e: Endian): nat {
    LittleValue(if e.Little? then b else Reversed(b))
  }

  function Pow256(k: nat): (p: nat)
    ensures p >= 1
  {
    if k == 0 then 1 else 256 * Pow256(k - 1)
  }

  lemma {:induction false} Widths()
    ensures Pow256(1) == 256 && Pow256(2) == TWO16 && Pow256(4) == TWO32 && Pow256(8) == TWO64
  {
    assert Pow256(3) == 256 * Pow256(2) && Pow256(5) == 256 * Pow256(4) && Pow256(7) == 256 * Pow256(6);
  }

  lemma {:induction false} AtLeastOne(k: int, d: nat)
    ensures k >= 1 ==> k * d >= d
    ensures (0 - k) * d == 0 - k * d
  {
    if k >= 1 { assert k * d == (k - 1) * d + d; }
  }

  lemma {:induction false} QuotientIs(n: nat, d: nat, q: nat)
    requires d > 0 && q * d <= n < q * d + d
    ensures n / d == q
  {
    var k := n / d;
    assert (k - q) * d == k * d - q * d;
    AtLeastOne(k - q, d);
    AtLeastOne(q - k, d);
  }

  lemma {:induction false} DivideTwice(n: nat, p: nat)
    requires p > 0
    ensures n / (256 * p) == n / 256 / p
  {
    var q := n / 256;
    var k, r := q / p, q % p;
    assert k * p + r == q;
    assert k * (256 * p) == 256 * (k * p);
    QuotientIs(n, 256 * p, k);
  }

  lemma {:induction false} LittleByteAt(n: nat, width: nat, i: nat)
    requires i < width
    ensures LittleBytes(n, width)[i] == n / Pow256(i) % 256
  {
    if i > 0 {
      LittleByteAt(n / 256, width - 1, i - 1);
      DivideTwice(n, Pow256(i - 1));
    }
  }

  /** The bytes on the wire one by one: network order is most significant byte first. */
  lemma {:induction false} OnTheWire(n: nat, width: nat, order: ByteOrder, host: Endian, i: nat)
    requires i < width
    ensures Bytes(n, width, WireOrder(order, host))[i] ==
      if order == Network || order == BigEndian || (order == Native && host == Big) then n / Pow256(width - 1 - i) % 256
      else n / Pow256(i) % 256
  {
    hide Pow256;
    LittleByteAt(n, width, i);
    LittleByteAt(n, width, width - 1 - i);
  }

  lemma {:induction false} LittleInverse(n: nat, width: nat)
    ensures LittleValue(LittleBytes(n, width)) == n <==> n < Pow256(width)
    ensures LittleValue(LittleBytes(n, width)) < Pow256(width)
  {
    if width > 0 {
      LittleInverse(n / 256, width - 1);
      var b := LittleBytes(n, width);
      assert b[1..] == LittleBytes(n / 256, width - 1);
      assert LittleValue(b) == n % 256 + 256 * LittleValue(b[1..]);
    }
  }

  lemma {:induction false} LittleBack(b: bytes)
    ensures LittleBytes(LittleValue(b), |b|) == b
    ensures LittleValue(b) < Pow256(|b|)
  {
    if b != [] {
      LittleBack(b[1..]);
      var n := LittleValue(b);
      assert n == b[0] + 256 * LittleValue(b[1..]);
      assert n % 256 == b[0] && n / 256 == LittleValue(b[1..]);
      assert [b[0]] + b[1..] == b;
    }
  }

  lemma {:induction false} ReversedTwice(s: bytes)
    ensures Reversed(Reversed(s)) == s
  {
    assert forall i :: 0 <= i < |s| ==> Reversed(Reversed(s))[i] == Reversed(s)[|s| - 1 - i] == s[i];
  }

  /** Converting to the wire and back is the identity on exactly the integers that fit the width. */
  lemma {:induction false} BytesInverse(n: nat, width: nat, e: Endian)
    ensures Value(Bytes(n, width, e), e) == n <==> n < Pow256(width)
  {
    LittleInverse(n, width);
    ReversedTwice(LittleBytes(n, width));
  }

  lemma {:induction false} ValueInverse(b: bytes, e: Endian)
    ensures Bytes(Value(b, e), |b|, e) == b && Value(b, e) < Pow256(|b|)
  {
    LittleBack(if e.Little? then b else Reversed(b));
    ReversedTwice(b);
  }

  /** Bytes that read the same from both ends. */
  predicate Palindrome(b: bytes) { forall i :: 0 <= i < |b| ==> b[i] == b[|b| - 1 - i] }

  /** Reading in the wrong order gives the same integer on exactly the palindromes. */
  lemma {:induction false} MisreadPalindrome(n: nat, width: nat, e: Endian, host: Endian)
    requires n < Pow256(width)
    ensures Value(Bytes(n, width, e), host) == n <==> e == host || Palindrome(LittleBytes(n, width))
  {
    var b := LittleBytes(n, width);
    LittleInverse(n, width);
    ReversedTwice(b);
    if e != host {
      LittleBack(Reversed(b));
      LittleBack(b);
      assert Value(Bytes(n, width, e), host) == LittleValue(Reversed(b));
      if LittleValue(Reversed(b)) == n {
        assert Reversed(b) == b;
      }
      if Palindrome(b) {
        assert Reversed(b) == b;
      }
    }
  }
}

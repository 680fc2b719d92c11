/** What several modules share: bytes, options, and concatenation. */
module Basics {
  type byte = b: int | 0 <= b < 256
  type bytes = seq<byte>

  datatype Option<+T> = None | Some(value: T)

  function Min(a: int, b: int): (m: int)
    ensures m <= a && m <= b && (m == a || m == b)
  {
    if a < b then a else b
  }

  function HexDigit(n: nat): byte
    requires n < 16
  {
    if n < 10 then 48 + n else 87 + n
  }

  function UpperHexDigit(n: nat): byte
    requires n < 16
  {
    if n < 10 then 48 + n else 55 + n
  }

  /** The value of a hexadecimal digit, in either case of letters. */
  function HexValue(c: byte): (v: Option<nat>)
    ensures v.Some? ==> v.value < 16
  {
    if 48 <= c <= 57 then Some(c - 48)
    else if 65 <= c <= 70 then Some(c - 55)
    else if 97 <= c <= 102 then Some(c - 87)
    else None
  }

  lemma {:induction false} HexDigitInverse(n: nat)
    requires n < 16
    ensures HexValue(HexDigit(n)) == Some(n) && HexValue(UpperHexDigit(n)) == Some(n)
  {
  }

  lemma {:induction false} FrontAndLast<T>(s: seq<T>)
    requires s != []
    ensures s == s[..|s| - 1] + [s[|s| - 1]]
  {
  }

  lemma {:induction false} Assoc<T>(a: seq<T>, b: seq<T>, c: seq<T>)
    ensures a + b + c == a + (b + c)
  {
  }

  /** A string up to its first NUL, as strlen sees it. */
  function CStr(d: bytes): (r: bytes)
    ensures r <= d && 0 !in r && (r == d || d[|r|] == 0)
    ensures r == d <==> 0 !in d
  {
    if d == [] || d[0] == 0 then [] else [d[0]] + CStr(d[1..])
  }

  /** The concatenation of pieces. */
  function Flatten(pieces: seq<bytes>): bytes {
    if pieces == [] then [] else pieces[0] + Flatten(pieces[1..])
  }

  lemma {:induction false} FlattenOne(p: bytes)
    ensures Flatten([p]) == p
  {
    assert [p][1..] == [] && p + [] == p;
  }

  lemma {:induction false} FlattenLast(pieces: seq<bytes>, p: bytes)
    ensures Flatten(pieces + [p]) == Flatten(pieces) + p
  {
    if pieces == [] {
      FlattenOne(p);
      assert [] + [p] == [p] && [] + p == p;
    } else {
      assert (pieces + [p])[1..] == pieces[1..] + [p];
      FlattenLast(pieces[1..], p);
      Assoc(pieces[0], Flatten(pieces[1..]), p);
    }
  }
}

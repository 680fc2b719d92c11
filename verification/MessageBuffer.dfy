/**
  The byte buffer of src/net4cxx/common/utilities/messagebuffer.h and the search of
  src/net4cxx/common/common.cpp that delimiter reads use.
*/
module MessageBuffers {
  import opened Basics

  // ----- StrNStr -----

  /** d occurs in s at position i. */
  predicate At(s: bytes, d: bytes, i: nat) { i + |d| <= |s| && s[i..i + |d|] == d }

  function FirstFrom(s: bytes, d: bytes, i: nat): (r: Option<nat>)
    ensures match r
      case Some(k) => i <= k && At(s, d, k) && forall j :: i <= j < k ==> !At(s, d, j)
      case None => forall j :: i <= j ==> !At(s, d, j)
    decreases |s| - i
  {
    if i > |s| then None else if At(s, d, i) then Some(i) else FirstFrom(s, d, i + 1)
  }

  /** The first occurrence. */
  function First(s: bytes, d: bytes): Option<nat> { FirstFrom(s, d, 0) }

  method StrNStr(s1: bytes, s2: bytes) returns (r: Option<nat>)
    ensures r == First(s1, s2)
    ensures match r
      case Some(k) => At(s1, s2, k) && forall j :: 0 <= j < k ==> !At(s1, s2, j)
      case None => forall j :: 0 <= j ==> !At(s1, s2, j)
  {
    if |s2| > |s1| {
      return None;
    }
    var len := |s1| - |s2|;
    for i := 0 to len + 1
      invariant forall j :: 0 <= j < i ==> !At(s1, s2, j)
    {
      if s1[i..i + |s2|] == s2 {
        FirstIsUnique(s1, s2, i);
        return Some(i);
      }
    }
    r := None;
    assert forall j :: 0 <= j ==> !At(s1, s2, j);
  }

  lemma {:induction false} FirstIsUnique(s: bytes, d: bytes, k: nat)
    requires At(s, d, k) && forall j :: 0 <= j < k ==> !At(s, d, j)
    ensures First(s, d) == Some(k)
  {
    var r := First(s, d);
    assert r.Some? && r.value <= k;
  }

  /** More bytes do not move a first occurrence. */
  lemma {:induction false} FirstStays(s: bytes, t: bytes, d: bytes)
    requires First(s, d).Some?
    ensures First(s + t, d) == First(s, d)
  {
    var k := First(s, d).value;
    assert (s + t)[k..k + |d|] == s[k..k + |d|];
    forall j: nat | j < k ensures !At(s + t, d, j) {
      assert !At(s, d, j);
      assert (s + t)[j..j + |d|] == s[j..j + |d|];
    }
    FirstIsUnique(s + t, d, k);
  }

  /** What is found in the tail of a buffer is found, perhaps earlier, in the buffer. */
  lemma {:induction false} FirstInTail(s: bytes, n: nat, d: bytes)
    requires n <= |s| && First(s[n..], d).Some?
    ensures First(s, d).Some?
  {
    var k := First(s[n..], d).value;
    var x, y := s[n..][k..k + |d|], s[n + k..n + k + |d|];
    assert |x| == |y| && forall i :: 0 <= i < |x| ==> x[i] == y[i];
    assert At(s, d, n + k);
  }

  lemma {:induction false} CStrTwice(d: bytes)
    ensures CStr(CStr(d)) == CStr(d) && (0 in d ==> |CStr(d)| < |d|)
  {
    if d != [] && d[0] != 0 { CStrTwice(d[1..]); }
  }

  /** A delimiter read searches for the delimiter up to its first NUL but takes the whole delimiter's length
      of bytes. It never takes more than the buffer holds if and only if the delimiter has no NUL. */
  lemma {:induction false} NulDelimiterOverruns(d: bytes)
    ensures 0 !in d <==> forall s: bytes :: First(s, CStr(d)).Some? ==> First(s, CStr(d)).value + |d| <= |s|
  {
    CStrTwice(d);
    if 0 in d {
      var s := CStr(d);
      assert At(s, s, 0);
      FirstIsUnique(s, s, 0);
      assert First(s, CStr(d)).value + |d| > |s|;
    }
  }

  // ----- the buffer -----

  class MessageBuffer {
    var wpos: nat
    var rpos: nat
    var storage: array<byte>

    ghost predicate Valid()
      reads this
    {
      rpos <= wpos <= storage.Length
    }

    /** The active bytes. */
    ghost function Contents(): (c: bytes)
      requires Valid()
      reads this, storage
      ensures |c| == wpos - rpos
    {
      storage[rpos..wpos]
    }

    constructor (initialSize: nat)
      ensures Valid() && Contents() == [] && storage.Length == initialSize && wpos == rpos == 0
      ensures fresh(storage)
    {
      wpos, rpos := 0, 0;
      storage := new byte[initialSize];
    }

    function GetActiveSize(): (n: nat)
      requires Valid()
      reads this, storage
      ensures n == |Contents()|
    {
      wpos - rpos
    }

    function GetRemainingSpace(): nat
      requires Valid()
      reads this
    {
      storage.Length - wpos
    }

    function GetBufferSize(): nat
      reads this
    {
      storage.Length
    }

    /** std::vector::resize: the bytes that fit stay. */
    method Resize(size: nat)
      requires Valid() && size >= wpos
      modifies `storage
      ensures Valid() && storage.Length == size && Contents() == old(Contents())
      ensures fresh(storage)
    {
      var bigger := new byte[size];
      for i := 0 to wpos
        invariant storage == old(storage) && storage[..] == old(storage[..])
        invariant bigger[..i] == storage[..i]
      {
        bigger[i] := storage[i];
      }
      assert bigger[rpos..wpos] == bigger[..wpos][rpos..] == storage[..wpos][rpos..] == storage[rpos..wpos];
      storage := bigger;
    }

    method ReadCompleted(n: nat)
      requires Valid() && n <= |Contents()|
      modifies `rpos
      ensures Valid() && Contents() == old(Contents())[n..]
    {
      rpos := rpos + n;
    }

    /** Moves the active bytes to the front, in place. */
    method Normalize()
      requires Valid()
      modifies this, storage
      ensures Valid() && Contents() == old(Contents()) && storage == old(storage)
      ensures rpos == 0 && wpos == |Contents()|
    {
      if rpos != 0 {
        ghost var was := Contents();
        if rpos != wpos {
          for i := 0 to wpos - rpos
            invariant storage == old(storage) && wpos == old(wpos) && rpos == old(rpos)
            invariant storage[..i] == was[..i]
            invariant storage[rpos + i..wpos] == was[i..]
          {
            assert storage[rpos + i] == was[i];
            storage[i] := storage[rpos + i];
          }
        }
        wpos := wpos - rpos;
        rpos := 0;
        assert Contents() == was;
      }
    }

    /** Grows a full buffer by half. A buffer of one byte or none does not grow. */
    method EnsureSomeFreeSpace()
      requires Valid()
      modifies `storage
      ensures Valid() && Contents() == old(Contents())
      ensures GetRemainingSpace() > 0 <==> old(GetRemainingSpace()) > 0 || old(GetBufferSize()) > 1
    {
      if GetRemainingSpace() == 0 {
        Resize(storage.Length * 3 / 2);
      }
    }

    method EnsureFreeSpace(space: nat)
      requires Valid()
      modifies `storage
      ensures Valid() && Contents() == old(Contents()) && (storage == old(storage) || fresh(storage))
      ensures GetRemainingSpace() >= space
      ensures storage.Length == if old(storage.Length) < wpos + space then wpos + space else old(storage.Length)
    {
      if GetRemainingSpace() < space {
        Resize(GetBufferSize() + space - GetRemainingSpace());
      }
    }

    method Write(data: bytes)
      requires Valid() && |data| <= GetRemainingSpace()
      modifies `wpos, storage
      ensures Valid() && Contents() == old(Contents()) + data && wpos == old(wpos) + |data|
    {
      ghost var was := Contents();
      for i := 0 to |data|
        invariant storage == old(storage) && wpos == old(wpos)
        invariant storage[rpos..wpos] == was
        invariant storage[wpos..wpos + i] == data[..i]
      {
        storage[wpos + i] := data[i];
      }
      assert storage[rpos..wpos + |data|] == storage[rpos..wpos] + storage[wpos..wpos + |data|];
      wpos := wpos + |data|;
    }
  }
}

/**
  The read buffer of GzipFile in src/net4cxx/common/compress/gzip.{h,cpp}. Decompression is a source that
  yields the stream in pieces of any sizes; each piece takes some of the compressed file.
*/
module Gzip {
  import opened Basics

  const NEWLINE: byte := 10
  const INT32_MAX: int := 0x7FFF_FFFF
  const MAX_READ_CHUNK: nat := 10 * 1024 * 1024

  /** std::find: the position of the first newline, or the length. */
  function FindNewline(s: bytes): (i: nat)
    ensures i <= |s| && NEWLINE !in s[..i] && (i < |s| ==> s[i] == NEWLINE)
  {
    if s == [] || s[0] == NEWLINE then 0
    else
      var i := 1 + FindNewline(s[1..]);
      assert s[..i] == [s[0]] + s[1..][..i - 1];
      i
  }

  /** The end of the line that starts at a position: just past its newline, or the end of the stream. */
  function LineEnd(d: bytes, at: nat): (e: nat)
    requires at <= |d|
    ensures at <= e <= |d|
  {
    var i := FindNewline(d[at..]);
    if at + i < |d| then at + i + 1 else |d|
  }

  lemma {:induction false} FindIs(s: bytes, i: nat)
    requires i <= |s| && NEWLINE !in s[..i] && (i < |s| ==> s[i] == NEWLINE)
    ensures FindNewline(s) == i
  {
    var k := FindNewline(s);
    assert forall j :: 0 <= j < i ==> s[..i][j] == s[j];
    assert forall j :: 0 <= j < k ==> s[..k][j] == s[j];
  }

  /** The bytes of a stream between two positions. */
  ghost function Slice(d: bytes, a: int, b: int): (s: bytes)
    requires 0 <= a <= b <= |d|
    ensures |s| == b - a
  {
    d[a..b]
  }

  lemma {:induction false} SliceOfSlice(d: bytes, a: int, b: int, i: int, j: int)
    requires 0 <= a <= b <= |d| && 0 <= i <= j <= b - a
    ensures var s := Slice(d, a, b);
      && s[i..j] == Slice(d, a + i, a + j)
      && (i == 0 ==> s[..j] == Slice(d, a, a + j))
      && (j == b - a ==> s[i..] == Slice(d, a + i, b))
  {
    var x, y := d[a..b][i..j], d[a + i..a + j];
    assert |x| == |y| && forall k :: 0 <= k < |x| ==> x[k] == y[k];
    assert i == 0 ==> d[a..b][..j] == x;
    assert j == b - a ==> d[a..b][i..] == x;
  }

  lemma {:induction false} JoinSlices(d: bytes, a: int, b: int, c: int)
    requires 0 <= a <= b <= c <= |d|
    ensures Slice(d, a, b) + Slice(d, b, c) == Slice(d, a, c)
  {
  }

  predicate Plain(s: bytes) { NEWLINE !in s }

  lemma {:induction false} EmptySlice(d: bytes, a: int)
    requires 0 <= a <= |d|
    ensures Slice(d, a, a) == [] && Plain([]) && Slice(d, 0, |d|) == d
  {
  }

  /** The first newline of the stream from a position on is that of any piece that has one. */
  lemma {:induction false} LineInPiece(d: bytes, at: nat, from: nat, to: nat)
    requires at <= from <= to <= |d| && Plain(Slice(d, at, from))
    ensures var i := FindNewline(Slice(d, from, to));
      && (from + i < to <==> !Plain(Slice(d, from, to)))
      && (from + i < to ==> LineEnd(d, at) == from + i + 1)
      && (from + i == to ==> Plain(Slice(d, at, to)) && LineEnd(d, at) >= to)
  {
    var i := FindNewline(d[from..to]);
    assert d[from..to][..i] == d[from..from + i];
    assert d[at..from + i] == d[at..from] + d[from..from + i];
    assert d[at..from + i] == d[at..][..from - at + i];
    if from + i < to {
      assert d[from..to][i] == NEWLINE;
      FindIs(d[at..], from - at + i);
    } else {
      assert d[from..to][..i] == d[from..to];
      assert forall j :: 0 <= j < to - at ==> d[at..to][j] == d[at..][j];
    }
  }

  /** What readLine returns until the end of a stream whose lines are short enough. */
  ghost function Lines(d: bytes, at: nat): seq<bytes>
    requires at <= |d|
    decreases |d| - at
  {
    if at == |d| then [] else [Slice(d, at, LineEnd(d, at))] + Lines(d, LineEnd(d, at))
  }

  /** A piece without newline, and a newline, which only the last line of a stream may lack. */
  predicate IsLine(l: bytes, last: bool) {
    l != [] && Plain(l[..|l| - 1]) && (last || l[|l| - 1] == NEWLINE)
  }

  lemma {:induction false} FirstIsLine(d: bytes, at: nat)
    requires at < |d|
    ensures IsLine(Slice(d, at, LineEnd(d, at)), LineEnd(d, at) == |d|)
  {
    var e := LineEnd(d, at);
    var l := Slice(d, at, e);
    assert l[..|l| - 1] == d[at..][..e - at - 1];
    assert l[|l| - 1] == d[at..][e - at - 1];
  }

  /** The lines make up the stream. */
  lemma {:induction false} LinesSplitStream(d: bytes, at: nat)
    requires at <= |d|
    ensures Flatten(Lines(d, at)) == Slice(d, at, |d|)
    ensures forall i :: 0 <= i < |Lines(d, at)| ==> IsLine(Lines(d, at)[i], i == |Lines(d, at)| - 1)
    decreases |d| - at
  {
    hide Slice, IsLine, FindNewline;
    if at < |d| {
      var e := LineEnd(d, at);
      LinesSplitStream(d, e);
      JoinSlices(d, at, e, |d|);
      FirstIsLine(d, at);
    } else {
      EmptySlice(d, at);
    }
  }

  datatype SeekDir = Beg | Cur | End

  class GzipFile {
    const whole: bytes // the decompressed stream
    const size: nat // of the compressed file
    var left: bytes // what decompression has not yielded yet
    var compressedLeft: nat
    var extraBuf: bytes
    var extraSize: int
    var extraStart: int
    var minReadSize: int
    var offset: int

    constructor (whole: bytes, size: nat)
      ensures Valid() && offset == 0 && this.whole == whole
    {
      this.whole, this.size := whole, size;
      left, compressedLeft := whole, size;
      extraBuf, extraSize, extraStart, minReadSize, offset := [], 0, 0, 100, 0;
    }

    /** The buffer holds the stream from extraStart to where decompression is, and extraSize counts the part
        of it that is still unread, also after bytes were put back. */
    ghost predicate Valid()
      reads this
    {
      var produced := |whole| - |left|;
      && produced >= 0 && left == Slice(whole, produced, |whole|)
      && 0 <= extraStart <= offset <= produced
      && extraBuf == Slice(whole, extraStart, produced)
      && extraSize == produced - offset
      && 0 < minReadSize <= 512
    }

    method AddReadData(data: bytes)
      requires Valid() && |data| <= |left| && data == left[..|data|]
      modifies `left, `extraBuf, `extraSize, `extraStart
      ensures Valid() && left == old(left)[|data|..] && offset == old(offset) && extraSize == old(extraSize) + |data|
    {
      hide Slice;
      ghost var from, to := |whole| - |left|, |whole| - |left| + |data|;
      var skip := offset - extraStart;
      SliceOfSlice(whole, from, |whole|, 0, |data|);
      SliceOfSlice(whole, from, |whole|, |data|, |left|);
      SliceOfSlice(whole, extraStart, from, skip, from - extraStart);
      JoinSlices(whole, offset, from, to);
      left := left[|data|..];
      if skip > 0 {
        extraBuf := extraBuf[skip..];
      }
      extraBuf := extraBuf + data;
      extraSize := extraSize + |data|;
      extraStart := offset;
    }

    /** Reads some of the file, decompresses some of it. At the end of the file the rest comes at once. */
    method InternalRead(len: nat) returns (eof: bool)
      requires Valid() && len > 0
      modifies `left, `compressedLeft, `extraBuf, `extraSize, `extraStart
      ensures Valid() && offset == old(offset) && extraSize >= old(extraSize)
      ensures eof ==> left == []
      ensures !eof ==> compressedLeft < old(compressedLeft)
    {
      if compressedLeft == 0 {
        assert left == left[..|left|];
        AddReadData(left);
        return true;
      }
      compressedLeft := compressedLeft - if len < compressedLeft then len else compressedLeft;
      var k: nat :| k <= |left|;
      AddReadData(left[..k]);
      eof := false;
    }

    /** read and readToString: size bytes, or everything if size is negative, and less only at the end. */
    method Read(size: int) returns (chunk: bytes)
      requires Valid()
      modifies `left, `compressedLeft, `extraBuf, `extraSize, `extraStart, `offset
      ensures Valid()
      ensures offset == if size < 0 then |whole| else Min(old(offset) + size, |whole|)
      ensures chunk == Slice(whole, old(offset), offset) && extraStart <= old(offset)
    {
      hide Slice;
      var count, readSize, eof := size, 1024, false;
      if size < 0 {
        while !eof
          invariant Valid() && offset == old(offset) && extraStart <= offset && (eof ==> left == []) && readSize > 0
          decreases !eof, compressedLeft
        {
          eof := InternalRead(readSize);
          readSize := Min(MAX_READ_CHUNK, readSize * 2);
        }
        count := extraSize;
      } else {
        while count > extraSize && !eof
          invariant Valid() && offset == old(offset) && extraStart <= offset && (eof ==> left == []) && readSize > 0
          decreases !eof, compressedLeft
        {
          eof := InternalRead(readSize);
          readSize := Min(MAX_READ_CHUNK, readSize * 2);
        }
        if eof && count > extraSize {
          count := extraSize;
        }
      }
      var at := offset - extraStart;
      chunk := extraBuf[at..at + count];
      SliceOfSlice(whole, extraStart, |whole| - |left|, at, at + count);
      extraSize := extraSize - count;
      offset := offset + count;
    }

    /** Puts the last bytes read back. */
    method Unread(len: nat)
      requires Valid() && len <= offset - extraStart
      modifies `extraSize, `offset
      ensures Valid() && offset == old(offset) - len
    {
      extraSize := extraSize + len;
      offset := offset - len;
    }

    method Rewind()
      requires Valid()
      modifies `left, `compressedLeft, `extraBuf, `extraSize, `extraStart, `offset
      ensures Valid() && offset == 0
    {
      EmptySlice(whole, 0);
      left, compressedLeft := whole, size;
      extraBuf, extraSize, extraStart, offset := [], 0, 0, 0;
    }

    /** Moves to a position, at most the end. False for a position from the end, which is not supported. A
        negative position makes the count of bytes to skip negative, which reads to the end. */
    method Seek(position: int, whence: SeekDir) returns (ok: bool)
      requires Valid()
      modifies `left, `compressedLeft, `extraBuf, `extraSize, `extraStart, `offset
      ensures Valid() && ok == !whence.End?
      ensures !ok ==> offset == old(offset)
      ensures ok ==> var target := if whence.Cur? then old(offset) + position else position;
        offset == if target < 0 then |whole| else Min(target, |whole|)
    {
      var target := position;
      if whence.Cur? {
        target := offset + position;
      } else if whence.End? {
        return false;
      }
      if target < offset {
        Rewind();
      }
      var count := target - offset;
      var _ := Read(count);
      ok := true;
    }

    /** The unread part of the buffer has a newline. */
    ghost predicate NewlineBuffered()
      requires Valid()
      reads this
    {
      !Plain(Slice(whole, offset, |whole| - |left|))
    }

    /** A line that is in the buffer. */
    method BufferedLine() returns (found: bool, line: bytes)
      requires Valid()
      modifies `extraSize, `offset
      ensures Valid() && found == old(NewlineBuffered())
      ensures found ==> line != [] && offset == LineEnd(whole, old(offset)) && line == Slice(whole, old(offset), offset)
      ensures !found ==> offset == old(offset)
    {
      hide Slice, LineEnd, Plain, FindNewline;
      found, line := false, [];
      var at := offset - extraStart;
      ghost var produced := |whole| - |left|;
      if at >= |extraBuf| {
        EmptySlice(whole, offset);
      } else {
        var i := FindNewline(extraBuf[at..]);
        SliceOfSlice(whole, extraStart, produced, at, |extraBuf|);
        EmptySlice(whole, offset);
        LineInPiece(whole, offset, offset, produced);
        if i < |extraBuf| - at {
          var count := i + 1;
          extraSize := extraSize - count;
          offset := offset + count;
          SliceOfSlice(whole, extraStart, produced, at, at + count);
          found, line := true, extraBuf[at..at + count];
        }
      }
    }

    /** The loop of readLine: reads pieces until one has a newline, or the limit or the end is reached. Returns
        also the size of the next piece it would read. */
    method CollectLine(limit: int, firstSize: int) returns (line: bytes, readSize: int)
      requires Valid() && 0 <= limit && (limit > 0 ==> 0 < firstSize <= limit)
      modifies `left, `compressedLeft, `extraBuf, `extraSize, `extraStart, `offset
      ensures Valid() && old(offset) <= offset && line == Slice(whole, old(offset), offset)
      ensures offset == Min(LineEnd(whole, old(offset)), old(offset) + limit)
    {
      hide Slice, LineEnd, Plain, FindNewline;
      EmptySlice(whole, offset);
      ghost var start := offset;
      var left, stop := limit, false;
      line, readSize := [], firstSize;
      while left != 0 && !stop
        invariant Valid() && start <= offset && 0 <= left && (left > 0 ==> 0 < readSize <= left)
        invariant line == Slice(whole, start, offset)
        invariant offset <= start + limit && offset <= LineEnd(whole, start)
        invariant !stop ==> left == limit - (offset - start) && Plain(Slice(whole, start, offset))
        invariant stop ==> offset == Min(LineEnd(whole, start), start + limit)
        decreases !stop, left
      {
        ghost var from := offset;
        var c := Read(readSize);
        LineInPiece(whole, start, from, offset);
        if c == [] {
          stop := true;
        } else {
          var i := FindNewline(c);
          if (i < |c| && left < i) || (i == |c| && |c| > left) {
            assert false; // no more than left bytes were asked for
          } else if i < |c| {
            SliceOfSlice(whole, from, offset, 0, i + 1);
            JoinSlices(whole, start, from, from + (i + 1));
            line := line + c[..i + 1];
            Unread(|c| - i - 1);
            stop := true;
          } else {
            left := left - |c|;
            JoinSlices(whole, start, from, offset);
            line := line + c;
            readSize := Min(left, readSize * 2);
          }
        }
      }
    }

    /** The rest of the line, but at most size bytes if size is not negative. Without a size, the whole line comes
        if and only if its newline is in the buffer already or it is no longer than INT32_MAX bytes. */
    method ReadLine(size: int) returns (line: bytes)
      requires Valid()
      modifies `left, `compressedLeft, `extraBuf, `extraSize, `extraStart, `offset, `minReadSize
      ensures Valid() && old(offset) <= offset && line == Slice(whole, old(offset), offset)
      ensures var e := LineEnd(whole, old(offset));
        && offset == (if size >= 0 then Min(e, old(offset) + size)
                      else if old(NewlineBuffered()) then e else Min(e, old(offset) + INT32_MAX))
        && (size < 0 ==> (offset == e <==> old(NewlineBuffered()) || e - old(offset) <= INT32_MAX))
    {
      hide Slice, LineEnd;
      var readSize := size;
      if size < 0 {
        var found;
        found, line := BufferedLine();
        if found {
          return;
        }
        line, readSize := CollectLine(INT32_MAX, minReadSize);
      } else {
        line, readSize := CollectLine(size, size);
      }
      if readSize > minReadSize {
        minReadSize := Min(readSize, minReadSize * 2);
        minReadSize := Min(minReadSize, 512);
      }
    }
  }
}

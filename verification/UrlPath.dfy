/**
  How urlJoin of src/net4cxx/common/httputils/urlparse.cpp resolves a relative path against a base path
  (section 4 of RFC 1808): segments are cancelled by a loop that starts again from the left after each change.
*/
module UrlPath {
  import opened Basics
  import opened UrlText

  const SLASH: byte := 47
  const DOT: bytes := [46]
  const PARENT: bytes := [46, 46]

  /** A segment that a following ".." removes. */
  predicate Cancellable(x: bytes) { x != [] && x != PARENT }

  /** The ".." at position i removes the segment before it. */
  predicate Redex(s: seq<bytes>, i: nat) { 1 <= i < |s| && s[i] == PARENT && Cancellable(s[i - 1]) }

  predicate Reduced(s: seq<bytes>) { forall i: nat :: i < |s| ==> !Redex(s, i) }

  /** One pass with a stack: a ".." pops a cancellable segment, anything else is pushed. */
  function Normal(s: seq<bytes>): seq<bytes> {
    if s == [] then []
    else
      var stack, x := Normal(s[..|s| - 1]), s[|s| - 1];
      if x == PARENT && stack != [] && Cancellable(stack[|stack| - 1]) then stack[..|stack| - 1] else stack + [x]
  }

  lemma {:induction false} NormalLast(s: seq<bytes>, x: bytes)
    ensures Normal(s + [x]) ==
      var stack := Normal(s);
      if x == PARENT && stack != [] && Cancellable(stack[|stack| - 1]) then stack[..|stack| - 1] else stack + [x]
  {
    assert (s + [x])[..|s|] == s;
  }

  /** Cancelling a segment does not change what one pass makes of the whole. */
  lemma {:induction false} NormalCancel(a: seq<bytes>, x: bytes, b: seq<bytes>)
    requires Cancellable(x)
    ensures Normal(a + [x, PARENT] + b) == Normal(a + b)
  {
    if b == [] {
      assert a + [x, PARENT] + b == a + [x] + [PARENT] && a + b == a;
      NormalLast(a, x);
      NormalLast(a + [x], PARENT);
    } else {
      var front, y := b[..|b| - 1], b[|b| - 1];
      assert a + [x, PARENT] + b == a + [x, PARENT] + front + [y] && a + b == a + front + [y];
      NormalCancel(a, x, front);
      NormalLast(a + [x, PARENT] + front, y);
      NormalLast(a + front, y);
    }
  }

  /** Segments without anything to cancel are left alone. */
  lemma {:induction false} NormalOfReduced(s: seq<bytes>)
    requires Reduced(s)
    ensures Normal(s) == s
  {
    if s != [] {
      var front := s[..|s| - 1];
      assert forall i: nat :: i < |front| && Redex(front, i) ==> Redex(s, i);
      NormalOfReduced(front);
      assert !Redex(s, |s| - 1);
      assert front + [s[|s| - 1]] == s;
    }
  }

  /** One pass leaves nothing to cancel. */
  lemma {:induction false} NormalIsReduced(s: seq<bytes>)
    ensures Reduced(Normal(s))
  {
    if s != [] {
      var front := s[..|s| - 1];
      NormalIsReduced(front);
      var stack, r := Normal(front), Normal(s);
      forall i: nat | i < |r| ensures !Redex(r, i) {
        if i < |stack| { assert !Redex(stack, i); }
      }
    }
  }

  lemma {:induction false} NormalMembers(s: seq<bytes>)
    ensures forall x :: x in Normal(s) ==> x in s
  {
    if s != [] {
      var front := s[..|s| - 1];
      NormalMembers(front);
      assert s == front + [s[|s| - 1]];
      NormalLast(front, s[|s| - 1]);
    }
  }

  // ----- the loop -----

  method FindRedex(segments: seq<bytes>) returns (i: nat, done: bool)
    requires segments != []
    ensures done ==> Reduced(segments[..|segments| - 1])
    ensures !done ==> Redex(segments[..|segments| - 1], i)
  {
    var n := |segments| - 1;
    ghost var prefix := segments[..n];
    i, done := 1, true;
    while i < n
      invariant 1 <= i && done && forall j: nat :: j < i ==> !Redex(prefix, j)
    {
      if segments[i] == PARENT && segments[i - 1] != [] && segments[i - 1] != PARENT {
        return i, false;
      }
      i := i + 1;
    }
  }

  /** The loop that starts again from the left ends, and has the effect of one pass over all segments but the
      last, which it keeps. */
  method CancelParents(given: seq<bytes>) returns (segments: seq<bytes>)
    requires given != []
    ensures segments == Normal(given[..|given| - 1]) + [given[|given| - 1]]
  {
    hide Redex, Reduced, Normal;
    segments := given;
    while true
      invariant segments != [] && segments[|segments| - 1] == given[|given| - 1]
      invariant Normal(segments[..|segments| - 1]) == Normal(given[..|given| - 1])
      decreases |segments|
    {
      var i, done := FindRedex(segments);
      ghost var prefix := segments[..|segments| - 1];
      if done {
        NormalOfReduced(prefix);
        break;
      }
      RedexParts(segments, i);
      NormalCancel(prefix[..i - 1], segments[i - 1], prefix[i + 1..]);
      segments := segments[..i - 1] + segments[i + 1..];
    }
  }

  lemma {:induction false} RedexParts(segments: seq<bytes>, i: nat)
    requires segments != [] && Redex(segments[..|segments| - 1], i)
    ensures 1 <= i < |segments| - 1 && Cancellable(segments[i - 1])
    ensures var prefix := segments[..|segments| - 1]; var next := segments[..i - 1] + segments[i + 1..];
      && prefix == prefix[..i - 1] + [segments[i - 1], PARENT] + prefix[i + 1..]
      && next != [] && next[|next| - 1] == segments[|segments| - 1]
      && next[..|next| - 1] == prefix[..i - 1] + prefix[i + 1..]
  {
  }

  // ----- the rest of the merge -----

  function WithoutDots(s: seq<bytes>): (r: seq<bytes>)
    ensures forall x :: x in r <==> x in s && x != DOT
  {
    if s == [] then [] else WithoutDots(s[..|s| - 1]) + if s[|s| - 1] == DOT then [] else [s[|s| - 1]]
  }

  /** A last segment of "." becomes empty. */
  function LastCleared(x: bytes): bytes { if x == DOT then [] else x }

  /** What becomes of a ".." in the last place. */
  function LastResolved(s: seq<bytes>): seq<bytes> {
    if |s| == 2 && s[0] == [] && s[1] == PARENT then [s[0], []]
    else if |s| > 2 && s[|s| - 1] == PARENT then s[..|s| - 2] + [[]]
    else s
  }

  /** The segments of the merged path, in terms of one pass. */
  function Merged(segments: seq<bytes>): seq<bytes>
    requires segments != []
  {
    var n := |segments| - 1;
    LastResolved(Normal(WithoutDots(segments[..n])) + [LastCleared(segments[n])])
  }

  function BaseSegments(bpath: bytes, path: bytes): (r: seq<bytes>)
    ensures r != []
  {
    var b := Split(bpath, SLASH);
    b[..|b| - 1] + Split(path, SLASH)
  }

  /** The merged path. */
  function MergedPath(bpath: bytes, path: bytes): bytes { Join(Merged(BaseSegments(bpath, path)), [SLASH]) }

  /** The path that urlJoin builds for a relative path. */
  method MergePath(bpath: bytes, path: bytes) returns (r: bytes)
    ensures r == MergedPath(bpath, path)
  {
    hide Split, Normal, Join;
    var segments := Split(bpath, SLASH);
    segments := segments[..|segments| - 1];
    segments := segments + Split(path, SLASH);
    ghost var given := segments;
    if segments[|segments| - 1] == DOT {
      segments := segments[|segments| - 1 := []];
    }
    ghost var cleared := segments;
    segments := RemoveDots(segments);
    assert cleared[..|given| - 1] == given[..|given| - 1];
    segments := CancelParents(segments);
    if |segments| == 2 && segments[0] == [] && segments[1] == PARENT {
      segments := [segments[0], []];
    } else if |segments| > 2 && segments[|segments| - 1] == PARENT {
      ghost var before := segments;
      segments := segments[..|segments| - 1];
      segments := segments[|segments| - 1 := []];
      assert segments == before[..|before| - 2] + [[]];
    }
    r := Join(segments, [SLASH]);
  }

  /** The erase-remove of ".". */
  method RemoveDots(segments: seq<bytes>) returns (r: seq<bytes>)
    requires segments != [] && segments[|segments| - 1] != DOT
    ensures var n := |segments| - 1; r == WithoutDots(segments[..n]) + [segments[n]]
    ensures var n := |segments| - 1; r != [] && r[..|r| - 1] == WithoutDots(segments[..n]) && r[|r| - 1] == segments[n]
  {
    r := [];
    for i := 0 to |segments|
      invariant r == WithoutDots(segments[..i])
    {
      assert segments[..i + 1][..i] == segments[..i];
      if segments[i] != DOT {
        r := r + [segments[i]];
      } else {
        assert r + [] == r;
      }
    }
    var n := |segments| - 1;
    assert segments[..n + 1][..n] == segments[..n] && segments[..n + 1] == segments;
  }

  // ----- what the merged path looks like -----

  lemma {:induction false} LastResolvedParts(s: seq<bytes>)
    requires s != []
    ensures var r := LastResolved(s);
      && 1 <= |r| <= |s| && r[..|r| - 1] == s[..|r| - 1]
      && forall x :: x in r ==> x in s || x == []
  {
    var r := LastResolved(s);
    forall i | 0 <= i < |r| ensures r[i] in s || r[i] == [] {
      if i < |r| - 1 { assert r[i] == r[..|r| - 1][i] == s[i]; }
    }
  }

  /** No "." is left, and before the last segment no ".." follows a segment it could remove. A ".." is left in
      the last place if and only if it was there and at most one other segment is left, not a leading slash. */
  lemma {:induction false} MergedIsResolved(segments: seq<bytes>)
    requires segments != []
    ensures var r := Merged(segments); r != [] && DOT !in r && Reduced(r[..|r| - 1])
    ensures var r := Merged(segments); var n := |segments| - 1; var kept := Normal(WithoutDots(segments[..n]));
      r[|r| - 1] == PARENT <==> segments[n] == PARENT && |kept| <= 1 && kept != [[]]
  {
    hide Normal, WithoutDots, Redex, Reduced, LastResolved;
    var n := |segments| - 1;
    var prefix, last := Normal(WithoutDots(segments[..n])), LastCleared(segments[n]);
    NormalIsReduced(WithoutDots(segments[..n]));
    NormalMembers(WithoutDots(segments[..n]));
    var s := prefix + [last];
    assert DOT !in s;
    LastResolvedParts(s);
    LastParentLeft(prefix, last);
    var r := Merged(segments);
    assert r[..|r| - 1] == prefix[..|r| - 1];
    ReducedPrefix(prefix, |r| - 1);
  }

  lemma {:induction false} LastParentLeft(kept: seq<bytes>, last: bytes)
    ensures var r := LastResolved(kept + [last]);
      r != [] && (r[|r| - 1] == PARENT <==> last == PARENT && |kept| <= 1 && kept != [[]])
  {
    var s := kept + [last];
    assert kept == s[..|s| - 1];
    if kept == [[]] { assert s[0] == []; }
    if |kept| == 1 && s[0] == [] { assert kept == [[]]; }
  }

  lemma {:induction false} ReducedPrefix(s: seq<bytes>, k: nat)
    requires Reduced(s) && k <= |s|
    ensures Reduced(s[..k])
  {
    forall i: nat | i < k ensures !Redex(s[..k], i) { assert !Redex(s, i); }
  }

  /** The path splits into the merged segments again. */
  lemma {:induction false} MergedSplits(bpath: bytes, path: bytes)
    ensures var r := Merged(BaseSegments(bpath, path)); r != [] && Split(Join(r, [SLASH]), SLASH) == r
  {
    hide Normal, WithoutDots, Split, Join, LastResolved;
    var segments := BaseSegments(bpath, path);
    var n := |segments| - 1;
    var s := Normal(WithoutDots(segments[..n])) + [LastCleared(segments[n])];
    NormalMembers(WithoutDots(segments[..n]));
    assert forall x :: x in segments ==> SLASH !in x;
    assert segments[n] in segments && forall x :: x in segments[..n] ==> x in segments;
    assert forall x :: x in s ==> SLASH !in x;
    LastResolvedParts(s);
    SplitJoin(Merged(segments), SLASH);
  }
  // ----- what it is on the strings -----

  lemma {:induction false} PiecesOfBase(dir: bytes, last: bytes, path: bytes)
    requires SLASH !in last
    ensures BaseSegments(dir + [SLASH] + last, path) == Split(dir, SLASH) + Split(path, SLASH)
    ensures BaseSegments(last, path) == Split(path, SLASH)
  {
    hide Split;
    SplitConcat(dir, SLASH, last);
    SplitPlain(last, SLASH);
    var b := Split(dir, SLASH) + [last];
    assert b[..|b| - 1] == Split(dir, SLASH);
  }

  /** The last segment of the base, after its last slash if it has one, does not matter. */
  lemma {:induction false} LastOfBaseIgnored(dir: bytes, last: bytes, other: bytes, path: bytes)
    requires SLASH !in last && SLASH !in other
    ensures MergedPath(dir + [SLASH] + last, path) == MergedPath(dir + [SLASH] + other, path)
    ensures MergedPath(last, path) == MergedPath(other, path)
  {
    PiecesOfBase(dir, last, path);
    PiecesOfBase(dir, other, path);
  }

  lemma {:induction false} NoDots(s: seq<bytes>)
    requires DOT !in s
    ensures WithoutDots(s) == s
  {
    if s != [] {
      NoDots(s[..|s| - 1]);
      assert s == s[..|s| - 1] + [s[|s| - 1]];
    }
  }

  /** Without "." and ".." there is nothing to resolve. */
  lemma {:induction false} PlainMerged(s: seq<bytes>)
    requires s != [] && DOT !in s && PARENT !in s
    ensures Merged(s) == s
  {
    var n := |s| - 1;
    NoDots(s[..n]);
    assert Reduced(s[..n]);
    NormalOfReduced(s[..n]);
    assert s[n] in s && s == s[..n] + [s[n]];
  }

  /** A path without "." and ".." takes the place of what follows the last slash of the base. */
  lemma {:induction false} PlainPathReplacesLast(dir: bytes, last: bytes, path: bytes)
    requires SLASH !in last
    requires forall x :: x in [DOT, PARENT] ==> x !in Split(dir, SLASH) && x !in Split(path, SLASH)
    ensures MergedPath(dir + [SLASH] + last, path) == dir + [SLASH] + path
    ensures MergedPath(last, path) == path
  {
    hide Split, Join, Merged;
    PiecesOfBase(dir, last, path);
    assert DOT in [DOT, PARENT] && PARENT in [DOT, PARENT];
    PlainMerged(Split(dir, SLASH) + Split(path, SLASH));
    PlainMerged(Split(path, SLASH));
    JoinConcat(Split(dir, SLASH), Split(path, SLASH), [SLASH]);
    JoinSplit(dir, SLASH);
    JoinSplit(path, SLASH);
  }

  lemma {:induction false} WithoutDotsConcat(a: seq<bytes>, b: seq<bytes>)
    ensures WithoutDots(a + b) == WithoutDots(a) + WithoutDots(b)
  {
    if b == [] {
      assert a + b == a;
    } else {
      assert (a + b)[..|a + b| - 1] == a + b[..|b| - 1];
      WithoutDotsConcat(a, b[..|b| - 1]);
    }
  }

  lemma {:induction false} FrontOfConcat(a: seq<bytes>, b: seq<bytes>)
    requires b != []
    ensures (a + b)[..|a + b| - 1] == a + b[..|b| - 1] && (a + b)[|a + b| - 1] == b[|b| - 1]
  {
  }

  /** A "." anywhere before the last segment does nothing. */
  lemma {:induction false} DotSegmentDropped(bpath: bytes, rest: bytes)
    ensures MergedPath(bpath, DOT + [SLASH] + rest) == MergedPath(bpath, rest)
  {
    hide Split, Join, Normal, LastResolved, WithoutDots;
    var b, r := Split(bpath, SLASH), Split(rest, SLASH);
    var a := b[..|b| - 1];
    SplitConcat(DOT, SLASH, rest);
    SplitPlain(DOT, SLASH);
    FrontOfConcat(a, r);
    FrontOfConcat(a, [DOT] + r);
    FrontOfConcat([DOT], r);
    WithoutDotsConcat(a, r[..|r| - 1]);
    WithoutDotsConcat(a, [DOT] + r[..|r| - 1]);
    WithoutDotsConcat([DOT], r[..|r| - 1]);
    OneDot();
  }

  lemma {:induction false} OneDot()
    ensures WithoutDots([DOT]) == [] && forall s: seq<bytes> :: [] + s == s
  {
  }

  lemma {:induction false} OneAndParent(x: bytes)
    requires x != DOT
    ensures WithoutDots([x, PARENT]) == [x, PARENT]
  {
    assert [x, PARENT][..1] == [x];
    NoDots([x, PARENT]);
  }

  /** A ".." removes the segment before it. */
  lemma {:induction false} ParentRemovesSegment(dir: bytes, x: bytes, last: bytes, rest: bytes)
    requires SLASH !in x && SLASH !in last && x != [] && x != DOT && x != PARENT
    ensures MergedPath(dir + [SLASH] + x + [SLASH] + last, PARENT + [SLASH] + rest)
      == MergedPath(dir + [SLASH] + last, rest)
  {
    hide Split, Join, Normal, LastResolved, WithoutDots;
    var a, r := Split(dir, SLASH), Split(rest, SLASH);
    var front := r[..|r| - 1];
    SplitConcat(dir, SLASH, x);
    SplitConcat(PARENT, SLASH, rest);
    SplitPlain(x, SLASH);
    SplitPlain(PARENT, SLASH);
    PiecesOfBase(dir + [SLASH] + x, last, PARENT + [SLASH] + rest);
    PiecesOfBase(dir, last, rest);
    assert a + [x] + ([PARENT] + r) == a + [x, PARENT] + r;
    FrontOfConcat(a, r);
    FrontOfConcat(a + [x, PARENT], r);
    WithoutDotsConcat(a, front);
    WithoutDotsConcat(a + [x, PARENT], front);
    WithoutDotsConcat(a, [x, PARENT]);
    OneAndParent(x);
    NormalCancel(WithoutDots(a), x, WithoutDots(front));
  }

  /** The path "." is the directory of the base, with a slash at the end. */
  lemma {:induction false} DotIsDirectory(dir: bytes, last: bytes)
    requires SLASH !in last && DOT !in Split(dir, SLASH) && PARENT !in Split(dir, SLASH)
    ensures MergedPath(dir + [SLASH] + last, DOT) == dir + [SLASH]
  {
    hide Split, Join, Normal, WithoutDots;
    var a := Split(dir, SLASH);
    PiecesOfBase(dir, last, DOT);
    SplitPlain(DOT, SLASH);
    PlainFront(a, DOT);
    EndsWithSlash(dir);
  }

  /** The path ".." is the directory above it, with a slash at the end. */
  lemma {:induction false} ParentIsAbove(dir: bytes, x: bytes, last: bytes)
    requires SLASH !in x && SLASH !in last && x != DOT && x != PARENT
    requires DOT !in Split(dir, SLASH) && PARENT !in Split(dir, SLASH)
    ensures MergedPath(dir + [SLASH] + x + [SLASH] + last, PARENT) == dir + [SLASH]
  {
    hide Split, Join, Normal, WithoutDots;
    var a := Split(dir, SLASH);
    PiecesOfBase(dir + [SLASH] + x, last, PARENT);
    SplitConcat(dir, SLASH, x);
    SplitPlain(x, SLASH);
    SplitPlain(PARENT, SLASH);
    PlainFront(a + [x], PARENT);
    assert (a + [x] + [PARENT])[..|a|] == a;
    EndsWithSlash(dir);
  }

  lemma {:induction false} EndsWithSlash(dir: bytes)
    ensures Join(Split(dir, SLASH) + [[]], [SLASH]) == dir + [SLASH]
  {
    hide Split;
    JoinConcat(Split(dir, SLASH), [[]], [SLASH]);
    JoinSplit(dir, SLASH);
    assert dir + [SLASH] + [] == dir + [SLASH];
  }

  /** At the root ".." stays at the root. */
  lemma {:induction false} ParentOfRoot(last: bytes)
    requires SLASH !in last
    ensures MergedPath([SLASH] + last, PARENT) == [SLASH]
  {
    hide Split, Join, Normal, WithoutDots;
    PiecesOfBase([], last, PARENT);
    assert [] + [SLASH] + last == [SLASH] + last;
    SplitPlain(PARENT, SLASH);
    SplitPlain([], SLASH);
    PlainFront([[]], PARENT);
    EndsWithSlash([]);
    var s: seq<bytes> := [[]];
    assert s + [PARENT] == [[], PARENT] && s + [[]] == [[], []];
  }

  lemma {:induction false} PlainFront(a: seq<bytes>, last: bytes)
    requires DOT !in a && PARENT !in a
    ensures Merged(a + [last]) == LastResolved(a + [LastCleared(last)])
  {
    assert (a + [last])[..|a|] == a;
    NoDots(a);
    assert Reduced(a);
    NormalOfReduced(a);
  }
}

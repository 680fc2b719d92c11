/**
  DeferredList of src/net4cxx/core/network/defer.{h,cpp}: a Deferred that fires on the completions of others.
*/
module DeferLists {
  import opened Basics

  /** An entry of the result list. Consumed errors are replaced by null. */
  datatype Result<T> = Null | Success(v: T) | Error(v: T)

  /** How the list was fired: callback or errback with one result, or callback with the list. */
  datatype Firing<T> = One(r: Result<T>) | All(rs: seq<Result<T>>)

  datatype Options = Options(fireOnOneCallback: bool, fireOnOneErrback: bool, consumeErrors: bool)

  /** A Deferred of the list, by its index, has completed. */
  datatype Completion<T> = Completion(index: nat, result: Result<T>)

  predicate Fits<T(==)>(n: nat, c: Completion<T>) { c.index < n && (c.result.Success? || c.result.Error?) }

  /** One that fires the list by itself. */
  predicate Decisive<T>(o: Options, c: Completion<T>) {
    (c.result.Success? && o.fireOnOneCallback) || (c.result.Error? && o.fireOnOneErrback)
  }

  function Kept<T>(o: Options, r: Result<T>): Result<T> { if r.Error? && o.consumeErrors then Null else r }

  predicate AllFit<T(==)>(n: nat, log: seq<Completion<T>>) { forall i :: 0 <= i < |log| ==> Fits(n, log[i]) }

  /** The list resized to n entries. */
  function Blank<T>(n: nat): (r: seq<Result<T>>)
    ensures |r| == n && forall i :: 0 <= i < n ==> r[i] == Null
  {
    seq(n, _ => Null)
  }

  /** The result list after some completions. */
  function Results<T(==)>(o: Options, n: nat, log: seq<Completion<T>>): (r: seq<Result<T>>)
    requires AllFit(n, log)
    ensures |r| == n
  {
    if log == [] then Blank(n)
    else
      var c := log[|log| - 1];
      assert Fits(n, c);
      Results(o, n, log[..|log| - 1])[c.index := Kept(o, c.result)]
  }

  /** What fires the list: the first decisive completion, or the n-th one, which delivers the results with its
      own as it came. */
  function Outcome<T(==)>(o: Options, n: nat, log: seq<Completion<T>>): Option<Firing<T>>
    requires AllFit(n, log)
  {
    if log == [] then (if n == 0 && !o.fireOnOneCallback then Some(All([])) else None)
    else
      var front, c := log[..|log| - 1], log[|log| - 1];
      assert Fits(n, c);
      var before := Outcome(o, n, front);
      if before.Some? then before
      else if Decisive(o, c) then Some(One(c.result))
      else if |log| == n then Some(All(Results(o, n, front)[c.index := c.result]))
      else None
  }

  class DeferredList<T(==)> {
    const options: Options
    var resultList: seq<Result<T>>
    var finishedCount: nat
    var fired: Option<Firing<T>>
    ghost var log: seq<Completion<T>>

    ghost predicate Valid()
      reads this
    {
      var n := |resultList|;
      && AllFit(n, log) && finishedCount == |log|
      && resultList == Results(options, n, log) && fired == Outcome(options, n, log)
    }

    /** The list, and wait for n Deferreds. An empty list fires at once, but not if it is to fire on one
        callback: then it never fires. */
    constructor Wait(options: Options, n: nat)
      ensures Valid() && this.options == options && |resultList| == n && log == []
      ensures fired == if n == 0 && !options.fireOnOneCallback then Some(All([])) else None
    {
      this.options := options;
      resultList := Blank(n);
      fired := if n == 0 && !options.fireOnOneCallback then Some(All([])) else None;
      finishedCount, log := 0, [];
    }

    /** The callback of one of the Deferreds. What it returns goes on in that Deferred: the entry of the list is
        wrapped in a value, so that no errback runs after a failure, whether or not it was consumed. */
    method CbDeferred(c: Completion<T>) returns (passed: Result<Result<T>>)
      requires Valid() && Fits(|resultList|, c)
      modifies this
      ensures Valid() && log == old(log) + [c] && |resultList| == |old(resultList)|
      ensures passed == Success(if c.result.Error? && options.consumeErrors then Null else c.result)
      ensures old(fired).Some? ==> fired == old(fired)
    {
      log := log + [c];
      assert log[..|log| - 1] == old(log);
      resultList := resultList[c.index := c.result];
      finishedCount := finishedCount + 1;
      if fired.None? {
        if c.result.Success? && options.fireOnOneCallback {
          fired := Some(One(resultList[c.index]));
        } else if c.result.Error? && options.fireOnOneErrback {
          fired := Some(One(resultList[c.index]));
        } else if finishedCount == |resultList| {
          fired := Some(All(resultList));
        }
      }
      if c.result.Error? && options.consumeErrors {
        resultList := resultList[c.index := Null];
      }
      passed := Success(resultList[c.index]);
    }
  }

  // ----- when it fires, and with what -----

  predicate NoneDecisive<T(==)>(o: Options, log: seq<Completion<T>>) {
    forall i :: 0 <= i < |log| ==> !Decisive(o, log[i])
  }

  /** While nothing is decisive the list fires with the n-th completion and not before. */
  lemma {:induction false} FiresWithTheLast<T>(o: Options, n: nat, log: seq<Completion<T>>)
    requires AllFit(n, log) && NoneDecisive(o, log) && 0 < |log| <= n
    ensures Outcome(o, n, log).Some? <==> |log| == n
    ensures |log| == n ==>
      Outcome(o, n, log) == Some(All(Results(o, n, log[..n - 1])[log[n - 1].index := log[n - 1].result]))
  {
    hide Results;
    var front := log[..|log| - 1];
    if front != [] { FiresWithTheLast(o, n, front); }
  }

  /** The first decisive completion, if it comes before the list is complete, is what the list fires with,
      whatever comes later. */
  lemma {:induction false} FirstDecisiveWins<T>(o: Options, n: nat, log: seq<Completion<T>>, k: nat)
    requires AllFit(n, log) && k < |log| && k < n && Decisive(o, log[k]) && NoneDecisive(o, log[..k])
    ensures Outcome(o, n, log) == Some(One(log[k].result))
  {
    hide Results;
    var front := log[..|log| - 1];
    if k < |front| {
      assert front[..k] == log[..k];
      FirstDecisiveWins(o, n, front, k);
    } else {
      assert front == log[..k];
      if front != [] { FiresWithTheLast(o, n, front); }
    }
  }

  /** No success, if one success fires the list, and no error, if one error does. */
  predicate Quiet<T>(o: Options, log: seq<Completion<T>>) {
    forall i :: 0 <= i < |log| ==>
      (log[i].result.Success? ==> !o.fireOnOneCallback) && (log[i].result.Error? ==> !o.fireOnOneErrback)
  }

  /** The first success fires a list that is to fire on one callback, and the first error one that is to fire on one
      errback; otherwise the list fires when all have completed. */
  lemma {:induction false} FlagsDecide<T>(o: Options, n: nat, log: seq<Completion<T>>, k: nat)
    requires AllFit(n, log) && k < |log| && k < n && Quiet(o, log[..k])
    ensures o.fireOnOneCallback && log[k].result.Success? ==> Outcome(o, n, log) == Some(One(log[k].result))
    ensures o.fireOnOneErrback && log[k].result.Error? ==> Outcome(o, n, log) == Some(One(log[k].result))
    ensures Quiet(o, log[..k + 1]) ==>
      && (k + 1 < n ==> Outcome(o, n, log[..k + 1]) == None)
      && (k + 1 == n ==>
           Outcome(o, n, log[..n]) == Some(All(Results(o, n, log[..k])[log[k].index := log[k].result])))
  {
    hide Results, Outcome;
    assert Fits(n, log[k]);
    assert AllFit(n, log[..k + 1]) && AllFit(n, log[..k]);
    if Quiet(o, log[..k + 1]) {
      assert log[..k + 1][..k] == log[..k];
      FiresWithTheLast(o, n, log[..k + 1]);
    }
    if Decisive(o, log[k]) { FirstDecisiveWins(o, n, log, k); }
  }

  predicate Once<T>(log: seq<Completion<T>>) {
    forall i, j :: 0 <= i < j < |log| ==> log[i].index != log[j].index
  }

  /** Each completion leaves its result, or null for a consumed error, in its place. */
  lemma {:induction false} ResultInPlace<T>(o: Options, n: nat, log: seq<Completion<T>>, i: nat)
    requires AllFit(n, log) && Once(log) && i < |log|
    ensures Fits(n, log[i]) && Results(o, n, log)[log[i].index] == Kept(o, log[i].result)
  {
    if i < |log| - 1 { ResultInPlace(o, n, log[..|log| - 1], i); }
  }

  /** A list without decisive completions delivers the result of each Deferred in its place: as it was, except
      that consumed errors are null, and that the last completion's error is delivered even so. */
  lemma {:induction false} DeliversEachResult<T>(o: Options, n: nat, log: seq<Completion<T>>, i: nat)
    requires AllFit(n, log) && NoneDecisive(o, log) && Once(log) && i < |log| == n
    ensures Outcome(o, n, log).Some? && Outcome(o, n, log).value.All? && |Outcome(o, n, log).value.rs| == n
    ensures Fits(n, log[i]) && Outcome(o, n, log).value.rs[log[i].index] ==
      if i < n - 1 && log[i].result.Error? && o.consumeErrors then Null else log[i].result
  {
    hide Results, Outcome;
    FiresWithTheLast(o, n, log);
    assert Fits(n, log[i]) && Fits(n, log[n - 1]);
    if i < n - 1 { ResultInPlace(o, n, log[..n - 1], i); }
  }

  function Indexes<T>(log: seq<Completion<T>>): set<nat> { set i | 0 <= i < |log| :: log[i].index }

  lemma {:induction false} IndexCount<T>(log: seq<Completion<T>>)
    requires Once(log)
    ensures |Indexes(log)| == |log|
  {
    if log != [] {
      var front, last := log[..|log| - 1], log[|log| - 1];
      IndexCount(front);
      assert Indexes(log) == Indexes(front) + {last.index} by {
        assert forall i :: 0 <= i < |front| ==> log[i] == front[i];
      }
      assert last.index !in Indexes(front);
    }
  }

  function Below(n: nat): (r: set<nat>)
    ensures |r| == n && forall k: nat :: k in r <==> k < n
  {
    if n == 0 then {} else Below(n - 1) + {n - 1}
  }

  lemma {:induction false} FullSubset(a: set<nat>, b: set<nat>)
    requires a <= b && |a| == |b|
    ensures a == b
  {
    assert b == a + (b - a) && |b| == |a| + |b - a|;
    assert b - a == {};
  }

  /** With n completions of different Deferreds, every Deferred has completed. */
  lemma {:induction false} EachCompletes<T>(n: nat, log: seq<Completion<T>>, k: nat)
    requires AllFit(n, log) && Once(log) && |log| == n && k < n
    ensures exists i :: 0 <= i < n && log[i].index == k
  {
    IndexCount(log);
    forall i | 0 <= i < |log| ensures log[i].index in Below(n) { assert Fits(n, log[i]); }
    FullSubset(Indexes(log), Below(n));
    assert k in Indexes(log);
  }

  /** The same completions in another order. */
  ghost predicate Reorders<T>(a: seq<Completion<T>>, b: seq<Completion<T>>) {
    |a| == |b| && Once(a) && Once(b) && multiset(a) == multiset(b)
  }

  lemma {:induction false} ReorderedFits<T>(o: Options, n: nat, a: seq<Completion<T>>, b: seq<Completion<T>>)
    requires Reorders(a, b) && AllFit(n, a) && NoneDecisive(o, a)
    ensures AllFit(n, b) && NoneDecisive(o, b)
  {
    forall j | 0 <= j < |b| ensures Fits(n, b[j]) && !Decisive(o, b[j]) {
      assert b[j] in multiset(b) && b[j] in multiset(a);
      var i :| 0 <= i < |a| && a[i] == b[j];
    }
  }

  lemma {:induction false} SameInAnyOrder<T>(o: Options, n: nat, a: seq<Completion<T>>, b: seq<Completion<T>>)
    requires AllFit(n, a) && NoneDecisive(o, a) && |a| == n > 0 && Reorders(a, b)
    requires !o.consumeErrors || forall c :: c in a ==> c.result.Success?
    ensures AllFit(n, b) && Outcome(o, n, b) == Outcome(o, n, a)
  {
    hide Results, Outcome, Once, AllFit, NoneDecisive;
    ReorderedFits(o, n, a, b);
    FiresWithTheLast(o, n, a);
    FiresWithTheLast(o, n, b);
    DeliversEachResult(o, n, a, 0);
    DeliversEachResult(o, n, b, 0);
    var x, y := Outcome(o, n, a).value.rs, Outcome(o, n, b).value.rs;
    forall k | 0 <= k < n ensures x[k] == y[k] {
      EachCompletes(n, a, k);
      var i :| 0 <= i < n && a[i].index == k;
      assert a[i] in multiset(a) && a[i] in multiset(b);
      var j :| 0 <= j < n && b[j] == a[i];
      DeliversEachResult(o, n, a, i);
      DeliversEachResult(o, n, b, j);
    }
    assert x == y;
  }

  function Swapped<T>(a: seq<T>, i: nat, j: nat): seq<T>
    requires i < j < |a|
  {
    a[i := a[j]][j := a[i]]
  }

  lemma {:induction false} SwappedReorders<T>(a: seq<Completion<T>>, i: nat, j: nat)
    requires i < j < |a| && Once(a)
    ensures Reorders(a, Swapped(a, i, j))
  {
  }

  /** A consumed error shows where it is: it is delivered exactly if it is the last completion. */
  lemma {:induction false} ErrorShows<T>(o: Options, n: nat, a: seq<Completion<T>>, i: nat)
    requires AllFit(n, a) && NoneDecisive(o, a) && Once(a) && i < n == |a| && n >= 2
    requires o.consumeErrors && a[i].result.Error?
    ensures exists b :: Reorders(a, b) && AllFit(n, b) && Outcome(o, n, b) != Outcome(o, n, a)
  {
    hide Results, Outcome, Once, AllFit, NoneDecisive;
    var k := if i == n - 1 then 0 else i;
    var b := Swapped(a, k, n - 1);
    SwappedReorders(a, k, n - 1);
    ReorderedFits(o, n, a, b);
    DeliversEachResult(o, n, a, i);
    DeliversEachResult(o, n, b, if i == n - 1 then 0 else n - 1);
  }

  lemma {:induction false} EachFits<T>(n: nat, a: seq<Completion<T>>, i: nat)
    requires AllFit(n, a) && i < |a|
    ensures Fits(n, a[i])
  {
  }

  /** The order of the completions never shows in what is delivered if and only if errors are not consumed or
      there are none. */
  lemma {:induction false} OrderIrrelevant<T(!new)>(o: Options, n: nat, a: seq<Completion<T>>)
    requires AllFit(n, a) && NoneDecisive(o, a) && Once(a) && |a| == n && n >= 2
    ensures (forall b :: Reorders(a, b) && AllFit(n, b) ==> Outcome(o, n, b) == Outcome(o, n, a))
      <==> !o.consumeErrors || forall c :: c in a ==> c.result.Success?
  {
    hide Results, Outcome, Once, AllFit, NoneDecisive, Reorders;
    if !o.consumeErrors || forall c :: c in a ==> c.result.Success? {
      forall b | Reorders(a, b) && AllFit(n, b) ensures Outcome(o, n, b) == Outcome(o, n, a) {
        SameInAnyOrder(o, n, a, b);
      }
    } else {
      var i :| 0 <= i < |a| && !a[i].result.Success?;
      assert a[i].result.Error? by { EachFits(n, a, i); }
      ErrorShows(o, n, a, i);
    }
  }
}

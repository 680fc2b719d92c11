/**
  Laws of the Deferred network of Deferred.dfy: what every run keeps, when a run leaves the network
  quiescent, how results are handed over, and why it does not matter when a Deferred is fired.
*/
module DeferLaws {
  import opened Basics
  import opened Defer

  /** Every run keeps the invariant: pause counts, links, and pairs run at most once in the order
      they were added. */
  lemma {:induction false} RunKeepsInv(s: Net, chain: seq<Deferred>)
    requires Inv(s) && ChainOk(s, chain)
    ensures Inv(Run(s, chain).0) && Extends(Run(s, chain).0, s)
    ensures forall d :: d in s ==> Run(s, chain).0[d].ran <= Run(s, chain).0[d].added
    decreases Work(s), |chain|
  {
    hide Inv, StepPair, NextChain, Extends;
    if chain == [] {
      ExtendsItself(s);
    } else {
      var c := chain[|chain| - 1];
      FrontAndLast(chain);
      ReadyTop(s, chain[..|chain| - 1], c);
      if s[c].paused > 0 {
        ExtendsItself(s);
      } else if s[c].callbacks == [] {
        RunKeepsInv(s, chain[..|chain| - 1]);
      } else {
        NextChainOk(s, chain);
        StepPairExtends(s, c);
        RunKeepsInv(StepPair(s, c), NextChain(s, chain));
        ExtendsOn(Run(s, chain).0, StepPair(s, c), s);
      }
    }
    ExtendsKeys(Run(s, chain).0, s);
    forall d | d in s ensures Run(s, chain).0[d].ran <= Run(s, chain).0[d].added { RanIsPrefix(Run(s, chain).0, d); }
  }

  lemma {:induction false} ExtendsItself(s: Net)
    ensures Extends(s, s)
  {
  }

  lemma {:induction false} ExtendsOn(r: Net, m: Net, s: Net)
    requires Extends(r, m) && Extends(m, s)
    ensures Extends(r, s)
  {
    forall d | d in s ensures NodeExtends(r[d], s[d]) { assert NodeExtends(m[d], s[d]) && NodeExtends(r[d], m[d]); }
  }

  lemma {:induction false} ExtendsKeys(r: Net, s: Net)
    requires Extends(r, s)
    ensures r.Keys == s.Keys
  {
  }

  lemma {:induction false} RanIsPrefix(s: Net, d: Deferred)
    requires Inv(s) && d in s
    ensures s[d].ran <= s[d].added
  {
    assert NodeOk(s, d);
  }

  /** A fired, unpaused Deferred with a result and work left to do. */
  ghost predicate Busy(s: Net, d: Deferred) {
    d in s && s[d].called && s[d].paused == 0 && s[d].callbacks != [] && !s[d].result.IsEmpty()
  }

  lemma {:induction false} StepPairBusy(s: Net, chain: seq<Deferred>, d: Deferred)
    requires Inv(s) && chain != [] && ChainOk(s, chain) && Runnable(s, chain[|chain| - 1])
    requires Busy(StepPair(s, chain[|chain| - 1]), d)
    ensures Busy(s, d) || d in NextChain(s, chain)
    ensures d in chain ==> d in NextChain(s, chain)
  {
    var c := chain[|chain| - 1];
    if s[c].callbacks[0].Continuation? {
      ContinuationHead(s, c, s[c].callbacks[0].chainee);
    }
    if d in chain && d != c {
      var i :| 0 <= i < |chain| && chain[i] == d;
      assert NextChain(s, chain)[i] == d;
    }
  }

  /** Whatever was not busy before, or was in the chain, is not busy after the run unless it is in the
      chain the run left behind. */
  lemma {:induction false} RunLeavesNoneBusy(s: Net, chain: seq<Deferred>, d: Deferred)
    requires Inv(s) && ChainOk(s, chain)
    requires Busy(s, d) ==> d in chain
    ensures Busy(Run(s, chain).0, d) ==> d in Run(s, chain).1
    decreases Work(s), |chain|
  {
    if chain != [] {
      var c := chain[|chain| - 1];
      if s[c].paused == 0 {
        if s[c].callbacks == [] {
          RunLeavesNoneBusy(s, chain[..|chain| - 1], d);
        } else {
          NextChainOk(s, chain);
          if Busy(StepPair(s, c), d) {
            StepPairBusy(s, chain, d);
          }
          RunLeavesNoneBusy(StepPair(s, c), NextChain(s, chain), d);
        }
      }
    }
  }

  // ----- quiescence -----

  ghost predicate NoUserPauses(s: Net) {
    forall d :: d in s ==> s[d].userPauses == 0
  }

  ghost predicate Unblocked(s: Net, chain: seq<Deferred>) {
    && (forall i :: 0 <= i < |chain| ==> chain[i] in s && !Waiting(s[chain[i]]))
    && (forall i, j :: 0 <= i < j < |chain| ==> chain[i] != chain[j])
  }

  lemma {:induction false} NextChainUnblocked(s: Net, chain: seq<Deferred>)
    requires Inv(s) && chain != [] && ChainOk(s, chain) && Runnable(s, chain[|chain| - 1])
    requires Unblocked(s, chain)
    ensures Unblocked(StepPair(s, chain[|chain| - 1]), NextChain(s, chain))
  {
    hide NodeOk, LinksOk;
    var c := chain[|chain| - 1];
    match s[c].callbacks[0]
    case Continuation(e) =>
      ContinuationHead(s, c, e);
      assert forall i :: 0 <= i < |chain| ==> chain[i] != e;
    case User(_, _) =>
      HasResult(s, c);
  }

  /** Without user pauses a run never returns early: the whole chain is worked off. */
  lemma {:induction false} RunDrainsChain(s: Net, chain: seq<Deferred>)
    requires Inv(s) && ChainOk(s, chain) && NoUserPauses(s) && Unblocked(s, chain)
    ensures Run(s, chain).1 == []
    decreases Work(s), |chain|
  {
    if chain != [] {
      var c := chain[|chain| - 1];
      assert NodeOk(s, c);
      if s[c].callbacks == [] {
        RunDrainsChain(s, chain[..|chain| - 1]);
      } else {
        NextChainOk(s, chain);
        NextChainUnblocked(s, chain);
        StepPairExtends(s, c);
        RunDrainsChain(StepPair(s, c), NextChain(s, chain));
      }
    }
  }

  ghost predicate ProperPair(pair: Pair) {
    pair.User? ==> forall p :: pair.callback(p) != Now(Empty) && pair.errback(p) != Now(Empty)
  }

  /** No callback returns the empty tag, and every fired Deferred holds a result. */
  ghost predicate Proper(s: Net) {
    forall d :: d in s ==>
      && (s[d].called ==> !s[d].result.IsEmpty())
      && (forall i :: 0 <= i < |s[d].callbacks| ==> ProperPair(s[d].callbacks[i]))
  }

  lemma {:induction false} StepPairProper(s: Net, c: Deferred)
    requires Inv(s) && Runnable(s, c) && Proper(s)
    ensures Proper(StepPair(s, c))
  {
    assert ProperPair(s[c].callbacks[0]);
    match s[c].callbacks[0]
    case Continuation(e) => ContinuationHead(s, c, e);
    case User(_, _) =>
      var v := Returned(s[c]);
      assert v != Now(Empty);
      if v.IsDeferred() && Pending(s[v.d]) {
        assert forall i :: 0 <= i < |s[v.d].callbacks| ==> ProperPair(s[v.d].callbacks[i]);
      }
  }

  lemma {:induction false} RunKeepsProper(s: Net, chain: seq<Deferred>)
    requires Inv(s) && ChainOk(s, chain) && Proper(s)
    ensures Proper(Run(s, chain).0)
    decreases Work(s), |chain|
  {
    if chain != [] {
      var c := chain[|chain| - 1];
      if s[c].paused == 0 {
        if s[c].callbacks == [] {
          RunKeepsProper(s, chain[..|chain| - 1]);
        } else {
          NextChainOk(s, chain);
          StepPairProper(s, c);
          RunKeepsProper(StepPair(s, c), NextChain(s, chain));
        }
      }
    }
  }

  /** Every fired Deferred has an empty queue, or waits on one that is unfired or itself waiting. */
  ghost predicate Quiescent(s: Net) {
    forall d :: d in s && s[d].called && s[d].callbacks != [] ==>
      && s[d].result.WeakPtr?
      && s[d].result.d in s
      && (!s[s[d].result.d].called || Waiting(s[s[d].result.d]))
  }

  /** A network is quiescent if and only if every fired Deferred with work left is waiting. */
  lemma {:induction false} QuiescentExactly(s: Net)
    requires Inv(s)
    ensures Quiescent(s) <==> forall d :: d in s && s[d].called && s[d].callbacks != [] ==> Waiting(s[d])
  {
    if forall d :: d in s && s[d].called && s[d].callbacks != [] ==> Waiting(s[d]) {
      forall d | d in s && s[d].called && s[d].callbacks != []
        ensures s[d].result.WeakPtr? && s[d].result.d in s && (!s[s[d].result.d].called || Waiting(s[s[d].result.d]))
      {
        assert NodeOk(s, d);
        assert Conts(s[s[d].result.d].callbacks, d) == 1;
      }
    }
  }

  /** No user pause, and no Deferred with work it could do. */
  ghost predicate Tidy(s: Net) { Inv(s) && NoUserPauses(s) && forall d :: d in s ==> !Busy(s, d) }

  /** A fired Deferred with work left holds the empty tag. */
  ghost predicate EmptyTagLeft(s: Net) {
    exists d :: d in s && s[d].called && s[d].callbacks != [] && s[d].result.IsEmpty()
  }

  lemma {:induction false} TidyIsQuiescent(s: Net)
    requires Tidy(s)
    ensures Quiescent(s) <==> !EmptyTagLeft(s)
  {
    hide Quiescent;
    QuiescentExactly(s);
    forall d | d in s && s[d].called && s[d].callbacks != [] ensures Waiting(s[d]) <==> !s[d].result.IsEmpty() {
      assert NodeOk(s, d) && !Busy(s, d);
    }
  }

  /** Without user pauses runCallbacks on a network in which only c has work left ends in a tidy network,
      whatever the callbacks return. */
  lemma {:induction false} RunIsTidy(s: Net, c: Deferred)
    requires Inv(s) && c in s && s[c].called && NoUserPauses(s)
    requires forall d :: d in s && Busy(s, d) ==> d == c
    ensures Tidy(Run(s, [c]).0) && Run(s, [c]).0.Keys == s.Keys
  {
    var r := Run(s, [c]).0;
    RunKeepsInv(s, [c]);
    assert NodeOk(s, c);
    if Waiting(s[c]) {
      assert r == s;
    } else {
      RunDrainsChain(s, [c]);
      forall d | d in r ensures !Busy(r, d) {
        RunLeavesNoneBusy(s, [c], d);
      }
    }
  }

  // ----- every reachable network -----

  lemma {:induction false} NewDeferredInv(s: Net, d: Deferred)
    requires Inv(s) && d !in s
    ensures Inv(s[d := FreshNode()])
  {
    var r := s[d := FreshNode()];
    forall e | e in r ensures NodeOk(r, e) {
      if e != d {
        assert NodeOk(s, e);
        assert s.Keys <= r.Keys;
      }
    }
    forall u, e | u in r && e in r ensures Conts(r[u].callbacks, e) == if r[e].result == WeakPtr(u) then 1 else 0 {
      if u != d {
        if e == d { NotQueued(s, s[u].callbacks, u, d); }
      }
    }
  }

  /** Nobody waits for a Deferred outside the network, and it is not queued. */
  lemma {:induction false} NotQueued(s: Net, q: seq<Pair>, u: Deferred, d: Deferred)
    requires d !in s && forall i :: 0 <= i < |q| ==> ClosedPair(q[i], s.Keys, u)
    ensures Conts(q, d) == 0
  {
    if q != [] {
      assert ClosedPair(q[0], s.Keys, u);
      NotQueued(s, q[1..], u, d);
    }
  }

  lemma {:induction false} ResumeKeepsInv(s: Net, d: Deferred)
    requires Inv(s) && d in s
    ensures Inv(Resume(s, d)) && Resume(s, d).Keys == s.Keys
  {
    if s[d].called {
      RunKeepsInv(s, [d]);
    }
  }

  /** Every operation keeps the invariant, so it holds in every reachable network. */
  lemma {:induction false} ApplyKeepsInv(s: Net, d: Deferred, op: Op)
    requires Inv(s) && MayApply(s, d, op)
    ensures Inv(Apply(s, d, op)) && Apply(s, d, op).Keys == s.Keys
  {
    match op
    case Add(pair) =>
      AppendedInv(s, d, pair);
      ResumeKeepsInv(Appended(s, d, pair), d);
    case Fire(p) =>
      if !s[d].called {
        FiredInv(s, d, p);
        RunKeepsInv(Fired(s, d, p), [d]);
      } else {
        SuppressInv(s, d, false);
      }
    case Pause => PausedInv(s, d);
    case Unpause =>
      UnpausedInv(s, d);
      ResumeKeepsInv(UnpausedBy(s, d), d);
  }

  /** One thing users of a network do: make a Deferred, or use one. */
  datatype Step = Create(d: Deferred) | Do(on: Deferred, op: Op)

  ghost predicate MayStep(s: Net, step: Step) {
    match step
    case Create(d) => d !in s
    case Do(d, op) => MayApply(s, d, op)
  }

  ghost function Next(s: Net, step: Step): Net
    requires Inv(s) && MayStep(s, step)
  {
    match step
    case Create(d) => s[d := FreshNode()]
    case Do(d, op) => Apply(s, d, op)
  }

  lemma {:induction false} NextKeepsInv(s: Net, step: Step)
    requires Inv(s) && MayStep(s, step)
    ensures Inv(Next(s, step))
  {
    match step
    case Create(d) => NewDeferredInv(s, d);
    case Do(d, op) => ApplyKeepsInv(s, d, op);
  }

  ghost predicate MayRun(s: Net, steps: seq<Step>)
    requires Inv(s)
    decreases |steps|
  {
    steps == [] ||
    (MayStep(s, steps[0]) && (NextKeepsInv(s, steps[0]); MayRun(Next(s, steps[0]), steps[1..])))
  }

  ghost function After(s: Net, steps: seq<Step>): Net
    requires Inv(s) && MayRun(s, steps)
    decreases |steps|
  {
    if steps == [] then s else NextKeepsInv(s, steps[0]); After(Next(s, steps[0]), steps[1..])
  }

  /** In every reachable network a Deferred's pause count is its users' pauses plus one if its single
      continuation is queued on the Deferred it waits for, and it has run a prefix of its pairs, each
      once. */
  lemma {:induction false} ReachableInv(s: Net, steps: seq<Step>, d: Deferred)
    requires Inv(s) && MayRun(s, steps) && d in After(s, steps)
    ensures var r := After(s, steps);
      && Inv(r)
      && r[d].paused == r[d].userPauses + (if Waiting(r[d]) then 1 else 0)
      && (Waiting(r[d]) ==> r[d].result.d in r && Conts(r[r[d].result.d].callbacks, d) == 1)
      && r[d].added == r[d].ran + r[d].callbacks
    decreases |steps|
  {
    if steps == [] {
      assert NodeOk(s, d);
    } else {
      NextKeepsInv(s, steps[0]);
      ReachableInv(Next(s, steps[0]), steps[1..], d);
    }
  }

  predicate PausesNobody(step: Step) { step.Do? ==> !step.op.Pause? && !step.op.Unpause? }

  lemma {:induction false} NextKeepsTidy(s: Net, step: Step)
    requires Tidy(s) && MayStep(s, step) && PausesNobody(step)
    ensures Tidy(Next(s, step))
  {
    match step
    case Create(d) => CreateKeepsTidy(s, d);
    case Do(d, Add(pair)) => AddKeepsTidy(s, d, pair);
    case Do(d, Fire(p)) => FireKeepsTidy(s, d, p);
  }

  lemma {:induction false} CreateKeepsTidy(s: Net, d: Deferred)
    requires Tidy(s) && d !in s
    ensures Tidy(s[d := FreshNode()])
  {
    hide Inv;
    NewDeferredInv(s, d);
  }

  lemma {:induction false} AddKeepsTidy(s: Net, d: Deferred, pair: Pair)
    requires Tidy(s) && MayApply(s, d, Add(pair))
    ensures Tidy(Apply(s, d, Add(pair)))
  {
    hide Inv, Run;
    AppendedInv(s, d, pair);
    if s[d].called { RunIsTidy(Appended(s, d, pair), d); }
  }

  lemma {:induction false} FireKeepsTidy(s: Net, d: Deferred, p: Payload)
    requires Tidy(s) && MayApply(s, d, Fire(p))
    ensures Tidy(Apply(s, d, Fire(p)))
  {
    hide Inv, Run;
    if s[d].called {
      SuppressInv(s, d, false);
    } else {
      FiredInv(s, d, p);
      RunIsTidy(Fired(s, d, p), d);
    }
  }

  /** Whatever users do short of pausing, and whatever their callbacks return, no Deferred is left with work it
      could do; and the network is quiescent if and only if no fired Deferred with work left holds the empty
      tag. */
  lemma {:induction false} ReachableIsTidy(s: Net, steps: seq<Step>)
    requires Tidy(s) && MayRun(s, steps)
    requires forall i :: 0 <= i < |steps| ==> PausesNobody(steps[i])
    ensures Tidy(After(s, steps)) && (Quiescent(After(s, steps)) <==> !EmptyTagLeft(After(s, steps)))
    decreases |steps|
  {
    hide Tidy, Quiescent, EmptyTagLeft;
    assert Inv(s) by { TidyInv(s); }
    if steps == [] {
      TidyIsQuiescent(s);
    } else {
      NextKeepsTidy(s, steps[0]);
      ReachableIsTidy(Next(s, steps[0]), steps[1..]);
    }
  }

  lemma {:induction false} TidyInv(s: Net)
    requires Tidy(s)
    ensures Inv(s)
  {
  }

  /** Nobody pauses, and no callback returns the empty tag. */
  ghost predicate ProperStep(step: Step) {
    PausesNobody(step) && (step.Do? && step.op.Add? ==> ProperPair(step.op.pair))
  }

  lemma {:induction false} AppendedProper(s: Net, d: Deferred, pair: Pair)
    requires d in s && Proper(s) && ProperPair(pair)
    ensures Proper(Appended(s, d, pair))
  {
  }

  lemma {:induction false} ProperHasNoEmptyTag(s: Net)
    requires Proper(s)
    ensures !EmptyTagLeft(s)
  {
  }

  lemma {:induction false} NextKeepsProper(s: Net, step: Step)
    requires Inv(s) && Proper(s) && MayStep(s, step) && ProperStep(step)
    ensures Proper(Next(s, step))
  {
    hide Inv, Run, ProperPair;
    match step
    case Create(d) =>
    case Do(d, Add(pair)) =>
      AppendedInv(s, d, pair);
      AppendedProper(s, d, pair);
      if s[d].called { RunKeepsProper(Appended(s, d, pair), [d]); }
    case Do(d, Fire(p)) =>
      if !s[d].called {
        FiredInv(s, d, p);
        RunKeepsProper(Fired(s, d, p), [d]);
      }
  }

  lemma {:induction false} ReachableIsProper(s: Net, steps: seq<Step>)
    requires Inv(s) && Proper(s) && MayRun(s, steps)
    requires forall i :: 0 <= i < |steps| ==> ProperStep(steps[i])
    ensures Proper(After(s, steps))
    decreases |steps|
  {
    hide Inv, Proper;
    if steps != [] {
      NextKeepsInv(s, steps[0]);
      NextKeepsProper(s, steps[0]);
      ReachableIsProper(Next(s, steps[0]), steps[1..]);
    }
  }

  /** Whatever users do, short of pausing and of returning the empty tag, every fired Deferred of the
      network has an empty queue or waits on one that is unfired or itself waiting. */
  lemma {:induction false} ReachableIsQuiescent(s: Net, steps: seq<Step>)
    requires Tidy(s) && Proper(s) && MayRun(s, steps)
    requires forall i :: 0 <= i < |steps| ==> ProperStep(steps[i])
    ensures Quiescent(After(s, steps))
  {
    hide Tidy, Quiescent, Proper, EmptyTagLeft;
    assert Inv(s) by { TidyInv(s); }
    ReachableIsTidy(s, steps);
    ReachableIsProper(s, steps);
    ProperHasNoEmptyTag(After(s, steps));
  }

  // ----- the two assumptions are needed -----

  /** A callback pair that ignores its argument. */
  ghost function Returning(v: DeferredValue): (pair: Pair)
    ensures pair.User? && forall p :: pair.callback(p) == v && pair.errback(p) == v
  {
    User(p => v, p => v)
  }

  /** One step of a run. */
  lemma {:induction false} Go(s: Net, steps: seq<Step>, k: nat)
    requires Inv(s) && k < |steps| && MayStep(s, steps[k])
    ensures Inv(Next(s, steps[k]))
    ensures MayRun(Next(s, steps[k]), steps[k + 1..]) ==>
      MayRun(s, steps[k..]) && After(s, steps[k..]) == After(Next(s, steps[k]), steps[k + 1..])
  {
    hide Inv, MayStep, Next;
    NextKeepsInv(s, steps[k]);
    assert steps[k..][1..] == steps[k + 1..];
  }

  lemma {:induction false} Done(s: Net, steps: seq<Step>)
    requires Inv(s)
    ensures MayRun(s, steps[|steps|..]) && After(s, steps[|steps|..]) == s
  {
  }

  /** Two Deferreds are made. */
  lemma {:induction false} CreateTwo(a: Deferred, b: Deferred, steps: seq<Step>)
    requires a != b && |steps| >= 2 && steps[0] == Create(a) && steps[1] == Create(b)
    ensures Inv(map[])
    ensures var s := map[a := FreshNode(), b := FreshNode()];
      Inv(s) && (MayRun(s, steps[2..]) ==> MayRun(map[], steps) && After(map[], steps) == After(s, steps[2..]))
  {
    hide MayRun, After;
    Go(map[], steps, 0);
    Go(map[a := FreshNode()], steps, 1);
    assert map[a := FreshNode(), b := FreshNode()] == map[a := FreshNode()][b := FreshNode()];
    assert steps[0..] == steps;
  }

  lemma {:induction false} AddBeforeFire(s: Net, d: Deferred, v: DeferredValue)
    requires Inv(s) && d in s && !s[d].called
    requires v.Now? || (v.SharedPtr? && v.d in s && v.d != d)
    ensures MayApply(s, d, Add(Returning(v))) && Apply(s, d, Add(Returning(v))) == Appended(s, d, Returning(v))
  {
    hide Inv, Returning;
    assert ClosedPair(Returning(v), s.Keys, d);
    AppendedInv(s, d, Returning(v));
  }

  lemma {:induction false} PauseIs(s: Net, d: Deferred)
    requires Inv(s) && d in s
    ensures MayApply(s, d, Pause) && Apply(s, d, Pause) == PausedBy(s, d)
  {
  }

  /** A Deferred that returns one without a result yet starts waiting for it. */
  lemma {:induction false} RunStartsWait(s: Net, c: Deferred)
    requires Inv(s) && Runnable(s, c) && Waits(s, c)
    ensures Run(s, [c]) == (StepPair(s, c), [])
  {
    hide Inv;
    NextChainOk(s, [c]);
    assert NextChain(s, [c]) == [];
    assert Run(StepPair(s, c), []) == (StepPair(s, c), []);
  }

  lemma {:induction false} FireStartsWait(s: Net, d: Deferred, t: Deferred)
    requires Inv(s) && d in s && t in s && t != d
    requires !s[d].called && s[d].paused == 0 && Pending(s[t])
    requires s[d].callbacks != [] && s[d].callbacks[0] == Returning(SharedPtr(t))
    ensures MayApply(s, d, Fire(Null)) && Apply(s, d, Fire(Null)) == StepWait(Fired(s, d, Null), d, t)
  {
    hide Inv, Run, Returning;
    FiredInv(s, d, Null);
    var f := Fired(s, d, Null);
    assert Runnable(f, d) && Returned(f[d]) == SharedPtr(t);
    RunStartsWait(f, d);
  }

  /** After the next pair of c, the last of the chain, the loop finds a paused Deferred and returns. */
  ghost predicate StopsEarly(s: Net, init: seq<Deferred>, c: Deferred)
    requires Ready(s, init + [c]) && Runnable(s, c)
  {
    FrontAndLast(init + [c]);
    var next := NextChain(s, init + [c]);
    next != [] && next[|next| - 1] in StepPair(s, c) && StepPair(s, c)[next[|next| - 1]].paused > 0
  }

  /** The next pair of c wakes a Deferred that a user has paused. */
  ghost predicate WakesPaused(s: Net, c: Deferred)
    requires Runnable(s, c)
  {
    var pair := s[c].callbacks[0];
    pair.Continuation? && pair.chainee in s && s[pair.chainee].userPauses > 0
  }

  /** runCallbacks returns early if and only if it wakes a Deferred that a user has paused; then c is left with
      work it could do if and only if it has another callback. */
  lemma {:induction false} PausedChaineeStopsRun(s: Net, init: seq<Deferred>, c: Deferred)
    requires Ready(s, init + [c]) && Runnable(s, c) && c !in init
    requires forall d :: d in init ==> d in s && s[d].paused == 0
    ensures StopsEarly(s, init, c) <==> WakesPaused(s, c)
    ensures StopsEarly(s, init, c) ==> Run(s, init + [c]) == (StepPair(s, c), NextChain(s, init + [c]))
    ensures c in StepPair(s, c)
    ensures StopsEarly(s, init, c) && Busy(StepPair(s, c), c) <==> WakesPaused(s, c) && |s[c].callbacks| > 1
  {
    hide Run, Inv, Quiescent, Busy, StepPair;
    NextChainOk(s, init + [c]);
    TopAfter(s, init, c);
    if StopsEarly(s, init, c) {
      RunsOn(s, init, c);
      RunPaused(StepPair(s, c), NextChain(s, init + [c]));
    }
  }

  lemma {:induction false} TopAfter(s: Net, init: seq<Deferred>, c: Deferred)
    requires Ready(s, init + [c]) && Runnable(s, c) && c !in init
    requires forall d :: d in init ==> d in s && s[d].paused == 0
    ensures StopsEarly(s, init, c) <==> WakesPaused(s, c)
    ensures c in StepPair(s, c)
    ensures WakesPaused(s, c) ==> (Busy(StepPair(s, c), c) <==> |s[c].callbacks| > 1)
  {
    hide NodeOk, LinksOk, ChainOk;
    var chain := init + [c];
    assert chain[..|chain| - 1] == init && chain[|chain| - 1] == c;
    if s[c].callbacks[0].Continuation? {
      var e := s[c].callbacks[0].chainee;
      ContinuationHead(s, c, e);
      WaiterGetsResult(s, c, e);
    } else {
      HasResult(s, c);
    }
  }

  lemma {:induction false} RunsOn(s: Net, init: seq<Deferred>, c: Deferred)
    requires Ready(s, init + [c]) && Runnable(s, c)
    requires Ready(StepPair(s, c), NextChain(s, init + [c]))
    ensures Run(s, init + [c]) == Run(StepPair(s, c), NextChain(s, init + [c]))
  {
    hide Inv, StepPair, NextChain, ChainOk;
    FrontAndLast(init + [c]);
  }

  lemma {:induction false} BusyNotQuiescent(s: Net, d: Deferred)
    requires Inv(s) && Busy(s, d)
    ensures !Quiescent(s)
  {
    assert NodeOk(s, d);
  }

  /** b returns a and waits for it, a user pauses b, and a, which has a callback of its own, is fired. */
  ghost function PausedWaiter(a: Deferred, b: Deferred): seq<Step> {
    [Create(a), Create(b), Do(b, Add(Returning(SharedPtr(a)))), Do(b, Fire(Null)), Do(b, Pause),
     Do(a, Add(Returning(Now(Null)))), Do(a, Fire(Null))]
  }

  /** With a pause the network need not become quiescent: this leaves a fired and not paused, with a callback
      that is not run. */
  lemma {:induction false} PausedChaineeStrandsChain(a: Deferred, b: Deferred)
    requires a != b
    ensures Inv(map[]) && MayRun(map[], PausedWaiter(a, b))
    ensures var r := After(map[], PausedWaiter(a, b)); Busy(r, a) && !Quiescent(r)
  {
    hide Inv, MayRun, After, Apply, Run, StepPair, Quiescent, Busy, Returning, MayApply;
    var steps := PausedWaiter(a, b);
    CreateTwo(a, b, steps);
    var s2 := map[a := FreshNode(), b := FreshNode()];
    AddBeforeFire(s2, b, SharedPtr(a));
    Go(s2, steps, 2);
    var s3 := Appended(s2, b, Returning(SharedPtr(a)));
    FireStartsWait(s3, b, a);
    Go(s3, steps, 3);
    var s4 := StepWait(Fired(s3, b, Null), b, a);
    PauseIs(s4, b);
    Go(s4, steps, 4);
    var s5 := PausedBy(s4, b);
    AddBeforeFire(s5, a, Now(Null));
    Go(s5, steps, 5);
    var s6 := Appended(s5, a, Returning(Now(Null)));
    FireStopsAtPaused(s6, a, b);
    Go(s6, steps, 6);
    Done(Next(s6, steps[6]), steps);
  }

  lemma {:induction false} FireStopsAtPaused(s: Net, a: Deferred, b: Deferred)
    requires Inv(s) && a in s && b in s && !s[a].called && s[a].paused == 0 && s[b].userPauses > 0
    requires |s[a].callbacks| > 1 && s[a].callbacks[0] == Continuation(b)
    ensures MayApply(s, a, Fire(Null)) && var r := Apply(s, a, Fire(Null)); Busy(r, a) && !Quiescent(r)
  {
    hide Inv, Run, StepPair, Quiescent, Busy, StopsEarly;
    FiredInv(s, a, Null);
    var f := Fired(s, a, Null);
    ContinuationWaiter(s, a, b);
    assert [] + [a] == [a];
    PausedChaineeStopsRun(f, [], a);
    StepPairInv(f, a);
    BusyNotQuiescent(StepPair(f, a), a);
  }

  lemma {:induction false} ContinuationWaiter(s: Net, c: Deferred, e: Deferred)
    requires Inv(s) && c in s && s[c].callbacks != [] && s[c].callbacks[0] == Continuation(e)
    ensures e != c
  {
    ContinuationHead(s, c, e);
  }

  /** Fired, not paused and not waiting: nothing is left that could give it a result. */
  ghost predicate Free(n: Node) { n.called && n.paused == 0 && !Waiting(n) }

  /** A turn starts a wait for a Deferred with nothing left to wait for if and only if its pair returns one that
      holds the empty tag; and then the network is not quiescent. */
  lemma {:induction false} EmptyResultIsAwaited(s: Net, c: Deferred)
    requires Inv(s) && Runnable(s, c) && s[c].callbacks[0].User? && Returned(s[c]).IsDeferred()
    ensures var t := Returned(s[c]).d;
      && t in s
      && (Waits(s, c) && Free(s[t]) <==> Free(s[t]) && s[t].result.IsEmpty())
      && (Waits(s, c) && Free(s[t]) ==> !Quiescent(StepPair(s, c)))
  {
    hide LinksOk;
    assert NodeOk(s, c) && ClosedPair(s[c].callbacks[0], s.Keys, c);
    var t, r := Returned(s[c]).d, StepPair(s, c);
    if Waits(s, c) && Free(s[t]) {
      assert t in r && r[t].called && r[t].result.IsEmpty() && r[t].callbacks != [];
    }
  }

  /** b is fired and returns the empty tag; then a returns b. */
  ghost function EmptyReturner(a: Deferred, b: Deferred): seq<Step> {
    [Create(a), Create(b), Do(b, Add(Returning(Now(Empty)))), Do(b, Fire(Null)),
     Do(a, Add(Returning(SharedPtr(b)))), Do(a, Fire(Null))]
  }

  lemma {:induction false} FireSettles(s: Net, d: Deferred, v: DeferredValue)
    requires Inv(s) && d in s && !s[d].called && s[d].paused == 0 && v.Now?
    requires |s[d].callbacks| == 1 && s[d].callbacks[0] == Returning(v)
    ensures MayApply(s, d, Fire(Null)) && Apply(s, d, Fire(Null)) == StepSettle(Fired(s, d, Null), d, v)
  {
    hide Inv, Returning;
    FiredInv(s, d, Null);
    var f := Fired(s, d, Null);
    assert Runnable(f, d) && Returned(f[d]) == v;
    NextChainOk(f, [d]);
    var r := StepPair(f, d);
    assert r[d].callbacks == [] && NextChain(f, [d]) == [d] && [d][..0] == [];
    assert Run(r, []) == (r, []) && Run(r, [d]) == Run(r, [d][..0]);
  }

  /** With an empty tag neither: a then waits for b, which has fired. */
  lemma {:induction false} EmptyResultStrandsWaiter(a: Deferred, b: Deferred)
    requires a != b
    ensures Inv(map[]) && MayRun(map[], EmptyReturner(a, b))
    ensures !Quiescent(After(map[], EmptyReturner(a, b)))
  {
    hide Inv, MayRun, After, Apply, Run, StepPair, Quiescent, Returning, MayApply;
    var steps := EmptyReturner(a, b);
    CreateTwo(a, b, steps);
    var s2 := map[a := FreshNode(), b := FreshNode()];
    AddBeforeFire(s2, b, Now(Empty));
    Go(s2, steps, 2);
    var s3 := Appended(s2, b, Returning(Now(Empty)));
    FireSettles(s3, b, Now(Empty));
    Go(s3, steps, 3);
    var s4 := StepSettle(Fired(s3, b, Null), b, Now(Empty));
    AddBeforeFire(s4, a, SharedPtr(b));
    Go(s4, steps, 4);
    var s5 := Appended(s4, a, Returning(SharedPtr(b)));
    FireFindsEmpty(s5, a, b);
    Go(s5, steps, 5);
    Done(Next(s5, steps[5]), steps);
  }

  lemma {:induction false} FireFindsEmpty(s: Net, a: Deferred, b: Deferred)
    requires Inv(s) && a in s && b in s && a != b && !s[a].called && s[a].paused == 0
    requires Free(s[b]) && s[b].result.IsEmpty()
    requires s[a].callbacks != [] && s[a].callbacks[0] == Returning(SharedPtr(b))
    ensures MayApply(s, a, Fire(Null)) && !Quiescent(Apply(s, a, Fire(Null)))
  {
    hide Inv, Run, StepPair, Quiescent, Returning;
    FiredInv(s, a, Null);
    var f := Fired(s, a, Null);
    EmptyResultIsAwaited(f, a);
    RunStartsWait(f, a);
  }

  // ----- handing results over -----

  /** What the wait ends with: when the continuation for e comes up on c, e gets exactly the result c has
      then, error or value, and c is left null. */
  lemma {:induction false} WaiterGetsResult(s: Net, c: Deferred, e: Deferred)
    requires Inv(s) && Runnable(s, c) && s[c].callbacks[0] == Continuation(e)
    ensures e in s && e != c && s[e].result == WeakPtr(c)
    ensures StepPair(s, c)[e].result == s[c].result && !s[c].result.IsDeferred()
    ensures StepPair(s, c)[c].result == Now(Null)
    ensures StepPair(s, c)[e].paused == s[e].userPauses
  {
    ContinuationHead(s, c, e);
  }

  /** Returning a Deferred that has already fired and is not paused does not transfer its value: the
      transfer is right exactly when there was only null to transfer. */
  lemma {:induction false} FiredDeferredYieldsNull(s: Net, c: Deferred)
    requires Inv(s) && Runnable(s, c) && s[c].callbacks[0].User?
    requires Returned(s[c]).IsDeferred() && !Pending(s[Returned(s[c]).d])
    ensures var t := Returned(s[c]).d;
      && StepPair(s, c)[c].result == Now(Null)
      && StepPair(s, c)[t].result == Now(Null)
      && (StepPair(s, c)[c].result == s[t].result <==> s[t].result == Now(Null))
  {
  }

  /** One turn with any pair at the head of c: the errback half sees an error and the callback half anything else,
      once. What it returns becomes the result of c; a Deferred without a result to give is waited for, and one
      with a result loses it. */
  lemma {:induction false} RightHalfRuns(s: Net, c: Deferred, callback: Callback, errback: Callback, p: Payload)
    requires Inv(s) && Runnable(s, c) && s[c].callbacks[0] == User(callback, errback) && s[c].result == Now(p)
    ensures var v, r := if p.Error? then errback(p) else callback(p), StepPair(s, c);
      && c in r && r[c].callbacks == s[c].callbacks[1..] && r[c].ran == s[c].ran + [User(callback, errback)]
      && (v.Now? ==> r[c].result == v && r[c].paused == 0 && r == s[c := r[c]])
      && (!v.Now? ==>
           && v.d in s && v.d != c && v.d in r && r == s[c := r[c]][v.d := r[v.d]]
           && var t := s[v.d];
              if t.result == Now(Empty) || !t.result.Now? || t.paused > 0 then
                && r[c].result == WeakPtr(v.d) && r[c].paused == 1
                && r[v.d].callbacks == t.callbacks + [Continuation(c)] && r[v.d].result == t.result
              else
                && r[c].result == Now(Null) && r[c].paused == 0
                && r[v.d].callbacks == t.callbacks && r[v.d].result == Now(Null))
  {
    assert NodeOk(s, c) && ClosedPair(s[c].callbacks[0], s.Keys, c);
    var v, r := Returned(s[c]), StepPair(s, c);
    if v.Now? {
      assert r == s[c := r[c]];
    } else {
      assert r == s[c := r[c]][v.d := r[v.d]];
    }
  }

  // ----- when a Deferred is fired does not matter -----

  ghost predicate PlainPair(pair: Pair) {
    pair.User? && forall p :: pair.callback(p).Now? && pair.errback(p).Now?
  }

  ghost predicate AllPlain(pairs: seq<Pair>) {
    forall i :: 0 <= i < |pairs| ==> PlainPair(pairs[i])
  }

  /** The left fold of the pairs: the errback half runs exactly when the running result is an error. */
  ghost function Fold(pairs: seq<Pair>, p: Payload): Payload
    requires AllPlain(pairs)
  {
    if pairs == [] then p
    else
      assert PlainPair(pairs[0]);
      Fold(pairs[1..], (if p.Error? then pairs[0].errback(p) else pairs[0].callback(p)).p)
  }

  lemma {:induction false} FoldAppend(a: seq<Pair>, b: seq<Pair>, p: Payload)
    requires AllPlain(a) && AllPlain(b)
    ensures AllPlain(a + b) && Fold(a + b, p) == Fold(b, Fold(a, p))
  {
    if a == [] {
      assert a + b == b;
    } else {
      assert PlainPair(a[0]);
      FoldAppend(a[1..], b, (if p.Error? then a[0].errback(p) else a[0].callback(p)).p);
      assert (a + b)[1..] == a[1..] + b;
    }
  }

  /** d once its queue of plain pairs has been worked off. */
  ghost function Drained(n: Node): Node
    requires n.result.Now? && AllPlain(n.callbacks)
  {
    n.(callbacks := [], ran := n.ran + n.callbacks, result := Now(Fold(n.callbacks, n.result.p)))
  }

  lemma {:induction false} RunPlain(s: Net, d: Deferred)
    requires Inv(s) && d in s && s[d].called && s[d].paused == 0 && AllPlain(s[d].callbacks)
    ensures s[d].result.Now? && Run(s, [d]) == (s[d := Drained(s[d])], [])
    decreases |s[d].callbacks|
  {
    hide LinksOk, ClosedPair;
    assert NodeOk(s, d);
    if s[d].callbacks == [] {
      assert s[d].ran + [] == s[d].ran;
      assert Drained(s[d]) == s[d];
      assert s[d := Drained(s[d])] == s;
      assert Run(s, []) == (s, []);
    } else {
      assert PlainPair(s[d].callbacks[0]);
      NextChainOk(s, [d]);
      var r := StepPair(s, d);
      assert r == s[d := Popped(s[d], Returned(s[d]))];
      RunPlain(r, d);
      assert Drained(r[d]) == Drained(s[d]) by {
        assert s[d].ran + s[d].callbacks == (s[d].ran + [s[d].callbacks[0]]) + s[d].callbacks[1..];
      }
      assert r[d := Drained(r[d])] == s[d := Drained(s[d])];
    }
  }

  /** Plain pairs, balanced pauses. */
  ghost predicate Legal(ops: seq<Op>, pauses: nat) {
    ops == [] ||
    match ops[0]
    case Add(pair) => PlainPair(pair) && Legal(ops[1..], pauses)
    case Fire(p) => !p.Empty? && Legal(ops[1..], pauses)
    case Pause => Legal(ops[1..], pauses + 1)
    case Unpause => pauses > 0 && Legal(ops[1..], pauses - 1)
  }

  ghost function Adds(ops: seq<Op>): seq<Pair> {
    if ops == [] then []
    else AddedBy(ops[0]) + Adds(ops[1..])
  }

  ghost function AddedBy(op: Op): seq<Pair> {
    match op case Add(pair) => [pair] case _ => []
  }

  /** What a Deferred counts as fired with after op: the first callback or errback decides. */
  ghost function FiredBy(fired: Payload, op: Op): Payload {
    if op.Fire? && fired == Empty then op.p else fired
  }

  /** The payload of the first callback or errback. */
  ghost function FiredWith(ops: seq<Op>): Payload {
    if ops == [] then Empty
    else match ops[0] case Fire(p) => p case _ => FiredWith(ops[1..])
  }

  /** What is true of d between operations: it has run a prefix of its pairs and its result is their
      fold over what it was fired with. */
  ghost predicate Follows(n: Node, fired: Payload) {
    && AllPlain(n.added) && n.added == n.ran + n.callbacks
    && AllPlain(n.ran)
    && n.paused == n.userPauses
    && (n.called <==> fired != Empty)
    && (n.called ==> n.result == Now(Fold(n.ran, fired)))
    && (n.called && n.paused == 0 ==> n.callbacks == [])
  }

  lemma {:induction false} PlainParts(a: seq<Pair>, b: seq<Pair>)
    requires AllPlain(a + b)
    ensures AllPlain(a) && AllPlain(b)
  {
    forall i | 0 <= i < |a| ensures PlainPair(a[i]) { assert (a + b)[i] == a[i]; }
    forall i | 0 <= i < |b| ensures PlainPair(b[i]) { assert (a + b)[|a| + i] == b[i]; }
  }

  /** A fired, unpaused d with plain pairs runs them all and folds its result. */
  lemma {:induction false} ResumeFollows(s: Net, d: Deferred, fired: Payload)
    requires Inv(s) && d in s && s[d].called && s[d].paused == 0 && AllPlain(s[d].ran) && AllPlain(s[d].callbacks)
    requires fired != Empty && s[d].result == Now(Fold(s[d].ran, fired)) && s[d].userPauses == 0
    ensures d in Run(s, [d]).0
    ensures var n := Run(s, [d]).0[d];
      && Run(s, [d]).0 == s[d := n] && Follows(n, fired)
      && n.added == s[d].added && n.userPauses == 0 && n.suppress == s[d].suppress
  {
    assert NodeOk(s, d);
    RunPlain(s, d);
    FoldAppend(s[d].ran, s[d].callbacks, fired);
    var n := Drained(s[d]);
    assert n.ran + [] == n.ran;
  }

  lemma {:induction false} RunPausedTop(s: Net, d: Deferred)
    requires Inv(s) && d in s && s[d].called && s[d].paused > 0
    ensures Run(s, [d]).0 == s
  {
  }

  lemma {:induction false} AddFollows(s: Net, d: Deferred, pair: Pair, fired: Payload)
    requires Inv(s) && d in s && Follows(s[d], fired) && PlainPair(pair)
    ensures MayApply(s, d, Add(pair))
    ensures var r := Apply(s, d, Add(pair));
      && d in r && r == s[d := r[d]] && Follows(r[d], fired)
      && r[d].added == s[d].added + [pair]
      && r[d].userPauses == s[d].userPauses
  {
    var s1 := Appended(s, d, pair);
    AppendedInv(s, d, pair);
    assert s[d].ran + (s[d].callbacks + [pair]) == s[d].added + [pair];
    assert AllPlain([pair]);
    PlainParts(s[d].ran, s[d].callbacks);
    if s[d].called {
      if s[d].paused == 0 { ResumeFollows(s1, d, fired); } else { RunPausedTop(s1, d); }
    }
  }

  lemma {:induction false} FireFollows(s: Net, d: Deferred, p: Payload)
    requires Inv(s) && d in s && Follows(s[d], Empty) && p != Empty
    ensures MayApply(s, d, Fire(p))
    ensures var r := Apply(s, d, Fire(p));
      && d in r && r == s[d := r[d]] && Follows(r[d], p)
      && r[d].added == s[d].added
      && r[d].userPauses == s[d].userPauses
  {
    assert NodeOk(s, d);
    FiredInv(s, d, p);
    PlainParts(s[d].ran, s[d].callbacks);
    if s[d].paused == 0 { ResumeFollows(Fired(s, d, p), d, p); } else { RunPausedTop(Fired(s, d, p), d); }
  }

  lemma {:induction false} UnpauseFollows(s: Net, d: Deferred, fired: Payload)
    requires Inv(s) && d in s && Follows(s[d], fired) && s[d].userPauses > 0
    ensures var r := Apply(s, d, Unpause);
      && d in r && r == s[d := r[d]] && Follows(r[d], fired)
      && r[d].added == s[d].added
      && r[d].userPauses == s[d].userPauses - 1
  {
    var s1 := UnpausedBy(s, d);
    UnpausedInv(s, d);
    PlainParts(s[d].ran, s[d].callbacks);
    if s1[d].called && s1[d].paused == 0 { ResumeFollows(s1, d, fired); }
  }

  ghost function PausesAfter(pauses: nat, op: Op): int {
    match op case Pause => pauses + 1 case Unpause => pauses - 1 case _ => pauses
  }

  lemma {:induction false} ApplyFollows(s: Net, d: Deferred, op: Op, fired: Payload)
    requires Inv(s) && d in s && Follows(s[d], fired)
    requires Legal([op], s[d].userPauses)
    ensures MayApply(s, d, op)
    ensures var r := Apply(s, d, op);
      && d in r && r == s[d := r[d]] && Inv(r)
      && Follows(r[d], FiredBy(fired, op))
      && r[d].added == s[d].added + AddedBy(op)
      && r[d].userPauses == PausesAfter(s[d].userPauses, op)
  {
    match op {
      case Add(pair) => AddFollows(s, d, pair, fired);
      case Fire(p) => if fired == Empty { FireFollows(s, d, p); }
      case Pause =>
      case Unpause => UnpauseFollows(s, d, fired);
    }
    ApplyKeepsInv(s, d, op);
  }

  ghost function ApplyAll(s: Net, d: Deferred, ops: seq<Op>, fired: Payload): Net
    requires Inv(s) && d in s && Follows(s[d], fired) && Legal(ops, s[d].userPauses)
    decreases |ops|
  {
    if ops == [] then s
    else
      var op := ops[0];
      ApplyFollows(s, d, op, fired);
      ApplyAll(Apply(s, d, op), d, ops[1..], FiredBy(fired, op))
  }

  lemma {:induction false} UpdateTwice(s: Net, r: Net, rr: Net, d: Deferred)
    requires d in r && d in rr && r == s[d := r[d]] && rr == r[d := rr[d]]
    ensures rr == s[d := rr[d]]
  {
  }

  lemma {:induction false} ApplyAllFollows(s: Net, d: Deferred, ops: seq<Op>, fired: Payload)
    requires Inv(s) && d in s && Follows(s[d], fired) && Legal(ops, s[d].userPauses)
    ensures var r := ApplyAll(s, d, ops, fired);
      && d in r && r == s[d := r[d]]
      && Follows(r[d], if fired == Empty then FiredWith(ops) else fired)
      && r[d].added == s[d].added + Adds(ops)
    decreases |ops|
  {
    if ops == [] {
      assert s == s[d := s[d]];
      assert s[d].added + [] == s[d].added;
    } else {
      var op := ops[0];
      ApplyFollows(s, d, op, fired);
      var r := Apply(s, d, op);
      var fired' := FiredBy(fired, op);
      ApplyAllFollows(r, d, ops[1..], fired');
      var rr := ApplyAll(r, d, ops[1..], fired');
      UpdateTwice(s, r, rr, d);
      assert ApplyAll(s, d, ops, fired) == rr;
      Assoc(s[d].added, AddedBy(op), Adds(ops[1..]));
    }
  }

  /** Whatever the order in which pairs are added, pauses taken and taken back and the Deferred fired:
      once it has fired and no pause is left, its result is the fold of all pairs in the order they were
      added, and nothing else in the network has changed. */
  lemma {:induction false} FiringTimeIrrelevant(s: Net, d: Deferred, ops: seq<Op>)
    requires Inv(s) && d in s && s[d] == FreshNode() && Legal(ops, 0)
    ensures var r := ApplyAll(s, d, ops, Empty);
      && d in r && r == s[d := r[d]]
      && r[d].added == Adds(ops) && AllPlain(Adds(ops))
      && (FiredWith(ops) != Empty && r[d].userPauses == 0 ==>
           && r[d].callbacks == [] && r[d].ran == Adds(ops)
           && r[d].result == Now(Fold(Adds(ops), FiredWith(ops))))
  {
    ApplyAllFollows(s, d, ops, Empty);
    assert [] + Adds(ops) == Adds(ops);
    var n := ApplyAll(s, d, ops, Empty)[d];
    assert n.ran + [] == n.ran;
  }

  // ----- cancel -----

  /** After an unfired Deferred is cancelled the first later callback or errback is swallowed without an
      error and changes nothing else, if and only if it has no canceller; the one after that raises
      AlreadyCalledError. */
  lemma {:induction false} CancelSwallowsOneFire(s: Net, d: Deferred, depth: nat, p: Payload)
    requires Inv(s) && WaitEnds(s, d, depth) && !s[d].called && !s[d].suppress && p != Empty
    ensures var r := Cancelled(s, d, depth);
      && Inv(r) && d in r && r[d].called && (r[d].suppress <==> d.canceller.None?)
      && Apply(r, d, Fire(p)) == r[d := r[d].(suppress := false)]
  {
    hide Inv, Run;
    SuppressInv(s, d, true);
    var s1 := if d.canceller.None? then s[d := s[d].(suppress := true)] else s;
    HasNotWaited(s, d);
    FiredInv(s1, d, CancelsWith(d));
    RunKeepsInv(Fired(s1, d, CancelsWith(d)), [d]);
  }

  lemma {:induction false} HasNotWaited(s: Net, d: Deferred)
    requires Inv(s) && d in s && !s[d].called
    ensures !Waiting(s[d])
  {
    assert NodeOk(s, d);
  }

  /** A cancelled Deferred that has not fired is fired with what its canceller gives, or with the error for
      cancellation when there is no canceller or it does not fire; one that has fired passes the request along the
      waits, and it arrives at the Deferred at their end, which does nothing if it has fired. */
  lemma {:induction false} CancelArrives(s: Net, d: Deferred, u: Deferred, steps: nat, depth: nat)
    requires Inv(s) && WaitEnds(s, d, depth) && Leads(s, d, u, steps) && u in s && !Waiting(s[u])
    ensures s[u].called ==> Cancelled(s, d, depth) == s
    ensures !s[u].called ==>
      && var f := if u.canceller == None then s[u := s[u].(suppress := true)] else s;
         var p := if u.canceller == None || u.canceller == Some(Empty) then Error(CANCELLED) else u.canceller.value;
         Inv(f) && MayApply(f, u, Fire(p)) && Cancelled(s, d, depth) == Apply(f, u, Fire(p))
    decreases depth
  {
    hide Inv, Apply;
    if !s[d].called { HasNotWaited(s, d); SuppressInv(s, d, true); }
    if d != u { CancelArrives(s, s[d].result.d, u, steps - 1, depth - 1); }
  }

  /** Following the waits from d ends at c after at most depth steps. */
  ghost predicate Leads(s: Net, d: Deferred, c: Deferred, depth: nat) {
    d in s && (d == c || (Waiting(s[d]) && depth > 0 && Leads(s, s[d].result.d, c, depth - 1)))
  }

  ghost predicate LeadsTo(s: Net, d: Deferred, c: Deferred) { exists depth :: Leads(s, d, c, depth) }

  /** Wherever cancel is called, it ends. */
  ghost predicate CancelEnds(s: Net, d: Deferred) { exists depth :: WaitEnds(s, d, depth) }

  ghost predicate AllWaitsEnd(s: Net) { forall d :: d in s ==> CancelEnds(s, d) }

  /** The waits of r are those of s, or fewer. */
  ghost predicate NoNewWaits(s: Net, r: Net) {
    r.Keys == s.Keys && forall d :: d in r && Waiting(r[d]) ==> r[d].result == s[d].result
  }

  lemma {:induction false} WaitStillEnds(s: Net, r: Net, d: Deferred, depth: nat)
    requires NoNewWaits(s, r) && WaitEnds(s, d, depth)
    ensures WaitEnds(r, d, depth)
    decreases depth
  {
    if Waiting(r[d]) { WaitStillEnds(s, r, s[d].result.d, depth - 1); }
  }

  lemma {:induction false} StepPairWaits(s: Net, c: Deferred)
    requires Inv(s) && Runnable(s, c) && !Waits(s, c)
    ensures NoNewWaits(s, StepPair(s, c))
  {
    assert NodeOk(s, c);
    if s[c].callbacks[0].Continuation? { ContinuationHead(s, c, s[c].callbacks[0].chainee); }
  }

  /** The waits of r are those of s, and that of c for t. */
  ghost predicate OneMoreWait(s: Net, r: Net, c: Deferred, t: Deferred) {
    && r.Keys == s.Keys && c in s && t in s && !Waiting(s[c]) && r[c].result == WeakPtr(t)
    && forall d :: d in s && d != c ==> r[d].result == s[d].result
  }

  lemma {:induction false} OneMoreKeys(s: Net, r: Net, c: Deferred, t: Deferred)
    requires OneMoreWait(s, r, c, t)
    ensures t in s && c in s && r.Keys == s.Keys
  {
  }

  lemma {:induction false} StepPairOneMore(s: Net, c: Deferred)
    requires Inv(s) && Runnable(s, c) && Waits(s, c)
    ensures OneMoreWait(s, StepPair(s, c), c, Returned(s[c]).d)
  {
    assert NodeOk(s, c) && ClosedPair(s[c].callbacks[0], s.Keys, c);
  }

  /** A cycle: if the waits from t lead to c, they never end once c waits for t. */
  lemma {:induction false} CycleNeverEnds(s: Net, r: Net, c: Deferred, t: Deferred, k: nat, depth: nat)
    requires OneMoreWait(s, r, c, t) && Leads(s, t, c, k)
    ensures !WaitEnds(r, c, depth)
    decreases depth, 1, 0
  {
    if depth > 0 { PathNeverEnds(s, r, c, t, t, k, k, depth - 1); }
  }

  lemma {:induction false} PathNeverEnds(s: Net, r: Net, c: Deferred, t: Deferred, d: Deferred, k: nat, j: nat,
                                         depth: nat)
    requires OneMoreWait(s, r, c, t) && Leads(s, t, c, k) && Leads(s, d, c, j)
    ensures !WaitEnds(r, d, depth)
    decreases depth, 2, j
  {
    if d == c {
      CycleNeverEnds(s, r, c, t, k, depth);
    } else if depth > 0 {
      PathNeverEnds(s, r, c, t, s[d].result.d, k, j - 1, depth - 1);
    }
  }

  /** No cycle: the waits that led to c go on from t, and end. */
  lemma {:induction false} WaitEndsLater(s: Net, r: Net, c: Deferred, t: Deferred, d: Deferred, k: nat, depth: nat)
    requires OneMoreWait(s, r, c, t) && WaitEnds(s, d, k) && (d == c || LeadsTo(s, d, c) ==> WaitEnds(r, t, depth))
    ensures WaitEnds(r, d, k + depth + 1)
    decreases k
  {
    if d == c {
      WaitEndsSooner(r, t, depth, k + depth);
    } else if Waiting(s[d]) {
      var e := s[d].result.d;
      if LeadsTo(s, e, c) {
        var j: nat :| Leads(s, e, c, j);
        assert Leads(s, d, c, j + 1);
      }
      if e == c { assert Leads(s, d, c, 1); }
      WaitEndsLater(s, r, c, t, e, k - 1, depth);
    }
  }

  lemma {:induction false} WaitEndsSooner(s: Net, d: Deferred, k: nat, m: nat)
    requires WaitEnds(s, d, k) && k <= m
    ensures WaitEnds(s, d, m)
    decreases k
  {
    if Waiting(s[d]) { WaitEndsSooner(s, s[d].result.d, k - 1, m - 1); }
  }

  lemma {:induction false} NoCycleEnds(s: Net, r: Net, c: Deferred, t: Deferred)
    requires OneMoreWait(s, r, c, t) && AllWaitsEnd(s) && !LeadsTo(s, t, c)
    ensures AllWaitsEnd(r)
  {
    hide WaitEnds, OneMoreWait;
    assert t in s && c in s && r.Keys == s.Keys by { OneMoreKeys(s, r, c, t); }
    assert CancelEnds(s, t);
    var k: nat :| WaitEnds(s, t, k);
    assert Leads(s, c, c, 0);
    WaitEndsLater(s, r, c, t, t, k, 0);
    forall d | d in r ensures CancelEnds(r, d) {
      assert CancelEnds(s, d);
      var j: nat :| WaitEnds(s, d, j);
      WaitEndsLater(s, r, c, t, d, j, k + 1);
    }
  }

  lemma {:induction false} HasResult(s: Net, c: Deferred)
    requires Inv(s) && Runnable(s, c)
    ensures s[c].result.Now?
  {
    assert NodeOk(s, c);
  }

  /** When all waits end, they all end after the next pair has run, unless with that pair c starts waiting for
      a Deferred from which the waits lead back to c; then cancelling either of them never ends. */
  lemma {:induction false} WaitsEndUnlessCycle(s: Net, c: Deferred)
    requires Inv(s) && Runnable(s, c) && AllWaitsEnd(s)
    ensures AllWaitsEnd(StepPair(s, c)) <==> !(Waits(s, c) && LeadsTo(s, Returned(s[c]).d, c))
    ensures Waits(s, c) && LeadsTo(s, Returned(s[c]).d, c) ==>
      !CancelEnds(StepPair(s, c), c) && !CancelEnds(StepPair(s, c), Returned(s[c]).d)
  {
    hide Inv, WaitEnds, Leads, OneMoreWait, NoNewWaits, StepPair;
    var r := StepPair(s, c);
    if !Waits(s, c) {
      StepPairWaits(s, c);
      NoNewWaitsEnd(s, r);
    } else {
      HasResult(s, c);
      var t := Returned(s[c]).d;
      StepPairOneMore(s, c);
      if LeadsTo(s, t, c) {
        var k: nat :| Leads(s, t, c, k);
        forall depth ensures !WaitEnds(r, c, depth) && !WaitEnds(r, t, depth) {
          CycleNeverEnds(s, r, c, t, k, depth);
          PathNeverEnds(s, r, c, t, t, k, k, depth);
        }
        OneMoreKeys(s, r, c, t);
      } else {
        NoCycleEnds(s, r, c, t);
      }
    }
  }

  lemma {:induction false} NoNewWaitsEnd(s: Net, r: Net)
    requires NoNewWaits(s, r) && AllWaitsEnd(s)
    ensures AllWaitsEnd(r)
  {
    hide WaitEnds;
    forall d | d in r ensures CancelEnds(r, d) {
      assert CancelEnds(s, d);
      var k: nat :| WaitEnds(s, d, k);
      WaitStillEnds(s, r, d, k);
    }
  }

  /** Each of two Deferreds returns the other. */
  ghost function MutualReturners(a: Deferred, b: Deferred): seq<Step> {
    [Create(a), Create(b), Do(a, Add(Returning(SharedPtr(b)))), Do(b, Add(Returning(SharedPtr(a)))),
     Do(a, Fire(Null)), Do(b, Fire(Null))]
  }

  /** That happens: after this run a and b wait for each other, and cancelling either never ends. */
  lemma {:induction false} MutualWaitDefeatsCancel(a: Deferred, b: Deferred)
    requires a != b
    ensures Inv(map[]) && MayRun(map[], MutualReturners(a, b))
    ensures var r := After(map[], MutualReturners(a, b)); !CancelEnds(r, a) && !CancelEnds(r, b)
  {
    hide Inv, MayRun, After, Apply, Run, StepPair, Returning, MayApply, CancelEnds;
    var steps := MutualReturners(a, b);
    CreateTwo(a, b, steps);
    var s2 := map[a := FreshNode(), b := FreshNode()];
    AddBeforeFire(s2, a, SharedPtr(b));
    Go(s2, steps, 2);
    var s3 := Appended(s2, a, Returning(SharedPtr(b)));
    AddBeforeFire(s3, b, SharedPtr(a));
    Go(s3, steps, 3);
    var s4 := Appended(s3, b, Returning(SharedPtr(a)));
    FireStartsWait(s4, a, b);
    Go(s4, steps, 4);
    var s5 := StepWait(Fired(s4, a, Null), a, b);
    FireStartsWait(s5, b, a);
    Go(s5, steps, 5);
    var s6 := StepWait(Fired(s5, b, Null), b, a);
    Done(s6, steps);
    MutualWaitNeverEnds(s6, a, b);
  }

  lemma {:induction false} MutualWaitNeverEnds(s: Net, a: Deferred, b: Deferred)
    requires a in s && b in s && s[a].result == WeakPtr(b) && s[b].result == WeakPtr(a)
    ensures !CancelEnds(s, a) && !CancelEnds(s, b)
  {
    forall depth ensures !WaitEnds(s, a, depth) && !WaitEnds(s, b, depth) {
      NeverEnds(s, a, b, depth);
    }
  }

  lemma {:induction false} NeverEnds(s: Net, a: Deferred, b: Deferred, depth: nat)
    requires a in s && b in s && s[a].result == WeakPtr(b) && s[b].result == WeakPtr(a)
    ensures !WaitEnds(s, a, depth) && !WaitEnds(s, b, depth)
  {
    if depth > 0 { NeverEnds(s, a, b, depth - 1); }
  }
}

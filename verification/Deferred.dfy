/**
  Model of src/net4cxx/core/network/defer.{h,cpp}: a network of Deferred objects, each with a
  queue of callback pairs, a pause counter and continuations queued on one another, driven by
  the explicit-stack loop runCallbacks.

  A network is described as a value, a snapshot of the objects, and functions say what one turn of
  the loop and a whole run do to it; the class Deferred performs the same turns in place and is
  proved to do exactly that.
*/
module Defer {
  import opened Basics

  /** What a callback can be handed: never another Deferred. */
  datatype Payload = Empty | Null | Plain(value: int) | Error(error: int)

  /** DeferredValue: a payload, or a Deferred held by a strong or by a weak pointer. */
  datatype DeferredValue = Now(p: Payload) | SharedPtr(d: Deferred) | WeakPtr(d: Deferred)
  {
    predicate IsEmpty() { this == Now(Empty) }
    predicate IsDeferred() { !Now? }
  }

  /** A callback that throws is one that returns Now(Error(e)). */
  type Callback = Payload -> DeferredValue

  /** One entry of the callback queue. */
  datatype Pair =
    | User(callback: Callback, errback: Callback)
    | Continuation(chainee: Deferred)

  /** The state of one Deferred. The last three fields are history. */
  datatype Node = Node(
    called: bool,
    paused: int,
    callbacks: seq<Pair>,
    result: DeferredValue,
    suppress: bool,
    userPauses: nat,
    added: seq<Pair>,
    ran: seq<Pair>)

  type Net = map<Deferred, Node>

  class Deferred {
    const canceller: Option<Payload> // what the user's canceller fires this Deferred with, Empty if it does not
    var called: bool
    var suppressAlreadyCalled: bool
    var paused: int
    var callbacks: seq<Pair>
    var result: DeferredValue
    ghost var userPauses: nat  // pauses asked for by users and not yet undone
    ghost var added: seq<Pair> // every pair ever queued
    ghost var ran: seq<Pair>   // every pair taken off the queue and run

    constructor (canceller: Option<Payload>)
      ensures State() == FreshNode() && this.canceller == canceller
      ensures !called && !suppressAlreadyCalled && paused == 0 && callbacks == [] && result == Now(Empty)
    {
      this.canceller := canceller;
      called, suppressAlreadyCalled, paused, callbacks := false, false, 0, [];
      result := Now(Empty);
      userPauses, added, ran := 0, [], [];
    }

    ghost function State(): Node
      reads this
    {
      Node(called, paused, callbacks, result, suppressAlreadyCalled, userPauses, added, ran)
    }

    /** Takes the first pair off the queue. */
    method PopFront() returns (pair: Pair)
      requires callbacks != []
      modifies this
      ensures pair == old(callbacks)[0]
      ensures State() == Popped(old(State()), old(result))
    {
      pair := callbacks[0];
      callbacks, ran := callbacks[1..], ran + [pair];
    }

    /** Runs a continuation: hands the result to the Deferred that waited for it. */
    method RunContinuation(chainee: Deferred)
      requires chainee != this && callbacks != []
      modifies this, chainee
      ensures State() == Popped(old(State()), Now(Null))
      ensures chainee.State() == old(chainee.State()).(result := old(result), paused := old(chainee.paused) - 1)
    {
      var _ := PopFront();
      chainee.result := result;
      result := Now(Null);
      chainee.paused := chainee.paused - 1;
    }

    /** Takes over from the Deferred t that the last callback returned, or starts waiting for it. */
    method ChainTo(t: Deferred) returns (waits: bool)
      requires t != this
      modifies this, t
      ensures waits == old(Pending(t.State()))
      ensures State() == if waits then old(State()).(result := WeakPtr(t), paused := old(paused) + 1)
                         else old(State()).(result := Now(Null))
      ensures t.State() ==
        if waits then old(t.State()).(callbacks := old(t.callbacks) + [Continuation(this)],
                                      added := old(t.added) + [Continuation(this)])
        else old(t.State()).(result := Now(Null))
    {
      if t.result.IsEmpty() || t.result.IsDeferred() || t.paused > 0 {
        paused := paused + 1;
        result := WeakPtr(t);
        t.callbacks, t.added := t.callbacks + [Continuation(this)], t.added + [Continuation(this)];
        waits := true;
      } else {
        t.result := Now(Null);
        result := t.result;
        waits := false;
      }
    }

    /** Deals with the Deferred returned by the pair just run, in a network that was s before. */
    method TakeOver(ghost net: set<Deferred>, ghost s: Net) returns (waits: bool)
      requires this in net && s.Keys == net && forall d :: d in net && d != this ==> d.State() == s[d]
      requires s[this].callbacks != [] && State() == Popped(s[this], result)
      requires result.IsDeferred() && result.d in net && result.d != this
      modifies net
      ensures waits == Pending(s[old(result).d])
      ensures Snap(net) == if waits then StepWait(s, this, old(result).d) else StepTake(s, this, old(result).d)
    {
      hide Pending;
      ghost var t := result.d;
      waits := ChainTo(result.d);
      if waits { SnapIs(net, StepWait(s, this, t)); } else { SnapIs(net, StepTake(s, this, t)); }
    }

    method RunUser(ghost net: set<Deferred>) returns (waits: bool)
      requires this in net && callbacks != [] && callbacks[0].User? && result.Now?
      requires Returned(State()).IsDeferred() ==> Returned(State()).d in net && Returned(State()).d != this
      modifies net
      ensures var v := Returned(old(State()));
        Snap(net) == if v.Now? then StepSettle(old(Snap(net)), this, v)
                     else if waits then StepWait(old(Snap(net)), this, v.d)
                     else StepTake(old(Snap(net)), this, v.d)
      ensures waits == (Returned(old(State())).IsDeferred() && Pending(old(Snap(net))[Returned(old(State())).d]))
    {
      hide Pending, Invoke;
      ghost var s, v := Snap(net), Returned(State());
      var pair := PopFront();
      result := Invoke(pair, result.p);
      waits := false;
      assert State() == Popped(s[this], v);
      if result.IsDeferred() {
        waits := TakeOver(net, s);
      } else {
        SnapIs(net, StepSettle(s, this, v));
      }
    }

    /** Runs one pair of this Deferred, the body of the inner loop: says which chainee to go on with, if
        the pair was a continuation, and whether this Deferred has to stop and wait. */
    method RunPair(ghost net: set<Deferred>) returns (chainee: Deferred?, waits: bool)
      requires this in net && Inv(Snap(net)) && Runnable(Snap(net), this)
      modifies net
      ensures Snap(net) == StepPair(old(Snap(net)), this)
      ensures chainee == Chainee(old(Snap(net)), this) && waits == Waits(old(Snap(net)), this)
      ensures SameCalled(Snap(net), old(Snap(net)))
    {
      ghost var s := Snap(net);
      StepPairExtends(s, this);
      assert NodeOk(s, this) && ClosedPair(s[this].callbacks[0], s.Keys, this);
      chainee, waits := null, false;
      match callbacks[0]
      case Continuation(e) =>
        ContinuationHead(s, this, e);
        RunContinuation(e);
        chainee := e;
        SnapIs(net, StepContinuation(s, this, e));
      case User(_, _) =>
        waits := RunUser(net);
    }

    /** The inner loop of runCallbacks with this Deferred on top of the chain: runs pairs until the queue
        is empty, a chainee has to go first, or this Deferred has to wait. */
    method RunQueue(ghost net: set<Deferred>, ghost init: seq<Deferred>) returns (chainee: Deferred?)
      requires this in net && Ready(Snap(net), init + [this]) && paused == 0
      modifies net
      ensures Ready(Snap(net), Onward(init, this, chainee))
      ensures Run(Snap(net), Onward(init, this, chainee)) == Run(old(Snap(net)), init + [this])
      ensures Work(Snap(net)) <= old(Work(Snap(net)))
      ensures chainee != null ==> Work(Snap(net)) < old(Work(Snap(net)))
      ensures SameCalled(Snap(net), old(Snap(net)))
    {
      chainee := null;
      ghost var s0, outcome := Snap(net), Run(Snap(net), init + [this]);
      var waits := false;
      while callbacks != []
        invariant Ready(Snap(net), init + [this]) && paused == 0 && chainee == null
        invariant Run(Snap(net), init + [this]) == outcome
        invariant Work(Snap(net)) <= Work(s0) && SameCalled(Snap(net), s0)
        decreases Work(Snap(net))
      {
        RunUnfolds(Snap(net), init, this);
        chainee, waits := RunPair(net);
        if chainee != null || waits {
          return;
        }
        ReadyTop(Snap(net), init, this);
      }
      RunUnfolds(Snap(net), init, this);
    }

    method RunCallbacks(ghost net: set<Deferred>)
      requires this in net && Ready(Snap(net), [this])
      modifies net
      ensures Snap(net) == Run(old(Snap(net)), [this]).0 && SameCalled(Snap(net), old(Snap(net)))
    {
      hide Inv, ChainOk;
      var chain := [this];
      ghost var outcome := Run(Snap(net), chain);
      while chain != []
        invariant Ready(Snap(net), chain)
        invariant Run(Snap(net), chain) == outcome && SameCalled(Snap(net), old(Snap(net)))
        decreases Work(Snap(net)), |chain|
      {
        ghost var init := chain[..|chain| - 1];
        var current := chain[|chain| - 1];
        FrontAndLast(chain);
        ReadyTop(Snap(net), init, current);
        if current.paused > 0 {
          RunPaused(Snap(net), chain);
          return;
        }
        var chainee := current.RunQueue(net, init);
        if chainee != null {
          var next: Deferred := chainee;
          chain := chain + [next];
        } else {
          chain := chain[..|chain| - 1];
        }
      }
    }

    /** Runs the callbacks if this Deferred has fired. */
    method ResumeCallbacks(ghost net: set<Deferred>)
      requires this in net && Inv(Snap(net))
      modifies net
      ensures Snap(net) == Resume(old(Snap(net)), this)
    {
      if called {
        RunCallbacks(net);
      }
    }

    method AddCallbacks(callback: Callback, errback: Callback, ghost net: set<Deferred>)
      requires Inv(Snap(net)) && MayApply(Snap(net), this, Add(User(callback, errback)))
      modifies net
      ensures Snap(net) == Apply(old(Snap(net)), this, Add(User(callback, errback)))
    {
      ghost var s, pair := Snap(net), User(callback, errback);
      AppendedInv(s, this, pair);
      callbacks, added := callbacks + [User(callback, errback)], added + [pair];
      SnapIs(net, Appended(s, this, pair));
      ResumeCallbacks(net);
    }

    /** callback or errback. Says whether AlreadyCalledError is raised. */
    method StartRunCallbacks(p: Payload, ghost net: set<Deferred>) returns (alreadyCalled: bool)
      requires Inv(Snap(net)) && MayApply(Snap(net), this, Fire(p))
      modifies net
      ensures Snap(net) == Apply(old(Snap(net)), this, Fire(p))
      ensures called && alreadyCalled == (old(called) && !old(suppressAlreadyCalled))
    {
      hide Inv, Run, ClosedPair;
      ghost var s := Snap(net);
      alreadyCalled := false;
      if called {
        alreadyCalled := !suppressAlreadyCalled;
        suppressAlreadyCalled := false;
        SnapIs(net, s[this := s[this].(suppress := false)]);
        return;
      }
      FiredInv(s, this, p);
      called, result := true, Now(p);
      SnapIs(net, Fired(s, this, p));
      RunCallbacks(net);
    }

    method Pause(ghost net: set<Deferred>)
      requires Inv(Snap(net)) && this in net
      modifies this
      ensures Snap(net) == Apply(old(Snap(net)), this, Op.Pause)
    {
      ghost var s := Snap(net);
      paused, userPauses := paused + 1, userPauses + 1;
      SnapIs(net, PausedBy(s, this));
    }

    method Unpause(ghost net: set<Deferred>)
      requires Inv(Snap(net)) && MayApply(Snap(net), this, Op.Unpause)
      modifies net
      ensures Snap(net) == Apply(old(Snap(net)), this, Op.Unpause)
    {
      ghost var s := Snap(net);
      UnpausedInv(s, this);
      paused, userPauses := paused - 1, userPauses - 1;
      SnapIs(net, UnpausedBy(s, this));
      if paused > 0 {
        return;
      }
      ResumeCallbacks(net);
    }

    /** Lets the canceller fire this Deferred, or fires it with CancelledError, or passes the request on to the
        Deferred this one waits for. */
    method Cancel(ghost net: set<Deferred>, ghost depth: nat)
      requires Inv(Snap(net)) && this in net && WaitEnds(Snap(net), this, depth)
      modifies net
      ensures Snap(net) == Cancelled(old(Snap(net)), this, depth)
      decreases depth
    {
      ghost var s := Snap(net);
      assert NodeOk(s, this);
      if !called {
        if canceller.Some? {
          if !canceller.value.Empty? {
            var _ := StartRunCallbacks(canceller.value, net);
          }
        } else {
          SuppressInv(s, this, true);
          suppressAlreadyCalled := true;
          SnapIs(net, s[this := s[this].(suppress := true)]);
        }
        if !called {
          var _ := StartRunCallbacks(Error(CANCELLED), net);
        }
      } else if result.IsDeferred() {
        result.d.Cancel(net, depth - 1);
      }
    }
  }

  /** A network as a value. */
  ghost function Snap(net: set<Deferred>): Net
    reads net
  {
    map d | d in net :: d.State()
  }

  lemma {:induction false} SnapIs(net: set<Deferred>, r: Net)
    requires r.Keys == net && forall d :: d in net ==> d.State() == r[d]
    ensures Snap(net) == r
  {
  }

  /** No Deferred fires, or stops having fired. */
  ghost predicate SameCalled(r: Net, s: Net) { r.Keys == s.Keys && forall d :: d in s ==> r[d].called == s[d].called }

  ghost function FreshNode(): Node {
    Node(false, 0, [], Now(Empty), false, 0, [], [])
  }

  // ----- well-formed networks -----

  ghost predicate ClosedFun(f: Callback, dom: set<Deferred>, self: Deferred) {
    forall p :: f(p).Now? || (f(p).SharedPtr? && f(p).d in dom && f(p).d != self)
  }

  /** A pair may be queued on self: what it returns is a payload or another Deferred of the network. */
  ghost predicate ClosedPair(pair: Pair, dom: set<Deferred>, self: Deferred) {
    match pair
    case User(cb, eb) => ClosedFun(cb, dom, self) && ClosedFun(eb, dom, self)
    case Continuation(e) => e in dom
  }

  ghost predicate Waiting(n: Node) { n.result.IsDeferred() }

  /** What holds of one Deferred on its own. */
  ghost predicate NodeOk(s: Net, d: Deferred)
    requires d in s
  {
    var n := s[d];
    && n.paused == n.userPauses + (if Waiting(n) then 1 else 0)
    && n.added == n.ran + n.callbacks
    && (!n.called ==> n.result == Now(Empty) && n.ran == [])
    && !n.result.SharedPtr?
    && (forall i :: 0 <= i < |n.callbacks| ==> ClosedPair(n.callbacks[i], s.Keys, d))
  }

  /** How many continuations for d are in a queue. */
  ghost function Conts(q: seq<Pair>, d: Deferred): nat {
    if q == [] then 0 else (if q[0] == Continuation(d) then 1 else 0) + Conts(q[1..], d)
  }

  /** The continuations in the queues are exactly the waits: d has one, on the queue of the Deferred
      it waits for, and none anywhere else. */
  ghost predicate LinksOk(s: Net) {
    && (forall d :: d in s && Waiting(s[d]) ==> s[d].result.d in s && s[d].result.d != d)
    && (forall t, d :: t in s && d in s ==>
         Conts(s[t].callbacks, d) == if s[d].result == WeakPtr(t) then 1 else 0)
  }

  ghost predicate Inv(s: Net) {
    && (forall d :: d in s ==> NodeOk(s, d))
    && LinksOk(s)
  }

  // ----- one turn of the inner loop -----

  /** The current Deferred may run its next pair. */
  ghost predicate Runnable(s: Net, c: Deferred) {
    c in s && s[c].called && s[c].paused == 0 && s[c].callbacks != []
  }

  /** True iff the returned Deferred has no result to take yet. */
  ghost predicate Pending(n: Node) {
    n.result.IsEmpty() || n.result.IsDeferred() || n.paused > 0
  }

  function Invoke(pair: Pair, p: Payload): DeferredValue
    requires pair.User?
  {
    if p.Error? then pair.errback(p) else pair.callback(p)
  }

  /** The node after its first pair is taken off the queue and run with result v. */
  ghost function Popped(n: Node, v: DeferredValue): Node
    requires n.callbacks != []
  {
    n.(callbacks := n.callbacks[1..], ran := n.ran + [n.callbacks[0]], result := v)
  }

  /** A continuation hands the result of c to the Deferred e that waited for it. */
  ghost function StepContinuation(s: Net, c: Deferred, e: Deferred): Net
    requires c in s && e in s && s[c].callbacks != []
  {
    s[c := Popped(s[c], Now(Null))][e := s[e].(result := s[c].result, paused := s[e].paused - 1)]
  }

  ghost function StepSettle(s: Net, c: Deferred, v: DeferredValue): Net
    requires c in s && s[c].callbacks != []
  {
    s[c := Popped(s[c], v)]
  }

  /** c starts waiting for t: it is paused and its continuation joins t's queue. */
  ghost function StepWait(s: Net, c: Deferred, t: Deferred): Net
    requires c in s && t in s && s[c].callbacks != []
  {
    s[c := Popped(s[c], WeakPtr(t)).(paused := s[c].paused + 1)]
     [t := s[t].(callbacks := s[t].callbacks + [Continuation(c)], added := s[t].added + [Continuation(c)])]
  }

  /** The returned t has already fired. Its result is cleared before it is copied, so both end up null. */
  ghost function StepTake(s: Net, c: Deferred, t: Deferred): Net
    requires c in s && t in s && s[c].callbacks != []
  {
    s[t := s[t].(result := Now(Null))][c := Popped(s[c], Now(Null))]
  }

  /** What the first pair of c returns when it is run. */
  ghost function Returned(n: Node): DeferredValue
    requires n.callbacks != [] && n.callbacks[0].User? && n.result.Now?
  {
    Invoke(n.callbacks[0], n.result.p)
  }

  ghost function StepPair(s: Net, c: Deferred): Net
    requires Inv(s) && Runnable(s, c)
  {
    match s[c].callbacks[0]
    case Continuation(e) => ContinuationHead(s, c, e); StepContinuation(s, c, e)
    case User(_, _) =>
      var v := Returned(s[c]);
      if v.Now? then StepSettle(s, c, v)
      else if Pending(s[v.d]) then StepWait(s, c, v.d)
      else StepTake(s, c, v.d)
  }

  lemma {:induction false} ContsAppend(q: seq<Pair>, x: Pair, d: Deferred)
    ensures Conts(q + [x], d) == Conts(q, d) + if x == Continuation(d) then 1 else 0
  {
    if q == [] {
      assert [x][1..] == [];
    } else {
      assert (q + [x])[1..] == q[1..] + [x];
      ContsAppend(q[1..], x, d);
    }
  }

  /** The chainee of a queued continuation is the Deferred waiting for this one. */
  lemma {:induction false} ContinuationHead(s: Net, c: Deferred, e: Deferred)
    requires Inv(s) && c in s && s[c].callbacks != [] && s[c].callbacks[0] == Continuation(e)
    ensures e in s && e != c && s[e].result == WeakPtr(c) && s[e].called
  {
    assert ClosedPair(s[c].callbacks[0], s.Keys, c);
    assert Conts(s[c].callbacks, e) > 0;
  }

  /** The Deferred whose pair was run stays well formed, whatever it holds or waits for now. */
  lemma {:induction false} PoppedOk(s: Net, r: Net, c: Deferred)
    requires c in s && NodeOk(s, c) && s[c].called && s[c].callbacks != [] && r.Keys == s.Keys
    requires r[c] == Popped(s[c], r[c].result).(paused := r[c].paused)
    requires !r[c].result.SharedPtr? && r[c].paused == s[c].userPauses + if Waiting(r[c]) then 1 else 0
    ensures NodeOk(r, c)
  {
    forall i | 0 <= i < |r[c].callbacks| ensures ClosedPair(r[c].callbacks[i], r.Keys, c) {
      assert r[c].callbacks[i] == s[c].callbacks[i + 1];
    }
  }

  /** A fired Deferred whose queue was not touched stays well formed with a new result. */
  lemma {:induction false} ResultOk(s: Net, r: Net, t: Deferred)
    requires t in s && NodeOk(s, t) && s[t].called && r.Keys == s.Keys
    requires r[t] == s[t].(result := r[t].result, paused := r[t].paused)
    requires !r[t].result.SharedPtr? && r[t].paused == s[t].userPauses + if Waiting(r[t]) then 1 else 0
    ensures NodeOk(r, t)
  {
  }

  /** A Deferred whose queue got one more pair stays well formed. */
  lemma {:induction false} AppendedOk(s: Net, r: Net, t: Deferred, pair: Pair)
    requires t in s && NodeOk(s, t) && r.Keys == s.Keys && ClosedPair(pair, s.Keys, t)
    requires r[t] == s[t].(callbacks := s[t].callbacks + [pair], added := s[t].added + [pair])
    ensures NodeOk(r, t)
  {
  }

  /** A turn that touches only c and t has to establish NodeOk for these two. */
  lemma {:induction false} NodesOk(s: Net, r: Net, c: Deferred, t: Deferred)
    requires Inv(s) && c in s && t in s && r.Keys == s.Keys
    requires forall d :: d in s && d != c && d != t ==> r[d] == s[d]
    requires NodeOk(r, c) && NodeOk(r, t)
    ensures forall d :: d in r ==> NodeOk(r, d)
  {
    forall d | d in r && d != c && d != t ensures NodeOk(r, d) {
      assert NodeOk(s, d);
    }
  }

  /** Links stay right when c's queue lost its first pair, t's queue gained those in extra, and the only
      results that changed are those of c and t. */
  lemma {:induction false} LinksStep(s: Net, r: Net)
    requires LinksOk(s) && r.Keys == s.Keys
    requires forall d :: d in r && Waiting(r[d]) ==> r[d].result.d in r && r[d].result.d != d
    requires forall u, d :: u in r && d in r ==>
      Conts(r[u].callbacks, d) - Conts(s[u].callbacks, d)
        == (if r[d].result == WeakPtr(u) then 1 else 0) - (if s[d].result == WeakPtr(u) then 1 else 0)
    ensures LinksOk(r)
  {
    forall u, d | u in r && d in r ensures Conts(r[u].callbacks, d) == if r[d].result == WeakPtr(u) then 1 else 0 {
      assert Conts(s[u].callbacks, d) == if s[d].result == WeakPtr(u) then 1 else 0;
    }
  }

  lemma {:induction false} StepContinuationInv(s: Net, c: Deferred, e: Deferred)
    requires Inv(s) && Runnable(s, c) && s[c].callbacks[0] == Continuation(e)
    ensures e in s && Inv(StepContinuation(s, c, e))
  {
    ContinuationHead(s, c, e);
    var r := StepContinuation(s, c, e);
    assert r.Keys == s.Keys;
    assert NodeOk(s, c) && NodeOk(s, e);
    PoppedOk(s, r, c);
    ResultOk(s, r, e);
    NodesOk(s, r, c, e);
    LinksStep(s, r);
  }

  lemma {:induction false} StepSettleInv(s: Net, c: Deferred, v: DeferredValue)
    requires Inv(s) && Runnable(s, c) && s[c].callbacks[0].User? && v.Now?
    ensures Inv(StepSettle(s, c, v))
  {
    var r := StepSettle(s, c, v);
    assert r.Keys == s.Keys;
    assert NodeOk(s, c);
    PoppedOk(s, r, c);
    NodesOk(s, r, c, c);
    LinksStep(s, r);
  }

  lemma {:induction false} StepTakeInv(s: Net, c: Deferred, t: Deferred)
    requires Inv(s) && Runnable(s, c) && s[c].callbacks[0].User? && t in s && t != c && !Pending(s[t])
    ensures Inv(StepTake(s, c, t))
  {
    var r := StepTake(s, c, t);
    assert r.Keys == s.Keys;
    assert NodeOk(s, c) && NodeOk(s, t);
    PoppedOk(s, r, c);
    ResultOk(s, r, t);
    NodesOk(s, r, c, t);
    LinksStep(s, r);
  }

  lemma {:induction false} StepWaitInv(s: Net, c: Deferred, t: Deferred)
    requires Inv(s) && Runnable(s, c) && s[c].callbacks[0].User? && t in s && t != c
    ensures Inv(StepWait(s, c, t))
  {
    var r := StepWait(s, c, t);
    assert r.Keys == s.Keys;
    assert NodeOk(s, c) && NodeOk(s, t);
    PoppedOk(s, r, c);
    AppendedOk(s, r, t, Continuation(c));
    NodesOk(s, r, c, t);
    StepWaitLinks(s, c, t);
  }

  lemma {:induction false} StepWaitLinks(s: Net, c: Deferred, t: Deferred)
    requires LinksOk(s) && c in s && t in s && t != c && NodeOk(s, c) && !Waiting(s[c])
    requires s[c].callbacks != [] && s[c].callbacks[0].User?
    ensures LinksOk(StepWait(s, c, t))
  {
    hide NodeOk, Conts;
    var r := StepWait(s, c, t);
    assert r.Keys == s.Keys;
    forall u, d | u in s && d in s ensures Conts(r[u].callbacks, d) == if r[d].result == WeakPtr(u) then 1 else 0 {
      assert Conts(s[u].callbacks, d) == if s[d].result == WeakPtr(u) then 1 else 0;
      if u == t {
        ContsAppend(s[t].callbacks, Continuation(c), d);
      } else if u == c {
        ContsPopUser(s[c].callbacks, d);
      }
    }
  }

  lemma {:induction false} ContsPopUser(q: seq<Pair>, d: Deferred)
    requires q != [] && q[0].User?
    ensures Conts(q[1..], d) == Conts(q, d)
  {
  }

  lemma {:induction false} StepPairInv(s: Net, c: Deferred)
    requires Inv(s) && Runnable(s, c)
    ensures Inv(StepPair(s, c)) && StepPair(s, c).Keys == s.Keys
  {
    match s[c].callbacks[0]
    case Continuation(e) => StepContinuationInv(s, c, e);
    case User(_, _) =>
      var v := Returned(s[c]);
      if v.Now? { StepSettleInv(s, c, v); }
      else if Pending(s[v.d]) { StepWaitInv(s, c, v.d); }
      else { StepTakeInv(s, c, v.d); }
  }

  // ----- the measure -----

  /** A user pair may still queue a continuation, so it weighs two. */
  ghost function QueueWork(q: seq<Pair>): nat {
    if q == [] then 0 else (if q[0].User? then 2 else 1) + QueueWork(q[1..])
  }

  ghost function Work(s: Net): nat {
    if s.Keys == {} then 0
    else
      var d :| d in s.Keys;
      QueueWork(s[d].callbacks) + Work(s - {d})
  }

  lemma {:induction false} QueueWorkAppend(q: seq<Pair>, x: Pair)
    ensures QueueWork(q + [x]) == QueueWork(q) + if x.User? then 2 else 1
  {
    if q == [] {
      assert [x][1..] == [];
    } else {
      assert (q + [x])[1..] == q[1..] + [x];
      QueueWorkAppend(q[1..], x);
    }
  }

  lemma {:induction false} WorkSplit(s: Net, d: Deferred)
    requires d in s
    ensures Work(s) == QueueWork(s[d].callbacks) + Work(s - {d})
    decreases |s|
  {
    var e :| e in s.Keys && Work(s) == QueueWork(s[e].callbacks) + Work(s - {e});
    if e != d {
      WorkSplit(s - {e}, d);
      WorkSplit(s - {d}, e);
      assert s - {e} - {d} == s - {d} - {e};
    }
  }

  lemma {:induction false} WorkUpdate(s: Net, d: Deferred, n: Node)
    requires d in s
    ensures Work(s[d := n]) == Work(s) - QueueWork(s[d].callbacks) + QueueWork(n.callbacks)
  {
    WorkSplit(s, d);
    WorkSplit(s[d := n], d);
    assert s[d := n] - {d} == s - {d};
  }

  lemma {:induction false} StepPairWork(s: Net, c: Deferred)
    requires Inv(s) && Runnable(s, c)
    ensures Work(StepPair(s, c)) < Work(s)
  {
    var r := StepPair(s, c);
    var q := s[c].callbacks;
    assert QueueWork(q) == (if q[0].User? then 2 else 1) + QueueWork(q[1..]);
    match q[0]
    case Continuation(e) =>
      ContinuationHead(s, c, e);
      var m := s[c := Popped(s[c], Now(Null))];
      WorkUpdate(s, c, m[c]);
      WorkUpdate(m, e, r[e]);
    case User(_, _) =>
      var v := Returned(s[c]);
      if v.Now? {
        WorkUpdate(s, c, r[c]);
      } else if Pending(s[v.d]) {
        var m := s[c := r[c]];
        WorkUpdate(s, c, r[c]);
        WorkUpdate(m, v.d, r[v.d]);
        QueueWorkAppend(s[v.d].callbacks, Continuation(c));
      } else {
        var m := s[v.d := r[v.d]];
        WorkUpdate(s, v.d, r[v.d]);
        WorkUpdate(m, c, r[c]);
      }
  }

  // ----- what every run keeps -----

  /** History only grows: no pair is lost, reordered or run twice. */
  ghost predicate Extends(r: Net, s: Net) {
    && r.Keys == s.Keys
    && forall d :: d in s ==> NodeExtends(r[d], s[d])
  }

  ghost predicate NodeExtends(m: Node, n: Node) {
    && n.ran <= m.ran && n.added <= m.added
    && m.called == n.called && m.userPauses == n.userPauses && m.suppress == n.suppress
  }

  lemma {:induction false} UpdatesExtend(s: Net, c: Deferred, m: Node, t: Deferred, n: Node)
    requires c in s && t in s && c != t && NodeExtends(m, s[c]) && NodeExtends(n, s[t])
    ensures Extends(s[c := m][t := n], s)
  {
  }

  lemma {:induction false} StepPairExtends(s: Net, c: Deferred)
    requires Inv(s) && Runnable(s, c)
    ensures Extends(StepPair(s, c), s)
  {
    match s[c].callbacks[0]
    case Continuation(e) =>
      ContinuationHead(s, c, e);
      UpdatesExtend(s, c, Popped(s[c], Now(Null)), e, StepPair(s, c)[e]);
    case User(_, _) =>
      var v := Returned(s[c]);
      if v.Now? {
      } else if Pending(s[v.d]) {
        UpdatesExtend(s, c, StepPair(s, c)[c], v.d, StepPair(s, c)[v.d]);
      } else {
        UpdatesExtend(s, v.d, StepPair(s, c)[v.d], c, StepPair(s, c)[c]);
      }
  }

  // ----- a whole run -----

  ghost predicate ChainOk(s: Net, chain: seq<Deferred>) {
    forall d :: d in chain ==> d in s && s[d].called
  }

  /** The Deferred that running the next pair of c wakes up, if any. */
  ghost function Chainee(s: Net, c: Deferred): Deferred?
    requires Inv(s) && Runnable(s, c)
  {
    match s[c].callbacks[0]
    case Continuation(e) => e
    case User(_, _) => null
  }

  /** Running the next pair of c leaves c waiting. */
  ghost predicate Waits(s: Net, c: Deferred)
    requires Inv(s) && Runnable(s, c)
  {
    s[c].callbacks[0].User? && Returned(s[c]).IsDeferred() && Pending(s[Returned(s[c]).d])
  }

  /** The chain after c, its last element, has run one pair. */
  ghost function NextChain(s: Net, chain: seq<Deferred>): seq<Deferred>
    requires Inv(s) && chain != [] && Runnable(s, chain[|chain| - 1])
  {
    var c := chain[|chain| - 1];
    if Chainee(s, c) != null then var e: Deferred := Chainee(s, c); chain + [e]
    else if Waits(s, c) then chain[..|chain| - 1]
    else chain
  }

  lemma {:induction false} NextChainOk(s: Net, chain: seq<Deferred>)
    requires Inv(s) && chain != [] && ChainOk(s, chain) && Runnable(s, chain[|chain| - 1])
    ensures Inv(StepPair(s, chain[|chain| - 1]))
    ensures Work(StepPair(s, chain[|chain| - 1])) < Work(s)
    ensures ChainOk(StepPair(s, chain[|chain| - 1]), NextChain(s, chain))
  {
    var c := chain[|chain| - 1];
    StepPairInv(s, c);
    StepPairWork(s, c);
    StepPairExtends(s, c);
    match s[c].callbacks[0]
    case Continuation(e) => ContinuationHead(s, c, e);
    case User(_, _) =>
  }

  /** The network and the chain with which runCallbacks returns. The chain is empty unless the run
      met a paused Deferred. */
  ghost function Run(s: Net, chain: seq<Deferred>): (Net, seq<Deferred>)
    requires Inv(s) && ChainOk(s, chain)
    decreases Work(s), |chain|
  {
    if chain == [] then (s, [])
    else
      var c := chain[|chain| - 1];
      if s[c].paused > 0 then (s, chain)
      else if s[c].callbacks == [] then Run(s, chain[..|chain| - 1])
      else
        NextChainOk(s, chain);
        Run(StepPair(s, c), NextChain(s, chain))
  }

  ghost predicate Ready(s: Net, chain: seq<Deferred>) {
    Inv(s) && ChainOk(s, chain)
  }

  /** The chain to go on with after c, its top, has stopped running pairs. */
  ghost function Onward(init: seq<Deferred>, c: Deferred, chainee: Deferred?): seq<Deferred> {
    if chainee != null then var e: Deferred := chainee; init + [c] + [e] else init
  }

  lemma {:induction false} RunPaused(s: Net, chain: seq<Deferred>)
    requires Ready(s, chain) && chain != [] && s[chain[|chain| - 1]].paused > 0
    ensures Run(s, chain) == (s, chain)
  {
  }

  lemma {:induction false} ReadyTop(s: Net, init: seq<Deferred>, c: Deferred)
    requires Ready(s, init + [c])
    ensures c in s && s[c].called && s[c].paused >= 0
    ensures s[c].paused == 0 ==> !Waiting(s[c])
  {
    assert c in init + [c];
    assert NodeOk(s, c);
  }

  /** One turn of the inner loop with c on top, or its end. */
  lemma {:induction false} RunUnfolds(s: Net, init: seq<Deferred>, c: Deferred)
    requires Ready(s, init + [c]) && c in s && s[c].paused == 0
    ensures s[c].callbacks == [] ==> Ready(s, init) && Run(s, init + [c]) == Run(s, init)
    ensures s[c].callbacks != [] ==>
      && Runnable(s, c)
      && Work(StepPair(s, c)) < Work(s)
      && c in StepPair(s, c)
      && var chain := if Chainee(s, c) != null || Waits(s, c) then Onward(init, c, Chainee(s, c)) else init + [c];
         && Ready(StepPair(s, c), chain) && Run(StepPair(s, c), chain) == Run(s, init + [c])
         && (Chainee(s, c) == null && !Waits(s, c) ==> StepPair(s, c)[c].paused == 0)
  {
    var chain := init + [c];
    assert chain[..|chain| - 1] == init && chain[|chain| - 1] == c;
    assert c in chain;
    if s[c].callbacks != [] {
      NextChainOk(s, chain);
      assert NextChain(s, chain) ==
        if Chainee(s, c) != null || Waits(s, c) then Onward(init, c, Chainee(s, c)) else init + [c];
    }
  }

  // ----- the public operations -----

  /** Runs d's callbacks if it has fired. */
  ghost function Resume(s: Net, d: Deferred): Net
    requires Inv(s) && d in s
  {
    if s[d].called then Run(s, [d]).0 else s
  }

  ghost function Appended(s: Net, d: Deferred, pair: Pair): Net
    requires d in s
  {
    s[d := s[d].(callbacks := s[d].callbacks + [pair], added := s[d].added + [pair])]
  }

  ghost function Fired(s: Net, d: Deferred, p: Payload): Net
    requires d in s
  {
    s[d := s[d].(called := true, result := Now(p))]
  }

  ghost function PausedBy(s: Net, d: Deferred): Net
    requires d in s
  {
    s[d := s[d].(paused := s[d].paused + 1, userPauses := s[d].userPauses + 1)]
  }

  ghost function UnpausedBy(s: Net, d: Deferred): Net
    requires d in s && s[d].userPauses > 0
  {
    s[d := s[d].(paused := s[d].paused - 1, userPauses := s[d].userPauses - 1)]
  }

  ghost predicate MayAdd(s: Net, d: Deferred, pair: Pair) {
    d in s && pair.User? && ClosedPair(pair, s.Keys, d)
  }

  lemma {:induction false} AppendedInv(s: Net, d: Deferred, pair: Pair)
    requires Inv(s) && MayAdd(s, d, pair)
    ensures Inv(Appended(s, d, pair)) && Appended(s, d, pair).Keys == s.Keys
  {
    var r := Appended(s, d, pair);
    assert r.Keys == s.Keys;
    assert NodeOk(s, d);
    AppendedOk(s, r, d, pair);
    NodesOk(s, r, d, d);
    forall e { ContsAppend(s[d].callbacks, pair, e); }
    LinksStep(s, r);
  }

  lemma {:induction false} FiredInv(s: Net, d: Deferred, p: Payload)
    requires Inv(s) && d in s && !s[d].called
    ensures Inv(Fired(s, d, p)) && Fired(s, d, p).Keys == s.Keys
  {
    var r := Fired(s, d, p);
    assert r.Keys == s.Keys;
    assert NodeOk(s, d);
    assert NodeOk(r, d);
    NodesOk(s, r, d, d);
    LinksStep(s, r);
  }

  lemma {:induction false} PausedInv(s: Net, d: Deferred)
    requires Inv(s) && d in s
    ensures Inv(PausedBy(s, d)) && PausedBy(s, d).Keys == s.Keys
  {
    var r := PausedBy(s, d);
    assert NodeOk(s, d);
    assert r.Keys == s.Keys && NodeOk(r, d);
    NodesOk(s, r, d, d);
    LinksStep(s, r);
  }

  lemma {:induction false} UnpausedInv(s: Net, d: Deferred)
    requires Inv(s) && d in s && s[d].userPauses > 0
    ensures Inv(UnpausedBy(s, d)) && UnpausedBy(s, d).Keys == s.Keys
  {
    var r := UnpausedBy(s, d);
    assert NodeOk(s, d);
    assert r.Keys == s.Keys && NodeOk(r, d);
    NodesOk(s, r, d, d);
    LinksStep(s, r);
  }

  /** What a user may do with a Deferred: add a pair, call callback or errback, pause, or take back one
      of the pauses asked for before. */
  datatype Op = Add(pair: Pair) | Fire(p: Payload) | Pause | Unpause

  ghost predicate MayApply(s: Net, d: Deferred, op: Op) {
    d in s &&
    match op
    case Add(pair) => MayAdd(s, d, pair)
    case Fire(p) => !p.Empty?
    case Pause => true
    case Unpause => s[d].userPauses > 0
  }

  ghost function Apply(s: Net, d: Deferred, op: Op): Net
    requires Inv(s) && MayApply(s, d, op)
  {
    match op
    case Add(pair) => AppendedInv(s, d, pair); Resume(Appended(s, d, pair), d)
    case Fire(p) =>
      if !s[d].called then FiredInv(s, d, p); Run(Fired(s, d, p), [d]).0
      else s[d := s[d].(suppress := false)]  // AlreadyCalledError, unless suppressed once by cancel
    case Pause => PausedBy(s, d)
    case Unpause =>
      UnpausedInv(s, d);
      if UnpausedBy(s, d)[d].paused > 0 then UnpausedBy(s, d) else Resume(UnpausedBy(s, d), d)
  }

  lemma {:induction false} SuppressInv(s: Net, d: Deferred, suppress: bool)
    requires Inv(s) && d in s
    ensures Inv(s[d := s[d].(suppress := suppress)])
  {
    var r := s[d := s[d].(suppress := suppress)];
    assert NodeOk(s, d);
    assert r.Keys == s.Keys && NodeOk(r, d);
    NodesOk(s, r, d, d);
    LinksStep(s, r);
  }

  // ----- cancel -----

  const CANCELLED: int := 0

  /** Following the waits from d ends after at most depth steps. */
  ghost predicate WaitEnds(s: Net, d: Deferred, depth: nat) {
    d in s && (Waiting(s[d]) ==> depth > 0 && WaitEnds(s, s[d].result.d, depth - 1))
  }

  /** What an unfired Deferred is fired with when it is cancelled. */
  function CancelsWith(d: Deferred): Payload {
    if d.canceller.Some? && !d.canceller.value.Empty? then d.canceller.value else Error(CANCELLED)
  }

  ghost function Cancelled(s: Net, d: Deferred, depth: nat): Net
    requires Inv(s) && WaitEnds(s, d, depth)
    decreases depth
  {
    assert NodeOk(s, d);
    if !s[d].called then
      SuppressInv(s, d, true);
      Apply(if d.canceller.None? then s[d := s[d].(suppress := true)] else s, d, Fire(CancelsWith(d)))
    else if Waiting(s[d]) then Cancelled(s, s[d].result.d, depth - 1)
    else s
  }
}

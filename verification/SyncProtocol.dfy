/** The life of the sync objects of one Vulkan queue. The present thread takes an object from the
    free pool, submits its fence and queues it; the waiter thread waits for the fences in turn and
    moves the objects to the signaled list, from where the present thread reclaims them. Each
    action below is one critical section, or code of one thread between two of them. */
module SyncProtocol {
  import opened CInt

  /** Sync objects are numbered in the order of their creation. */
  type Sync = nat

  datatype WaiterPc =
    | Blocked                 // waiting for the condition
    | Draining                // has seen a non-empty list, about to pop
    | Holding(sync: Sync)     // waiting for the fence it popped
    | Exited
    | Fault                   // popped from an empty list

  datatype PresentPc =
    | Ready
    | Reclaimed               // injectFence, signaled fences reclaimed
    | InFlight(sync: Sync)    // submitted, not yet queued for the waiter
    | Stopping                // destroyVkSyncObjects, waiter told to stop
    | Joined

  datatype State = State(
    free: seq<Sync>,
    waiting: seq<Sync>,
    signaled: seq<Sync>,
    hasPendingWork: bool,
    running: bool,
    waiter: WaiterPc,
    present: PresentPc,
    submitted: seq<Sync>,     // every fence submitted so far
    waited: seq<Sync>)        // every fence the waiter has finished with

  datatype Action =
    | Reclaim | TakeFree | Enqueue            // injectFence
    | WakeUp | PopWaiting | Signal            // waitForFenceThreadMain
    | Stop | Join                             // destroyVkSyncObjects

  predicate IsWaiterAction(a: Action) {
    a == WakeUp || a == PopWaiting || a == Signal
  }

  predicate Enabled(s: State, a: Action) {
    match a
    case Reclaim => s.present == Ready
    case TakeFree => s.present == Reclaimed
    case Enqueue => s.present.InFlight?
    case WakeUp => s.waiter == Blocked && (s.hasPendingWork || !s.running)
    case PopWaiting => s.waiter == Draining
    case Signal => s.waiter.Holding?
    case Stop => s.present == Ready
    case Join => s.present == Stopping && s.waiter == Exited
  }

  function DrainOrBlock(waiting: seq<Sync>): WaiterPc {
    if waiting == [] then Blocked else Draining
  }

  function Next(s: State, a: Action): State
    requires Enabled(s, a)
  {
    match a
    case Reclaim => s.(free := s.free + s.signaled, signaled := [], present := Reclaimed)
    case TakeFree =>
      if s.free == [] then s.(present := Ready)
      else s.(free := s.free[1..], present := InFlight(s.free[0]), submitted := s.submitted + [s.free[0]])
    case Enqueue => s.(waiting := s.waiting + [s.present.sync], hasPendingWork := true, present := Ready)
    case WakeUp =>
      s.(hasPendingWork := false, waiter := if !s.running then Exited else DrainOrBlock(s.waiting))
    case PopWaiting =>
      if s.waiting == [] then s.(waiter := Fault)
      else s.(waiting := s.waiting[1..], waiter := Holding(s.waiting[0]))
    case Signal =>
      s.(signaled := s.signaled + [s.waiter.sync], waited := s.waited + [s.waiter.sync],
         waiter := DrainOrBlock(s.waiting))
    case Stop => s.(running := false, present := Stopping)
    case Join => s.(present := Joined)
  }

  /** `n` objects in the free pool; hasPendingWork starts with an arbitrary value. */
  ghost predicate Init(s: State, n: nat) {
    && s.free == seq(n, i => i) && s.waiting == [] && s.signaled == []
    && s.running && s.waiter == Blocked && s.present == Ready && s.submitted == [] && s.waited == []
  }

  ghost predicate Reaches(s: State, actions: seq<Action>, t: State)
    decreases |actions|
  {
    if actions == [] then s == t
    else Enabled(s, actions[0]) && Reaches(Next(s, actions[0]), actions[1..], t)
  }

  // --------------------------------------------------------------------- the ring

  function Held(s: State): seq<Sync> {
    if s.waiter.Holding? then [s.waiter.sync] else []
  }

  function InFlightSyncs(s: State): seq<Sync> {
    if s.present.InFlight? then [s.present.sync] else []
  }

  function RingOf(free: seq<Sync>, signaled: seq<Sync>, held: seq<Sync>, waiting: seq<Sync>,
                  inFlight: seq<Sync>): seq<Sync>
  {
    free + signaled + held + waiting + inFlight
  }

  /** All objects, in the order in which they will be submitted next. */
  function Ring(s: State): seq<Sync> {
    RingOf(s.free, s.signaled, Held(s), s.waiting, InFlightSyncs(s))
  }

  lemma ReclaimRing(f: seq<Sync>, g: seq<Sync>, h: seq<Sync>, w: seq<Sync>, i: seq<Sync>)
    ensures RingOf(f + g, [], h, w, i) == RingOf(f, g, h, w, i)
  {
    assert f + g + [] == f + g;
  }

  lemma EnqueueRing(f: seq<Sync>, g: seq<Sync>, h: seq<Sync>, w: seq<Sync>, x: Sync)
    ensures RingOf(f, g, h, w + [x], []) == RingOf(f, g, h, w, [x])
  {
    var r := f + g + h;
    assert r + (w + [x]) + [] == r + w + [x];
  }

  lemma PopRing(f: seq<Sync>, g: seq<Sync>, w: seq<Sync>, i: seq<Sync>)
    requires w != []
    ensures RingOf(f, g, [w[0]], w[1..], i) == RingOf(f, g, [], w, i)
  {
    var r := f + g;
    assert r + [w[0]] + w[1..] == r + [] + w;
  }

  lemma SignalRing(f: seq<Sync>, g: seq<Sync>, x: Sync, w: seq<Sync>, i: seq<Sync>)
    ensures RingOf(f, g + [x], [], w, i) == RingOf(f, g, [x], w, i)
  {
    assert f + (g + [x]) + [] == f + g + [x];
  }

  lemma TakeRing(f: seq<Sync>, g: seq<Sync>, h: seq<Sync>, w: seq<Sync>)
    requires f != []
    ensures var r := RingOf(f, g, h, w, []);
            r != [] && r[0] == f[0] && RingOf(f[1..], g, h, w, [f[0]]) == r[1..] + r[..1]
  {
    var r := RingOf(f, g, h, w, []);
    assert r == f + g + h + w;
    assert r[..1] == [f[0]];
    assert r[1..] == f[1..] + g + h + w;
  }

  /** Every action but taking a free object leaves the ring alone; that one rotates it by one. */
  lemma RingRotates(s: State, a: Action)
    requires Enabled(s, a) && Next(s, a).waiter != Fault
    ensures Ring(Next(s, a)) == if a == TakeFree && s.free != [] then Ring(s)[1..] + Ring(s)[..1] else Ring(s)
  {
    match a
    case Reclaim => ReclaimRing(s.free, s.signaled, Held(s), s.waiting, []);
    case TakeFree => if s.free != [] { TakeRing(s.free, s.signaled, Held(s), s.waiting); }
    case Enqueue => EnqueueRing(s.free, s.signaled, Held(s), s.waiting, s.present.sync);
    case PopWaiting => PopRing(s.free, s.signaled, s.waiting, InFlightSyncs(s));
    case Signal => SignalRing(s.free, s.signaled, s.waiter.sync, s.waiting, InFlightSyncs(s));
    case _ =>
  }

  function Rotated(n: nat, k: nat): (r: seq<Sync>)
    requires n > 0
    ensures |r| == n
  {
    seq(n, i => (i + k) % n)
  }

  lemma RotateOnce(n: nat, k: nat)
    requires n > 0
    ensures Rotated(n, k)[1..] + Rotated(n, k)[..1] == Rotated(n, k + 1)
    ensures Rotated(n, k)[0] == k % n
  {
    var r := Rotated(n, k);
    AddKeepsMod(k, n);
    var l := r[1..] + r[..1];
    forall i | 0 <= i < n ensures l[i] == Rotated(n, k + 1)[i] {
      if i < n - 1 {
        assert l[i] == r[i + 1];
      } else {
        assert n - 1 + (k + 1) == k + n;
      }
    }
  }

  // ---------------------------------------------------------------- what every step keeps

  /** The ring has been rotated once for every submission. */
  ghost predicate RingInv(s: State, n: nat)
    requires n > 0
  {
    && Ring(s) == Rotated(n, |s.submitted|)
    && (forall k :: 0 <= k < |s.submitted| ==> s.submitted[k] == k % n)
  }

  /** The fences form a queue through the two threads. */
  ghost predicate QueueInv(s: State) {
    s.submitted == RingOf([], s.waited, Held(s), s.waiting, InFlightSyncs(s))
  }

  ghost predicate WakeupInv(s: State) {
    && s.waiter != Fault
    && (s.waiting != [] && s.waiter == Blocked ==> s.hasPendingWork)
    && (s.waiter == Draining ==> s.waiting != [])
    && (s.waiter == Exited || s.present == Stopping || s.present == Joined ==> !s.running)
    && (s.present == Joined ==> s.waiter == Exited)
  }

  ghost predicate Inv(s: State, n: nat) {
    n > 0 && WakeupInv(s) && QueueInv(s) && RingInv(s, n)
  }

  lemma RotatedZero(n: nat)
    requires n > 0
    ensures Rotated(n, 0) == Identity(n)
  {
    forall i | 0 <= i < n ensures Rotated(n, 0)[i] == i { ModUnique(i, n, 0, i); }
  }

  lemma InitHasInv(s: State, n: nat)
    requires Init(s, n) && n > 0
    ensures Inv(s, n)
  {
    RotatedZero(n);
    assert s.free == Identity(n);
    assert RingOf(s.free, [], [], [], []) == s.free;
  }

  lemma WakeupKept(s: State, a: Action)
    requires WakeupInv(s) && Enabled(s, a)
    ensures WakeupInv(Next(s, a))
  {
  }

  lemma SubmitQueue(d: seq<Sync>, h: seq<Sync>, w: seq<Sync>, x: Sync)
    ensures RingOf([], d, h, w, [x]) == RingOf([], d, h, w, []) + [x]
  {
    var r := [] + d + h + w;
    assert r + [] == r;
  }

  lemma QueueKept(s: State, a: Action)
    requires QueueInv(s) && WakeupInv(s) && Enabled(s, a)
    ensures QueueInv(Next(s, a))
  {
    match a
    case TakeFree => if s.free != [] { SubmitQueue(s.waited, Held(s), s.waiting, s.free[0]); }
    case Enqueue => EnqueueRing([], s.waited, Held(s), s.waiting, s.present.sync);
    case PopWaiting => PopRing([], s.waited, s.waiting, InFlightSyncs(s));
    case Signal => SignalRing([], s.waited, s.waiter.sync, s.waiting, InFlightSyncs(s));
    case _ =>
  }

  lemma RingKept(s: State, n: nat, a: Action)
    requires n > 0 && RingInv(s, n) && WakeupInv(s) && Enabled(s, a)
    ensures RingInv(Next(s, a), n)
  {
    RingRotates(s, a);
    if a == TakeFree && s.free != [] {
      TakeRing(s.free, s.signaled, Held(s), s.waiting);
      RotateOnce(n, |s.submitted|);
      NextIsRoundRobin(s.submitted, s.free[0], n);
    }
  }

  lemma NextIsRoundRobin(submitted: seq<Sync>, x: Sync, n: nat)
    requires n > 0 && x == |submitted| % n
    requires forall k :: 0 <= k < |submitted| ==> submitted[k] == k % n
    ensures forall k :: 0 <= k <= |submitted| ==> (submitted + [x])[k] == k % n
  {
  }

  lemma StepKeepsInv(s: State, n: nat, a: Action)
    requires Inv(s, n) && Enabled(s, a)
    ensures Inv(Next(s, a), n)
  {
    WakeupKept(s, a);
    QueueKept(s, a);
    RingKept(s, n, a);
  }

  lemma {:induction false} RunKeepsInv(s: State, n: nat, actions: seq<Action>, t: State)
    requires Inv(s, n) && Reaches(s, actions, t)
    ensures Inv(t, n)
    decreases |actions|
  {
    if actions != [] {
      StepKeepsInv(s, n, actions[0]);
      RunKeepsInv(Next(s, actions[0]), n, actions[1..], t);
    }
  }

  /** In every interleaving: no object is lost or duplicated, the k-th fence submitted is object
      k mod n, and the fences are waited for in the order of submission. */
  lemma RoundRobin(s: State, n: nat, actions: seq<Action>, t: State)
    requires n > 0 && Init(s, n) && Reaches(s, actions, t)
    ensures |Ring(t)| == n && forall x: Sync :: x < n ==> multiset(Ring(t))[x] == 1
    ensures forall k :: 0 <= k < |t.submitted| ==> t.submitted[k] == k % n
    ensures t.waited <= t.submitted
  {
    InitHasInv(s, n);
    RunKeepsInv(s, n, actions, t);
    RotatedIsPermutation(n, |t.submitted|);
    forall x: Sync | x < n ensures multiset(Ring(t))[x] == 1 { IdentityHasEachOnce(n, x); }
    DoneIsPrefix(t.waited, Held(t), t.waiting, InFlightSyncs(t));
  }

  lemma DoneIsPrefix(d: seq<Sync>, h: seq<Sync>, w: seq<Sync>, i: seq<Sync>)
    ensures d <= RingOf([], d, h, w, i)
  {
    assert RingOf([], d, h, w, i) == d + (h + w + i);
  }

  function Identity(n: nat): seq<Sync> { seq(n, i => i) }

  lemma {:induction false} IdentityHasEachOnce(n: nat, x: Sync)
    ensures multiset(Identity(n))[x] == if x < n then 1 else 0
  {
    if n > 0 {
      IdentityHasEachOnce(n - 1, x);
      assert Identity(n) == Identity(n - 1) + [n - 1];
    }
  }

  lemma RotationKeepsContents(r: seq<Sync>)
    requires r != []
    ensures multiset(r[1..] + r[..1]) == multiset(r)
  {
    assert r == r[..1] + r[1..];
  }

  lemma {:induction false} RotatedIsPermutation(n: nat, k: nat)
    requires n > 0
    ensures multiset(Rotated(n, k)) == multiset(Identity(n))
  {
    if k == 0 {
      RotatedZero(n);
    } else {
      RotatedIsPermutation(n, k - 1);
      RotateOnce(n, k - 1);
      RotationKeepsContents(Rotated(n, k - 1));
    }
  }

  /** A frame goes without a fence only while every object is on its way through the waiter. */
  lemma SkipsOnlyWhenAllBusy(s: State, n: nat)
    requires Inv(s, n) && Enabled(s, TakeFree)
    ensures Next(s, TakeFree).submitted == s.submitted <==> |s.signaled| + |Held(s)| + |s.waiting| == n
  {
    assert |Ring(s)| == n;
  }

  // ------------------------------------------------------------------ no lost wakeup

  /** As long as not every object is with the waiter, the next frame gets a fence, and it is that of
      the next object in turn: signaled objects are used again at once. */
  lemma SignaledAreReused(s: State, n: nat)
    requires Inv(s, n) && s.present == Ready && |Held(s)| + |s.waiting| < n
    ensures Next(Next(s, Reclaim), TakeFree).submitted == s.submitted + [|s.submitted| % n]
    ensures Next(Next(s, Reclaim), TakeFree).present == InFlight(|s.submitted| % n)
  {
    var r := Next(s, Reclaim);
    StepKeepsInv(s, n, Reclaim);
    assert |Ring(r)| == n && |Ring(r)| == |r.free| + |Held(r)| + |r.waiting|;
    StepKeepsInv(r, n, TakeFree);
    var t := Next(r, TakeFree);
    assert t.submitted[|s.submitted|] == |s.submitted| % n;
  }

  /** How much the waiter still has to do if no further fence is submitted. */
  function Work(s: State): nat {
    3 * |s.waiting| + 2 * |Held(s)| + (if s.hasPendingWork then 1 else 0) + (if s.waiter == Exited then 0 else 1)
  }

  lemma WaiterStepReducesWork(s: State, n: nat, a: Action)
    requires Inv(s, n) && IsWaiterAction(a) && Enabled(s, a)
    ensures Work(Next(s, a)) < Work(s)
  {
  }

  /** The waiter can always move while there is a fence it has not finished with, unless it has
      been told to stop and has left. */
  lemma WaiterIsNeverStuck(s: State, n: nat)
    requires Inv(s, n) && s.waiter != Exited && (s.waiting != [] || s.waiter.Holding?)
    ensures exists a :: IsWaiterAction(a) && Enabled(s, a)
  {
    if s.waiter == Blocked {
      assert Enabled(s, WakeUp);
    } else if s.waiter == Draining {
      assert Enabled(s, PopWaiting);
    } else {
      assert Enabled(s, Signal);
    }
  }

  /** The signaled list once the waiter has finished with everything it has. */
  function Drained(s: State): seq<Sync> {
    RingOf([], s.signaled, Held(s), s.waiting, [])
  }

  lemma WaiterKeepsDrained(s: State, a: Action)
    requires WakeupInv(s) && IsWaiterAction(a) && Enabled(s, a)
    ensures Drained(Next(s, a)) == Drained(s)
  {
    match a
    case PopWaiting => PopRing([], s.signaled, s.waiting, []);
    case Signal => SignalRing([], s.signaled, s.waiter.sync, s.waiting, []);
    case _ =>
  }

  /** Left alone, a running waiter signals everything that was queued, in order, and reports it. */
  lemma {:induction false} QueueDrains(s: State, n: nat) returns (actions: seq<Action>, t: State)
    requires Inv(s, n) && s.running
    ensures |actions| <= Work(s) && forall a <- actions :: IsWaiterAction(a)
    ensures Reaches(s, actions, t)
    ensures t.signaled == Drained(s) && t.waiting == [] && Held(t) == []
    decreases Work(s)
  {
    if s.waiting == [] && Held(s) == [] {
      actions, t := [], s;
      assert Drained(s) == s.signaled;
    } else {
      var a := match s.waiter case Blocked => WakeUp case Draining => PopWaiting case _ => Signal;
      StepKeepsInv(s, n, a);
      WaiterStepReducesWork(s, n, a);
      WaiterKeepsDrained(s, a);
      var rest;
      rest, t := QueueDrains(Next(s, a), n);
      actions := [a] + rest;
      assert actions[1..] == rest && actions[0] == a;
    }
  }

  // --------------------------------------------------------------------- teardown

  /** The objects destroyVkSyncObjects frees after the join: first the fences still waiting are
      moved to the signaled list, then that list to the free pool. */
  function Freed(s: State): seq<Sync> {
    s.free + (s.signaled + s.waiting)
  }

  /** Teardown frees every object exactly once, whatever was going on when it was requested. */
  lemma TeardownFreesEachOnce(s: State, n: nat, actions: seq<Action>, t: State)
    requires n > 0 && Init(s, n) && Reaches(s, actions, t) && t.present == Joined
    ensures |Freed(t)| == n && forall x: Sync :: x < n ==> multiset(Freed(t))[x] == 1
  {
    InitHasInv(s, n);
    RunKeepsInv(s, n, actions, t);
    assert RingOf(t.free, t.signaled, [], t.waiting, []) == Freed(t);
    RoundRobin(s, n, actions, t);
  }

  /** Once it has been told to stop, the waiter exits in at most three steps of its own per fence,
      so the join is reached. */
  lemma {:induction false} StoppedWaiterExits(s: State, n: nat) returns (actions: seq<Action>, t: State)
    requires Inv(s, n) && s.present == Stopping
    ensures |actions| <= Work(s) + 1 && forall a <- actions :: IsWaiterAction(a)
    ensures Reaches(s, actions, t) && Enabled(t, Join)
    decreases if s.waiter == Exited then 0 else Work(s) + 1
  {
    if s.waiter == Exited {
      actions, t := [], s;
    } else {
      var a := match s.waiter case Blocked => WakeUp case Draining => PopWaiting case _ => Signal;
      StepKeepsInv(s, n, a);
      WaiterStepReducesWork(s, n, a);
      var rest;
      rest, t := StoppedWaiterExits(Next(s, a), n);
      actions := [a] + rest;
      assert actions[1..] == rest && actions[0] == a;
    }
  }

  /** Stopping is possible whenever the present thread is not in the middle of a frame. */
  lemma StopIsHeeded(s: State, n: nat)
    requires Inv(s, n) && s.present == Ready
    ensures Enabled(s, Stop) && Next(s, Stop).present == Stopping && !Next(s, Stop).running
  {
  }
}

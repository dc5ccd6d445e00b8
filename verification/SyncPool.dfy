/** SwappyVkBase's lists of sync objects for one queue, and the critical sections that move the
    objects between them. Each method is one action of the protocol, so every interleaving of
    the two threads is a run of the protocol. */
module SyncPool {
  import opened SyncProtocol

  class Pool {
    const size: nat
    var freeSyncPool: seq<Sync>
    var waitingSyncs: seq<Sync>
    var signaledSyncs: seq<Sync>
    var hasPendingWork: bool
    var running: bool
    ghost var waiter: WaiterPc
    ghost var present: PresentPc
    ghost var submitted: seq<Sync>
    ghost var waited: seq<Sync>

    ghost function Protocol(): State
      reads this
    {
      State(freeSyncPool, waitingSyncs, signaledSyncs, hasPendingWork, running, waiter, present, submitted, waited)
    }

    ghost predicate Valid()
      reads this
    {
      Inv(Protocol(), size)
    }

    /** initializeVkSyncObjects creates MAX_PENDING_FENCES = 2 objects; any number works. The
        source leaves hasPendingWork uninitialized. */
    constructor (size: nat, pending: bool)
      requires size > 0
      ensures Valid() && Init(Protocol(), size) && this.size == size
    {
      this.size := size;
      waitingSyncs, signaledSyncs, hasPendingWork, running := [], [], pending, true;
      waiter, present, submitted, waited := Blocked, Ready, [], [];
      freeSyncPool := [];
      new;
      for i := 0 to size
        invariant freeSyncPool == seq(i, j => j)
        invariant waitingSyncs == [] && signaledSyncs == [] && running && submitted == [] && waited == []
        invariant waiter == Blocked && present == Ready
      {
        freeSyncPool := freeSyncPool + [i];
      }
      InitHasInv(Protocol(), size);
    }

    /** The loop of reclaimSignaledFences, under the lock. */
    method MoveSignaledToFree()
      modifies `freeSyncPool, `signaledSyncs
      ensures freeSyncPool == old(freeSyncPool) + old(signaledSyncs) && signaledSyncs == []
    {
      while signaledSyncs != []
        invariant freeSyncPool + signaledSyncs == old(freeSyncPool) + old(signaledSyncs)
        decreases |signaledSyncs|
      {
        var sync := signaledSyncs[0];
        signaledSyncs := signaledSyncs[1..];
        freeSyncPool := freeSyncPool + [sync];
      }
    }

    method ReclaimSignaledFences()
      requires Valid() && Enabled(Protocol(), Reclaim)
      modifies this
      ensures Valid() && Protocol() == Next(old(Protocol()), Reclaim)
    {
      StepKeepsInv(Protocol(), size, Reclaim);
      MoveSignaledToFree();
      present := Reclaimed;
    }

    /** injectFence after reclaiming: takes an object and submits its fence, if there is one. */
    method TakeFreeSync() returns (taken: bool, sync: Sync)
      requires Valid() && Enabled(Protocol(), TakeFree)
      modifies this
      ensures Valid() && Protocol() == Next(old(Protocol()), TakeFree)
      ensures taken <==> old(|signaledSyncs| + |Held(Protocol())| + |waitingSyncs|) < size
      ensures taken ==> sync == old(|submitted|) % size && present == InFlight(sync)
    {
      SkipsOnlyWhenAllBusy(Protocol(), size);
      StepKeepsInv(Protocol(), size, TakeFree);
      if |freeSyncPool| == 0 {
        present := Ready;
        return false, 0;
      }
      taken, sync := true, freeSyncPool[0];
      freeSyncPool := freeSyncPool[1..];
      present := InFlight(sync);
      submitted := submitted + [sync];
      assert submitted[old(|submitted|)] == sync;
    }

    /** injectFence's second critical section. */
    method EnqueueSync(sync: Sync)
      requires Valid() && present == InFlight(sync)
      modifies this
      ensures Valid() && Protocol() == Next(old(Protocol()), Enqueue)
    {
      StepKeepsInv(Protocol(), size, Enqueue);
      waitingSyncs := waitingSyncs + [sync];
      hasPendingWork := true;
      present := Ready;
    }

    /** The waiter wakes up: its wait has ended because there is work or it is to stop. */
    method WaiterWakes() returns (stop: bool, waitingSyncsEmpty: bool)
      requires Valid() && Enabled(Protocol(), WakeUp)
      modifies this
      ensures Valid() && Protocol() == Next(old(Protocol()), WakeUp)
      ensures stop == !running && (stop <==> waiter == Exited)
      ensures !stop ==> (waitingSyncsEmpty <==> waiter == Blocked) && (!waitingSyncsEmpty <==> waiter == Draining)
    {
      StepKeepsInv(Protocol(), size, WakeUp);
      hasPendingWork := false;
      waitingSyncsEmpty := |waitingSyncs| == 0;
      stop := !running;
      waiter := if stop then Exited else DrainOrBlock(waitingSyncs);
    }

    /** The waiter takes the next object; the list is never empty here. */
    method PopWaitingSync() returns (sync: Sync)
      requires Valid() && waiter == Draining
      modifies this
      ensures Valid() && Protocol() == Next(old(Protocol()), PopWaiting)
      ensures waiter == Holding(sync)
    {
      StepKeepsInv(Protocol(), size, PopWaiting);
      sync := waitingSyncs[0];
      waitingSyncs := waitingSyncs[1..];
      waiter := Holding(sync);
    }

    /** After the fence has been waited for and reset. */
    method SignalSync(sync: Sync) returns (waitingSyncsEmpty: bool)
      requires Valid() && waiter == Holding(sync)
      modifies this
      ensures Valid() && Protocol() == Next(old(Protocol()), Signal)
      ensures if waitingSyncsEmpty then waiter == Blocked else waiter == Draining
    {
      StepKeepsInv(Protocol(), size, Signal);
      signaledSyncs := signaledSyncs + [sync];
      waitingSyncsEmpty := |waitingSyncs| == 0;
      waiter, waited := DrainOrBlock(waitingSyncs), waited + [sync];
    }

    method StopWaiter()
      requires Valid() && Enabled(Protocol(), Stop)
      modifies this
      ensures Valid() && Protocol() == Next(old(Protocol()), Stop)
    {
      StepKeepsInv(Protocol(), size, Stop);
      running := false;
      present := Stopping;
    }

    /** destroyVkSyncObjects after the join. The loops over the waiting and the free list work on
        copies, as in the source. */
    method DestroyAfterJoin() returns (freed: seq<Sync>)
      requires Valid() && present == Joined
      modifies `freeSyncPool, `signaledSyncs
      ensures freed == old(Freed(Protocol()))
    {
      var syncList := waitingSyncs;
      while |syncList| > 0
        invariant signaledSyncs + syncList == old(signaledSyncs) + old(waitingSyncs)
        invariant freeSyncPool == old(freeSyncPool)
        decreases |syncList|
      {
        var sync := syncList[0];
        syncList := syncList[1..];
        signaledSyncs := signaledSyncs + [sync];
      }
      MoveSignaledToFree();
      assert freeSyncPool == old(Freed(Protocol()));
      freed := [];
      syncList := freeSyncPool;
      while |syncList| > 0
        invariant freed + syncList == freeSyncPool
        decreases |syncList|
      {
        freed := freed + [syncList[0]];
        syncList := syncList[1..];
      }
    }
  }
}

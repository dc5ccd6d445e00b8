/** The gate around doWork that all filter threads share. Everything happens under mWorkMutex,
    including the reading of the clock, so one call is one atomic step of any filter thread. */
module WorkGate {
  import opened CInt

  /** A run of doWork and the refresh period in force then. */
  datatype WorkRun = WorkRun(at: int, period: int)

  /** Successive runs are more than half the period in force apart. */
  ghost predicate Spaced(runs: seq<WorkRun>) {
    forall i :: 0 < i < |runs| ==> 2 * (runs[i].at - runs[i - 1].at) > runs[i].period
  }

  class Gate {
    var lastWorkRun: int
    var workDuration: int
    ghost var clock: int           // the last time read
    ghost var runs: seq<WorkRun>   // every run so far, by any thread

    ghost predicate Valid()
      reads this
    {
      && lastWorkRun <= clock
      && (runs != [] ==> runs[|runs| - 1].at == lastWorkRun)
      && Spaced(runs)
    }

    constructor (epoch: int)
      ensures Valid() && runs == []
    {
      lastWorkRun, workDuration, clock, runs := epoch, 0, epoch, [];
    }

    /** One pass of a filter thread; `duration` is what doWork returns if it is called. */
    method TryWork(now: int, refreshPeriod: int, duration: int) returns (worked: bool)
      requires Valid() && now >= clock && refreshPeriod > 0
      modifies this
      ensures Valid() && clock == now
      ensures worked <==> now - old(lastWorkRun) > refreshPeriod / 2
      ensures runs == old(runs) + if worked then [WorkRun(now, refreshPeriod)] else []
      ensures workDuration == if worked then duration else old(workDuration)
    {
      clock := now;
      worked := now - lastWorkRun > Quot(refreshPeriod, 2);
      if worked {
        workDuration := duration;
        lastWorkRun := now;
        runs := runs + [WorkRun(now, refreshPeriod)];
      }
    }
  }

  /** Hence `n` runs under one refresh period span more than `(n - 1) / 2` periods, however many
      threads there are. */
  lemma {:induction false} RunsSpan(runs: seq<WorkRun>, period: int)
    requires Spaced(runs) && |runs| > 1 && period > 0
    requires forall r <- runs :: r.period == period
    ensures 2 * (runs[|runs| - 1].at - runs[0].at) > (|runs| - 1) * period
  {
    var front := runs[..|runs| - 1];
    if |runs| > 2 {
      forall r | r in front ensures r.period == period { assert r in runs; }
      RunsSpan(front, period);
      assert (|runs| - 2) * period + period == (|runs| - 1) * period;
    }
    assert runs[|runs| - 1] in runs;
  }
}

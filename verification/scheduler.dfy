/** The background poller of Regulatory.py/regulatory.py (`scheduler_job`
    and `toggle_scheduler`) as an abstract state machine. The worker thread
    and the shared `stop_event` become two flags; one `Tick` is one pass of
    the worker's loop (check the event, then fetch and sleep). Sleeping and
    thread scheduling are not modelled. Each `fetch_mock_regulation` is
    treated as one atomic step, so a run is a sequence of calls to `Toggle`,
    `Exit` and `Tick`; the lost update when a worker pass and a menu fetch
    load the same list at once is outside this model. */
module Scheduler {
  import opened Regulatory

  /** `threadAlive` is `scheduler_thread is not None and scheduler_thread.is_alive()`;
      `stopSet` is `stop_event.is_set()`. */
  datatype Poller = Poller(threadAlive: bool, stopSet: bool)

  /** At start-up no worker exists and the event is clear. */
  const Initial := Poller(false, false)

  /** `toggle_scheduler()`: asks a live worker to stop, otherwise clears the
      event and starts a fresh worker. */
  function Toggle(p: Poller): (r: Poller)
    ensures r.threadAlive
    ensures r.stopSet <==> p.threadAlive
    ensures p.threadAlive ==> r == p.(stopSet := true)
  {
    if p.threadAlive then p.(stopSet := true) else Poller(true, false)
  }

  /** Menu option 0 sets the event before leaving the menu loop. */
  function Exit(p: Poller): (r: Poller)
    ensures r.stopSet && r.threadAlive == p.threadAlive
  {
    p.(stopSet := true)
  }

  /** One iteration of `scheduler_job`'s loop: a live worker whose event is
      set leaves the loop and ends; otherwise it fetches one mock regulation.
      `suffix` is the random id suffix of that fetch. */
  function Tick(p: Poller, regs: seq<Regulation>, suffix: string): (r: (Poller, seq<Regulation>))
    ensures r.0.stopSet == p.stopSet
    ensures r.0.threadAlive <==> p.threadAlive && !p.stopSet
    ensures p.threadAlive && !p.stopSet ==> r.1 == FetchMockRegulation(regs, suffix)
    ensures !(p.threadAlive && !p.stopSet) ==> r.1 == regs
  {
    if !p.threadAlive then (p, regs)
    else if p.stopSet then (p.(threadAlive := false), regs)
    else (p, FetchMockRegulation(regs, suffix))
  }

  /** `|suffixes|` ticks in a row, the i-th fetch (if any) using `suffixes[i]`. */
  function RunTicks(p: Poller, regs: seq<Regulation>, suffixes: seq<string>): (Poller, seq<Regulation>)
    decreases |suffixes|
  {
    if suffixes == [] then (p, regs)
    else
      var t := Tick(p, regs, suffixes[0]);
      RunTicks(t.0, t.1, suffixes[1..])
  }

  /** The mock records fetched with the given suffixes, in order. */
  function Mocks(suffixes: seq<string>): (r: seq<Regulation>)
    ensures |r| == |suffixes|
    ensures forall i :: 0 <= i < |r| ==> r[i] == MockRegulation(suffixes[i])
  {
    seq(|suffixes|, i requires 0 <= i < |suffixes| => MockRegulation(suffixes[i]))
  }

  /** Once the event is set, the worker fetches nothing more, and after at
      least one tick it has ended. */
  lemma {:induction false} StopIsFinal(p: Poller, regs: seq<Regulation>, suffixes: seq<string>)
    requires p.stopSet
    ensures RunTicks(p, regs, suffixes).1 == regs
    ensures RunTicks(p, regs, suffixes).0.stopSet
    ensures suffixes != [] ==> !RunTicks(p, regs, suffixes).0.threadAlive
    ensures !p.threadAlive ==> RunTicks(p, regs, suffixes).0 == p
    decreases |suffixes|
  {
    if suffixes != [] {
      var t := Tick(p, regs, suffixes[0]);
      StopIsFinal(t.0, t.1, suffixes[1..]);
    }
  }

  /** A live worker whose event stays clear appends one mock record per tick,
      at the end of the store, and keeps running. */
  lemma {:induction false} RunningFetchesEveryTick(p: Poller, regs: seq<Regulation>, suffixes: seq<string>)
    requires p.threadAlive && !p.stopSet
    ensures RunTicks(p, regs, suffixes) == (p, regs + Mocks(suffixes))
    decreases |suffixes|
  {
    if suffixes == [] {
      assert regs + Mocks(suffixes) == regs;
    } else {
      var regs1 := FetchMockRegulation(regs, suffixes[0]);
      assert RunTicks(p, regs, suffixes) == RunTicks(p, regs1, suffixes[1..]);
      RunningFetchesEveryTick(p, regs1, suffixes[1..]);
      MocksCons(suffixes);
      AppendAssoc(regs, MockRegulation(suffixes[0]), Mocks(suffixes[1..]));
    }
  }

  lemma MocksCons(suffixes: seq<string>)
    requires suffixes != []
    ensures Mocks(suffixes) == [MockRegulation(suffixes[0])] + Mocks(suffixes[1..])
  {
    var a := Mocks(suffixes);
    var b := [MockRegulation(suffixes[0])] + Mocks(suffixes[1..]);
    forall i | 0 <= i < |a|
      ensures a[i] == b[i]
    {
      if i > 0 {
        assert b[i] == Mocks(suffixes[1..])[i - 1];
      }
    }
  }

  lemma AppendAssoc<T>(xs: seq<T>, m: T, ys: seq<T>)
    ensures (xs + [m]) + ys == xs + ([m] + ys)
  {
  }

  /** Toggling twice before the worker has seen the event does not start a
      second worker: the live worker is only asked to stop again. */
  lemma ToggleWhileStopping(p: Poller)
    requires p.threadAlive
    ensures Toggle(Toggle(p)) == Poller(true, true)
  {
  }

  /** Toggling after the worker has ended starts a new one with the event cleared. */
  lemma ToggleRestarts(p: Poller, regs: seq<Regulation>, suffix: string)
    requires p.threadAlive && p.stopSet
    ensures Toggle(Tick(p, regs, suffix).0) == Poller(true, false)
  {
  }
}

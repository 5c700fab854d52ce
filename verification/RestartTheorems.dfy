/**
 Across restarts of the agent, whose samples are numbered from 1 again: until
 the collector notices it forwards nothing and declares nothing; when a health
 read shows it, the cursor lands where everything still held lies ahead.
*/
module RestartTheorems {
  import opened Words
  import opened RingSpec
  import opened CaptureSpec
  import opened Serve
  import opened ForwardSpec
  import opened Pipeline
  import opened AgentLaws
  import opened DeliveryLaws
  import opened PipelineTheorems

  lemma {:induction false} RunGrows(su: Setup, w: World, steps: seq<Step>)
    requires Runs(su, w, steps) && OneLife(steps)
    ensures |w.pushed| <= |After(su, w, steps).pushed|
    decreases |steps|
  {
    if steps != [] {
      assert OneLife(steps[1..]);
      RunGrows(su, Next(su, w, steps[0]), steps[1..]);
    }
  }

  lemma {:induction false} ResyncsGrow(su: Setup, w: World, steps: seq<Step>)
    requires Runs(su, w, steps)
    ensures w.col.stats.resyncs <= After(su, w, steps).col.stats.resyncs
    decreases |steps|
  {
    if steps != [] { ResyncsGrow(su, Next(su, w, steps[0]), steps[1..]); }
  }

  /** At no point of the run has an agent, restarted or not, numbered past n. */
  ghost predicate StaysBelow(su: Setup, w: World, steps: seq<Step>, n: nat)
    requires Runs(su, w, steps)
    decreases |steps|
  {
    |w.pushed| <= n && (steps != [] ==> StaysBelow(su, Next(su, w, steps[0]), steps[1..], n))
  }

  /** Within one life it is enough to look at the end. */
  lemma {:induction false} LifeStaysBelow(su: Setup, w: World, steps: seq<Step>, n: nat)
    requires Runs(su, w, steps) && OneLife(steps) && |After(su, w, steps).pushed| <= n
    ensures StaysBelow(su, w, steps, n)
    decreases |steps|
  {
    RunGrows(su, w, steps);
    if steps != [] {
      assert OneLife(steps[1..]);
      LifeStaysBelow(su, Next(su, w, steps[0]), steps[1..], n);
    }
  }

  // ---- before the restart is noticed

  /** The collector is as it was when the old agent died, or has taken the answer that was already on its way. */
  ghost predicate AsBefore(u: World, col: Collector) {
    col == u.col || (u.request.Answered? && col == PullOf(u.col, Some(u.request.reply)))
  }

  /** A request to the new agent finds nothing; one the old agent had answered is still as it was. */
  ghost predicate Stale(su: Setup, u: World, w: World) {
    match w.request
    case Quiet => true
    case BatchRead(since, batch, missed) => batch == [] && !missed
    case GapRead(_, _, _) => false
    case Answered(reply) => reply == Reply(None, []) || (u.request == w.request && w.col == u.col)
    case NewestRead(_) => true
    case HealthRead(_) => true
  }

  /** A cursor the new agent has not passed reads nothing, and misses nothing. */
  lemma NothingAbove(pushed: seq<Entry>, capacity: nat, cursor: nat, limit: int)
    requires FromOne(pushed) && |pushed| <= cursor && cursor + 1 < TWO_64
    ensures SinceOf(pushed, capacity, cursor, limit) == ([], false)
  {
    BatchIsSlice(pushed, capacity, cursor, limit);
  }

  /** An answer without lines changes nothing. */
  lemma EmptyReply(c: Collector)
    ensures PullOf(c, Some(Reply(None, []))) == c
  {}

  lemma StepIsSilent(su: Setup, u: World, w: World, step: Step)
    requires AgentInv(su, w.pushed, w.phase, w.caps) && Enabled(su, w, step)
    requires AsBefore(u, w.col) && Stale(su, u, w) && |w.pushed| <= w.col.cursor
    requires Next(su, w, step).col.stats.resyncs == w.col.stats.resyncs
    ensures AsBefore(u, Next(su, w, step).col) && Stale(su, u, Next(su, w, step))
  {
    match step
    case ReadBatch(limit) => NothingAbove(w.pushed, su.capacity, w.col.cursor, limit);
    case Deliver => EmptyReply(w.col);
    case _ =>
  }

  /** The answer on its way when the old agent died takes the cursor no lower. */
  lemma CursorNoLower(su: Setup, u: World, c0: nat, e0: nat, col: Collector)
    requires Life(su, u, c0, e0) && AsBefore(u, col)
    ensures u.col.cursor <= col.cursor
  {
    BatchEndsWithin(su.capacity, u.pushed, u.col.cursor, u.request);
  }

  lemma {:induction false} RunIsSilent(su: Setup, u: World, c0: nat, e0: nat, w: World, steps: seq<Step>)
    requires Life(su, u, c0, e0) && AgentInv(su, w.pushed, w.phase, w.caps) && Runs(su, w, steps)
    requires AsBefore(u, w.col) && Stale(su, u, w) && StaysBelow(su, w, steps, u.col.cursor)
    requires After(su, w, steps).col.stats.resyncs == w.col.stats.resyncs
    ensures AsBefore(u, After(su, w, steps).col)
    decreases |steps|
  {
    if steps != [] {
      var v := Next(su, w, steps[0]);
      ResyncsGrow(su, v, steps[1..]);
      CursorNoLower(su, u, c0, e0, w.col);
      StepGrows(su, w, steps[0]);
      StepIsSilent(su, u, w, steps[0]);
      StepKeepsAgent(su, w, steps[0]);
      RunIsSilent(su, u, c0, e0, v, steps[1..]);
    }
  }

  lemma StepGrows(su: Setup, w: World, step: Step)
    requires Enabled(su, w, step)
    ensures w.col.stats.resyncs <= Next(su, w, step).col.stats.resyncs
  {}

  /**
   From the moment the agent restarts, at any point of a life, until a resync,
   and however often it restarts again: as long as no new agent has numbered past
   the old cursor, nothing is forwarded and no gap is declared but in the one
   answer that was already on its way.
  */
  lemma RestartIsSilent(su: Setup, u: World, c0: nat, e0: nat, steps: seq<Step>)
    requires Life(su, u, c0, e0) && Runs(su, Next(su, u, Restart), steps)
    requires StaysBelow(su, Next(su, u, Restart), steps, u.col.cursor)
    requires After(su, Next(su, u, Restart), steps).col.stats.resyncs == u.col.stats.resyncs
    ensures AsBefore(u, After(su, Next(su, u, Restart), steps).col)
  {
    FreshAgent(su);
    RunIsSilent(su, u, c0, e0, Next(su, u, Restart), steps);
  }

  // ---- when it is noticed

  /** A health read speaks of the agent now running, or is an old one that will move no cursor. */
  ghost predicate Current(su: Setup, w: World) {
    && (w.request.NewestRead? ==> w.request.newest <= |w.pushed|)
    && (w.request.HealthRead? ==>
          || w.col.cursor <= w.request.health.newest
          || (w.request.health.newest <= |w.pushed| && w.request.health.oldest <= OldestOf(w.pushed, su.capacity)))
  }

  lemma StepKeepsCurrent(su: Setup, w: World, step: Step)
    requires AgentInv(su, w.pushed, w.phase, w.caps) && Current(su, w) && Enabled(su, w, step) && !step.Restart?
    ensures Current(su, Next(su, w, step))
  {}

  lemma {:induction false} RunKeepsCurrent(su: Setup, w: World, steps: seq<Step>)
    requires AgentInv(su, w.pushed, w.phase, w.caps) && Current(su, w) && Runs(su, w, steps) && OneLife(steps)
    ensures Current(su, After(su, w, steps))
    decreases |steps|
  {
    if steps != [] {
      StepKeepsCurrent(su, w, steps[0]);
      StepKeepsAgent(su, w, steps[0]);
      assert OneLife(steps[1..]);
      RunKeepsCurrent(su, Next(su, w, steps[0]), steps[1..]);
    }
  }

  /** A health read on its way whose newest number is below the cursor. */
  predicate LowHealth(w: World) {
    w.request.HealthRead? && w.request.health.newest < w.col.cursor
  }

  /** Within a life there is none. */
  lemma LifeHasNoLowHealth(su: Setup, w: World, c0: nat, e0: nat)
    requires Life(su, w, c0, e0)
    ensures !LowHealth(w)
  {}

  /**
   A restart seen. The agent restarts in any world u, after any number of
   restarts before and with anything on its way but a health read below the
   cursor, and runs until a health read arrives whose newest number is below the
   collector's cursor. That read is of the agent now running; the cursor then
   lands just before the oldest number it saw, the collector is connected to that
   agent, and every sample the ring holds at that moment is still ahead of the
   cursor, so HonestForwarding accounts for all of them.
  */
  lemma RestartNoticed(su: Setup, u: World, steps: seq<Step>)
    requires 0 < su.capacity && !LowHealth(u) && Runs(su, Next(su, u, Restart), steps) && OneLife(steps)
    requires LowHealth(After(su, Next(su, u, Restart), steps))
    ensures var z := After(su, Next(su, u, Restart), steps);
            var v := Next(su, z, Resync);
            && z.request.health.newest <= |z.pushed|
            && Connected(su, v)
            && v.col.cursor == Max(z.request.health.oldest - 1, 0)
            && v.col.stats.resyncs == z.col.stats.resyncs + 1
            && v.col.events == z.col.events
            && v.col.cursor <= Gone(su.capacity, |v.pushed|)
  {
    var w := Next(su, u, Restart);
    FreshAgent(su);
    RunKeepsAgent(su, w, steps);
    RunKeepsCurrent(su, w, steps);
  }

  /**
   After that, in every further run of the new agent, each sample held at the resync that the cursor passes is told,
   if the cursor landed above 0.
  */
  lemma RestartAccounted(su: Setup, v: World, steps: seq<Step>, n: nat)
    requires Connected(su, v) && 0 < v.col.cursor <= Gone(su.capacity, |v.pushed|)
    requires Runs(su, v, steps) && OneLife(steps)
    requires Gone(su.capacity, |v.pushed|) < n <= After(su, v, steps).col.cursor
    ensures v.col.events <= After(su, v, steps).col.events
    ensures Told(After(su, v, steps).col.events[|v.col.events|..], n)
  {
    HonestForwarding(su, v, steps);
  }
}

/**
 The theorems about whole runs: one invariant of every interleaving within one
 life of the agent, what follows from it, and what happens across a restart.
*/
module PipelineTheorems {
  import opened Words
  import opened RingSpec
  import opened CaptureSpec
  import opened Serve
  import opened ForwardSpec
  import opened Pipeline
  import opened AgentLaws
  import opened DeliveryLaws
  import opened MarkerLaws

  /** Since the collector's cursor was c0 and its sinks had received e0 events, within one agent life. */
  ghost predicate Life(su: Setup, w: World, c0: nat, e0: nat) {
    && AgentInv(su, w.pushed, w.phase, w.caps)
    && e0 <= |w.col.events|
    && Delivered(su.capacity, w.pushed, c0, w.col.cursor, w.col.events[e0..])
    && Pulled(su.capacity, w.pushed, w.col.cursor, w.request)
    && Annotated(w.caps, c0, w.col.cursor, w.col.events[e0..])
    && (w.request.Answered? ==> Carried(w.caps, w.col.cursor, w.request.reply.lines, false))
  }

  /** Besides, every marker was carried so far. */
  ghost predicate Lossless(w: World, c0: nat, e0: nat) {
    && e0 <= |w.col.events|
    && Complete(w.caps, c0, w.col.cursor, w.col.events[e0..])
    && (w.request.Answered? ==> Carried(w.caps, w.col.cursor, w.request.reply.lines, true))
  }

  /** A quiet collector whose cursor the agent has reached. */
  ghost predicate Connected(su: Setup, w: World) {
    && AgentInv(su, w.pushed, w.phase, w.caps)
    && w.request.Quiet?
    && w.col.cursor <= |w.pushed|
  }

  lemma LifeBegins(su: Setup, w: World)
    requires Connected(su, w)
    ensures Life(su, w, w.col.cursor, |w.col.events|)
    ensures Lossless(w, w.col.cursor, |w.col.events|)
  {}

  // ---- one step of the agent

  lemma FireKeepsAgent(su: Setup, pushed: seq<Entry>, phase: Phase, s: State, f: Fire)
    requires AgentInv(su, pushed, phase, s)
    requires if f.cause.Manual? then f.seqNo <= |pushed| else phase.Sampling? && f.seqNo == |pushed| + 1
    ensures AgentInv(su, pushed, phase, FireOf(su.cfg, s, f))
  {
    if f.cause.Manual? {
      ManualKeeps(su.cfg, pushed, phase, s, f);
    } else {
      HitKeeps(su.cfg, pushed, phase, s, f);
    }
    PhaseKeepsWindows(su, pushed, phase, phase, s.held, |s.history|, |FireOf(su.cfg, s, f).history|);
  }

  lemma BeginKeepsAgent(su: Setup, pushed: seq<Entry>, s: State, e: Entry)
    requires AgentInv(su, pushed, Waiting, s) && e.seqNo == |pushed| + 1 && e.seqNo + 1 < TWO_64
    ensures AgentInv(su, pushed, Sampling(e), s)
  {
    PhaseKeepsWindows(su, pushed, Waiting, Sampling(e), s.held, |s.history|, |s.history|);
  }

  lemma PushKeepsAgent(su: Setup, pushed: seq<Entry>, phase: Phase, s: State)
    requires AgentInv(su, pushed, phase, s) && phase.Sampling?
    ensures AgentInv(su, pushed + [phase.next], Stored, s)
  {
    PushKeeps(su.cfg, pushed, phase, s);
    PushKeepsWindows(su, pushed, phase, s.held, |s.history|, phase.next);
  }

  lemma StepKeepsAgent(su: Setup, w: World, step: Step)
    requires AgentInv(su, w.pushed, w.phase, w.caps) && Enabled(su, w, step)
    ensures AgentInv(su, Next(su, w, step).pushed, Next(su, w, step).phase, Next(su, w, step).caps)
  {
    match step
    case Begin(e) => BeginKeepsAgent(su, w.pushed, w.caps, e);
    case Hit(f) => FireKeepsAgent(su, w.pushed, w.phase, w.caps, f);
    case ManualFire(f) => FireKeepsAgent(su, w.pushed, w.phase, w.caps, f);
    case Push => PushKeepsAgent(su, w.pushed, w.phase, w.caps);
    case AfterPush => AfterPushKeeps(su, w.pushed, w.caps);
    case Finalize => FinalizeKeeps(su, w.pushed, w.caps);
    case Delete(id) => DeleteKeeps(su, w.pushed, w.phase, w.caps, id);
    case Restart => FreshAgent(su);
    case _ =>
  }

  // ---- one step of the whole

  lemma FireKeepsLife(su: Setup, w: World, step: Step, c0: nat, e0: nat)
    requires Life(su, w, c0, e0) && Enabled(su, w, step) && (step.Hit? || step.ManualFire?)
    ensures Life(su, Next(su, w, step), c0, e0)
    ensures Lossless(w, c0, e0) ==> Lossless(Next(su, w, step), c0, e0)
  {
    var f := step.fire;
    FireKeepsAgent(su, w.pushed, w.phase, w.caps, f);
    var lines := if w.request.Answered? then w.request.reply.lines else [];
    BatchEndsWithin(su.capacity, w.pushed, w.col.cursor, w.request);
    FireKeepsMarkers(su.cfg, w.caps, f, c0, w.col.cursor, w.col.events[e0..], lines, false);
    FireKeepsMarkers(su.cfg, w.caps, f, c0, w.col.cursor, w.col.events[e0..], lines, true);
  }

  lemma FireKeepsMarkers(cfg: Config, s: State, f: Fire, c0: nat, cursor: nat, ev: seq<Event>, lines: seq<Line>,
                         all: bool)
    requires f.cause.Condition? ==> cursor < f.seqNo && LastOf(Samples(lines)) < f.seqNo
    ensures Carried(s, cursor, lines, all) ==> Carried(FireOf(cfg, s, f), cursor, lines, all)
    ensures Annotated(s, c0, cursor, ev) ==> Annotated(FireOf(cfg, s, f), c0, cursor, ev)
    ensures Complete(s, c0, cursor, ev) ==> Complete(FireOf(cfg, s, f), c0, cursor, ev)
  {
    if Judge(cfg, s, f) == Armed {
      ArmKeeps(s, FireOf(cfg, s, f), Marker(|s.history| + 1, f), c0, cursor, ev, lines, all);
    } else {
      SameHistory(s, FireOf(cfg, s, f), c0, cursor, ev, lines, all);
    }
  }

  lemma BatchEndsWithin(capacity: nat, pushed: seq<Entry>, cursor: nat, request: Request)
    requires FromOne(pushed) && Pulled(capacity, pushed, cursor, request) && cursor <= |pushed|
    ensures request.Answered? ==> LastOf(Samples(request.reply.lines)) <= |pushed|
    ensures request.Answered? && Samples(request.reply.lines) != [] ==> cursor <= LastOf(Samples(request.reply.lines))
  {
    if request.Answered? && Samples(request.reply.lines) != [] {
      var batch := Samples(request.reply.lines);
      var lo := batch[0].seqNo - 1;
      assert batch[|batch| - 1] == pushed[lo + |batch| - 1];
    }
  }

  lemma PushKeepsLife(su: Setup, w: World, c0: nat, e0: nat)
    requires Life(su, w, c0, e0) && w.phase.Sampling?
    ensures Life(su, Next(su, w, Push), c0, e0)
  {
    PushKeepsAgent(su, w.pushed, w.phase, w.caps);
    PushKeepsDelivered(su.capacity, w.pushed, c0, w.col.cursor, w.col.events[e0..], w.phase.next);
    PushKeepsPulled(su.capacity, w.pushed, w.col.cursor, w.request, w.phase.next);
  }

  /** Carried, Annotated and Complete look at the history alone. */
  lemma SameHistory(s: State, t: State, c0: nat, cursor: nat, ev: seq<Event>, lines: seq<Line>, all: bool)
    requires s.history == t.history
    ensures Annotated(s, c0, cursor, ev) ==> Annotated(t, c0, cursor, ev)
    ensures Complete(s, c0, cursor, ev) ==> Complete(t, c0, cursor, ev)
    ensures Carried(s, cursor, lines, all) ==> Carried(t, cursor, lines, all)
  {}

  lemma StoreKeepsLife(su: Setup, w: World, step: Step, c0: nat, e0: nat)
    requires Life(su, w, c0, e0) && Enabled(su, w, step) && (step.AfterPush? || step.Finalize? || step.Delete?)
    ensures Life(su, Next(su, w, step), c0, e0)
    ensures Lossless(w, c0, e0) ==> Lossless(Next(su, w, step), c0, e0)
  {
    StepKeepsAgent(su, w, step);
    var t := Next(su, w, step).caps;
    var lines := if w.request.Answered? then w.request.reply.lines else [];
    SameHistory(w.caps, t, c0, w.col.cursor, w.col.events[e0..], lines, false);
    SameHistory(w.caps, t, c0, w.col.cursor, w.col.events[e0..], lines, true);
  }

  /** A step that only replaces the request with a truthful one. */
  lemma RequestKeepsLife(su: Setup, w: World, r: Request, c0: nat, e0: nat)
    requires Life(su, w, c0, e0)
    requires Pulled(su.capacity, w.pushed, w.col.cursor, r)
    requires r.Answered? ==> Carried(w.caps, w.col.cursor, r.reply.lines, false)
    ensures Life(su, w.(request := r), c0, e0)
  {}

  lemma ReadKeepsLife(su: Setup, w: World, step: Step, c0: nat, e0: nat)
    requires Life(su, w, c0, e0) && Enabled(su, w, step) && (step.ReadBatch? || step.ReadGap?)
    ensures Life(su, Next(su, w, step), c0, e0)
  {
    if step.ReadBatch? {
      ReadBatchFinds(su.capacity, w.pushed, w.col.cursor, step.limit);
    } else {
      ReadGapIsHonest(su.capacity, w.pushed, w.request.since, w.request.batch);
    }
    RequestKeepsLife(su, w, Next(su, w, step).request, c0, e0);
  }

  lemma MarkersKeepLife(su: Setup, w: World, c0: nat, e0: nat)
    requires Life(su, w, c0, e0) && Enabled(su, w, ReadMarkers)
    ensures Life(su, Next(su, w, ReadMarkers), c0, e0)
    ensures Carried(w.caps, w.col.cursor, Next(su, w, ReadMarkers).request.reply.lines, Fits(w.caps, w.col.cursor))
  {
    var batch := w.request.batch;
    ReadBatchIsHonest(su.capacity, w.pushed, w.col.cursor, w.request);
    ReplyKeepsSamples(batch, Kept(w.caps), w.col.cursor);
    SliceIsNumbered(w.pushed, w.col.cursor, batch);
    ReadMarkersCarries(w.caps, w.col.cursor, batch);
    RequestKeepsLife(su, w, Next(su, w, ReadMarkers).request, c0, e0);
  }

  lemma ReadBatchIsHonest(capacity: nat, pushed: seq<Entry>, cursor: nat, request: Request)
    requires Pulled(capacity, pushed, cursor, request)
    requires request.GapRead? || (request.BatchRead? && !request.missed)
    ensures request.since == cursor
    ensures Honest(capacity, pushed, cursor, request.batch, if request.GapRead? then request.gap else None)
  {}

  lemma SliceIsNumbered(pushed: seq<Entry>, since: nat, batch: seq<Entry>)
    requires FromOne(pushed) && Slice(pushed, since, batch)
    ensures Numbered(batch)
  {
    if batch != [] {
      var lo := batch[0].seqNo - 1;
      assert forall i :: 0 <= i < |batch| ==> batch[i] == pushed[lo + i];
    }
  }

  lemma DeliverAddsNews(w: World, e0: nat)
    requires w.request.Answered? && e0 <= |w.col.events|
    ensures var r := w.request.reply;
            var z := PullOf(w.col, Some(r));
            && e0 <= |z.events|
            && z.cursor == CursorAfter(w.col.cursor, r.lines)
            && z.events[e0..] == w.col.events[e0..] + (if r.gap.Some? then [GapEvent(r.gap.value)] else [])
               + EventsOf(r.lines)
  {}

  lemma DeliverKeepsLife(su: Setup, w: World, c0: nat, e0: nat)
    requires Life(su, w, c0, e0) && w.request.Answered?
    ensures Life(su, Next(su, w, Deliver), c0, e0)
  {
    var r := w.request.reply;
    var gap := if r.gap.Some? then [GapEvent(r.gap.value)] else [];
    DeliverAddsNews(w, e0);
    BatchEndsWithin(su.capacity, w.pushed, w.col.cursor, w.request);
    DeliverKeeps(su.capacity, w.pushed, c0, w.col.cursor, w.col.events[e0..], r);
    DeliverAnnotates(w.caps, c0, w.col.cursor, w.col.events[e0..], gap, r.lines, false);
  }

  lemma DeliverKeepsLossless(su: Setup, w: World, c0: nat, e0: nat)
    requires w.request.Answered? && Lossless(w, c0, e0)
    ensures Lossless(Next(su, w, Deliver), c0, e0)
  {
    var r := w.request.reply;
    var gap := if r.gap.Some? then [GapEvent(r.gap.value)] else [];
    DeliverAddsNews(w, e0);
    DeliverCompletes(w.caps, c0, w.col.cursor, w.col.events[e0..], gap, r.lines);
  }

  /** Within one life a health read never moves the cursor. */
  lemma ResyncIsIdle(su: Setup, w: World, c0: nat, e0: nat)
    requires Life(su, w, c0, e0) && w.request.HealthRead?
    ensures Next(su, w, Resync) == w.(request := Quiet)
  {}

  lemma StepKeepsLife(su: Setup, w: World, step: Step, c0: nat, e0: nat)
    requires Life(su, w, c0, e0) && Enabled(su, w, step) && !step.Restart?
    ensures Life(su, Next(su, w, step), c0, e0)
    ensures Lossless(w, c0, e0) && (step.ReadMarkers? ==> Fits(w.caps, w.col.cursor)) ==>
              Lossless(Next(su, w, step), c0, e0)
  {
    match step
    case Hit(_) => FireKeepsLife(su, w, step, c0, e0);
    case ManualFire(_) => FireKeepsLife(su, w, step, c0, e0);
    case Push => PushKeepsLife(su, w, c0, e0);
    case AfterPush => StoreKeepsLife(su, w, step, c0, e0);
    case Finalize => StoreKeepsLife(su, w, step, c0, e0);
    case Delete(_) => StoreKeepsLife(su, w, step, c0, e0);
    case ReadBatch(_) => ReadKeepsLife(su, w, step, c0, e0);
    case ReadGap => ReadKeepsLife(su, w, step, c0, e0);
    case ReadMarkers => MarkersKeepLife(su, w, c0, e0);
    case Deliver =>
      DeliverKeepsLife(su, w, c0, e0);
      if Lossless(w, c0, e0) { DeliverKeepsLossless(su, w, c0, e0); }
    case Resync => ResyncIsIdle(su, w, c0, e0);
    case _ => IdleKeepsLife(su, w, step, c0, e0);
  }

  lemma IdleKeepsLife(su: Setup, w: World, step: Step, c0: nat, e0: nat)
    requires Life(su, w, c0, e0) && Enabled(su, w, step)
    requires step.Begin? || step.Fail? || step.ReadNewest? || step.ReadHealth?
    ensures Life(su, Next(su, w, step), c0, e0)
    ensures Lossless(w, c0, e0) ==> Lossless(Next(su, w, step), c0, e0)
  {
    StepKeepsAgent(su, w, step);
  }

  // ---- whole runs

  lemma {:induction false} RunKeepsLife(su: Setup, w: World, steps: seq<Step>, c0: nat, e0: nat)
    requires Life(su, w, c0, e0) && Runs(su, w, steps) && OneLife(steps)
    ensures Life(su, After(su, w, steps), c0, e0)
    decreases |steps|
  {
    if steps != [] {
      StepKeepsLife(su, w, steps[0], c0, e0);
      assert OneLife(steps[1..]);
      RunKeepsLife(su, Next(su, w, steps[0]), steps[1..], c0, e0);
    }
  }

  /**
   In every interleaving within one agent life: what the sinks received is
   pushed samples, unchanged and in strictly rising order, so none twice; every
   number from the first one accounted for up to the cursor was forwarded or
   declared lost; what was declared lost is gone from the ring; the cursor is a
   number the agent has reached; and no health read moved it.
  */
  lemma HonestForwarding(su: Setup, w: World, steps: seq<Step>)
    requires Connected(su, w) && Runs(su, w, steps) && OneLife(steps)
    ensures var z, c0 := After(su, w, steps), w.col.cursor;
            && w.col.events <= z.col.events
            && var ev := z.col.events[|w.col.events|..];
               && c0 <= z.col.cursor <= |z.pushed|
               && InOrder(ev)
               && Genuine(z.pushed, c0, z.col.cursor, ev)
               && Covered(ev, c0, z.col.cursor)
               && GapsTrue(su.capacity, |z.pushed|, c0, ev)
    ensures After(su, w, steps).col.stats.resyncs == w.col.stats.resyncs
  {
    LifeBegins(su, w);
    RunKeepsLife(su, w, steps, w.col.cursor, |w.col.events|);
    RunKeepsLog(su, w, steps, w.col.cursor, |w.col.events|);
  }

  /** Events are only added, and no resync happens. */
  lemma {:induction false} RunKeepsLog(su: Setup, w: World, steps: seq<Step>, c0: nat, e0: nat)
    requires Life(su, w, c0, e0) && Runs(su, w, steps) && OneLife(steps)
    ensures w.col.events <= After(su, w, steps).col.events
    ensures After(su, w, steps).col.stats.resyncs == w.col.stats.resyncs
    decreases |steps|
  {
    if steps != [] {
      var v := Next(su, w, steps[0]);
      StepKeepsLife(su, w, steps[0], c0, e0);
      assert OneLife(steps[1..]);
      StepKeepsLog(su, w, steps[0], c0, e0);
      RunKeepsLog(su, v, steps[1..], c0, e0);
    }
  }

  lemma StepKeepsLog(su: Setup, w: World, step: Step, c0: nat, e0: nat)
    requires Life(su, w, c0, e0) && Enabled(su, w, step) && !step.Restart?
    ensures w.col.events <= Next(su, w, step).col.events
    ensures Next(su, w, step).col.stats.resyncs == w.col.stats.resyncs
  {
    if step.Resync? {
      ResyncIsIdle(su, w, c0, e0);
    }
  }

  /** All markers fit whenever they are read. */
  ghost predicate AllFit(su: Setup, w: World, steps: seq<Step>)
    requires Runs(su, w, steps)
    decreases |steps|
  {
    steps == [] ||
    (&& (steps[0].ReadMarkers? ==> Unsent(w.caps.history, w.col.cursor) <= MAX_MARKERS)
     && AllFit(su, Next(su, w, steps[0]), steps[1..]))
  }

  lemma {:induction false} RunKeepsLossless(su: Setup, w: World, steps: seq<Step>, c0: nat, e0: nat)
    requires Life(su, w, c0, e0) && Lossless(w, c0, e0)
    requires Runs(su, w, steps) && OneLife(steps) && AllFit(su, w, steps)
    ensures Lossless(After(su, w, steps), c0, e0)
    decreases |steps|
  {
    if steps != [] {
      FitsIffFewUnsent(w.caps, w.col.cursor);
      StepKeepsLife(su, w, steps[0], c0, e0);
      assert OneLife(steps[1..]);
      RunKeepsLossless(su, Next(su, w, steps[0]), steps[1..], c0, e0);
    }
  }

  /** How often a marker was received. */
  function Times(ev: seq<Event>, m: Marker): nat {
    if ev == [] then 0 else (if ev[0] == TriggerEvent(m) then 1 else 0) + Times(ev[1..], m)
  }

  lemma {:induction false} TimesIsOnce(ev: seq<Event>, m: Marker)
    requires forall i, j :: 0 <= i < j < |ev| && ev[i].TriggerEvent? && ev[j].TriggerEvent? ==>
               ev[i].marker != ev[j].marker
    ensures Times(ev, m) == if Received(ev, m) then 1 else 0
  {
    if ev != [] {
      var rest := ev[1..];
      assert forall i :: 0 <= i < |rest| ==> rest[i] == ev[i + 1];
      TimesIsOnce(rest, m);
      if Received(ev, m) && ev[0] != TriggerEvent(m) {
        var i :| 0 <= i < |ev| && ev[i] == TriggerEvent(m);
        assert rest[i - 1] == TriggerEvent(m);
      }
      if Received(rest, m) {
        var i :| 0 <= i < |rest| && rest[i] == TriggerEvent(m);
        assert ev[i + 1] == TriggerEvent(m);
      }
    }
  }

  /**
   Every marker a condition armed on a number the cursor passed reaches the
   sinks exactly once, and before every sample numbered at or above its own,
   as long as at most 64 markers were armed since the first unsent one each
   time a pull reads them. Manual fires may interleave anywhere.
  */
  lemma MarkersExactlyOnce(su: Setup, w: World, steps: seq<Step>)
    requires Connected(su, w) && Runs(su, w, steps) && OneLife(steps) && AllFit(su, w, steps)
    ensures var z := After(su, w, steps);
            && w.col.events <= z.col.events
            && var ev := z.col.events[|w.col.events|..];
               forall i :: 0 <= i < |z.caps.history| && Auto(z.caps.history[i])
                           && w.col.cursor < z.caps.history[i].fire.seqNo <= z.col.cursor ==>
                             && Times(ev, z.caps.history[i]) == 1
                             && forall p, q ::
                                  0 <= p < q < |ev| && ev[p].KernelEvent?
                                  && ev[q] == TriggerEvent(z.caps.history[i]) ==>
                                                 ev[p].entry.seqNo < z.caps.history[i].fire.seqNo
  {
    var e0, c0 := |w.col.events|, w.col.cursor;
    LifeBegins(su, w);
    RunKeepsLife(su, w, steps, c0, e0);
    RunKeepsLossless(su, w, steps, c0, e0);
    RunKeepsLog(su, w, steps, c0, e0);
    var z := After(su, w, steps);
    var ev := z.col.events[e0..];
    forall i | 0 <= i < |z.caps.history| && Auto(z.caps.history[i]) && c0 < z.caps.history[i].fire.seqNo <= z.col.cursor
      ensures Times(ev, z.caps.history[i]) == 1
    {
      TimesIsOnce(ev, z.caps.history[i]);
    }
  }

  /** With no hypothesis on how many are armed, no marker of any kind is ever received twice. */
  lemma MarkersNeverTwice(su: Setup, w: World, steps: seq<Step>, m: Marker)
    requires Connected(su, w) && Runs(su, w, steps) && OneLife(steps)
    ensures w.col.events <= After(su, w, steps).col.events
    ensures Times(After(su, w, steps).col.events[|w.col.events|..], m) <= 1
  {
    LifeBegins(su, w);
    RunKeepsLife(su, w, steps, w.col.cursor, |w.col.events|);
    RunKeepsLog(su, w, steps, w.col.cursor, |w.col.events|);
    TimesIsOnce(After(su, w, steps).col.events[|w.col.events|..], m);
  }

  // ---- the agent's side, whatever the collector does and however often the agent restarts

  lemma {:induction false} RunKeepsAgent(su: Setup, w: World, steps: seq<Step>)
    requires AgentInv(su, w.pushed, w.phase, w.caps) && Runs(su, w, steps)
    ensures var z := After(su, w, steps); AgentInv(su, z.pushed, z.phase, z.caps)
    decreases |steps|
  {
    if steps != [] {
      StepKeepsAgent(su, w, steps[0]);
      RunKeepsAgent(su, Next(su, w, steps[0]), steps[1..]);
    }
  }

  ghost predicate Fresh(w: World) {
    w.pushed == [] && w.phase == Waiting && w.caps == INITIAL
  }

  /**
   The capture of a condition is exactly its window, complete exactly when the
   fire is past the first pre samples and the ring is as long as the window.
   Only a sampler that was stopped before the window's end collects less: what
   there is, incomplete.
  */
  ghost predicate HeldExactly(su: Setup, pushed: seq<Entry>, phase: Phase, c: Capture) {
    var f := c.fire.seqNo;
    var end := Min(f + su.cfg.post, |pushed|);
    && 1 <= f
    && (end < f + su.cfg.post ==> phase.Stopped?)
    && WindowStart(su, f, end) < end
    && c.entries == pushed[WindowStart(su, f, end)..end]
    && (c.complete <==> su.cfg.pre < f && f + su.cfg.post <= |pushed| && su.cfg.Window() <= su.capacity)
  }

  /** From a fresh agent, whatever interleaves, every held capture of a condition is so. */
  lemma WindowsAreExact(su: Setup, w: World, steps: seq<Step>)
    requires 0 < su.capacity && Fresh(w) && Runs(su, w, steps)
    ensures var z := After(su, w, steps);
            forall i :: 0 <= i < |z.caps.held| && z.caps.held[i].fire.cause.Condition? ==>
                          HeldExactly(su, z.pushed, z.phase, z.caps.held[i])
  {
    FreshAgent(su);
    RunKeepsAgent(su, w, steps);
    var z := After(su, w, steps);
    forall i | 0 <= i < |z.caps.held| && z.caps.held[i].fire.cause.Condition?
      ensures HeldExactly(su, z.pushed, z.phase, z.caps.held[i])
    {
      CollectedHeld(su, z.pushed, z.phase, z.caps.held[i]);
    }
  }

  lemma CollectedHeld(su: Setup, pushed: seq<Entry>, phase: Phase, c: Capture)
    requires Collected(su, pushed, phase, c) && c.fire.cause.Condition?
    ensures HeldExactly(su, pushed, phase, c)
  {
    var n :| Cut(su, pushed, c, n) && OnTime(su, pushed, phase, c.fire, n);
  }

  /**
   When the ring is as long as the window, what was collected when the window's last sample came reaches back to the
   sample pre before the fire, or to the first.
  */
  lemma FullRingWindow(su: Setup, f: nat)
    requires su.cfg.Window() <= su.capacity && 1 <= f
    ensures WindowStart(su, f, f + su.cfg.post) == if f > su.cfg.pre then f - su.cfg.pre - 1 else 0
    ensures WindowStart(su, f, f + su.cfg.post) < f
  {}

  /** A ring shorter than the window makes no capture complete, of whatever cause and however late. */
  lemma ShortRingNeverComplete(su: Setup, w: World, steps: seq<Step>)
    requires 0 < su.capacity < su.cfg.Window() && Fresh(w) && Runs(su, w, steps)
    ensures var held := After(su, w, steps).caps.held;
            forall i :: 0 <= i < |held| ==> !held[i].complete && |held[i].entries| <= su.capacity
  {
    FreshAgent(su);
    RunKeepsAgent(su, w, steps);
    var z := After(su, w, steps);
    forall i | 0 <= i < |z.caps.held| ensures !z.caps.held[i].complete && |z.caps.held[i].entries| <= su.capacity {
      var n :| Cut(su, z.pushed, z.caps.held[i], n) && OnTime(su, z.pushed, z.phase, z.caps.held[i].fire, n);
    }
  }

  /**
   The shortest buffer the agent accepts, 10 s, with the default 5 s before and
   5 s after, is one sample short: no capture is ever complete.
  */
  lemma TenSecondBufferNeverComplete(rateHz: nat, budget: int, su: Setup, w: World, steps: seq<Step>)
    requires 1 <= rateHz && budget > 0
    requires Configure(rateHz, 5, 5, 10, budget, "first") == Some(su.cfg) && su.capacity == rateHz * 10
    requires Fresh(w) && Runs(su, w, steps)
    ensures var held := After(su, w, steps).caps.held;
            forall i :: 0 <= i < |held| ==> !held[i].complete
  {
    assert su.cfg.Window() == 5 * rateHz + 5 * rateHz + 1 > su.capacity;
    ShortRingNeverComplete(su, w, steps);
  }

  /**
   From a fresh agent, whatever interleaves: two fires of conditions are more
   than post samples apart, and two of the same condition a refractory window.
  */
  lemma FiresAreSpaced(su: Setup, w: World, steps: seq<Step>)
    requires 0 < su.capacity && Fresh(w) && Runs(su, w, steps)
    ensures var h := After(su, w, steps).caps.history;
            forall i, j :: 0 <= i < j < |h| && Auto(h[i]) && Auto(h[j]) ==>
                             && h[i].fire.seqNo + su.cfg.post < h[j].fire.seqNo
                             && (h[i].fire.cause == h[j].fire.cause ==>
                                  h[i].fire.seqNo + su.cfg.refractory <= h[j].fire.seqNo)
  {
    FreshAgent(su);
    RunKeepsAgent(su, w, steps);
  }

  /** A collector may start at any time, with any newest number a health read of this life has seen: it is connected. */
  lemma CollectorStarts(su: Setup, w: World, steps: seq<Step>, newest: nat, stats: Stats)
    requires 0 < su.capacity && Fresh(w) && Runs(su, w, steps)
    requires newest <= |After(su, w, steps).pushed|
    ensures Connected(su, After(su, w, steps).(request := Quiet, col := Collector(newest, [], stats)))
  {
    FreshAgent(su);
    RunKeepsAgent(su, w, steps);
  }
}

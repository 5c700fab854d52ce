/**
 The collector's own counters (internal/forward/forward.go) over whole runs,
 agent restarts included: they say what the sinks were told.
*/
module TallyTheorems {
  import opened Words
  import opened RingSpec
  import opened CaptureSpec
  import opened Serve
  import opened ForwardSpec
  import opened Pipeline

  function Kernels(ev: seq<Event>): nat {
    if ev == [] then 0 else Kernels(ev[..|ev| - 1]) + if ev[|ev| - 1].KernelEvent? then 1 else 0
  }

  function Gaps(ev: seq<Event>): nat {
    if ev == [] then 0 else Gaps(ev[..|ev| - 1]) + if ev[|ev| - 1].GapEvent? then 1 else 0
  }

  function Markers(ev: seq<Event>): nat {
    if ev == [] then 0 else Markers(ev[..|ev| - 1]) + if ev[|ev| - 1].TriggerEvent? then 1 else 0
  }

  /** The number of the last sample told. */
  function LastTold(ev: seq<Event>): nat {
    if ev == [] then 0
    else if ev[|ev| - 1].KernelEvent? then ev[|ev| - 1].entry.seqNo
    else LastTold(ev[..|ev| - 1])
  }

  /** The counters are those of the events told. */
  ghost predicate Tallied(c: Collector) {
    && c.stats.kernel == Kernels(c.events)
    && c.stats.gaps == Gaps(c.events)
    && c.stats.triggers == Markers(c.events)
    && c.stats.lastSeq == LastTold(c.events)
  }

  lemma OneMoreEvent(ev: seq<Event>, e: Event)
    ensures var more := ev + [e];
            && Kernels(more) == Kernels(ev) + (if e.KernelEvent? then 1 else 0)
            && Gaps(more) == Gaps(ev) + (if e.GapEvent? then 1 else 0)
            && Markers(more) == Markers(ev) + (if e.TriggerEvent? then 1 else 0)
            && LastTold(more) == (if e.KernelEvent? then e.entry.seqNo else LastTold(ev))
  {
    var more := ev + [e];
    assert more[..|ev|] == ev && more[|ev|] == e;
  }

  lemma {:induction false} LinesKeepTally(c: Collector, lines: seq<Line>)
    requires Tallied(c)
    ensures Tallied(TakeLines(c, lines))
  {
    if lines == [] {
      assert TakeLines(c, lines) == c;
    } else {
      var n := |lines| - 1;
      assert lines == lines[..n] + [lines[n]];
      LinesKeepTally(c, lines[..n]);
      TakeOneMore(c, lines[..n], lines[n]);
      OneMoreEvent(TakeLines(c, lines[..n]).events, EventOf(lines[n]));
    }
  }

  lemma PullKeepsTally(c: Collector, reply: Option<Reply>)
    requires Tallied(c)
    ensures Tallied(PullOf(c, reply))
  {
    if reply.Some? {
      if reply.value.gap.Some? { OneMoreEvent(c.events, GapEvent(reply.value.gap.value)); }
      LinesKeepTally(TakeGap(c, reply.value.gap), reply.value.lines);
    }
  }

  /** How often in a run a health read shows a newest number below the cursor. */
  function Behind(su: Setup, w: World, steps: seq<Step>): nat
    requires Runs(su, w, steps)
    decreases |steps|
  {
    if steps == [] then 0
    else
      var newer := steps[0].Resync? && w.request.HealthRead? && w.request.health.newest < w.col.cursor;
      (if newer then 1 else 0) + Behind(su, Next(su, w, steps[0]), steps[1..])
  }

  /**
   Over every run, agent restarts and failed pulls included: the counters say how many samples, gaps and
   markers the sinks were told, which sample last, and how often the agent was found restarted.
  */
  lemma {:induction false} RunKeepsTally(su: Setup, w: World, steps: seq<Step>)
    requires Runs(su, w, steps) && Tallied(w.col)
    ensures Tallied(After(su, w, steps).col)
    ensures After(su, w, steps).col.stats.resyncs == w.col.stats.resyncs + Behind(su, w, steps)
    decreases |steps|
  {
    if steps != [] {
      StepKeepsTally(su, w, steps[0]);
      RunKeepsTally(su, Next(su, w, steps[0]), steps[1..]);
    }
  }

  lemma StepKeepsTally(su: Setup, w: World, step: Step)
    requires Enabled(su, w, step) && Tallied(w.col)
    ensures Tallied(Next(su, w, step).col)
  {
    match step
    case Deliver => PullKeepsTally(w.col, Some(w.request.reply));
    case _ =>
  }

  /** A collector just started has told nothing, and its counters say so. */
  lemma StartTallies(newest: nat)
    ensures Tallied(Collector(newest, [], Stats(0, 0, 0, 0, 0)))
  {}
}

/**
 What is declared lost, against what was lost: a collector whose cursor is still
 0 is told of no gap, and a gap line is written some time after its batch was
 read. Both are exact under a condition on the run, given here with the exact
 loss otherwise.
*/
module GapTheorems {
  import opened Words
  import opened RingSpec
  import opened CaptureSpec
  import opened Serve
  import opened ForwardSpec
  import opened Pipeline
  import opened AgentLaws
  import opened DeliveryLaws
  import opened PipelineTheorems

  // ---- a cursor of 0

  /** How many pushes there were at the read whose reply took the cursor off 0, or else at the last read. */
  function ReadAt(su: Setup, w: World, steps: seq<Step>, last: nat): nat
    requires Runs(su, w, steps)
    decreases |steps|
  {
    if steps == [] || w.col.cursor != 0 then last
    else ReadAt(su, Next(su, w, steps[0]), steps[1..], if steps[0].ReadBatch? then |w.pushed| else last)
  }

  function BatchOf(r: Request): seq<Entry> {
    match r
    case BatchRead(_, batch, _) => batch
    case GapRead(_, batch, _) => batch
    case Answered(reply) => Samples(reply.lines)
    case _ => []
  }

  /** No gap told starts at first or below. */
  ghost predicate GapsAbove(ev: seq<Event>, first: nat) {
    forall i :: 0 <= i < |ev| && ev[i].GapEvent? ==> first < ev[i].gap.from
  }

  ghost predicate NoGap(ev: seq<Event>) {
    forall i :: 0 <= i < |ev| ==> !ev[i].GapEvent?
  }

  /**
   With the last read from 0 made at so many pushes: what is on its way, or was told
   first, starts at the oldest entry that read saw.
  */
  ghost predicate FromZero(su: Setup, cursor: nat, request: Request, ev: seq<Event>, at: nat) {
    var first := Gone(su.capacity, at) + 1;
    if cursor == 0 then NoGap(ev) && (BatchOf(request) == [] || BatchOf(request)[0].seqNo == first)
    else FirstSample(ev) == first && GapsAbove(ev, first)
  }

  /** A read from cursor 0 starts at the oldest entry held, and declares no gap. */
  lemma ZeroCursorRead(pushed: seq<Entry>, capacity: nat, limit: int)
    requires FromOne(pushed) && 0 < capacity && pushed != []
    ensures var (batch, missed) := SinceOf(pushed, capacity, 0, limit);
            batch != [] && !missed && batch[0].seqNo == Gone(capacity, |pushed|) + 1
  {
    BatchIsSlice(pushed, capacity, 0, limit);
  }

  lemma {:induction false} FirstSampleIsEvent(pushed: seq<Entry>, cursor: nat, ev: seq<Event>)
    requires InOrder(ev) && Genuine(pushed, 0, cursor, ev)
    ensures NoSample(ev) <==> FirstSample(ev) == 0
    ensures forall i :: 0 <= i < |ev| && ev[i].KernelEvent? ==> 1 <= FirstSample(ev) <= ev[i].entry.seqNo
  {
    if ev != [] && !ev[0].KernelEvent? {
      var rest := ev[1..];
      assert forall i :: 0 <= i < |rest| ==> rest[i] == ev[i + 1];
      FirstSampleIsEvent(pushed, cursor, rest);
      forall i | 0 <= i < |ev| && ev[i].KernelEvent? ensures 1 <= FirstSample(ev) <= ev[i].entry.seqNo {
        assert rest[i - 1] == ev[i];
      }
      assert NoSample(ev) <==> NoSample(rest);
    }
  }


  lemma {:induction false} FirstSampleJoin(a: seq<Event>, b: seq<Event>)
    ensures FirstSample(a + b) == if NoSample(a) then FirstSample(b) else FirstSample(a)
    ensures NoSample(a + b) <==> NoSample(a) && NoSample(b)
    ensures NoGap(a + b) <==> NoGap(a) && NoGap(b)
  {
    assert forall i :: 0 <= i < |a| ==> (a + b)[i] == a[i];
    assert forall i :: 0 <= i < |b| ==> (a + b)[|a| + i] == b[i];
    if a == [] {
      assert a + b == b;
    } else {
      assert (a + b)[1..] == a[1..] + b;
      FirstSampleJoin(a[1..], b);
      assert NoSample(a) <==> !a[0].KernelEvent? && NoSample(a[1..]);
    }
  }

  lemma {:induction false} FirstOfLines(lines: seq<Line>)
    ensures FirstSample(EventsOf(lines)) == if Samples(lines) == [] then 0 else Samples(lines)[0].seqNo
    ensures NoGap(EventsOf(lines))
  {
    if lines != [] {
      FirstOfLines(lines[1..]);
      assert EventsOf(lines)[1..] == EventsOf(lines[1..]);
    }
  }

  lemma DeliverFromZero(capacity: nat, pushed: seq<Entry>, cursor: nat, ev: seq<Event>, reply: Reply, first: nat)
    requires Delivered(capacity, pushed, 0, cursor, ev) && FromOne(pushed) && 1 <= first
    requires Honest(capacity, pushed, cursor, Samples(reply.lines), reply.gap)
    requires if cursor == 0 then NoGap(ev) && (Samples(reply.lines) == [] || Samples(reply.lines)[0].seqNo == first)
             else FirstSample(ev) == first && GapsAbove(ev, first)
    ensures var gap := if reply.gap.Some? then [GapEvent(reply.gap.value)] else [];
            var more := ev + gap + EventsOf(reply.lines);
            if CursorAfter(cursor, reply.lines) == 0 then NoGap(more)
            else FirstSample(more) == first && GapsAbove(more, first)
  {
    var gap := if reply.gap.Some? then [GapEvent(reply.gap.value)] else [];
    FirstOfLines(reply.lines);
    FirstSampleJoin(ev, gap);
    FirstSampleJoin(ev + gap, EventsOf(reply.lines));
    FirstSampleIsEvent(pushed, cursor, ev);
    if cursor == 0 {
      FirstIsNone(pushed, 0, ev);
      if Samples(reply.lines) != [] { LastIsPositive(pushed, Samples(reply.lines)); }
    } else {
      FirstIsPassed(pushed, cursor, ev);
    }
    GapsJoin(ev, gap, EventsOf(reply.lines), first);
  }

  lemma GapsJoin(a: seq<Event>, b: seq<Event>, c: seq<Event>, first: nat)
    requires NoGap(c)
    ensures GapsAbove(a, first) && GapsAbove(b, first) ==> GapsAbove(a + b + c, first)
    ensures NoGap(a) ==> GapsAbove(a, first)
  {
    var t := a + b + c;
    assert forall i :: |a| + |b| <= i < |t| ==> t[i] == c[i - |a| - |b|];
    forall i | GapsAbove(a, first) && GapsAbove(b, first) && 0 <= i < |t| && t[i].GapEvent?
      ensures first < t[i].gap.from
    {
      if i < |a| { assert t[i] == a[i]; } else if i < |a| + |b| { assert t[i] == b[i - |a|]; }
    }
  }

  lemma LastIsPositive(pushed: seq<Entry>, batch: seq<Entry>)
    requires FromOne(pushed) && Slice(pushed, 0, batch) && batch != []
    ensures LastOf(batch) > 0
  {
    var lo := batch[0].seqNo - 1;
    assert batch[|batch| - 1] == pushed[lo + |batch| - 1];
  }

  lemma FirstIsPassed(pushed: seq<Entry>, cursor: nat, ev: seq<Event>)
    requires InOrder(ev) && Genuine(pushed, 0, cursor, ev) && !NoSample(ev)
    ensures FirstSample(ev) <= cursor
  {
    FirstSampleIsEvent(pushed, cursor, ev);
    var i :| 0 <= i < |ev| && ev[i].KernelEvent?;
  }

  lemma ReadBatchFromZero(su: Setup, w: World, limit: int, e0: nat, at: nat)
    requires Life(su, w, 0, e0) && FromZero(su, w.col.cursor, w.request, w.col.events[e0..], at)
    requires Enabled(su, w, ReadBatch(limit))
    ensures var z := Next(su, w, ReadBatch(limit));
            FromZero(su, z.col.cursor, z.request, z.col.events[e0..], if w.col.cursor == 0 then |w.pushed| else at)
  {
    if w.col.cursor == 0 && w.pushed != [] {
      ZeroCursorRead(w.pushed, su.capacity, limit);
    }
  }

  lemma ReadMarkersFromZero(su: Setup, w: World, e0: nat, at: nat)
    requires Life(su, w, 0, e0) && FromZero(su, w.col.cursor, w.request, w.col.events[e0..], at)
    requires Enabled(su, w, ReadMarkers)
    ensures var z := Next(su, w, ReadMarkers);
            FromZero(su, z.col.cursor, z.request, z.col.events[e0..], at)
  {
    ReplyKeepsSamples(w.request.batch, Kept(w.caps), w.request.since);
  }

  lemma DeliveredFromZero(su: Setup, w: World, e0: nat, at: nat)
    requires Life(su, w, 0, e0) && FromZero(su, w.col.cursor, w.request, w.col.events[e0..], at) && w.request.Answered?
    ensures var z := Next(su, w, Deliver);
            FromZero(su, z.col.cursor, z.request, z.col.events[e0..], at)
  {
    DeliverAddsNews(w, e0);
    DeliverFromZero(su.capacity, w.pushed, w.col.cursor, w.col.events[e0..], w.request.reply,
                    Gone(su.capacity, at) + 1);
  }

  lemma StepFromZero(su: Setup, w: World, step: Step, e0: nat, at: nat)
    requires Life(su, w, 0, e0) && FromZero(su, w.col.cursor, w.request, w.col.events[e0..], at)
    requires Enabled(su, w, step) && !step.Restart?
    ensures var z := Next(su, w, step);
            && FromZero(su, z.col.cursor, z.request, z.col.events[e0..],
                        if step.ReadBatch? && w.col.cursor == 0 then |w.pushed| else at)
            && (w.col.cursor != 0 ==> z.col.cursor != 0)
  {
    match step
    case ReadBatch(limit) => ReadBatchFromZero(su, w, limit, e0, at);
    case ReadMarkers => ReadMarkersFromZero(su, w, e0, at);
    case Deliver =>
      DeliveredFromZero(su, w, e0, at);
      BatchEndsWithin(su.capacity, w.pushed, w.col.cursor, w.request);
    case Resync => ResyncIsIdle(su, w, 0, e0);
    case _ =>
  }

  lemma {:induction false} RunFromZero(su: Setup, w: World, steps: seq<Step>, e0: nat, at: nat)
    requires Life(su, w, 0, e0) && FromZero(su, w.col.cursor, w.request, w.col.events[e0..], at)
    requires Runs(su, w, steps) && OneLife(steps)
    ensures var z := After(su, w, steps);
            && Life(su, z, 0, e0)
            && FromZero(su, z.col.cursor, z.request, z.col.events[e0..], ReadAt(su, w, steps, at))
    decreases |steps|
  {
    if steps != [] {
      var next := if steps[0].ReadBatch? && w.col.cursor == 0 then |w.pushed| else at;
      StepFromZero(su, w, steps[0], e0, at);
      StepKeepsLife(su, w, steps[0], 0, e0);
      assert OneLife(steps[1..]);
      RunFromZero(su, Next(su, w, steps[0]), steps[1..], e0, next);
    }
  }

  /**
   From a cursor of 0, in every interleaving within one life: of the numbers up
   to the cursor those are told that the ring still held at the read whose reply
   took the cursor off 0. So all are told exactly when the cursor is still 0 or
   the ring had overwritten nothing at that read.
  */
  lemma ZeroCursorToldIff(su: Setup, w: World, steps: seq<Step>)
    requires Connected(su, w) && w.col.cursor == 0 && Runs(su, w, steps) && OneLife(steps)
    ensures var z, at := After(su, w, steps), ReadAt(su, w, steps, 0);
            && w.col.events <= z.col.events
            && var ev := z.col.events[|w.col.events|..];
               && (forall n :: 1 <= n <= z.col.cursor ==> (Told(ev, n) <==> Gone(su.capacity, at) < n))
               && ((forall n :: 1 <= n <= z.col.cursor ==> Told(ev, n)) <==> z.col.cursor == 0 || at <= su.capacity)
  {
    var e0 := |w.col.events|;
    LifeBegins(su, w);
    RunFromZero(su, w, steps, e0, 0);
    RunKeepsLog(su, w, steps, 0, e0);
    var z, at := After(su, w, steps), ReadAt(su, w, steps, 0);
    ToldFrom(su.capacity, z.pushed, z.col.cursor, z.col.events[e0..], at);
  }

  lemma ToldFrom(capacity: nat, pushed: seq<Entry>, cursor: nat, ev: seq<Event>, at: nat)
    requires Delivered(capacity, pushed, 0, cursor, ev)
    requires cursor != 0 ==> FirstSample(ev) == Gone(capacity, at) + 1 && GapsAbove(ev, Gone(capacity, at) + 1)
    ensures forall n :: 1 <= n <= cursor ==> (Told(ev, n) <==> Gone(capacity, at) < n)
    ensures (forall n :: 1 <= n <= cursor ==> Told(ev, n)) <==> cursor == 0 || at <= capacity
  {
    FirstSampleIsEvent(pushed, cursor, ev);
    forall n | 1 <= n <= cursor ensures Told(ev, n) <==> Gone(capacity, at) < n {
      if Told(ev, n) {
        var i :| 0 <= i < |ev| && Tells(ev[i], n);
      }
    }
    assert cursor != 0 ==> (Told(ev, 1) <==> at <= capacity);
  }

  // ---- the gap line

  /** A step of the agent alone. */
  predicate AgentsOwn(step: Step) {
    step.Begin? || step.Hit? || step.Push? || step.AfterPush? || step.Finalize? || step.ManualFire? || step.Delete?
  }

  predicate AllAgentsOwn(steps: seq<Step>) {
    forall i :: 0 <= i < |steps| ==> AgentsOwn(steps[i])
  }

  function Pushes(steps: seq<Step>): nat {
    if steps == [] then 0 else (if steps[0].Push? then 1 else 0) + Pushes(steps[1..])
  }

  /** While the agent is left to itself, the collector and its request stand still and the pushes grow one by one. */
  lemma {:induction false} AgentAlone(su: Setup, w: World, steps: seq<Step>)
    requires AgentInv(su, w.pushed, w.phase, w.caps) && Runs(su, w, steps) && AllAgentsOwn(steps)
    ensures var z := After(su, w, steps);
            && z.request == w.request && z.col == w.col
            && w.pushed <= z.pushed && |z.pushed| == |w.pushed| + Pushes(steps) && FromOne(z.pushed)
    decreases |steps|
  {
    if steps != [] {
      StepKeepsAgent(su, w, steps[0]);
      assert AllAgentsOwn(steps[1..]);
      AgentAlone(su, Next(su, w, steps[0]), steps[1..]);
    }
  }

  /** The oldest number read after more pushes, against where the batch read before them starts. */
  lemma OldestMovesOn(pushed: seq<Entry>, later: seq<Entry>, capacity: nat, cursor: nat, limit: int)
    requires FromOne(later) && pushed <= later && 0 < capacity && cursor <= |pushed| && cursor + 1 < TWO_64
    requires SinceOf(pushed, capacity, cursor, limit).1
    ensures var batch := SinceOf(pushed, capacity, cursor, limit).0;
            batch != [] && OldestOf(later, capacity) == batch[0].seqNo + (|later| - |pushed|)
  {
    BatchIsSlice(pushed, capacity, cursor, limit);
    assert FromOne(pushed);
    assert Held(pushed, capacity)[0] == pushed[Max(|pushed| - capacity, 0)];
    assert Held(later, capacity)[0] == later[Max(|later| - capacity, 0)];
  }

  /**
   A read that missed samples, in any state a collector can be in, and what the
   agent does before the gap line is written: the gap runs from the cursor on and
   overstates by exactly the samples pushed in between. So it ends just before
   the batch exactly when none was; otherwise the first of the batch, as many as
   were pushed, are declared lost and delivered too.
  */
  lemma GapIsExactIff(su: Setup, w: World, limit: int, between: seq<Step>)
    requires Connected(su, w) && Enabled(su, w, ReadBatch(limit))
    requires SinceOf(w.pushed, su.capacity, w.col.cursor, limit).1
    requires Runs(su, Next(su, w, ReadBatch(limit)), between) && AllAgentsOwn(between)
    ensures var batch := SinceOf(w.pushed, su.capacity, w.col.cursor, limit).0;
            var v := After(su, Next(su, w, ReadBatch(limit)), between);
            && batch != []
            && Enabled(su, v, ReadGap)
            && var r := Next(su, v, ReadGap).request;
               && r.GapRead? && r.batch == batch
               && r.gap == Some(Gap(w.col.cursor + 1, batch[0].seqNo - 1 + Pushes(between)))
               && (r.gap.value.to + 1 == batch[0].seqNo <==> Pushes(between) == 0)
               && (forall k :: 0 <= k < |batch| ==> (batch[k].seqNo <= r.gap.value.to <==> k < Pushes(between)))
  {
    var r := Next(su, w, ReadBatch(limit));
    AgentAlone(su, r, between);
    OldestMovesOn(w.pushed, After(su, r, between).pushed, su.capacity, w.col.cursor, limit);
    BatchNumbers(w.pushed, su.capacity, w.col.cursor, limit);
  }

  lemma BatchNumbers(pushed: seq<Entry>, capacity: nat, cursor: nat, limit: int)
    requires FromOne(pushed) && cursor + 1 < TWO_64
    ensures var batch := SinceOf(pushed, capacity, cursor, limit).0;
            forall k :: 0 <= k < |batch| ==> batch[k].seqNo == batch[0].seqNo + k
  {
    BatchIsSlice(pushed, capacity, cursor, limit);
  }
}

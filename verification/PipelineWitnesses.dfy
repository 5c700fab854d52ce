/**
 What the pipeline does not promise, each as a run that shows it, for a ring of
 any size. GapTheorems and WindowTheorems say exactly when it holds after all.
*/
module PipelineWitnesses {
  import opened Words
  import opened RingSpec
  import opened CaptureSpec
  import opened Serve
  import opened ForwardSpec
  import opened Pipeline
  import opened AgentLaws
  import opened DeliveryLaws
  import opened PipelineTheorems
  import opened GapTheorems
  import opened WindowTheorems

  lemma {:induction false} RunsConcat(su: Setup, w: World, a: seq<Step>, b: seq<Step>)
    requires Runs(su, w, a) && Runs(su, After(su, w, a), b)
    ensures Runs(su, w, a + b)
    ensures After(su, w, a + b) == After(su, After(su, w, a), b)
    decreases |a|
  {
    if a == [] {
      assert a + b == b;
    } else {
      assert (a + b)[1..] == a[1..] + b;
      RunsConcat(su, Next(su, w, a[0]), a[1..], b);
    }
  }

  lemma RunsOne(su: Setup, w: World, step: Step)
    requires Enabled(su, w, step)
    ensures Runs(su, w, [step]) && After(su, w, [step]) == Next(su, w, step)
  {
    assert [step][1..] == [];
    assert Runs(su, Next(su, w, step), []);
  }

  function Tick(e: Entry): seq<Step> {
    [Begin(e)] + [Push] + [AfterPush]
  }

  /** A tick, from the read of the sample to the collection. */
  lemma TickRuns(su: Setup, w: World, e: Entry)
    requires w.phase.Waiting? && e.seqNo == |w.pushed| + 1 && e.seqNo + 1 < TWO_64
    ensures Runs(su, w, Tick(e)) && AllAgentsOwn(Tick(e))
    ensures After(su, w, Tick(e)) == Next(su, w.(pushed := w.pushed + [e], phase := Stored), AfterPush)
  {
    var w1 := Next(su, w, Begin(e));
    var w2 := Next(su, w1, Push);
    RunsOne(su, w, Begin(e));
    RunsOne(su, w1, Push);
    RunsOne(su, w2, AfterPush);
    RunsConcat(su, w, [Begin(e)], [Push]);
    RunsConcat(su, w, [Begin(e)] + [Push], [AfterPush]);
  }

  /** A quiet tick stores one sample. */
  lemma TickStores(su: Setup, w: World, e: Entry)
    requires w.phase.Waiting? && w.caps.pending.None? && e.seqNo == |w.pushed| + 1 && e.seqNo + 1 < TWO_64
    ensures Runs(su, w, Tick(e)) && AllAgentsOwn(Tick(e))
    ensures After(su, w, Tick(e)) == w.(pushed := w.pushed + [e])
  {
    TickRuns(su, w, e);
  }

  /** A pull that finds no gap, from the read to the delivery. */
  function Pulling(limit: int): seq<Step> {
    [ReadBatch(limit)] + [ReadMarkers] + [Deliver]
  }

  lemma PullRuns(su: Setup, w: World, limit: int)
    requires w.request.Quiet? && w.col.cursor + 1 < TWO_64
    requires !SinceOf(w.pushed, su.capacity, w.col.cursor, limit).1
    ensures var batch := SinceOf(w.pushed, su.capacity, w.col.cursor, limit).0;
            && Runs(su, w, Pulling(limit))
            && After(su, w, Pulling(limit))
               == w.(col := PullOf(w.col, Some(Reply(None, LinesOf(batch, Kept(w.caps), w.col.cursor)))))
  {
    var w1 := Next(su, w, ReadBatch(limit));
    var w2 := Next(su, w1, ReadMarkers);
    RunsOne(su, w, ReadBatch(limit));
    RunsOne(su, w1, ReadMarkers);
    RunsOne(su, w2, Deliver);
    RunsConcat(su, w, [ReadBatch(limit)], [ReadMarkers]);
    RunsConcat(su, w, [ReadBatch(limit)] + [ReadMarkers], [Deliver]);
  }

  function Ticking(es: seq<Entry>): seq<Step> {
    if es == [] then [] else Ticking(es[..|es| - 1]) + Tick(es[|es| - 1])
  }

  /** The entries follow on n others in number. */
  ghost predicate NumberedAfter(es: seq<Entry>, n: nat) {
    n + |es| + 1 < TWO_64 && forall i :: 0 <= i < |es| ==> es[i].seqNo == n + i + 1
  }

  /** So many quiet ticks store so many samples. */
  lemma {:induction false} TicksStore(su: Setup, w: World, es: seq<Entry>)
    requires w.phase.Waiting? && w.caps.pending.None? && NumberedAfter(es, |w.pushed|)
    ensures Runs(su, w, Ticking(es)) && AllAgentsOwn(Ticking(es))
    ensures After(su, w, Ticking(es)) == w.(pushed := w.pushed + es)
  {
    if es == [] {
      assert w.pushed + es == w.pushed;
    } else {
      var n := |es| - 1;
      TicksStore(su, w, es[..n]);
      var v := w.(pushed := w.pushed + es[..n]);
      TickStores(su, v, es[n]);
      RunsConcat(su, w, Ticking(es[..n]), Tick(es[n]));
      assert w.pushed + es[..n] + [es[n]] == w.pushed + es;
    }
  }

  // ---- a cursor of 0

  /** The agent's own steps before a read do not matter to where it is made. */
  lemma {:induction false} ReadAtSkips(su: Setup, w: World, a: seq<Step>, b: seq<Step>, last: nat)
    requires w.col.cursor == 0 && AllAgentsOwn(a) && Runs(su, w, a) && Runs(su, After(su, w, a), b)
    ensures Runs(su, w, a + b)
    ensures ReadAt(su, w, a + b, last) == ReadAt(su, After(su, w, a), b, last)
    decreases |a|
  {
    if a == [] {
      assert a + b == b;
    } else {
      assert (a + b)[1..] == a[1..] + b;
      assert AllAgentsOwn(a[1..]);
      ReadAtSkips(su, Next(su, w, a[0]), a[1..], b, last);
    }
  }

  lemma ReadAtPull(su: Setup, w: World, limit: int, last: nat)
    requires w.col.cursor == 0 && Runs(su, w, Pulling(limit))
    ensures ReadAt(su, w, Pulling(limit), last) == |w.pushed|
  {
    var w1 := Next(su, w, ReadBatch(limit));
    var w2 := Next(su, w1, ReadMarkers);
    assert Pulling(limit)[1..] == [ReadMarkers] + [Deliver];
    assert ([ReadMarkers] + [Deliver])[1..] == [Deliver];
    assert [Deliver][1..] == [];
    assert ReadAt(su, w2, [Deliver], |w.pushed|) == |w.pushed|;
    assert ReadAt(su, w1, [ReadMarkers] + [Deliver], |w.pushed|) == |w.pushed|;
  }

  /** The read from 0 after one tick more than the ring holds. */
  lemma ReadPastOne(pushed: seq<Entry>, capacity: nat, limit: int)
    requires FromOne(pushed) && 0 < capacity && |pushed| == capacity + 1
    ensures var (batch, missed) := SinceOf(pushed, capacity, 0, limit);
            !missed && batch != [] && LastOf(batch) >= 2
  {
    BatchIsSlice(pushed, capacity, 0, limit);
  }

  /**
   A cursor of 0 can lose samples in silence, whatever the ring's size: a
   collector that starts on an empty ring, and pulls after one tick more than
   the ring holds, passes sample 1 and is told neither of it nor of a gap.
  */
  lemma SilentLoss(su: Setup, w: World, es: seq<Entry>, limit: int) returns (steps: seq<Step>)
    requires 0 < su.capacity && Fresh(w) && w.request.Quiet? && w.col.cursor == 0
    requires |es| == su.capacity + 1 && NumberedAfter(es, 0)
    ensures Runs(su, w, steps) && OneLife(steps)
    ensures var z := After(su, w, steps);
            && w.col.events <= z.col.events && 2 <= z.col.cursor
            && !Told(z.col.events[|w.col.events|..], 1)
  {
    FreshAgent(su);
    TicksStore(su, w, es);
    assert w.pushed + es == es;
    var v := After(su, w, Ticking(es));
    PullPastOne(su, v, limit);
    RunsConcat(su, w, Ticking(es), Pulling(limit));
    ReadAtSkips(su, w, Ticking(es), Pulling(limit), 0);
    steps := Ticking(es) + Pulling(limit);
    ZeroCursorToldIff(su, w, steps);
  }

  /** The pull after those ticks. */
  lemma PullPastOne(su: Setup, v: World, limit: int)
    requires 0 < su.capacity && v.request.Quiet? && v.col.cursor == 0 && FromOne(v.pushed)
    requires |v.pushed| == su.capacity + 1
    ensures Runs(su, v, Pulling(limit)) && OneLife(Pulling(limit))
    ensures 2 <= After(su, v, Pulling(limit)).col.cursor
    ensures ReadAt(su, v, Pulling(limit), 0) == su.capacity + 1
  {
    ReadPastOne(v.pushed, su.capacity, limit);
    PullRuns(su, v, limit);
    ReadAtPull(su, v, limit, 0);
    ReplyKeepsSamples(SinceOf(v.pushed, su.capacity, 0, limit).0, Kept(v.caps), 0);
  }

  // ---- the gap line

  /** A gap told, from its line to the delivery. */
  function Gapping(): seq<Step> {
    [ReadGap] + [ReadMarkers] + [Deliver]
  }

  lemma GapRuns(su: Setup, w: World)
    requires w.request.BatchRead? && w.request.missed && w.request.batch != [] && w.caps == INITIAL
    ensures Runs(su, w, Gapping())
    ensures var gap := GapLine(true, w.request.since, OldestOf(w.pushed, su.capacity)).value;
            var z := After(su, w, Gapping());
            |z.col.events| >= |w.col.events| + 2
            && z.col.events[|w.col.events|] == GapEvent(gap)
            && z.col.events[|w.col.events| + 1] == KernelEvent(w.request.batch[0])
  {
    var w1 := Next(su, w, ReadGap);
    var w2 := Next(su, w1, ReadMarkers);
    RunsOne(su, w, ReadGap);
    RunsOne(su, w1, ReadMarkers);
    RunsOne(su, w2, Deliver);
    RunsConcat(su, w, [ReadGap], [ReadMarkers]);
    RunsConcat(su, w, [ReadGap] + [ReadMarkers], [Deliver]);
    PlainReply(w.request.batch, w.request.since);
  }

  lemma PlainReply(batch: seq<Entry>, since: nat)
    requires batch != []
    ensures var lines := LinesOf(batch, Kept(INITIAL), since);
            lines != [] && lines[0] == SampleLine(batch[0]) && EventsOf(lines) != []
              && EventsOf(lines)[0] == KernelEvent(batch[0])
  {
    assert Kept(INITIAL) == [];
  }

  /** The read that misses one sample. */
  lemma ReadMissingOne(pushed: seq<Entry>, capacity: nat, limit: int)
    requires FromOne(pushed) && 0 < capacity && |pushed| == capacity + 2
    ensures var (batch, missed) := SinceOf(pushed, capacity, 1, limit);
            missed && batch != [] && batch[0] == pushed[2]
  {
    BatchIsSlice(pushed, capacity, 1, limit);
    assert Held(pushed, capacity)[0] == pushed[2];
  }

  /**
   A gap can overstate, whatever the ring's size: when one sample is pushed
   between the batch and the gap line, sample 3 is both declared lost and
   forwarded.
  */
  lemma GapOverstates(su: Setup, w: World, es: seq<Entry>, e: Entry, limit: int) returns (steps: seq<Step>)
    requires 0 < su.capacity && FromOne(w.pushed) && |w.pushed| == 1 && w.phase.Waiting? && w.caps == INITIAL
    requires w.request.Quiet? && w.col.cursor == 1
    requires |es| == su.capacity + 1 && NumberedAfter(es + [e], 1)
    ensures Runs(su, w, steps) && OneLife(steps)
    ensures var news := After(su, w, steps).col.events;
            && |news| >= |w.col.events| + 2
            && news[|w.col.events|] == GapEvent(Gap(2, 3))
            && news[|w.col.events| + 1] == KernelEvent(es[1]) && es[1].seqNo == 3
  {
    assert forall i :: 0 <= i < |es| ==> (es + [e])[i] == es[i];
    assert (es + [e])[|es|] == e;
    TicksStore(su, w, es);
    var v := After(su, w, Ticking(es));
    GapReadRuns(su, v, e, limit);
    var tail := [ReadBatch(limit)] + Tick(e) + Gapping();
    RunsConcat(su, w, Ticking(es), tail);
    steps := Ticking(es) + tail;
    assert v.pushed[2] == es[1];
  }

  lemma GapReadRuns(su: Setup, v: World, e: Entry, limit: int)
    requires 0 < su.capacity && FromOne(v.pushed + [e]) && |v.pushed| == su.capacity + 2 && |v.pushed| + 2 < TWO_64
    requires v.phase.Waiting? && v.caps == INITIAL && v.request.Quiet? && v.col.cursor == 1
    ensures var steps := [ReadBatch(limit)] + Tick(e) + Gapping();
            && Runs(su, v, steps) && OneLife(steps)
            && var news := After(su, v, steps).col.events;
               && |news| >= |v.col.events| + 2
               && news[|v.col.events|] == GapEvent(Gap(2, 3))
               && news[|v.col.events| + 1] == KernelEvent(v.pushed[2])
  {
    ReadThenTick(su, v, e, limit);
    var x := After(su, v, [ReadBatch(limit)] + Tick(e));
    GapRuns(su, x);
    RunsConcat(su, v, [ReadBatch(limit)] + Tick(e), Gapping());
  }

  lemma ReadThenTick(su: Setup, v: World, e: Entry, limit: int)
    requires 0 < su.capacity && FromOne(v.pushed + [e]) && |v.pushed| == su.capacity + 2 && |v.pushed| + 2 < TWO_64
    requires v.phase.Waiting? && v.caps == INITIAL && v.request.Quiet? && v.col.cursor == 1
    ensures var steps := [ReadBatch(limit)] + Tick(e);
            && Runs(su, v, steps) && OneLife(steps)
            && var x := After(su, v, steps);
               && x.request.BatchRead? && x.request.missed && x.request.since == 1
               && x.request.batch != [] && x.request.batch[0] == v.pushed[2]
               && x.caps == INITIAL && x.col == v.col && OldestOf(x.pushed, su.capacity) == 4
  {
    assert forall i :: 0 <= i < |v.pushed| ==> (v.pushed + [e])[i] == v.pushed[i];
    assert (v.pushed + [e])[|v.pushed|] == e;
    ReadMissingOne(v.pushed, su.capacity, limit);
    RunsOne(su, v, ReadBatch(limit));
    TickStores(su, Next(su, v, ReadBatch(limit)), e);
    RunsConcat(su, v, [ReadBatch(limit)], Tick(e));
    OldestMovesOn(v.pushed, v.pushed + [e], su.capacity, 1, limit);
  }

  // ---- a late window

  /**
   A manual fire on an out-of-date number can lose its whole window, whatever the
   ring's size: with a window of the fire and one sample after it, fired on
   number 1 when 3 samples are held, the next push collects nothing.
  */
  lemma LateWindowLost(su: Setup, w: World, es: seq<Entry>, f: Fire, e: Entry) returns (steps: seq<Step>)
    requires 2 <= su.capacity && su.cfg.pre == 0 && su.cfg.post == 1 && Fresh(w)
    requires |es| == 3 && NumberedAfter(es + [e], 0) && f.cause.Manual? && f.seqNo == 1
    ensures Runs(su, w, steps) && OneLife(steps)
    ensures var z := After(su, w, steps).caps;
            && |z.history| == 1 && z.history[0].fire == f
            && z.pending.None? && z.held == [] && z.refused == map[Empty := 1]
  {
    assert forall i :: 0 <= i < |es| ==> (es + [e])[i] == es[i];
    assert (es + [e])[|es|] == e;
    TicksStore(su, w, es);
    var v := After(su, w, Ticking(es));
    assert v.pushed == es;
    LateFire(su, v, f, e);
    RunsConcat(su, w, Ticking(es), [ManualFire(f)] + Tick(e));
    steps := Ticking(es) + ([ManualFire(f)] + Tick(e));
  }

  lemma LateFire(su: Setup, v: World, f: Fire, e: Entry)
    requires 2 <= su.capacity && su.cfg.pre == 0 && su.cfg.post == 1
    requires FromOne(v.pushed) && |v.pushed| == 3 && v.phase.Waiting? && v.caps == INITIAL
    requires f.cause.Manual? && f.seqNo == 1 && e.seqNo == 4
    ensures var steps := [ManualFire(f)] + Tick(e);
            && Runs(su, v, steps) && OneLife(steps)
            && var z := After(su, v, steps).caps;
               && z.history == [Marker(1, f)]
               && z.pending.None? && z.held == [] && z.refused == map[Empty := 1]
  {
    var u := Next(su, v, ManualFire(f));
    RunsOne(su, v, ManualFire(f));
    TickRuns(su, u, e);
    RunsConcat(su, v, [ManualFire(f)], Tick(e));
    LateCollection(su, u.(pushed := u.pushed + [e], phase := Stored), f);
  }

  lemma LateCollection(su: Setup, w: World, f: Fire)
    requires 2 <= su.capacity && su.cfg.pre == 0 && su.cfg.post == 1
    requires FromOne(w.pushed) && |w.pushed| == 4 && w.phase.Stored?
    requires f.cause.Manual? && f.seqNo == 1 && w.caps == FireOf(su.cfg, INITIAL, f)
    ensures Next(su, w, AfterPush).caps == w.caps.(pending := None, refused := map[Empty := 1])
  {
    assert AgentInv(su, w.pushed, w.phase, INITIAL);
    FireKeepsAgent(su, w.pushed, w.phase, INITIAL, f);
    RefusedEmptyIff(su, w);
  }

  // ---- the largest cursor

  /**
   The largest cursor a client can send is answered like 0, with a gap besides:
   the one cursor for which /snapshot does not answer "the entries above it".
  */
  lemma LargestCursorIff(pushed: seq<Entry>, capacity: nat, after: U64, limit: int)
    requires Numbered(pushed) && pushed != [] && 0 < capacity && LastOf(pushed) + 1 < TWO_64
    ensures SinceOf(pushed, capacity, after, limit).0 == Limited(NewerThan(Held(pushed, capacity), after), limit)
       <==> after + 1 < TWO_64
    ensures after + 1 == TWO_64 ==> SinceOf(pushed, capacity, after, limit).1
  {
    var held := Held(pushed, capacity);
    HeldNumbers(pushed, capacity);
    if after + 1 == TWO_64 {
      FromIsSlice(held, 0, 0);
      FromIsSlice(held, TWO_64, |held|);
    }
  }
}

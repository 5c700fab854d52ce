/**
 Which trigger markers reach the sinks. The agent keeps the last 64; whether a
 condition's marker is told is decided by how many were armed after it when a
 pull asked for the markers of its range, and by nothing else.
*/
module MarkerTheorems {
  import opened Words
  import opened RingSpec
  import opened CaptureSpec
  import opened Serve
  import opened ForwardSpec
  import opened Pipeline
  import opened AgentLaws
  import opened DeliveryLaws
  import opened MarkerLaws
  import opened PipelineTheorems

  /** How many markers had been armed when the markers were last read before the cursor reached number n. */
  function ArmedAt(su: Setup, w: World, steps: seq<Step>, n: nat, last: nat): nat
    requires Runs(su, w, steps)
    decreases |steps|
  {
    if steps == [] || n <= w.col.cursor then last
    else ArmedAt(su, Next(su, w, steps[0]), steps[1..], n, if steps[0].ReadMarkers? then |w.caps.history| else last)
  }

  /** Later markers come after those there are, and a condition's is numbered above all that was pushed. */
  ghost predicate Extends(before: seq<Marker>, after: seq<Marker>, pushes: nat) {
    && before <= after
    && forall i :: |before| <= i < |after| && Auto(after[i]) ==> pushes < after[i].fire.seqNo
  }

  lemma StepExtends(su: Setup, w: World, step: Step)
    requires Enabled(su, w, step) && !step.Restart? && AgentInv(su, w.pushed, w.phase, w.caps)
    ensures Extends(w.caps.history, Next(su, w, step).caps.history, |w.pushed|)
    ensures |w.pushed| <= |Next(su, w, step).pushed|
  {}

  lemma {:induction false} RunExtends(su: Setup, w: World, steps: seq<Step>)
    requires Runs(su, w, steps) && OneLife(steps) && AgentInv(su, w.pushed, w.phase, w.caps)
    ensures Extends(w.caps.history, After(su, w, steps).caps.history, |w.pushed|)
    decreases |steps|
  {
    if steps != [] {
      StepKeepsAgent(su, w, steps[0]);
      StepExtends(su, w, steps[0]);
      assert OneLife(steps[1..]);
      RunExtends(su, Next(su, w, steps[0]), steps[1..]);
    }
  }

  /** m is marker i and was still among the last 64 when so many had been armed. */
  predicate StillKept(i: nat, armed: nat) {
    armed <= i + MAX_MARKERS
  }

  /**
   With so many armed at the last reading of markers: what the reply on its way carries
   of m, or what was told of it.
  */
  ghost predicate Fate(s: State, cursor: nat, request: Request, ev: seq<Event>, m: Marker, i: nat, armed: nat) {
    if cursor < m.fire.seqNo then
      request.Answered? && m.fire.seqNo <= LastOf(Samples(request.reply.lines)) ==>
        (Writes(request.reply.lines, m) <==> StillKept(i, armed))
    else Received(ev, m) <==> StillKept(i, armed)
  }

  lemma KeptIff(s: State, i: nat)
    requires (forall k :: 0 <= k < |s.history| ==> s.history[k].id == k + 1) && i < |s.history|
    ensures Has(Kept(s), s.history[i]) <==> StillKept(i, |s.history|)
  {
    if StillKept(i, |s.history|) {
      KeptHolds(s, i);
    } else if Has(Kept(s), s.history[i]) {
      var k :| 0 <= k < |Kept(s)| && Kept(s)[k] == s.history[i];
      KeptIsLate(s.history, k);
    }
  }

  lemma KeptIsLate(history: seq<Marker>, k: nat)
    requires k < |Suffix(history, MAX_MARKERS)|
    ensures var at := |history| - |Suffix(history, MAX_MARKERS)| + k;
            at + MAX_MARKERS >= |history| && Suffix(history, MAX_MARKERS)[k] == history[at]
  {}

  /** Of one reply: a marker of its range is written exactly when it is still kept. */
  lemma WrittenIffKept(s: State, cursor: nat, batch: seq<Entry>, i: nat)
    requires (forall k :: 0 <= k < |s.history| ==> s.history[k].id == k + 1) && i < |s.history| && batch != []
    requires cursor < s.history[i].fire.seqNo <= LastOf(batch)
    ensures Writes(LinesOf(batch, Kept(s), cursor), s.history[i]) <==> StillKept(i, |s.history|)
  {
    var ms := InRange(Kept(s), cursor, LastOf(batch));
    KeptIff(s, i);
    RangeIsFilter(Kept(s), cursor, LastOf(batch), s.history[i]);
    forall k | 0 <= k < |ms| ensures ms[k].fire.seqNo <= LastOf(batch) {
      assert Has(ms, ms[k]);
      RangeIsFilter(Kept(s), cursor, LastOf(batch), ms[k]);
    }
    WeaveWrites(batch, ms, s.history[i]);
  }

  lemma ReadDecides(su: Setup, w: World, c0: nat, e0: nat, m: Marker, i: nat)
    requires Life(su, w, c0, e0) && Enabled(su, w, ReadMarkers) && w.col.cursor < m.fire.seqNo
    requires m.fire.seqNo <= |w.pushed| ==> i < |w.caps.history| && w.caps.history[i] == m
    ensures Fate(w.caps, w.col.cursor, Next(su, w, ReadMarkers).request, w.col.events[e0..], m, i, |w.caps.history|)
  {
    var batch := w.request.batch;
    ReadBatchIsHonest(su.capacity, w.pushed, w.col.cursor, w.request);
    ReplyKeepsSamples(batch, Kept(w.caps), w.col.cursor);
    if batch != [] && m.fire.seqNo <= LastOf(batch) {
      SliceEndsWithin(w.pushed, w.col.cursor, batch);
      WrittenIffKept(w.caps, w.col.cursor, batch, i);
    }
  }

  lemma SliceEndsWithin(pushed: seq<Entry>, since: nat, batch: seq<Entry>)
    requires FromOne(pushed) && Slice(pushed, since, batch) && batch != []
    ensures LastOf(batch) <= |pushed|
  {
    var lo := batch[0].seqNo - 1;
    assert batch[|batch| - 1] == pushed[lo + |batch| - 1];
  }

  lemma ReceivedJoin(ev: seq<Event>, gap: seq<Event>, lines: seq<Line>, m: Marker)
    requires forall i :: 0 <= i < |gap| ==> gap[i].GapEvent?
    ensures Received(ev + gap + EventsOf(lines), m) <==> Received(ev, m) || Writes(lines, m)
  {
    EventsAreLines(lines);
    var t, k := ev + gap + EventsOf(lines), |ev| + |gap|;
    assert forall i :: 0 <= i < |ev| ==> t[i] == ev[i];
    assert forall i :: |ev| <= i < k ==> t[i] == gap[i - |ev|];
    assert forall p :: 0 <= p < |lines| ==> t[k + p] == EventOf(lines[p]);
    if Received(t, m) {
      var i :| 0 <= i < |t| && t[i] == TriggerEvent(m);
      if k <= i { assert lines[i - k] == TriggerLine(m); }
    }
  }

  lemma DeliveryTells(su: Setup, w: World, c0: nat, e0: nat, m: Marker, i: nat, armed: nat)
    requires Life(su, w, c0, e0) && w.request.Answered?
    requires Fate(w.caps, w.col.cursor, w.request, w.col.events[e0..], m, i, armed)
    ensures var z := Next(su, w, Deliver);
            Fate(z.caps, z.col.cursor, z.request, z.col.events[e0..], m, i, armed) && w.col.cursor <= z.col.cursor
  {
    var r := w.request.reply;
    DeliverAddsNews(w, e0);
    BatchEndsWithin(su.capacity, w.pushed, w.col.cursor, w.request);
    ReceivedJoin(w.col.events[e0..], if r.gap.Some? then [GapEvent(r.gap.value)] else [], r.lines, m);
  }

  lemma StepKeepsFate(su: Setup, w: World, step: Step, c0: nat, e0: nat, m: Marker, i: nat, armed: nat)
    requires Life(su, w, c0, e0) && Fate(w.caps, w.col.cursor, w.request, w.col.events[e0..], m, i, armed)
    requires Enabled(su, w, step) && !step.Restart?
    requires m.fire.seqNo <= |w.pushed| ==> i < |w.caps.history| && w.caps.history[i] == m
    ensures var z := Next(su, w, step);
            var at := if step.ReadMarkers? && w.col.cursor < m.fire.seqNo then |w.caps.history| else armed;
            Fate(z.caps, z.col.cursor, z.request, z.col.events[e0..], m, i, at) && w.col.cursor <= z.col.cursor
  {
    match step
    case ReadMarkers => if w.col.cursor < m.fire.seqNo { ReadDecides(su, w, c0, e0, m, i); }
    case Deliver => DeliveryTells(su, w, c0, e0, m, i, armed);
    case Resync => ResyncIsIdle(su, w, c0, e0);
    case _ =>
  }

  lemma {:induction false} RunKeepsFate(su: Setup, w: World, steps: seq<Step>, c0: nat, e0: nat, m: Marker, i: nat,
                                        armed: nat)
    requires Life(su, w, c0, e0) && Fate(w.caps, w.col.cursor, w.request, w.col.events[e0..], m, i, armed)
    requires Runs(su, w, steps) && OneLife(steps) && Auto(m)
    requires var h := After(su, w, steps).caps.history; i < |h| && h[i] == m
    ensures var z := After(su, w, steps);
            e0 <= |z.col.events| &&
            Fate(z.caps, z.col.cursor, z.request, z.col.events[e0..], m, i, ArmedAt(su, w, steps, m.fire.seqNo, armed))
    decreases |steps|
  {
    if steps != [] {
      var at := if steps[0].ReadMarkers? && w.col.cursor < m.fire.seqNo then |w.caps.history| else armed;
      RunExtends(su, w, steps);
      StepKeepsFate(su, w, steps[0], c0, e0, m, i, armed);
      StepKeepsLife(su, w, steps[0], c0, e0);
      assert OneLife(steps[1..]);
      RunKeepsFate(su, Next(su, w, steps[0]), steps[1..], c0, e0, m, i, at);
    }
  }

  lemma {:induction false} ArmedAtMost(su: Setup, w: World, steps: seq<Step>, n: nat, last: nat)
    requires Runs(su, w, steps) && OneLife(steps) && AgentInv(su, w.pushed, w.phase, w.caps) && last <= |w.caps.history|
    ensures ArmedAt(su, w, steps, n, last) <= |After(su, w, steps).caps.history|
    decreases |steps|
  {
    RunExtends(su, w, steps);
    if steps != [] && w.col.cursor < n {
      StepKeepsAgent(su, w, steps[0]);
      StepExtends(su, w, steps[0]);
      assert OneLife(steps[1..]);
      ArmedAtMost(su, Next(su, w, steps[0]), steps[1..], n, if steps[0].ReadMarkers? then |w.caps.history| else last);
    }
  }

  /**
   In every interleaving within one life, however many markers are armed: a
   marker of a condition, on a number the cursor passed, was told exactly once if
   fewer than 64 had been armed after it when the markers were last read before
   the cursor reached its number, and never otherwise. In particular a marker
   with fewer than 64 after it in all was told.
  */
  lemma MarkerToldIff(su: Setup, w: World, steps: seq<Step>, i: nat)
    requires Connected(su, w) && Runs(su, w, steps) && OneLife(steps)
    requires var z := After(su, w, steps);
             i < |z.caps.history| && Auto(z.caps.history[i])
               && w.col.cursor < z.caps.history[i].fire.seqNo <= z.col.cursor
    ensures var z := After(su, w, steps);
            var m := z.caps.history[i];
            && w.col.events <= z.col.events
            && Times(z.col.events[|w.col.events|..], m)
               == (if ArmedAt(su, w, steps, m.fire.seqNo, 0) <= i + MAX_MARKERS then 1 else 0)
            && (|z.caps.history| <= i + MAX_MARKERS ==> Times(z.col.events[|w.col.events|..], m) == 1)
  {
    var e0, c0, m := |w.col.events|, w.col.cursor, After(su, w, steps).caps.history[i];
    LifeBegins(su, w);
    RunKeepsFate(su, w, steps, c0, e0, m, i, 0);
    RunKeepsLife(su, w, steps, c0, e0);
    RunKeepsLog(su, w, steps, c0, e0);
    TimesIsOnce(After(su, w, steps).col.events[e0..], m);
    ArmedAtMost(su, w, steps, m.fire.seqNo, 0);
  }
}

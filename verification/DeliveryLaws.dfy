/**
 What every run of one agent life keeps on the collector's side: samples are
 forwarded once, in order and unchanged, and every number the cursor passed
 was forwarded or declared lost.
*/
module DeliveryLaws {
  import opened Words
  import opened RingSpec
  import opened CaptureSpec
  import opened Serve
  import opened ForwardSpec
  import opened Pipeline

  /** How many of the pushes are no longer in the ring. */
  function Gone(capacity: nat, pushes: nat): nat {
    Max(pushes - capacity, 0)
  }

  /** A batch is a slice of the pushes above the cursor. */
  ghost predicate Slice(pushed: seq<Entry>, since: nat, batch: seq<Entry>) {
    batch != [] ==>
      var lo := batch[0].seqNo - 1;
      since <= lo <= lo + |batch| <= |pushed| && batch == pushed[lo..lo + |batch|]
  }

  /** Where the batch starts, as a position in the pushes. */
  function Start(since: nat, batch: seq<Entry>): int {
    if batch == [] then since else batch[0].seqNo - 1
  }

  /**
   What the first lock section of a pull found: the batch follows the cursor, or what
   lies between is gone and said so.
  */
  ghost predicate Found(capacity: nat, pushed: seq<Entry>, since: nat, batch: seq<Entry>, missed: bool) {
    && Slice(pushed, since, batch)
    && (missed ==> 0 < since && pushed != [] && Start(since, batch) <= Gone(capacity, |pushed|))
    && (!missed && 0 < since ==> Start(since, batch) == since)
  }

  /** What a reply says: the gap covers all that the batch does not, and only numbers that are gone. */
  ghost predicate Honest(capacity: nat, pushed: seq<Entry>, since: nat, batch: seq<Entry>, gap: Option<Gap>) {
    && Slice(pushed, since, batch)
    && (gap.Some? ==>
         0 < since && gap.value.from == since + 1 && Start(since, batch) <= gap.value.to <= Gone(capacity, |pushed|))
    && (gap.None? && 0 < since ==> Start(since, batch) == since)
  }

  ghost predicate Pulled(capacity: nat, pushed: seq<Entry>, cursor: nat, request: Request) {
    match request
    case Quiet => true
    case BatchRead(since, batch, missed) => since == cursor && Found(capacity, pushed, since, batch, missed)
    case GapRead(since, batch, gap) => since == cursor && Honest(capacity, pushed, since, batch, gap)
    case Answered(reply) => Honest(capacity, pushed, cursor, Samples(reply.lines), reply.gap)
    case NewestRead(newest) => cursor <= newest <= |pushed|
    case HealthRead(h) => cursor <= h.newest
  }

  // ---- reading

  lemma ReadBatchFinds(capacity: nat, pushed: seq<Entry>, cursor: nat, limit: int)
    requires FromOne(pushed) && 0 < capacity && cursor + 1 < TWO_64 && cursor <= |pushed|
    ensures var (batch, missed) := SinceOf(pushed, capacity, cursor, limit);
            Found(capacity, pushed, cursor, batch, missed)
  {
    BatchIsSlice(pushed, capacity, cursor, limit);
    ReadMisses(capacity, pushed, cursor, limit);
    var (batch, missed) := SinceOf(pushed, capacity, cursor, limit);
    BatchAtEdge(|pushed|, capacity, cursor, limit);
    SliceFinds(capacity, pushed, cursor, batch, missed,
               BatchFrom(|pushed|, capacity, cursor), BatchTo(|pushed|, capacity, cursor, limit));
  }

  /** A read says it missed something exactly when the number after a cursor other than 0 is gone. */
  lemma ReadMisses(capacity: nat, pushed: seq<Entry>, cursor: nat, limit: int)
    requires FromOne(pushed) && 0 < capacity && cursor + 1 < TWO_64
    ensures SinceOf(pushed, capacity, cursor, limit).1 <==> 0 < cursor < Gone(capacity, |pushed|)
  {
    if pushed != [] { assert Held(pushed, capacity)[0] == pushed[Gone(capacity, |pushed|)]; }
  }

  /** A batch is empty only at the ring's edge. */
  lemma BatchAtEdge(pushes: nat, capacity: nat, cursor: nat, limit: int)
    requires 0 < capacity && cursor <= pushes
    ensures BatchFrom(pushes, capacity, cursor) == BatchTo(pushes, capacity, cursor, limit) ==> cursor == pushes
  {}

  lemma SliceFinds(capacity: nat, pushed: seq<Entry>, cursor: nat, batch: seq<Entry>, missed: bool, lo: nat, hi: nat)
    requires FromOne(pushed) && 0 < capacity && cursor <= |pushed|
    requires lo <= hi <= |pushed| && batch == pushed[lo..hi] && lo == Max(cursor, Gone(capacity, |pushed|))
    requires missed <==> 0 < cursor < Gone(capacity, |pushed|)
    requires lo == hi ==> cursor == |pushed|
    ensures Found(capacity, pushed, cursor, batch, missed)
  {
    if batch != [] {
      assert batch[0] == pushed[lo];
      assert batch == pushed[lo..lo + |batch|];
    }
  }

  lemma ReadGapIsHonest(capacity: nat, pushed: seq<Entry>, since: nat, batch: seq<Entry>)
    requires FromOne(pushed) && 0 < capacity && Found(capacity, pushed, since, batch, true)
    ensures Honest(capacity, pushed, since, batch, GapLine(true, since, OldestOf(pushed, capacity)))
  {
    assert OldestOf(pushed, capacity) == Gone(capacity, |pushed|) + 1;
  }

  lemma ReplyKeepsSamples(batch: seq<Entry>, kept: seq<Marker>, since: nat)
    ensures Samples(LinesOf(batch, kept, since)) == batch
  {
    WeaveKeepsSamples(batch, InRange(kept, since, LastOf(batch)));
  }

  /** More samples change nothing that was read. */
  lemma PushKeepsPulled(capacity: nat, pushed: seq<Entry>, cursor: nat, request: Request, e: Entry)
    requires Pulled(capacity, pushed, cursor, request)
    ensures Pulled(capacity, pushed + [e], cursor, request)
  {
    match request
    case BatchRead(since, batch, missed) => PushKeepsSlice(pushed, since, batch, e);
    case GapRead(since, batch, gap) => PushKeepsSlice(pushed, since, batch, e);
    case Answered(reply) => PushKeepsSlice(pushed, cursor, Samples(reply.lines), e);
    case _ =>
  }

  lemma PushKeepsSlice(pushed: seq<Entry>, since: nat, batch: seq<Entry>, e: Entry)
    requires Slice(pushed, since, batch)
    ensures Slice(pushed + [e], since, batch)
  {
    if batch != [] {
      var lo := batch[0].seqNo - 1;
      assert (pushed + [e])[lo..lo + |batch|] == pushed[lo..lo + |batch|];
    }
  }

  // ---- what the sinks were told

  predicate Tells(e: Event, n: int) {
    match e
    case KernelEvent(entry) => entry.seqNo == n
    case GapEvent(gap) => gap.from <= n <= gap.to
    case TriggerEvent(_) => false
  }

  /** Number n was forwarded, or lies in a declared gap. */
  ghost predicate Told(ev: seq<Event>, n: int) {
    exists i :: 0 <= i < |ev| && Tells(ev[i], n)
  }

  /** Samples are forwarded in strictly rising order. */
  ghost predicate InOrder(ev: seq<Event>) {
    forall i, j :: 0 <= i < j < |ev| && ev[i].KernelEvent? && ev[j].KernelEvent? ==>
      ev[i].entry.seqNo < ev[j].entry.seqNo
  }

  /** Every sample forwarded is one pushed in this life, unchanged, above c0 and up to the cursor. */
  ghost predicate Genuine(pushed: seq<Entry>, c0: nat, cursor: nat, ev: seq<Event>) {
    forall i :: 0 <= i < |ev| && ev[i].KernelEvent? ==>
                  && c0 < ev[i].entry.seqNo <= cursor && ev[i].entry.seqNo <= |pushed|
                  && ev[i].entry == pushed[ev[i].entry.seqNo - 1]
  }

  ghost predicate NoSample(ev: seq<Event>) {
    forall i :: 0 <= i < |ev| ==> !ev[i].KernelEvent?
  }

  /** The first number the cursor answers for: after c0, or the first sample forwarded when c0 was 0. */
  function Accountable(ev: seq<Event>, c0: nat): nat {
    if 0 < c0 then c0 + 1 else FirstSample(ev)
  }

  function FirstSample(ev: seq<Event>): nat {
    if ev == [] then 0 else if ev[0].KernelEvent? then ev[0].entry.seqNo else FirstSample(ev[1..])
  }

  ghost predicate Covered(ev: seq<Event>, c0: nat, cursor: nat) {
    forall n :: Accountable(ev, c0) <= n <= cursor ==> n == 0 || Told(ev, n)
  }

  /** A declared gap lies above c0, never starts at the first number, and holds only numbers that are gone. */
  ghost predicate GapsTrue(capacity: nat, pushes: nat, c0: nat, ev: seq<Event>) {
    forall i :: 0 <= i < |ev| && ev[i].GapEvent? ==>
                  c0 < ev[i].gap.from && 1 < ev[i].gap.from && ev[i].gap.to <= Gone(capacity, pushes)
  }

  ghost predicate Delivered(capacity: nat, pushed: seq<Entry>, c0: nat, cursor: nat, ev: seq<Event>) {
    && c0 <= cursor <= |pushed|
    && (NoSample(ev) ==> cursor == c0)
    && InOrder(ev)
    && Genuine(pushed, c0, cursor, ev)
    && Covered(ev, c0, cursor)
    && GapsTrue(capacity, |pushed|, c0, ev)
  }

  lemma PushKeepsDelivered(capacity: nat, pushed: seq<Entry>, c0: nat, cursor: nat, ev: seq<Event>, e: Entry)
    requires Delivered(capacity, pushed, c0, cursor, ev)
    ensures Delivered(capacity, pushed + [e], c0, cursor, ev)
  {}

  lemma {:induction false} FirstSampleAppend(ev: seq<Event>, e: Event)
    ensures FirstSample(ev + [e])
            == if !NoSample(ev) then FirstSample(ev) else if e.KernelEvent? then e.entry.seqNo else 0
  {
    if ev == [] {
      assert [e][1..] == [];
    } else {
      assert (ev + [e])[1..] == ev[1..] + [e];
      FirstSampleAppend(ev[1..], e);
      assert NoSample(ev) <==> !ev[0].KernelEvent? && NoSample(ev[1..]);
    }
  }

  lemma ToldGrows(ev: seq<Event>, more: Event, n: int)
    ensures Told(ev + [more], n) <==> Told(ev, n) || Tells(more, n)
  {
    var t := ev + [more];
    assert forall i :: 0 <= i < |ev| ==> t[i] == ev[i];
    assert t[|ev|] == more;
  }

  /** A gap or a marker told moves no cursor. */
  lemma TellOther(capacity: nat, pushed: seq<Entry>, c0: nat, cursor: nat, ev: seq<Event>, e: Event)
    requires Delivered(capacity, pushed, c0, cursor, ev) && !e.KernelEvent?
    requires e.GapEvent? ==> c0 < e.gap.from && 1 < e.gap.from && e.gap.to <= Gone(capacity, |pushed|)
    ensures Delivered(capacity, pushed, c0, cursor, ev + [e])
  {
    FirstSampleAppend(ev, e);
    assert forall i :: 0 <= i < |ev| ==> (ev + [e])[i] == ev[i];
    forall n | Accountable(ev + [e], c0) <= n <= cursor ensures n == 0 || Told(ev + [e], n) {
      ToldGrows(ev, e, n);
    }
  }

  /** A sample told moves the cursor to itself, and may leave nothing untold behind it. */
  lemma TellSample(capacity: nat, pushed: seq<Entry>, c0: nat, cursor: nat, ev: seq<Event>, e: Entry)
    requires Delivered(capacity, pushed, c0, cursor, ev)
    requires cursor < e.seqNo <= |pushed| && e == pushed[e.seqNo - 1]
    requires 0 < cursor ==> forall n :: cursor < n < e.seqNo ==> Told(ev, n)
    ensures Delivered(capacity, pushed, c0, e.seqNo, ev + [KernelEvent(e)])
  {
    var t := ev + [KernelEvent(e)];
    FirstSampleAppend(ev, KernelEvent(e));
    if cursor == 0 {
      FirstIsNone(pushed, c0, ev);
    }
    forall n | Accountable(t, c0) <= n <= e.seqNo ensures n == 0 || Told(t, n) {
      ToldGrows(ev, KernelEvent(e), n);
    }
    assert t[|ev|].KernelEvent?;
  }

  lemma FirstIsNone(pushed: seq<Entry>, c0: nat, ev: seq<Event>)
    requires Genuine(pushed, c0, 0, ev)
    ensures NoSample(ev)
  {}

  /** The samples among the lines are the pushes from lo on. */
  ghost predicate LinesFrom(pushed: seq<Entry>, lines: seq<Line>, lo: nat) {
    lo + |Samples(lines)| <= |pushed| && Samples(lines) == pushed[lo..lo + |Samples(lines)|]
  }

  /** The first of such lines, and the rest. */
  lemma FirstLine(pushed: seq<Entry>, lines: seq<Line>, lo: nat)
    requires FromOne(pushed) && lines != [] && LinesFrom(pushed, lines, lo)
    ensures LinesFrom(pushed, lines[1..], if lines[0].SampleLine? then lo + 1 else lo)
    ensures lines[0].SampleLine? ==> lo < |pushed| && lines[0].entry == pushed[lo] && lines[0].entry.seqNo == lo + 1
  {
    if lines[0].SampleLine? {
      var batch := Samples(lines);
      assert batch[0] == pushed[lo];
      assert batch[1..] == pushed[lo + 1..lo + |batch|];
    }
  }

  /** Where the lines leave the cursor, and what they tell, from the first one on. */
  lemma LinesStep(cursor: nat, lines: seq<Line>, ev: seq<Event>)
    requires lines != []
    ensures CursorAfter(cursor, lines)
            == CursorAfter(if lines[0].SampleLine? then lines[0].entry.seqNo else cursor, lines[1..])
    ensures ev + EventsOf(lines) == ev + [EventOf(lines[0])] + EventsOf(lines[1..])
  {}

  /** A line that is no sample leaves what is untold behind the cursor told. */
  lemma TellMarker(capacity: nat, pushed: seq<Entry>, c0: nat, cursor: nat, ev: seq<Event>, e: Event, lo: nat)
    requires Delivered(capacity, pushed, c0, cursor, ev) && e.TriggerEvent?
    requires 0 < cursor ==> forall n :: cursor < n <= lo ==> Told(ev, n)
    ensures Delivered(capacity, pushed, c0, cursor, ev + [e])
    ensures 0 < cursor ==> forall n :: cursor < n <= lo ==> Told(ev + [e], n)
  {
    TellOther(capacity, pushed, c0, cursor, ev, e);
    forall n | 0 < cursor && cursor < n <= lo ensures Told(ev + [e], n) {
      ToldGrows(ev, e, n);
    }
  }

  /** The first line told. */
  lemma TellFirst(capacity: nat, pushed: seq<Entry>, c0: nat, cursor: nat, ev: seq<Event>, line: Line, lo: nat)
    requires Delivered(capacity, pushed, c0, cursor, ev) && cursor <= lo
    requires 0 < cursor ==> forall n :: cursor < n <= lo ==> Told(ev, n)
    requires line.SampleLine? ==> lo < |pushed| && line.entry == pushed[lo] && line.entry.seqNo == lo + 1
    ensures Delivered(capacity, pushed, c0, if line.SampleLine? then lo + 1 else cursor, ev + [EventOf(line)])
    ensures line.TriggerLine? && 0 < cursor ==> forall n :: cursor < n <= lo ==> Told(ev + [EventOf(line)], n)
  {
    if line.SampleLine? {
      TellSample(capacity, pushed, c0, cursor, ev, line.entry);
    } else {
      TellMarker(capacity, pushed, c0, cursor, ev, EventOf(line), lo);
    }
  }

  /** The lines of an honest reply, told one after another. */
  lemma {:induction false} TellLines(capacity: nat, pushed: seq<Entry>, c0: nat, cursor: nat, ev: seq<Event>,
                                     lines: seq<Line>, lo: nat)
    requires Delivered(capacity, pushed, c0, cursor, ev) && FromOne(pushed)
    requires cursor <= lo && LinesFrom(pushed, lines, lo)
    requires 0 < cursor ==> forall n :: cursor < n <= lo ==> Told(ev, n)
    ensures Delivered(capacity, pushed, c0, CursorAfter(cursor, lines), ev + EventsOf(lines))
    decreases |lines|
  {
    if lines == [] {
      assert ev + EventsOf(lines) == ev;
    } else {
      var e := EventOf(lines[0]);
      FirstLine(pushed, lines, lo);
      TellFirst(capacity, pushed, c0, cursor, ev, lines[0], lo);
      LinesStep(cursor, lines, ev);
      if lines[0].SampleLine? {
        TellLines(capacity, pushed, c0, lo + 1, ev + [e], lines[1..], lo + 1);
      } else {
        TellLines(capacity, pushed, c0, cursor, ev + [e], lines[1..], lo);
      }
    }
  }

  /** Delivering an honest reply keeps the account true. */
  lemma DeliverKeeps(capacity: nat, pushed: seq<Entry>, c0: nat, cursor: nat, ev: seq<Event>, reply: Reply)
    requires Delivered(capacity, pushed, c0, cursor, ev) && FromOne(pushed)
    requires Honest(capacity, pushed, cursor, Samples(reply.lines), reply.gap)
    ensures var gapEvents := if reply.gap.Some? then [GapEvent(reply.gap.value)] else [];
            Delivered(capacity, pushed, c0, CursorAfter(cursor, reply.lines), ev + gapEvents + EventsOf(reply.lines))
  {
    var lo := Start(cursor, Samples(reply.lines));
    if reply.gap.Some? {
      var g := GapEvent(reply.gap.value);
      TellOther(capacity, pushed, c0, cursor, ev, g);
      forall n | cursor < n <= lo ensures Told(ev + [g], n) {
        ToldGrows(ev, g, n);
      }
      TellLines(capacity, pushed, c0, cursor, ev + [g], reply.lines, lo);
    } else {
      assert ev + [] == ev;
      TellLines(capacity, pushed, c0, cursor, ev, reply.lines, lo);
    }
  }
}

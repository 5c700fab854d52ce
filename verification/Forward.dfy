/**
 The collector's cursor (internal/forward/forward.go): what one pull, one
 drained poll and one health read do to it and to what the sinks were told.
*/
module ForwardSpec {
  import opened Words
  import opened RingSpec
  import opened CaptureSpec
  import opened Serve

  datatype Event = GapEvent(gap: Gap) | TriggerEvent(marker: Marker) | KernelEvent(entry: Entry)

  datatype Health = Health(newest: nat, oldest: nat)

  datatype Stats = Stats(kernel: nat, gaps: nat, triggers: nat, lastSeq: nat, resyncs: nat)

  /** events is what every sink received, in order. */
  datatype Collector = Collector(cursor: nat, events: seq<Event>, stats: Stats)

  function EventOf(line: Line): Event {
    match line
    case SampleLine(e) => KernelEvent(e)
    case TriggerLine(m) => TriggerEvent(m)
  }

  function EventsOf(lines: seq<Line>): seq<Event> {
    if lines == [] then [] else [EventOf(lines[0])] + EventsOf(lines[1..])
  }

  /** The number of the last sample among the lines, or else where the cursor was. */
  function CursorAfter(cursor: nat, lines: seq<Line>): nat {
    if Samples(lines) == [] then cursor else LastOf(Samples(lines))
  }

  function Counted(stats: Stats, lines: seq<Line>): Stats {
    stats.(kernel := stats.kernel + |Samples(lines)|,
           triggers := stats.triggers + |Triggers(lines)|,
           lastSeq := CursorAfter(stats.lastSeq, lines))
  }

  function TakeLines(c: Collector, lines: seq<Line>): Collector {
    Collector(CursorAfter(c.cursor, lines), c.events + EventsOf(lines), Counted(c.stats, lines))
  }

  function TakeGap(c: Collector, gap: Option<Gap>): Collector {
    if gap.None? then c
    else c.(events := c.events + [GapEvent(gap.value)], stats := c.stats.(gaps := c.stats.gaps + 1))
  }

  /** A failed pull changes nothing; a reply is delivered whole, its gap first. */
  function PullOf(c: Collector, reply: Option<Reply>): Collector {
    if reply.None? then c else TakeLines(TakeGap(c, reply.value.gap), reply.value.lines)
  }

  function LineCount(reply: Option<Reply>): nat {
    if reply.Some? then |reply.value.lines| else 0
  }

  const MAX_DRAIN: nat := 100

  /** How many of these answers one drained poll asks for: up to the first that is short of a full batch. */
  function DrainCount(answers: seq<Option<Reply>>, full: nat, budget: nat): (k: nat)
    requires budget <= |answers|
    ensures k <= budget
    ensures forall i :: 0 <= i < k - 1 ==> LineCount(answers[i]) >= full
    ensures 0 < budget ==> 0 < k && (k == budget || LineCount(answers[k - 1]) < full)
  {
    if budget == 0 then 0
    else if LineCount(answers[0]) < full then 1
    else 1 + DrainCount(answers[1..], full, budget - 1)
  }

  function PullAll(c: Collector, answers: seq<Option<Reply>>): Collector
    decreases |answers|
  {
    if answers == [] then c else PullAll(PullOf(c, answers[0]), answers[1..])
  }

  /** A cursor above the agent's newest number means that the agent restarted. */
  function ResyncOf(c: Collector, h: Health): Collector {
    if c.cursor <= h.newest then c
    else c.(cursor := if h.oldest > 0 then h.oldest - 1 else 0,
            stats := c.stats.(resyncs := c.stats.resyncs + 1))
  }

  lemma {:induction false} LinesSnoc(lines: seq<Line>, line: Line)
    ensures Samples(lines + [line]) == Samples(lines) + if line.SampleLine? then [line.entry] else []
    ensures Triggers(lines + [line]) == Triggers(lines) + if line.TriggerLine? then [line.marker] else []
    ensures EventsOf(lines + [line]) == EventsOf(lines) + [EventOf(line)]
  {
    if lines == [] {
      assert [line][1..] == [];
    } else {
      assert (lines + [line])[1..] == lines[1..] + [line];
      LinesSnoc(lines[1..], line);
    }
  }

  /** Taking one more line: a marker is counted and told, a sample also moves the cursor. */
  lemma TakeOneMore(c: Collector, lines: seq<Line>, line: Line)
    ensures var d := TakeLines(c, lines);
            TakeLines(c, lines + [line]) ==
              match line
              case TriggerLine(m) =>
                d.(events := d.events + [TriggerEvent(m)], stats := d.stats.(triggers := d.stats.triggers + 1))
              case SampleLine(e) =>
                Collector(e.seqNo, d.events + [KernelEvent(e)],
                          d.stats.(kernel := d.stats.kernel + 1, lastSeq := e.seqNo))
  {
    LinesSnoc(lines, line);
  }

  lemma {:induction false} EventsAreLines(lines: seq<Line>)
    ensures |EventsOf(lines)| == |lines|
    ensures forall i :: 0 <= i < |lines| ==> EventsOf(lines)[i] == EventOf(lines[i])
  {
    if lines != [] { EventsAreLines(lines[1..]); }
  }
}

module Forwarding {
  import opened Words
  import opened Serve
  import opened ForwardSpec

  class Forwarder {
    var since: nat
    var stats: Stats
    var events: seq<Event>

    ghost function Now(): Collector
      reads this
    {
      Collector(since, events, stats)
    }

    constructor (newest: nat)
      ensures Now() == Collector(newest, [], Stats(0, 0, 0, 0, 0))
    {
      since, events, stats := newest, [], Stats(0, 0, 0, 0, 0);
    }

    /** One pull: the gap first, then line by line, a marker never moving the cursor. */
    method PullOnce(reply: Option<Reply>) returns (n: nat)
      modifies this
      ensures Now() == PullOf(old(Now()), reply)
      ensures n == LineCount(reply)
    {
      if reply.None? {
        return 0;
      }
      var gap, lines := reply.value.gap, reply.value.lines;
      if gap.Some? {
        stats := stats.(gaps := stats.gaps + 1);
        events := events + [GapEvent(gap.value)];
      }
      ghost var c := Now();
      assert TakeLines(c, lines[..0]) == c;
      for i := 0 to |lines|
        invariant Now() == TakeLines(c, lines[..i])
      {
        TakeOneMore(c, lines[..i], lines[i]);
        assert lines[..i + 1] == lines[..i] + [lines[i]];
        if lines[i].TriggerLine? {
          stats := stats.(triggers := stats.triggers + 1);
          events := events + [TriggerEvent(lines[i].marker)];
          continue;
        }
        stats := stats.(kernel := stats.kernel + 1, lastSeq := lines[i].entry.seqNo);
        since := lines[i].entry.seqNo;
        events := events + [KernelEvent(lines[i].entry)];
      }
      assert lines[..|lines|] == lines;
      return |lines|;
    }

    /** One poll: pulls again while the answers are full batches, at most MAX_DRAIN times. */
    method Pull(answers: seq<Option<Reply>>, full: nat)
      requires |answers| == MAX_DRAIN
      modifies this
      ensures Now() == PullAll(old(Now()), answers[..DrainCount(answers, full, MAX_DRAIN)])
    {
      ghost var k := DrainCount(answers, full, MAX_DRAIN);
      for i := 0 to MAX_DRAIN
        invariant i <= k
        invariant PullAll(Now(), answers[i..k]) == PullAll(old(Now()), answers[..k])
        invariant k == i + DrainCount(answers[i..], full, MAX_DRAIN - i)
      {
        ghost var c := Now();
        var n := PullOnce(answers[i]);
        assert answers[i..][1..] == answers[i + 1..];
        assert k > i ==> answers[i..k][0] == answers[i] && answers[i..k][1..] == answers[i + 1..k];
        if n < full {
          assert answers[i + 1..k] == [];
          return;
        }
      }
      assert answers[MAX_DRAIN..k] == [];
    }

    method Resync(h: Health)
      modifies this
      ensures Now() == ResyncOf(old(Now()), h)
    {
      if since <= h.newest {
        return;
      }
      since := 0;
      if h.oldest > 0 {
        since := h.oldest - 1;
      }
      stats := stats.(resyncs := stats.resyncs + 1);
    }
  }
}

/**
 What one drained poll achieves (internal/forward/forward.go): how far the
 cursor gets while the agent stands still, markers among the lines or not.
*/
module CatchUp {
  import opened Words
  import opened RingSpec
  import opened CaptureSpec
  import opened Serve
  import opened ForwardSpec
  import opened DeliveryLaws

  /** What an agent with these samples and markers answers to one pull. */
  function AnswerTo(pushed: seq<Entry>, capacity: nat, kept: seq<Marker>, cursor: U64, limit: nat): Reply {
    var (batch, missed) := SinceOf(pushed, capacity, cursor, limit);
    Reply(GapLine(missed, cursor, OldestOf(pushed, capacity)), LinesOf(batch, kept, cursor))
  }

  /** The answers to one poll's pulls, each to the cursor the one before it left. */
  ghost predicate AnswersTo(pushed: seq<Entry>, capacity: nat, kept: seq<Marker>, limit: nat, c: Collector,
                            answers: seq<Option<Reply>>)
    decreases |answers|
  {
    answers == [] ||
    (&& c.cursor < TWO_64
     && answers[0] == Some(AnswerTo(pushed, capacity, kept, c.cursor, limit))
     && AnswersTo(pushed, capacity, kept, limit, PullOf(c, answers[0]), answers[1..]))
  }

  lemma {:induction false} AtLeastTheSamples(lines: seq<Line>)
    ensures |Samples(lines)| <= |lines|
  {
    if lines != [] { AtLeastTheSamples(lines[1..]); }
  }

  /**
   One pull moves the cursor by one batch, from the oldest sample held if it lagged
   behind that; a short reply means the ring's edge.
  */
  lemma OnePull(pushed: seq<Entry>, capacity: nat, kept: seq<Marker>, limit: nat, c: Collector)
    requires FromOne(pushed) && 0 < capacity && 0 < limit && c.cursor <= |pushed| && |pushed| + 1 < TWO_64
    ensures var reply := AnswerTo(pushed, capacity, kept, c.cursor, limit);
            var d := PullOf(c, Some(reply));
            && d.cursor == BatchTo(|pushed|, capacity, c.cursor, limit)
            && (|reply.lines| < limit ==> d.cursor == |pushed|)
  {
    var (batch, missed) := SinceOf(pushed, capacity, c.cursor, limit);
    var lo, hi := BatchFrom(|pushed|, capacity, c.cursor), BatchTo(|pushed|, capacity, c.cursor, limit);
    BatchIsSlice(pushed, capacity, c.cursor, limit);
    assert batch == pushed[lo..hi];
    ReplyKeepsSamples(batch, kept, c.cursor);
    AtLeastTheSamples(LinesOf(batch, kept, c.cursor));
    if batch != [] { assert LastOf(batch) == pushed[hi - 1].seqNo == hi; }
  }

  /** A poll's first pull, and the rest of it when that was a full batch. */
  lemma FirstPull(c: Collector, answers: seq<Option<Reply>>, limit: nat)
    requires answers != []
    ensures var k, d := DrainCount(answers, limit, |answers|), PullOf(c, answers[0]);
            PullAll(c, answers[..k]) ==
              if LineCount(answers[0]) < limit then d
              else PullAll(d, answers[1..][..DrainCount(answers[1..], limit, |answers| - 1)])
  {
    var k := DrainCount(answers, limit, |answers|);
    assert answers[..k][0] == answers[0] && answers[..k][1..] == answers[1..][..k - 1];
  }

  /** m batches of limit from where a cursor may start. */
  function Reached(pushes: nat, capacity: nat, cursor: nat, limit: nat, m: nat): nat {
    Min(BatchFrom(pushes, capacity, cursor) + m * limit, pushes)
  }

  lemma OneBatch(pushes: nat, capacity: nat, cursor: nat, limit: nat, m: nat)
    requires 0 < m && 0 < limit
    ensures var next := BatchTo(pushes, capacity, cursor, limit);
            && (next == pushes ==> Reached(pushes, capacity, cursor, limit, m) == pushes)
            && (1 < m ==> Reached(pushes, capacity, next, limit, m - 1) == Reached(pushes, capacity, cursor, limit, m))
            && (m == 1 ==> next == Reached(pushes, capacity, cursor, limit, m))
  {
    ScaleMonotone(1, m, limit);
    assert m * limit == limit + (m - 1) * limit;
  }

  /** Any number of drained pulls: so many batches further, and never past the newest sample. */
  lemma {:induction false} PullsCatchUp(
      pushed: seq<Entry>, capacity: nat, kept: seq<Marker>, limit: nat, c: Collector, answers: seq<Option<Reply>>)
    requires FromOne(pushed) && 0 < capacity && 0 < limit && c.cursor <= |pushed| && |pushed| + 1 < TWO_64
    requires AnswersTo(pushed, capacity, kept, limit, c, answers) && answers != []
    ensures PullAll(c, answers[..DrainCount(answers, limit, |answers|)]).cursor
         == Reached(|pushed|, capacity, c.cursor, limit, |answers|)
    decreases |answers|
  {
    OnePull(pushed, capacity, kept, limit, c);
    FirstPull(c, answers, limit);
    OneBatch(|pushed|, capacity, c.cursor, limit, |answers|);
    if LineCount(answers[0]) >= limit {
      if |answers| > 1 {
        PullsCatchUp(pushed, capacity, kept, limit, PullOf(c, answers[0]), answers[1..]);
      } else {
        assert answers[1..] == [];
      }
    }
  }

  /**
   While the agent stands still, one poll leaves the cursor exactly a hundred
   batches after where it could start, or at the newest sample: it catches up if
   and only if what it had to fetch was no more than a hundred batches.
  */
  lemma PollCatchesUpIff(pushed: seq<Entry>, capacity: nat, kept: seq<Marker>, limit: nat, c: Collector,
                         answers: seq<Option<Reply>>)
    requires FromOne(pushed) && 0 < capacity && 0 < limit && c.cursor <= |pushed| && |pushed| + 1 < TWO_64
    requires |answers| == MAX_DRAIN && AnswersTo(pushed, capacity, kept, limit, c, answers)
    ensures PullAll(c, answers[..DrainCount(answers, limit, MAX_DRAIN)]).cursor == |pushed|
       <==> |pushed| - BatchFrom(|pushed|, capacity, c.cursor) <= MAX_DRAIN * limit
  {
    PullsCatchUp(pushed, capacity, kept, limit, c, answers);
  }
}

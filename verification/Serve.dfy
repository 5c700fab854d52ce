/**
 What the agent's /snapshot writes for one cursor (internal/agent/http.go): an
 optional gap line, then the batch with each trigger marker placed among the
 samples.
*/
module Serve {
  import opened Words
  import opened RingSpec
  import opened CaptureSpec

  datatype Line = SampleLine(entry: Entry) | TriggerLine(marker: Marker)

  /** The numbers from to to are declared gone from the ring. */
  datatype Gap = Gap(from: nat, to: int)

  datatype Reply = Reply(gap: Option<Gap>, lines: seq<Line>)

  /** The samples in order, each preceded by the markers at the front that are due by then. */
  function Weave(es: seq<Entry>, ms: seq<Marker>): seq<Line>
    decreases |es| + |ms|
  {
    if es == [] then []
    else if ms != [] && ms[0].fire.seqNo <= es[0].seqNo then [TriggerLine(ms[0])] + Weave(es, ms[1..])
    else [SampleLine(es[0])] + Weave(es[1..], ms)
  }

  method WriteEntriesWithMarkers(es: seq<Entry>, ms: seq<Marker>) returns (lines: seq<Line>)
    ensures lines == Weave(es, ms)
  {
    lines := [];
    var markers := ms;
    for i := 0 to |es|
      invariant lines + Weave(es[i..], markers) == Weave(es, ms)
    {
      while markers != [] && markers[0].fire.seqNo <= es[i].seqNo
        invariant lines + Weave(es[i..], markers) == Weave(es, ms)
        decreases |markers|
      {
        WeaveHead(lines, es[i..], markers);
        lines := lines + [TriggerLine(markers[0])];
        markers := markers[1..];
      }
      WeaveHead(lines, es[i..], markers);
      assert es[i..][1..] == es[i + 1..];
      lines := lines + [SampleLine(es[i])];
    }
  }

  /** Writing the next line moves it from what is left to what is written. */
  lemma WeaveHead(written: seq<Line>, es: seq<Entry>, ms: seq<Marker>)
    requires es != []
    ensures ms != [] && ms[0].fire.seqNo <= es[0].seqNo ==>
              written + Weave(es, ms) == written + [TriggerLine(ms[0])] + Weave(es, ms[1..])
    ensures ms == [] || ms[0].fire.seqNo > es[0].seqNo ==>
              written + Weave(es, ms) == written + [SampleLine(es[0])] + Weave(es[1..], ms)
  {}

  /** The gap line's upper end is read by a lock section of its own, after the batch. */
  function GapLine(missed: bool, since: nat, oldest: nat): Option<Gap> {
    if missed then Some(Gap(since + 1, oldest - 1)) else None
  }

  /** The lines of a reply, from the batch and the markers held when they were asked for. */
  function LinesOf(batch: seq<Entry>, kept: seq<Marker>, since: nat): seq<Line> {
    if batch == [] then [] else Weave(batch, InRange(kept, since, LastOf(batch)))
  }

  function Samples(lines: seq<Line>): seq<Entry> {
    if lines == [] then []
    else if lines[0].SampleLine? then [lines[0].entry] + Samples(lines[1..])
    else Samples(lines[1..])
  }

  function Triggers(lines: seq<Line>): seq<Marker> {
    if lines == [] then []
    else if lines[0].TriggerLine? then [lines[0].marker] + Triggers(lines[1..])
    else Triggers(lines[1..])
  }

  /** The samples of a reply are the batch, unchanged and in order. */
  lemma {:induction false} WeaveKeepsSamples(es: seq<Entry>, ms: seq<Marker>)
    ensures Samples(Weave(es, ms)) == es
    decreases |es| + |ms|
  {
    if es == [] {
    } else if ms != [] && ms[0].fire.seqNo <= es[0].seqNo {
      WeaveKeepsSamples(es, ms[1..]);
      assert Weave(es, ms)[1..] == Weave(es, ms[1..]);
    } else {
      WeaveKeepsSamples(es[1..], ms);
      assert Weave(es, ms)[1..] == Weave(es[1..], ms);
    }
  }

  /** Markers fired no later than the last sample are all written, once each and in order. */
  lemma {:induction false} WeaveWritesMarkers(es: seq<Entry>, ms: seq<Marker>)
    requires forall i :: 0 <= i < |ms| ==> ms[i].fire.seqNo <= LastOf(es)
    requires es == [] ==> ms == []
    ensures Triggers(Weave(es, ms)) == ms
    decreases |es| + |ms|
  {
    if es == [] {
    } else if ms != [] && ms[0].fire.seqNo <= es[0].seqNo {
      WeaveWritesMarkers(es, ms[1..]);
      assert Weave(es, ms)[1..] == Weave(es, ms[1..]);
    } else {
      WeaveWritesMarkers(es[1..], ms);
      assert Weave(es, ms)[1..] == Weave(es[1..], ms);
    }
  }

  /** Before line p, only samples numbered below n. */
  ghost predicate SamplesBelow(lines: seq<Line>, p: nat, n: nat) {
    forall q :: 0 <= q < p && q < |lines| && lines[q].SampleLine? ==> lines[q].entry.seqNo < n
  }

  /**
   A marker that no earlier one overtakes in number is written before the first sample
   numbered at or above its own.
  */
  lemma {:induction false} WeavePlacesMarker(es: seq<Entry>, ms: seq<Marker>, j: nat, p: nat)
    requires j < |ms| && forall i :: 0 <= i < j ==> ms[i].fire.seqNo <= ms[j].fire.seqNo
    requires forall i :: 0 <= i < |ms| && i != j ==> ms[i] != ms[j]
    requires p < |Weave(es, ms)| && Weave(es, ms)[p] == TriggerLine(ms[j])
    ensures SamplesBelow(Weave(es, ms), p, ms[j].fire.seqNo)
    decreases |es| + |ms|
  {
    var lines := Weave(es, ms);
    if ms[0].fire.seqNo <= es[0].seqNo {
      if p > 0 {
        assert lines[1..] == Weave(es, ms[1..]) && lines[p] == lines[1..][p - 1];
        if j == 0 {
          WeaveMembers(es, ms[1..], p - 1);
        } else {
          WeavePlacesMarker(es, ms[1..], j - 1, p - 1);
          SamplesBelowCons(lines, p, ms[j].fire.seqNo);
        }
      }
    } else {
      assert lines[1..] == Weave(es[1..], ms) && lines[p] == lines[1..][p - 1];
      WeavePlacesMarker(es[1..], ms, j, p - 1);
      SamplesBelowCons(lines, p, ms[j].fire.seqNo);
    }
  }

  lemma SamplesBelowCons(lines: seq<Line>, p: nat, n: nat)
    requires lines != [] && p > 0 && SamplesBelow(lines[1..], p - 1, n)
    requires lines[0].SampleLine? ==> lines[0].entry.seqNo < n
    ensures SamplesBelow(lines, p, n)
  {
    forall q | 0 <= q < p && q < |lines| && lines[q].SampleLine? ensures lines[q].entry.seqNo < n {
      if q > 0 { assert lines[1..][q - 1] == lines[q]; }
    }
  }

  /** Every marker line of a weave is one of the markers it was given. */
  lemma {:induction false} WeaveMembers(es: seq<Entry>, ms: seq<Marker>, p: nat)
    requires p < |Weave(es, ms)| && Weave(es, ms)[p].TriggerLine?
    ensures exists i :: 0 <= i < |ms| && ms[i] == Weave(es, ms)[p].marker
    decreases |es| + |ms|
  {
    var lines := Weave(es, ms);
    if ms != [] && ms[0].fire.seqNo <= es[0].seqNo {
      if p > 0 {
        WeaveMembers(es, ms[1..], p - 1);
        var i :| 0 <= i < |ms[1..]| && ms[1..][i] == Weave(es, ms[1..])[p - 1].marker;
        assert ms[i + 1] == lines[p].marker;
      }
    } else {
      WeaveMembers(es[1..], ms, p - 1);
    }
  }
}

/**
 Busy runs (internal/expo/expo.go): how long a core stayed at or above a busy
 ratio across consecutive samples. The specification splits the whole history
 into its maximal runs; the fold keeps four numbers per threshold and is proved
 to agree with the split after every sample.
*/
module RunSpec {

  /** One sample of one core: its busy ratio and its interval, which a clock step can make negative. */
  datatype Sample = Sample(ratio: real, dtNS: int)

  function Elapsed(s: Sample): nat {
    if s.dtNS < 0 then 0 else s.dtNS
  }

  function Total(h: seq<Sample>): nat {
    if h == [] then 0 else Total(h[..|h| - 1]) + Elapsed(h[|h| - 1])
  }

  /** The samples from from up to, not including, to. */
  datatype Run = Run(from: nat, to: nat)

  predicate High(s: Sample, th: real) {
    s.ratio >= th
  }

  /** A longest stretch of samples at or above the threshold. */
  ghost predicate Maximal(h: seq<Sample>, th: real, r: Run) {
    && r.from < r.to <= |h|
    && (forall i :: r.from <= i < r.to ==> h[i].ratio >= th)
    && (0 < r.from ==> h[r.from - 1].ratio < th)
    && (r.to < |h| ==> h[r.to].ratio < th)
  }

  /** Where the run still in progress starts; |h| when there is none. */
  function OpenFrom(h: seq<Sample>, th: real): (n: nat)
    ensures n <= |h|
  {
    if h == [] || !High(h[|h| - 1], th) then |h| else OpenFrom(h[..|h| - 1], th)
  }

  /** The runs that ended, in order. */
  function ClosedRuns(h: seq<Sample>, th: real): seq<Run> {
    if h == [] then []
    else
      var p := h[..|h| - 1];
      if !High(h[|h| - 1], th) && OpenFrom(p, th) < |p| then ClosedRuns(p, th) + [Run(OpenFrom(p, th), |p|)]
      else ClosedRuns(p, th)
  }

  lemma {:induction false} OpenIsTail(h: seq<Sample>, th: real)
    ensures var n := OpenFrom(h, th);
            && (forall i :: n <= i < |h| ==> High(h[i], th))
            && (0 < n ==> !High(h[n - 1], th))
  {
    if h != [] && High(h[|h| - 1], th) {
      OpenIsTail(h[..|h| - 1], th);
    }
  }

  /** The closed runs are exactly the maximal runs that ended, each listed once and in order. */
  lemma {:induction false} ClosedRunsAreMaximal(h: seq<Sample>, th: real)
    ensures forall i :: 0 <= i < |ClosedRuns(h, th)| ==>
              Maximal(h, th, ClosedRuns(h, th)[i]) && ClosedRuns(h, th)[i].to < |h|
    ensures forall i, j :: 0 <= i < j < |ClosedRuns(h, th)| ==> ClosedRuns(h, th)[i].to < ClosedRuns(h, th)[j].from
  {
    if h != [] {
      var p := h[..|h| - 1];
      ClosedRunsAreMaximal(p, th);
      OpenIsTail(p, th);
      var rs := ClosedRuns(p, th);
      forall i | 0 <= i < |rs| ensures Maximal(h, th, rs[i]) && rs[i].to < |h| && rs[i].to < OpenFrom(p, th) + 1 {
        assert Maximal(p, th, rs[i]);
      }
      if !High(h[|h| - 1], th) && OpenFrom(p, th) < |p| {
        assert Maximal(h, th, Run(OpenFrom(p, th), |p|));
        forall i | 0 <= i < |rs| ensures rs[i].to < OpenFrom(p, th) {
          assert !High(p[rs[i].to], th);
        }
      }
    }
  }

  /** Only one place can start the run still in progress. */
  lemma {:induction false} OpenIsUnique(h: seq<Sample>, th: real, n: nat)
    requires n <= |h| && (forall i :: n <= i < |h| ==> High(h[i], th)) && (0 < n ==> !High(h[n - 1], th))
    ensures OpenFrom(h, th) == n
  {
    if n < |h| { OpenIsUnique(h[..|h| - 1], th, n); }
  }

  lemma {:induction false} MaximalRunsAreClosed(h: seq<Sample>, th: real, r: Run)
    requires Maximal(h, th, r) && r.to < |h|
    ensures exists i :: 0 <= i < |ClosedRuns(h, th)| && ClosedRuns(h, th)[i] == r
  {
    var p := h[..|h| - 1];
    var rs := ClosedRuns(h, th);
    if r.to < |p| {
      assert Maximal(p, th, r);
      MaximalRunsAreClosed(p, th, r);
      var i :| 0 <= i < |ClosedRuns(p, th)| && ClosedRuns(p, th)[i] == r;
      assert rs[i] == r;
    } else {
      OpenIsUnique(p, th, r.from);
      assert rs[|rs| - 1] == r;
    }
  }

  /** The lengths of runs that took any time at all. */
  function Lengths(h: seq<Sample>, rs: seq<Run>): seq<nat>
    requires forall i :: 0 <= i < |rs| ==> rs[i].from <= rs[i].to <= |h|
  {
    if rs == [] then []
    else
      var r := rs[|rs| - 1];
      var n := Total(h[r.from..r.to]);
      Lengths(h, rs[..|rs| - 1]) + if n > 0 then [n] else []
  }

  lemma {:induction false} ClosedRunsBounded(h: seq<Sample>, th: real)
    ensures forall i :: 0 <= i < |ClosedRuns(h, th)| ==> ClosedRuns(h, th)[i].from <= ClosedRuns(h, th)[i].to <= |h|
  {
    if h != [] { ClosedRunsBounded(h[..|h| - 1], th); }
  }

  /** What is observed of a history: the lengths of its closed runs, leaving out those of no time. */
  function Observed(h: seq<Sample>, th: real): seq<nat> {
    ClosedRunsBounded(h, th);
    Lengths(h, ClosedRuns(h, th))
  }

  function Sum(ns: seq<nat>): nat {
    if ns == [] then 0 else Sum(ns[..|ns| - 1]) + ns[|ns| - 1]
  }

  /** Time spent at or above the threshold. */
  function HighTime(h: seq<Sample>, th: real): nat {
    if h == [] then 0
    else HighTime(h[..|h| - 1], th) + if High(h[|h| - 1], th) then Elapsed(h[|h| - 1]) else 0
  }

  // ---- histograms

  /** The first bucket whose bound is at or above v, or one past the last. */
  function BucketOf(bounds: seq<nat>, v: nat): (b: nat)
    ensures b <= |bounds|
    ensures b < |bounds| ==> v <= bounds[b]
    ensures forall i :: 0 <= i < b ==> bounds[i] < v
  {
    if bounds == [] || v <= bounds[0] then 0 else 1 + BucketOf(bounds[1..], v)
  }

  function CountInBucket(bounds: seq<nat>, ns: seq<nat>, b: nat): nat {
    if ns == [] then 0
    else CountInBucket(bounds, ns[..|ns| - 1], b) + if BucketOf(bounds, ns[|ns| - 1]) == b then 1 else 0
  }

  function CountAtMost(ns: seq<nat>, le: nat): nat {
    if ns == [] then 0 else CountAtMost(ns[..|ns| - 1], le) + if ns[|ns| - 1] <= le then 1 else 0
  }

  /** The sum of the first b buckets. */
  function Cumulative(hist: seq<nat>, b: nat): nat
    requires b <= |hist|
  {
    if b == 0 then 0 else Cumulative(hist, b - 1) + hist[b - 1]
  }

  ghost predicate Sorted(bounds: seq<nat>) {
    forall i, j :: 0 <= i < j < |bounds| ==> bounds[i] < bounds[j]
  }

  ghost predicate Histogram(bounds: seq<nat>, ns: seq<nat>, hist: seq<nat>) {
    && |hist| == |bounds| + 1
    && forall b :: 0 <= b < |hist| ==> hist[b] == CountInBucket(bounds, ns, b)
  }

  function CountBelow(bounds: seq<nat>, ns: seq<nat>, b: nat): nat {
    if ns == [] then 0
    else CountBelow(bounds, ns[..|ns| - 1], b) + if BucketOf(bounds, ns[|ns| - 1]) < b then 1 else 0
  }

  lemma {:induction false} BelowSplits(bounds: seq<nat>, ns: seq<nat>, b: nat)
    ensures CountBelow(bounds, ns, b + 1) == CountBelow(bounds, ns, b) + CountInBucket(bounds, ns, b)
    ensures CountBelow(bounds, ns, 0) == 0
  {
    if ns != [] { BelowSplits(bounds, ns[..|ns| - 1], b); }
  }

  lemma {:induction false} CumulativeIsBelow(bounds: seq<nat>, ns: seq<nat>, hist: seq<nat>, b: nat)
    requires Histogram(bounds, ns, hist) && b <= |hist|
    ensures Cumulative(hist, b) == CountBelow(bounds, ns, b)
  {
    if b == 0 {
      BelowSplits(bounds, ns, 0);
    } else {
      CumulativeIsBelow(bounds, ns, hist, b - 1);
      BelowSplits(bounds, ns, b - 1);
    }
  }

  lemma {:induction false} BelowIsAtMost(bounds: seq<nat>, ns: seq<nat>, b: nat)
    requires Sorted(bounds)
    ensures b < |bounds| ==> CountBelow(bounds, ns, b + 1) == CountAtMost(ns, bounds[b])
    ensures CountBelow(bounds, ns, |bounds| + 1) == |ns|
  {
    if ns != [] {
      BelowIsAtMost(bounds, ns[..|ns| - 1], b);
      var k := BucketOf(bounds, ns[|ns| - 1]);
    }
  }

  lemma OneCumulative(bounds: seq<nat>, ns: seq<nat>, hist: seq<nat>, b: nat)
    requires Sorted(bounds) && Histogram(bounds, ns, hist) && b < |bounds|
    ensures Cumulative(hist, b + 1) == CountAtMost(ns, bounds[b])
  {
    CumulativeIsBelow(bounds, ns, hist, b + 1);
    BelowIsAtMost(bounds, ns, b);
  }

  /** Every cumulative bucket counts exactly the values at most its bound, and the last one counts them all. */
  lemma CumulativeCounts(bounds: seq<nat>, ns: seq<nat>, hist: seq<nat>)
    requires Sorted(bounds) && Histogram(bounds, ns, hist)
    ensures forall b :: 0 <= b < |bounds| ==> Cumulative(hist, b + 1) == CountAtMost(ns, bounds[b])
    ensures Cumulative(hist, |hist|) == |ns|
  {
    forall b | 0 <= b < |bounds| ensures Cumulative(hist, b + 1) == CountAtMost(ns, bounds[b]) {
      OneCumulative(bounds, ns, hist, b);
    }
    CumulativeIsBelow(bounds, ns, hist, |hist|);
    BelowIsAtMost(bounds, ns, 0);
  }

  // ---- one sample more

  lemma {:induction false} LengthsGrow(h: seq<Sample>, s: Sample, rs: seq<Run>)
    requires forall i :: 0 <= i < |rs| ==> rs[i].from <= rs[i].to <= |h|
    ensures Lengths(h + [s], rs) == Lengths(h, rs)
  {
    if rs != [] {
      LengthsGrow(h, s, rs[..|rs| - 1]);
      var r := rs[|rs| - 1];
      assert (h + [s])[r.from..r.to] == h[r.from..r.to];
    }
  }

  /** What the next sample adds to what is observed: at most the run it ends. */
  lemma ObservedStep(h: seq<Sample>, s: Sample, th: real)
    ensures var open := Total(h[OpenFrom(h, th)..]);
            && Observed(h + [s], th) == Observed(h, th) + (if !High(s, th) && 0 < open then [open] else [])
            && Total((h + [s])[OpenFrom(h + [s], th)..]) == if High(s, th) then open + Elapsed(s) else 0
  {
    var g, n := h + [s], OpenFrom(h, th);
    assert g[..|h|] == h;
    ClosedRunsBounded(h, th);
    var rs := ClosedRuns(h, th);
    LengthsGrow(h, s, rs);
    if High(s, th) {
      assert g[n..][..|g| - n - 1] == h[n..];
    } else if n < |h| {
      var more := rs + [Run(n, |h|)];
      assert more[..|more| - 1] == rs;
      assert g[n..|h|] == h[n..];
    } else {
      assert h[n..] == [];
    }
  }

  lemma HighTimeStep(h: seq<Sample>, s: Sample, th: real)
    ensures HighTime(h + [s], th) == HighTime(h, th) + if High(s, th) then Elapsed(s) else 0
  {
    assert (h + [s])[..|h|] == h;
  }

  lemma SumStep(ns: seq<nat>, n: nat)
    ensures Sum(ns + [n]) == Sum(ns) + n
  {
    assert (ns + [n])[..|ns|] == ns;
  }

  lemma CountStep(bounds: seq<nat>, ns: seq<nat>, n: nat, b: nat)
    ensures CountInBucket(bounds, ns + [n], b)
            == CountInBucket(bounds, ns, b) + if BucketOf(bounds, n) == b then 1 else 0
  {
    assert (ns + [n])[..|ns|] == ns;
  }

  /** All the time at or above the threshold is in a closed run or in the one in progress. */
  lemma {:induction false} TimeIsConserved(h: seq<Sample>, th: real)
    ensures Sum(Observed(h, th)) + Total(h[OpenFrom(h, th)..]) == HighTime(h, th)
  {
    if h == [] {
      assert h[OpenFrom(h, th)..] == [];
    } else {
      var p, s := h[..|h| - 1], h[|h| - 1];
      assert h == p + [s];
      TimeIsConserved(p, th);
      ObservedStep(p, s, th);
      HighTimeStep(p, s, th);
      var open := Total(p[OpenFrom(p, th)..]);
      if !High(s, th) && 0 < open {
        SumStep(Observed(p, th), open);
      } else {
        assert Observed(p, th) + [] == Observed(p, th);
      }
    }
  }
}

module RunLengths {
  import opened RunSpec

  const RUN_THRESHOLDS: seq<real> := [0.5, 0.9]

  /** The histogram's bounds in nanoseconds: 0.1 s to 60 s. */
  const RUN_BUCKETS: seq<nat> := [100_000_000, 200_000_000, 500_000_000, 1_000_000_000, 2_000_000_000,
                                  5_000_000_000, 10_000_000_000, 30_000_000_000, 60_000_000_000]

  /** The numbers of one threshold agree with the split of the history into runs. */
  ghost predicate Agrees(h: seq<Sample>, th: real, open: nat, hist: seq<nat>, sum: nat, count: nat) {
    && open == Total(h[OpenFrom(h, th)..])
    && sum == Sum(Observed(h, th))
    && count == |Observed(h, th)|
    && Histogram(RUN_BUCKETS, Observed(h, th), hist)
  }

  lemma AgreesAtFirst(th: real)
    ensures Agrees([], th, 0, seq(|RUN_BUCKETS| + 1, _ => 0), 0, 0)
  {}

  /** A sample at or above the threshold only lengthens the open run. */
  lemma AgreesHigh(h: seq<Sample>, s: Sample, th: real, open: nat, hist: seq<nat>, sum: nat, count: nat)
    requires Agrees(h, th, open, hist, sum, count) && High(s, th)
    ensures Agrees(h + [s], th, open + Elapsed(s), hist, sum, count)
  {
    ObservedStep(h, s, th);
    assert Observed(h, th) + [] == Observed(h, th);
  }

  /** A sample below it with no run open changes nothing. */
  lemma AgreesIdle(h: seq<Sample>, s: Sample, th: real, hist: seq<nat>, sum: nat, count: nat)
    requires Agrees(h, th, 0, hist, sum, count) && !High(s, th)
    ensures Agrees(h + [s], th, 0, hist, sum, count)
  {
    ObservedStep(h, s, th);
    assert Observed(h, th) + [] == Observed(h, th);
  }

  /** A sample below it ends the open run, which is observed once. */
  lemma AgreesClose(h: seq<Sample>, s: Sample, th: real, open: nat, hist: seq<nat>, sum: nat, count: nat)
    requires Agrees(h, th, open, hist, sum, count) && !High(s, th) && open > 0
    ensures var b := BucketOf(RUN_BUCKETS, open);
            Agrees(h + [s], th, 0, hist[b := hist[b] + 1], sum + open, count + 1)
  {
    ObservedStep(h, s, th);
    SumStep(Observed(h, th), open);
    forall b | 0 <= b < |hist|
      ensures CountInBucket(RUN_BUCKETS, Observed(h, th) + [open], b)
           == CountInBucket(RUN_BUCKETS, Observed(h, th), b) + if BucketOf(RUN_BUCKETS, open) == b then 1 else 0
    {
      CountStep(RUN_BUCKETS, Observed(h, th), open, b);
    }
  }

  /** The run state of one core, one place per threshold. */
  class CoreRuns {
    var runOpen: seq<nat>
    var runHist: seq<seq<nat>>
    var runSum: seq<nat>
    var runCount: seq<nat>
    ghost var history: seq<Sample>

    ghost predicate Shaped()
      reads this
    {
      |runOpen| == |runHist| == |runSum| == |runCount| == |RUN_THRESHOLDS|
    }

    ghost predicate Follows(k: nat, h: seq<Sample>)
      requires Shaped() && k < |RUN_THRESHOLDS|
      reads this
    {
      Agrees(h, RUN_THRESHOLDS[k], runOpen[k], runHist[k], runSum[k], runCount[k])
    }

    /** The same numbers for threshold j as before. */
    twostate predicate Same(j: nat)
      requires old(Shaped()) && Shaped() && j < |RUN_THRESHOLDS|
      reads this
    {
      && runOpen[j] == old(runOpen)[j] && runHist[j] == old(runHist)[j]
      && runSum[j] == old(runSum)[j] && runCount[j] == old(runCount)[j]
    }

    ghost predicate Valid()
      reads this
    {
      Shaped() && forall k :: 0 <= k < |RUN_THRESHOLDS| ==> Follows(k, history)
    }

    constructor ()
      ensures Valid() && history == []
    {
      var none := seq(|RUN_BUCKETS| + 1, _ => 0);
      runOpen, runSum, runCount := [0, 0], [0, 0], [0, 0];
      runHist := [none, none];
      history := [];
      new;
      AgreesAtFirst(RUN_THRESHOLDS[0]);
      AgreesAtFirst(RUN_THRESHOLDS[1]);
    }

    /** One sample: per threshold, the open run grows or ends. */
    method FoldRun(ratio: real, dtNS: int)
      requires Valid()
      modifies this
      ensures Valid()
      ensures history == old(history) + [Sample(ratio, dtNS)]
    {
      ghost var s := Sample(ratio, dtNS);
      ghost var h := history;
      var dt: nat := if dtNS < 0 then 0 else dtNS;
      for k := 0 to |RUN_THRESHOLDS|
        invariant Shaped() && history == h
        invariant forall j :: 0 <= j < k ==> Follows(j, h + [s])
        invariant forall j :: k <= j < |RUN_THRESHOLDS| ==> Follows(j, h)
      {
        label Before:
        FoldOne(k, ratio, dt, h, s);
        forall j | 0 <= j < k ensures Follows(j, h + [s]) {
          assert Same@Before(j);
          assert old@Before(Follows(j, h + [s]));
        }
        forall j | k < j < |RUN_THRESHOLDS| ensures Follows(j, h) {
          assert Same@Before(j);
          assert old@Before(Follows(j, h));
        }
      }
      label Folded:
      history := history + [s];
      forall j | 0 <= j < |RUN_THRESHOLDS| ensures Follows(j, history) {
        assert old@Folded(Follows(j, h + [s]));
      }
    }

    method FoldOne(k: nat, ratio: real, dt: nat, ghost h: seq<Sample>, ghost s: Sample)
      requires Shaped() && k < |RUN_THRESHOLDS| && Follows(k, h)
      requires s.ratio == ratio && dt == Elapsed(s)
      modifies this`runOpen, this`runHist, this`runSum, this`runCount
      ensures Shaped() && Follows(k, h + [s])
      ensures forall j :: 0 <= j < |RUN_THRESHOLDS| && j != k ==> Same(j)
    {
      var th, open := RUN_THRESHOLDS[k], runOpen[k];
      if ratio >= th {
        AgreesHigh(h, s, th, open, runHist[k], runSum[k], runCount[k]);
        runOpen := runOpen[k := open + dt];
      } else if open > 0 {
        AgreesClose(h, s, th, open, runHist[k], runSum[k], runCount[k]);
        var b := BucketOf(RUN_BUCKETS, open);
        runHist := runHist[k := runHist[k][b := runHist[k][b] + 1]];
        runSum := runSum[k := runSum[k] + open];
        runCount := runCount[k := runCount[k] + 1];
        runOpen := runOpen[k := 0];
      } else {
        AgreesIdle(h, s, th, runHist[k], runSum[k], runCount[k]);
      }
    }

    /** The rendered histogram of one threshold: a cumulative count per bound, and one over all of them. */
    method RenderRuns(k: nat) returns (cums: seq<nat>)
      requires Valid() && k < |RUN_THRESHOLDS|
      ensures |cums| == |RUN_BUCKETS| + 1
      ensures forall b :: 0 <= b < |RUN_BUCKETS| ==>
                cums[b] == CountAtMost(Observed(history, RUN_THRESHOLDS[k]), RUN_BUCKETS[b])
      ensures cums[|RUN_BUCKETS|] == runCount[k] == |Observed(history, RUN_THRESHOLDS[k])|
    {
      var hist := runHist[k];
      assert Follows(k, history);
      var cum := 0;
      cums := [];
      for b := 0 to |RUN_BUCKETS| + 1
        invariant |cums| == b && cum == Cumulative(hist, b)
        invariant forall j :: 0 <= j < b ==> cums[j] == Cumulative(hist, j + 1)
      {
        cum := cum + hist[b];
        cums := cums + [cum];
      }
      CumulativeCounts(RUN_BUCKETS, Observed(history, RUN_THRESHOLDS[k]), hist);
    }
  }
}

/**
 Trailing baselines (internal/derive/derive.go): a circular window over the
 last samples of one CPU, its median and ninetieth percentile, and the burst
 flag built on them. The percentiles are read off a sorted copy; what they say
 is stated by counting the window's values.
*/
module BaselineSpec {
  import opened Words

  ghost predicate Ordered(s: seq<real>) {
    forall i, j :: 0 <= i <= j < |s| ==> s[i] <= s[j]
  }

  function Insert(s: seq<real>, v: real): (r: seq<real>)
    ensures |r| == |s| + 1
  {
    if s == [] || s[|s| - 1] <= v then s + [v] else Insert(s[..|s| - 1], v) + [s[|s| - 1]]
  }

  /** The values from the least up. */
  function InOrder(s: seq<real>): (r: seq<real>)
    ensures |r| == |s|
  {
    if s == [] then [] else Insert(InOrder(s[..|s| - 1]), s[|s| - 1])
  }

  /** How many values lie below x. */
  function CountBelow(s: seq<real>, x: real): (n: nat)
    ensures n <= |s|
  {
    if s == [] then 0 else CountBelow(s[..|s| - 1], x) + if s[|s| - 1] < x then 1 else 0
  }

  function CountAtLeast(s: seq<real>, x: real): nat {
    |s| - CountBelow(s, x)
  }

  function MedianOf(s: seq<real>): real
    requires s != []
  {
    var c := InOrder(s);
    if |c| % 2 == 1 then c[|c| / 2] else (c[|c| / 2 - 1] + c[|c| / 2]) / 2.0
  }

  function P90Of(s: seq<real>): real
    requires s != []
  {
    InOrder(s)[|s| * 9 / 10]
  }

  // ---- counting and sorting

  ghost predicate AtMost(s: seq<real>, b: real) {
    forall i :: 0 <= i < |s| ==> s[i] <= b
  }

  lemma {:induction false} InsertAtMost(s: seq<real>, v: real, b: real)
    requires AtMost(s, b) && v <= b
    ensures AtMost(Insert(s, v), b)
  {
    if s != [] && v < s[|s| - 1] { InsertAtMost(s[..|s| - 1], v, b); }
  }

  lemma {:induction false} InsertInOrder(s: seq<real>, v: real)
    requires Ordered(s)
    ensures Ordered(Insert(s, v))
  {
    if s != [] && v < s[|s| - 1] {
      InsertInOrder(s[..|s| - 1], v);
      InsertAtMost(s[..|s| - 1], v, s[|s| - 1]);
    }
  }

  lemma {:induction false} InOrderIsOrdered(s: seq<real>)
    ensures Ordered(InOrder(s))
  {
    if s != [] {
      InOrderIsOrdered(s[..|s| - 1]);
      InsertInOrder(InOrder(s[..|s| - 1]), s[|s| - 1]);
    }
  }

  lemma CountStep(s: seq<real>, v: real, x: real)
    ensures CountBelow(s + [v], x) == CountBelow(s, x) + if v < x then 1 else 0
  {
    assert (s + [v])[..|s|] == s;
  }

  lemma {:induction false} InsertCounts(s: seq<real>, v: real, x: real)
    ensures CountBelow(Insert(s, v), x) == CountBelow(s, x) + if v < x then 1 else 0
  {
    if s == [] || s[|s| - 1] <= v {
      CountStep(s, v, x);
    } else {
      InsertCounts(s[..|s| - 1], v, x);
      CountStep(Insert(s[..|s| - 1], v), s[|s| - 1], x);
    }
  }

  /** Sorting moves values about and changes none. */
  lemma {:induction false} InOrderCounts(s: seq<real>, x: real)
    ensures CountBelow(InOrder(s), x) == CountBelow(s, x)
  {
    if s != [] {
      InOrderCounts(s[..|s| - 1], x);
      InsertCounts(InOrder(s[..|s| - 1]), s[|s| - 1], x);
    }
  }

  /** In an ordered sequence the values below x come first. */
  lemma {:induction false} BelowComeFirst(c: seq<real>, x: real, k: nat)
    requires Ordered(c) && k < |c|
    ensures c[k] < x <==> k < CountBelow(c, x)
  {
    var n := |c| - 1;
    if k < n {
      BelowComeFirst(c[..n], x, k);
      if c[n] < x { AllBelow(c[..n], x); }
    } else if c[n] < x {
      AllBelow(c[..n], x);
    }
  }

  lemma {:induction false} AllBelow(c: seq<real>, x: real)
    requires forall i :: 0 <= i < |c| ==> c[i] < x
    ensures CountBelow(c, x) == |c|
  {
    if c != [] { AllBelow(c[..|c| - 1], x); }
  }

  lemma {:induction false} CountConcat(a: seq<real>, b: seq<real>, x: real)
    ensures CountBelow(a + b, x) == CountBelow(a, x) + CountBelow(b, x)
  {
    if b == [] {
      assert a + b == a;
    } else {
      var n := |b| - 1;
      CountConcat(a, b[..n], x);
      CountStep(a + b[..n], b[n], x);
      assert a + b == a + b[..n] + [b[n]];
    }
  }

  /** Counting settles an ordered sequence, so sorting forgets the order the values came in. */
  lemma SortForgetsRotation(a: seq<real>, b: seq<real>)
    ensures InOrder(a + b) == InOrder(b + a)
  {
    var c, d := InOrder(a + b), InOrder(b + a);
    forall k | 0 <= k < |c| ensures c[k] == d[k] {
      if c[k] < d[k] {
        RotationKeepsPlace(a, b, k);
      } else if d[k] < c[k] {
        RotationKeepsPlace(b, a, k);
      }
    }
  }

  lemma RotationKeepsPlace(a: seq<real>, b: seq<real>, k: nat)
    requires k < |a + b|
    ensures InOrder(a + b)[k] >= InOrder(b + a)[k]
  {
    var c, d := InOrder(a + b), InOrder(b + a);
    InOrderIsOrdered(a + b);
    InOrderIsOrdered(b + a);
    BelowComeFirst(c, d[k], k);
    BelowComeFirst(d, d[k], k);
    InOrderCounts(a + b, d[k]);
    InOrderCounts(b + a, d[k]);
    CountConcat(a, b, d[k]);
    CountConcat(b, a, d[k]);
  }

  // ---- what the two percentiles say

  /** Above the ninetieth percentile: above more than nine tenths of the values. */
  lemma AboveP90Iff(s: seq<real>, x: real)
    requires s != []
    ensures x > P90Of(s) <==> 10 * CountBelow(s, x) > 9 * |s|
  {
    InOrderIsOrdered(s);
    InOrderCounts(s, x);
    BelowComeFirst(InOrder(s), x, |s| * 9 / 10);
  }

  /** At or below the median: at least half of the values are no smaller. */
  lemma AtMostMedian(s: seq<real>, x: real)
    requires s != [] && x <= MedianOf(s)
    ensures 2 * CountAtLeast(s, x) >= |s|
  {
    var c := InOrder(s);
    InOrderIsOrdered(s);
    InOrderCounts(s, x);
    BelowComeFirst(c, x, |c| / 2);
    assert x <= c[|c| / 2];
  }

  /** Above the median: at least half of the values are smaller. */
  lemma AboveMedian(s: seq<real>, x: real)
    requires s != [] && x > MedianOf(s)
    ensures 2 * CountBelow(s, x) >= |s|
  {
    var c := InOrder(s);
    InOrderIsOrdered(s);
    InOrderCounts(s, x);
    var k := if |c| % 2 == 1 then |c| / 2 else |c| / 2 - 1;
    BelowComeFirst(c, x, k);
    assert x > c[k];
  }

  /** How many values are at most x. */
  function CountAtMost(s: seq<real>, x: real): (n: nat)
    ensures n <= |s|
  {
    if s == [] then 0 else CountAtMost(s[..|s| - 1], x) + if s[|s| - 1] <= x then 1 else 0
  }

  /** v is the value in place k, counted from the least up: so many are smaller, and more than that no larger. */
  ghost predicate Ranked(s: seq<real>, k: int, v: real) {
    CountBelow(s, v) <= k < CountAtMost(s, v)
  }

  lemma AtMostStep(s: seq<real>, v: real, x: real)
    ensures CountAtMost(s + [v], x) == CountAtMost(s, x) + if v <= x then 1 else 0
  {
    assert (s + [v])[..|s|] == s;
  }

  lemma {:induction false} InsertCountsAtMost(s: seq<real>, v: real, x: real)
    ensures CountAtMost(Insert(s, v), x) == CountAtMost(s, x) + if v <= x then 1 else 0
  {
    if s == [] || s[|s| - 1] <= v {
      AtMostStep(s, v, x);
    } else {
      InsertCountsAtMost(s[..|s| - 1], v, x);
      AtMostStep(Insert(s[..|s| - 1], v), s[|s| - 1], x);
    }
  }

  lemma {:induction false} InOrderCountsAtMost(s: seq<real>, x: real)
    ensures CountAtMost(InOrder(s), x) == CountAtMost(s, x)
  {
    if s != [] {
      InOrderCountsAtMost(s[..|s| - 1], x);
      InsertCountsAtMost(InOrder(s[..|s| - 1]), s[|s| - 1], x);
    }
  }

  /** In an ordered sequence the values at most x come first. */
  lemma {:induction false} AtMostComeFirst(c: seq<real>, x: real, k: nat)
    requires Ordered(c) && k < |c|
    ensures c[k] <= x <==> k < CountAtMost(c, x)
  {
    var n := |c| - 1;
    if k < n {
      AtMostComeFirst(c[..n], x, k);
      if c[n] <= x { AllAtMost(c[..n], x); }
    } else if c[n] <= x {
      AllAtMost(c[..n], x);
    }
  }

  lemma {:induction false} AllAtMost(c: seq<real>, x: real)
    requires forall i :: 0 <= i < |c| ==> c[i] <= x
    ensures CountAtMost(c, x) == |c|
  {
    if c != [] { AllAtMost(c[..|c| - 1], x); }
  }

  /** The value in place k of the sorted copy is ranked so, and no other is. */
  lemma RankedIsPlace(s: seq<real>, k: nat, v: real)
    requires k < |s|
    ensures Ranked(s, k, v) <==> v == InOrder(s)[k]
  {
    var c := InOrder(s);
    InOrderIsOrdered(s);
    InOrderCounts(s, v);
    InOrderCountsAtMost(s, v);
    BelowComeFirst(c, v, k);
    AtMostComeFirst(c, v, k);
  }

  /** The median is half way between the two values in the middle, which are one value when their number is odd. */
  lemma MedianIsMiddle(s: seq<real>, lo: real, hi: real)
    requires Ranked(s, (|s| - 1) / 2, lo) && Ranked(s, |s| / 2, hi)
    ensures s != [] && MedianOf(s) == (lo + hi) / 2.0
  {
    RankedIsPlace(s, (|s| - 1) / 2, lo);
    RankedIsPlace(s, |s| / 2, hi);
  }

  /** There are such values. */
  lemma MiddlesExist(s: seq<real>) returns (lo: real, hi: real)
    requires s != []
    ensures Ranked(s, (|s| - 1) / 2, lo) && Ranked(s, |s| / 2, hi)
  {
    lo, hi := InOrder(s)[(|s| - 1) / 2], InOrder(s)[|s| / 2];
    RankedIsPlace(s, (|s| - 1) / 2, lo);
    RankedIsPlace(s, |s| / 2, hi);
  }

  /** With less than half of the values below it, a value is at or below the median. */
  lemma FewBelowIsAtMostMedian(s: seq<real>, x: real)
    requires s != [] && 2 * CountBelow(s, x) < |s|
    ensures x <= MedianOf(s)
  {
    if x > MedianOf(s) { AboveMedian(s, x); }
  }

  // ---- the burst flag

  const MIN_BASELINE: nat := 10
  const MIN_SQUEEZE: nat := 3

  /** One CPU's packet counters in one sample. */
  datatype Softnet = Softnet(processed: nat, dropped: nat, timeSqueeze: nat)

  /** The flag, over the windows of packet counts and of squeeze counts. */
  predicate Flagged(n: Softnet, packets: seq<real>, squeezes: seq<real>) {
    && |packets| >= MIN_BASELINE
    && n.processed as real <= MedianOf(packets)
    && (n.dropped > 0
        || (|squeezes| >= MIN_BASELINE && n.timeSqueeze >= MIN_SQUEEZE && n.timeSqueeze as real > P90Of(squeezes)))
  }

  /**
   A burst without a drop squeezed more than over nine tenths of its window, in a sample
   no busier than half of its window.
  */
  lemma BurstStandsOut(n: Softnet, packets: seq<real>, squeezes: seq<real>)
    requires Flagged(n, packets, squeezes)
    ensures 2 * CountAtLeast(packets, n.processed as real) >= |packets|
    ensures n.dropped == 0 ==> n.timeSqueeze >= 3 && 10 * CountBelow(squeezes, n.timeSqueeze as real) > 9 * |squeezes|
  {
    AtMostMedian(packets, n.processed as real);
    if n.dropped == 0 { AboveP90Iff(squeezes, n.timeSqueeze as real); }
  }

  /** A busy sample is never flagged: one above its median has half of its window below it. */
  lemma BusyIsNotBurst(n: Softnet, packets: seq<real>, squeezes: seq<real>)
    requires |packets| >= MIN_BASELINE && 2 * CountAtLeast(packets, n.processed as real) < |packets|
    ensures !Flagged(n, packets, squeezes)
  {
    if n.processed as real <= MedianOf(packets) { AtMostMedian(packets, n.processed as real); }
  }

  /**
   What is flagged: ten samples are known, the sample is no busier than half way
   between the two in their middle, and it dropped packets, or it squeezed three
   times, and less often in more than nine tenths of ten or more known samples.
  */
  lemma FlaggedIff(n: Softnet, packets: seq<real>, squeezes: seq<real>, lo: real, hi: real)
    requires packets != [] ==> Ranked(packets, (|packets| - 1) / 2, lo) && Ranked(packets, |packets| / 2, hi)
    ensures Flagged(n, packets, squeezes) <==>
              && |packets| >= 10
              && 2.0 * n.processed as real <= lo + hi
              && (n.dropped > 0
                  || (&& |squeezes| >= 10 && n.timeSqueeze >= 3
                      && 10 * CountBelow(squeezes, n.timeSqueeze as real) > 9 * |squeezes|))
  {
    if packets != [] { MedianIsMiddle(packets, lo, hi); }
    if squeezes != [] { AboveP90Iff(squeezes, n.timeSqueeze as real); }
  }

  /** Less than half of the window lies below the sample, and it dropped or squeezed more than nine tenths of it. */
  ghost predicate Quiet(n: Softnet, packets: seq<real>, squeezes: seq<real>) {
    && |packets| >= 10
    && 2 * CountBelow(packets, n.processed as real) < |packets|
    && (n.dropped > 0
        || (|squeezes| >= 10 && n.timeSqueeze >= 3
            && 10 * CountBelow(squeezes, n.timeSqueeze as real) > 9 * |squeezes|))
  }

  /** Such a sample is flagged. */
  lemma QuietIsFlagged(n: Softnet, packets: seq<real>, squeezes: seq<real>)
    requires Quiet(n, packets, squeezes)
    ensures Flagged(n, packets, squeezes)
  {
    FewBelowIsAtMostMedian(packets, n.processed as real);
    if squeezes != [] { AboveP90Iff(squeezes, n.timeSqueeze as real); }
  }

  // ---- clusters of flags

  const BURST_EPISODE: nat := 3
  const BURST_WINDOW_NS: int := 60_000_000_000

  /** The flag times kept after each of ts in turn. */
  function Lately(ts: seq<int>): seq<int> {
    if ts == [] then [] else DropOld(Lately(ts[..|ts| - 1]) + [ts[|ts| - 1]], ts[|ts| - 1], BURST_WINDOW_NS)
  }

  ghost predicate Forward(ts: seq<int>) {
    forall i, j :: 0 <= i <= j < |ts| ==> ts[i] <= ts[j]
  }

  /** Where the last window of ts starts. */
  ghost predicate WindowStart(ts: seq<int>, k: nat, now: int) {
    && k <= |ts|
    && (forall i :: 0 <= i < k ==> now - ts[i] > BURST_WINDOW_NS)
    && (forall i :: k <= i < |ts| ==> now - ts[i] <= BURST_WINDOW_NS)
  }

  lemma {:induction false} TrimFindsStart(ts: seq<int>, k: nat, now: int) returns (m: nat)
    requires Forward(ts) && k <= |ts| && forall i :: 0 <= i < k ==> now - ts[i] > BURST_WINDOW_NS
    ensures WindowStart(ts, m, now) && DropOld(ts[k..], now, BURST_WINDOW_NS) == ts[m..]
    decreases |ts| - k
  {
    if k == |ts| || now - ts[k] <= BURST_WINDOW_NS {
      m := k;
      assert k < |ts| ==> ts[k..][0] == ts[k];
    } else {
      m := TrimFindsStart(ts, k + 1, now);
      assert ts[k..][1..] == ts[k + 1..];
    }
  }

  lemma OldStaysOld(ts: seq<int>, n: nat, j: nat)
    requires Forward(ts) && |ts| == n + 1 && n > 0 && WindowStart(ts[..n], j, ts[n - 1])
    ensures forall i :: 0 <= i < j ==> ts[n] - ts[i] > BURST_WINDOW_NS
  {
    assert ts[n - 1] <= ts[n];
    forall i | 0 <= i < j ensures ts[n] - ts[i] > BURST_WINDOW_NS {
      assert ts[n - 1] - ts[..n][i] > BURST_WINDOW_NS;
    }
  }

  /** While time does not go back, exactly the flags of the last minute are kept. */
  lemma {:induction false} LatelyIsLastMinute(ts: seq<int>) returns (k: nat)
    requires Forward(ts) && ts != []
    ensures WindowStart(ts, k, ts[|ts| - 1]) && Lately(ts) == ts[k..]
  {
    var n := |ts| - 1;
    if n == 0 {
      assert Lately(ts[..n]) + [ts[n]] == ts[0..];
      k := TrimFindsStart(ts, 0, ts[n]);
    } else {
      var j := LatelyIsLastMinute(ts[..n]);
      assert Lately(ts[..n]) + [ts[n]] == ts[j..];
      OldStaysOld(ts, n, j);
      k := TrimFindsStart(ts, j, ts[n]);
    }
  }
}

module Baselines {
  import opened Words
  import opened BaselineSpec

  const DEFAULT_RATE_HZ: int := 10
  const BASELINE_SECONDS: int := 10
  const MAX_BASELINE: int := 2000

  /** How many samples a baseline covers at a sampler rate. */
  function BaselineSamples(rateHz: int): (n: int)
    ensures MIN_BASELINE <= n <= MAX_BASELINE
    ensures n == if rateHz < 1 then 100 else if rateHz <= 200 then 10 * rateHz else 2000
  {
    var rate := if rateHz < 1 then DEFAULT_RATE_HZ else rateHz;
    Min(Max(rate * BASELINE_SECONDS, MIN_BASELINE), MAX_BASELINE)
  }

  /** A circular window of the last cap values. */
  class Window {
    var vals: seq<real>
    var cap: int
    var next: nat
    var full: bool
    ghost var history: seq<real>

    ghost predicate Valid()
      reads this
    {
      && (cap < 1 ==> history == [])
      && (history == [] ==> vals == [])
      && next <= |vals|
      && (cap >= 1 ==>
            && |vals| == Min(|history|, cap)
            && (next == |vals| ==> vals == [])
            && (|history| <= cap ==> next == 0)
            && vals[next..] + vals[..next] == Suffix(history, cap)
            && (full <==> |history| > cap))
    }

    /** The last values pushed, oldest first. */
    ghost function Recent(): (r: seq<real>)
      requires Valid()
      reads this
    {
      if cap < 1 then [] else Suffix(history, cap)
    }

    constructor (cap: int)
      ensures Valid() && history == [] && this.cap == cap
    {
      this.cap := cap;
      vals, next, full, history := [], 0, false, [];
    }

    method Push(v: real)
      requires Valid()
      modifies this
      ensures Valid() && history == old(history) + [v]
      ensures cap == if old(cap) < 1 then BaselineSamples(DEFAULT_RATE_HZ) else old(cap)
      ensures Recent() == Suffix(history, cap)
    {
      if cap < 1 {
        cap := BaselineSamples(DEFAULT_RATE_HZ);
        full := false;
        assert Valid();
      }
      if |vals| < cap {
        Grow(v);
      } else {
        Overwrite(v);
      }
    }

    method Grow(v: real)
      requires Valid() && 1 <= cap && |vals| < cap
      modifies this
      ensures Valid() && history == old(history) + [v] && cap == old(cap)
    {
      assert vals[0..] + vals[..0] == vals;
      vals := vals + [v];
      history := history + [v];
      assert vals[0..] + vals[..0] == vals;
    }

    method Overwrite(v: real)
      requires Valid() && 1 <= cap && |vals| == cap
      modifies this
      ensures Valid() && history == old(history) + [v] && cap == old(cap)
    {
      ghost var was, at := vals, next;
      var turn := (next + 1) % cap;
      ModuloOnce(next + 1, cap);
      vals := vals[next := v];
      OverwriteTurns(was, at, v);
      SuffixStep(history, v, cap);
      next := turn;
      history := history + [v];
      full := true;
    }

    method Median() returns (m: real, ok: bool)
      requires Valid()
      ensures ok <==> |Recent()| >= MIN_BASELINE
      ensures ok ==> m == MedianOf(Recent())
    {
      if |vals| < MIN_BASELINE { return 0.0, false; }
      SortForgetsTurn(vals, next);
      var c := InOrder(vals);
      if |c| % 2 == 1 {
        return c[|c| / 2], true;
      }
      return (c[|c| / 2 - 1] + c[|c| / 2]) / 2.0, true;
    }

    method P90() returns (p: real, ok: bool)
      requires Valid()
      ensures ok <==> |Recent()| >= MIN_BASELINE
      ensures ok ==> p == P90Of(Recent())
    {
      if |vals| < MIN_BASELINE { return 0.0, false; }
      SortForgetsTurn(vals, next);
      var c := InOrder(vals);
      return c[|c| * 9 / 10], true;
    }
  }

  lemma SortForgetsTurn(vals: seq<real>, next: nat)
    requires next <= |vals|
    ensures InOrder(vals[next..] + vals[..next]) == InOrder(vals)
  {
    TwoParts(vals, next);
    SortForgetsRotation(vals[next..], vals[..next]);
  }

  lemma TwoParts(vals: seq<real>, n: nat)
    requires n <= |vals|
    ensures vals[..n] + vals[n..] == vals
  {}

  /** Overwriting the oldest value turns the circle by one. */
  lemma OverwriteTurns(vals: seq<real>, next: nat, v: real)
    requires next < |vals|
    ensures var w, n := vals[next := v], if next + 1 < |vals| then next + 1 else 0;
            w[n..] + w[..n] == (vals[next..] + vals[..next])[1..] + [v]
  {}

  lemma SuffixStep(h: seq<real>, v: real, cap: nat)
    requires 1 <= cap <= |h|
    ensures Suffix(h + [v], cap) == Suffix(h, cap)[1..] + [v]
  {}

  /** One CPU's baselines and the times of its recent burst samples. */
  class CpuBaseline {
    const packets: Window
    const squeezes: Window
    var burstAt: seq<int>
    ghost var flaggedAt: seq<int>

    ghost predicate Valid()
      reads this, packets, squeezes
    {
      && packets != squeezes
      && packets.Valid() && squeezes.Valid()
      && burstAt == Lately(flaggedAt)
    }

    constructor (rateHz: int)
      ensures Valid() && fresh(packets) && fresh(squeezes)
      ensures packets.history == [] && squeezes.history == [] && flaggedAt == []
      ensures packets.cap == squeezes.cap == BaselineSamples(rateHz)
    {
      packets := new Window(BaselineSamples(rateHz));
      squeezes := new Window(BaselineSamples(rateHz));
      burstAt, flaggedAt := [], [];
    }

    method IsBurst(n: Softnet) returns (hit: bool)
      requires Valid()
      ensures hit <==> Flagged(n, packets.Recent(), squeezes.Recent())
      ensures Quiet(n, packets.Recent(), squeezes.Recent()) ==> hit
    {
      if Quiet(n, packets.Recent(), squeezes.Recent()) { QuietIsFlagged(n, packets.Recent(), squeezes.Recent()); }
      var med, ok := packets.Median();
      if !ok || n.processed as real > med { return false; }
      if n.dropped > 0 { return true; }
      var p90, okP := squeezes.P90();
      return okP && n.timeSqueeze >= MIN_SQUEEZE && n.timeSqueeze as real > p90;
    }

    /** One sample: flag it, cluster the flags, and only then let it join the baselines. */
    method Burst(wallNS: int, n: Softnet) returns (hit: bool, episode: bool)
      requires Valid()
      modifies this`burstAt, this`flaggedAt, packets, squeezes
      ensures Valid()
      ensures hit <==> Flagged(n, old(packets.Recent()), old(squeezes.Recent()))
      ensures flaggedAt == old(flaggedAt) + if hit then [wallNS] else []
      ensures episode <==> hit && |Lately(flaggedAt)| >= BURST_EPISODE
      ensures packets.history == old(packets.history) + [n.processed as real]
      ensures squeezes.history == old(squeezes.history) + [n.timeSqueeze as real]
    {
      episode := false;
      hit := IsBurst(n);
      if hit { episode := Cluster(wallNS); }
      Join(n);
    }

    /** The sample joins both baselines. */
    method Join(n: Softnet)
      requires Valid()
      modifies packets, squeezes
      ensures Valid()
      ensures packets.history == old(packets.history) + [n.processed as real]
      ensures squeezes.history == old(squeezes.history) + [n.timeSqueeze as real]
    {
      packets.Push(n.processed as real);
      squeezes.Push(n.timeSqueeze as real);
    }

    /** A flag joins the recent ones; those more than a minute older are let go. */
    method Cluster(wallNS: int) returns (episode: bool)
      requires burstAt == Lately(flaggedAt)
      modifies `burstAt, `flaggedAt
      ensures flaggedAt == old(flaggedAt) + [wallNS] && burstAt == Lately(flaggedAt)
      ensures episode <==> |burstAt| >= BURST_EPISODE
    {
      var at := burstAt + [wallNS];
      var cut := 0;
      while cut < |at| && wallNS - at[cut] > BURST_WINDOW_NS
        invariant cut <= |at|
        invariant DropOld(at, wallNS, BURST_WINDOW_NS) == DropOld(at[cut..], wallNS, BURST_WINDOW_NS)
      {
        assert at[cut..][1..] == at[cut + 1..];
        cut := cut + 1;
      }
      assert cut < |at| ==> at[cut..][0] == at[cut];
      flaggedAt := flaggedAt + [wallNS];
      assert flaggedAt[..|flaggedAt| - 1] == old(flaggedAt);
      burstAt := at[cut..];
      episode := |burstAt| >= BURST_EPISODE;
    }
  }
}

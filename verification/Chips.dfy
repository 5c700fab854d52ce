/**
 The chart's markers (internal/chart/chart.go): log markers of one second are
 folded, chips are packed into rows without touching, and drops are added up by
 the second. Coordinates are reals, so rounding is not modelled; labels are
 byte strings.
*/
module ChipSpec {

  datatype Kind = Note | Gap | Log

  datatype Marker = Marker(wallNS: int, kind: Kind, text: string, count: nat, first: string)

  const PAD_L: real := 64.0
  const RIGHT: real := 1104.0 // the chart's width of 1200 less the right margin of 96
  const MAX_ROWS: nat := 6
  const MIN_CHIP_LABEL: nat := 12
  const MAX_CHIP_LABEL: nat := 40
  const ROW_GAP: real := 6.0
  const FAR_LEFT: real := -1000000000.0

  /** The three bytes of an ellipsis. */
  const ELLIPSIS: string := "\U{E2}\U{80}\U{A6}"

  function MinR(a: real, b: real): real {
    if a <= b then a else b
  }

  function MaxR(a: real, b: real): real {
    if a >= b then a else b
  }

  /** A chip's width by the length of its label: 6.2 a character, and a pad of 6 on each side. */
  function ChipWidth(n: nat): real {
    6.2 * n as real + 12.0
  }

  /** Where a chip of that length starts: about cx, pushed inside the margins. */
  function ChipLeft(cx: real, n: nat): real {
    MaxR(PAD_L, MinR(cx - ChipWidth(n) / 2.0, RIGHT - ChipWidth(n)))
  }

  /** The first row from r on whose last chip leaves room left of x0, or |rowEnd|. */
  function FirstFree(rowEnd: seq<real>, x0: real, r: nat): (k: nat)
    requires r <= |rowEnd|
    ensures r <= k <= |rowEnd|
    ensures k < |rowEnd| ==> x0 > rowEnd[k] + ROW_GAP
    decreases |rowEnd| - r
  {
    if r == |rowEnd| || x0 > rowEnd[r] + ROW_GAP then r else FirstFree(rowEnd, x0, r + 1)
  }

  /** A chip with a label of that length fits on some row. */
  predicate Fits(rowEnd: seq<real>, cx: real, n: nat) {
    FirstFree(rowEnd, ChipLeft(cx, n), 0) < |rowEnd|
  }

  /** The longest label, from n bytes down, that fits; 0 when none of at least the shortest does. */
  function Longest(rowEnd: seq<real>, cx: real, n: nat): nat {
    if n < MIN_CHIP_LABEL then 0 else if Fits(rowEnd, cx, n) then n else Longest(rowEnd, cx, n - 1)
  }

  /** A label as it is, or cut to n bytes that end in an ellipsis. */
  function Shortened(text: string, n: nat): string {
    if n >= |text| then text else if n < |ELLIPSIS| then ELLIPSIS else text[..n - |ELLIPSIS|] + ELLIPSIS
  }

  /** A marker's item: with a chip when its label is not empty. */
  datatype Chip = Chip(m: Marker, text: string, x: real, x0: real, w: real, row: nat)

  predicate Drawn(c: Chip) {
    c.text != ""
  }

  /** A chip lies between the chart's margins, on one of its rows, and is as wide as its label needs. */
  ghost predicate Inside(c: Chip) {
    Drawn(c) ==>
      && MIN_CHIP_LABEL <= |c.text| <= MAX_CHIP_LABEL
      && c.w == ChipWidth(|c.text|)
      && PAD_L <= c.x0 && c.x0 + c.w <= RIGHT
      && c.row < MAX_ROWS
  }

  /** An earlier chip on the same row ends more than the gap before a later one starts. */
  ghost predicate Apart(a: Chip, b: Chip) {
    Drawn(a) && Drawn(b) && a.row == b.row ==> b.x0 > a.x0 + a.w + ROW_GAP
  }

  ghost predicate AllApart(items: seq<Chip>) {
    forall i, j :: 0 <= i < j < |items| ==> Apart(items[i], items[j])
  }

  /** rowEnd is at or past the end of every chip on its row. */
  ghost predicate Covered(items: seq<Chip>, rowEnd: seq<real>) {
    && |rowEnd| == MAX_ROWS
    && forall i :: 0 <= i < |items| && Drawn(items[i]) ==>
         items[i].row < MAX_ROWS && items[i].x0 + items[i].w <= rowEnd[items[i].row]
  }

  /** rows is one more than the lowest row with a chip. */
  ghost predicate RowsUsed(items: seq<Chip>, rows: nat) {
    && (forall i :: 0 <= i < |items| && Drawn(items[i]) ==> items[i].row < rows)
    && (rows > 0 ==> exists i :: 0 <= i < |items| && Drawn(items[i]) && items[i].row == rows - 1)
  }

  /** Where the last chip of every row ends, of the first n items. */
  function RowEnds(items: seq<Chip>, n: nat): (ends: seq<real>)
    requires n <= |items|
    ensures |ends| == MAX_ROWS
  {
    if n == 0 then [FAR_LEFT, FAR_LEFT, FAR_LEFT, FAR_LEFT, FAR_LEFT, FAR_LEFT]
    else EndsAfter(RowEnds(items, n - 1), items[n - 1])
  }

  function EndsAfter(ends: seq<real>, c: Chip): seq<real> {
    if Drawn(c) && c.row < |ends| then ends[c.row := c.x0 + c.w] else ends
  }

  /** A label as a chip may show it at first: at most 40 bytes. */
  function Capped(text: string): string {
    if |text| > MAX_CHIP_LABEL then text[..37] + ELLIPSIS else text
  }

  /**
   The chip a marker gets where the rows end so: the longest label that fits, on the
   first row with room for it; or none.
  */
  function ChipOf(m: Marker, cx: real, rowEnd: seq<real>): Chip {
    var n := Longest(rowEnd, cx, |Capped(m.text)|);
    if n == 0 then Chip(m, "", cx, 0.0, 0.0, 0)
    else
      var x0 := ChipLeft(cx, n);
      Chip(m, Shortened(Capped(m.text), n), cx, x0, ChipWidth(n), FirstFree(rowEnd, x0, 0))
  }

  function Picker(): (Marker, real, seq<real>) -> Chip {
    (m, cx, rowEnd) => ChipOf(m, cx, rowEnd)
  }

  /** Item i is the one its marker gets after the items before it. */
  ghost predicate ChosenAt(items: seq<Chip>, i: nat, pick: (Marker, real, seq<real>) -> Chip)
    requires i < |items|
  {
    items[i] == pick(items[i].m, items[i].x, RowEnds(items, i))
  }

  ghost predicate AllChosen(items: seq<Chip>, pick: (Marker, real, seq<real>) -> Chip) {
    forall i :: 0 <= i < |items| ==> ChosenAt(items, i, pick)
  }

  lemma {:induction false} RowEndsPrefix(items: seq<Chip>, c: Chip, n: nat)
    requires n <= |items|
    ensures RowEnds(items + [c], n) == RowEnds(items, n)
  {
    if n > 0 { RowEndsPrefix(items, c, n - 1); }
  }

  lemma StillChosen(items: seq<Chip>, c: Chip, i: nat, pick: (Marker, real, seq<real>) -> Chip)
    requires i < |items| && ChosenAt(items, i, pick)
    ensures ChosenAt(items + [c], i, pick)
  {
    RowEndsPrefix(items, c, i);
  }

  lemma LastChosen(items: seq<Chip>, c: Chip, ends: seq<real>, pick: (Marker, real, seq<real>) -> Chip)
    requires items != [] && items[|items| - 1] == c && RowEnds(items, |items| - 1) == ends
    requires c == pick(c.m, c.x, ends)
    ensures ChosenAt(items, |items| - 1, pick)
  {}

  lemma OneMoreChosen(items: seq<Chip>, c: Chip, ends: seq<real>, pick: (Marker, real, seq<real>) -> Chip)
    requires AllChosen(items, pick) && ends == RowEnds(items, |items|) && c == pick(c.m, c.x, ends)
    ensures AllChosen(items + [c], pick)
  {
    var more := items + [c];
    RowEndsPrefix(items, c, |items|);
    LastChosen(more, c, ends, pick);
    forall i | 0 <= i < |items| ensures ChosenAt(more, i, pick) {
      StillChosen(items, c, i, pick);
    }
  }

  lemma OneMoreEnd(items: seq<Chip>, c: Chip)
    ensures RowEnds(items + [c], |items| + 1) == EndsAfter(RowEnds(items, |items|), c)
  {
    RowEndsPrefix(items, c, |items|);
  }

  function Seconds(m: Marker, t0: int): real {
    (m.wallNS - t0) as real / 1000000000.0
  }

  predicate Shown(m: Marker, t0: int, tMax: real) {
    0.0 <= Seconds(m, t0) <= tMax
  }

  /** The first n markers, those outside the chart left out. */
  function InRange(ms: seq<Marker>, n: nat, t0: int, tMax: real): seq<Marker>
    requires n <= |ms|
  {
    if n == 0 then [] else InRange(ms, n - 1, t0, tMax) + if Shown(ms[n - 1], t0, tMax) then [ms[n - 1]] else []
  }

  ghost predicate ItemsOf(items: seq<Chip>, ms: seq<Marker>) {
    |items| == |ms| && forall i :: 0 <= i < |items| ==> items[i].m == ms[i]
  }

  /** No row before the first free one has room. */
  lemma {:induction false} FirstFreeIsFirst(rowEnd: seq<real>, x0: real, r: nat, k: nat)
    requires r <= k < |rowEnd| && k < FirstFree(rowEnd, x0, r)
    ensures x0 <= rowEnd[k] + ROW_GAP
    decreases |rowEnd| - r
  {
    if r < k { FirstFreeIsFirst(rowEnd, x0, r + 1, k); }
  }

  lemma NoneBefore(rowEnd: seq<real>, x0: real)
    ensures forall k :: 0 <= k < FirstFree(rowEnd, x0, 0) ==> x0 <= rowEnd[k] + ROW_GAP
  {
    forall k | 0 <= k < FirstFree(rowEnd, x0, 0) ensures x0 <= rowEnd[k] + ROW_GAP {
      FirstFreeIsFirst(rowEnd, x0, 0, k);
    }
  }

  /** No longer label would have fitted, and a chip is given up only when no label of the shortest length does. */
  lemma {:induction false} LongestIsLongest(rowEnd: seq<real>, cx: real, n: nat, k: nat)
    requires Longest(rowEnd, cx, n) < k <= n && MIN_CHIP_LABEL <= k
    ensures !Fits(rowEnd, cx, k)
  {
    if k < n { LongestIsLongest(rowEnd, cx, n - 1, k); }
  }

  lemma {:induction false} LongestFits(rowEnd: seq<real>, cx: real, n: nat)
    ensures var k := Longest(rowEnd, cx, n); k != 0 ==> MIN_CHIP_LABEL <= k <= n && Fits(rowEnd, cx, k)
  {
    if n >= MIN_CHIP_LABEL && !Fits(rowEnd, cx, n) { LongestFits(rowEnd, cx, n - 1); }
  }

  /** A shorter label starts no further left. */
  lemma ShorterStartsLater(cx: real, k: nat, n: nat)
    requires k <= n
    ensures ChipLeft(cx, n) <= ChipLeft(cx, k)
  {}

  /** What starts no further left finds a row where the other did. */
  lemma {:induction false} LaterIsFree(rowEnd: seq<real>, x: real, y: real, r: nat)
    requires r <= |rowEnd| && x <= y
    ensures FirstFree(rowEnd, y, r) <= FirstFree(rowEnd, x, r)
    decreases |rowEnd| - r
  {
    if r < |rowEnd| { LaterIsFree(rowEnd, x, y, r + 1); }
  }

  lemma ShorterFits(rowEnd: seq<real>, cx: real, k: nat, n: nat)
    requires k <= n && Fits(rowEnd, cx, n)
    ensures Fits(rowEnd, cx, k)
  {
    ShorterStartsLater(cx, k, n);
    LaterIsFree(rowEnd, ChipLeft(cx, n), ChipLeft(cx, k), 0);
  }

  /**
   A label gets a chip exactly when it has 12 bytes or more and 12 of them fit; a shorter
   one gets none, fit or not.
  */
  lemma ChipIff(rowEnd: seq<real>, cx: real, n: nat)
    ensures Longest(rowEnd, cx, n) != 0 <==> n >= MIN_CHIP_LABEL && Fits(rowEnd, cx, MIN_CHIP_LABEL)
  {
    LongestFits(rowEnd, cx, n);
    if Longest(rowEnd, cx, n) != 0 {
      ShorterFits(rowEnd, cx, MIN_CHIP_LABEL, Longest(rowEnd, cx, n));
    } else if n >= MIN_CHIP_LABEL {
      LongestIsLongest(rowEnd, cx, n, MIN_CHIP_LABEL);
    }
  }

  /** A label at most as long as a chip may be leaves room for the chip between the margins. */
  lemma ChipIsInside(cx: real, n: nat)
    requires n <= MAX_CHIP_LABEL
    ensures PAD_L <= ChipLeft(cx, n) && ChipLeft(cx, n) + ChipWidth(n) <= RIGHT
  {}

  /** A chip on a row with room left keeps the chips apart. */
  lemma OneMoreApart(items: seq<Chip>, rowEnd: seq<real>, c: Chip)
    requires AllApart(items) && Covered(items, rowEnd) && c.row < MAX_ROWS
    requires Drawn(c) ==> c.x0 > rowEnd[c.row] + ROW_GAP && c.w >= 0.0
    ensures AllApart(items + [c])
    ensures Covered(items + [c], if Drawn(c) then rowEnd[c.row := c.x0 + c.w] else rowEnd)
  {
    var more := items + [c];
    forall i, j | 0 <= i < j < |more| ensures Apart(more[i], more[j]) {
      if j == |items| { assert more[i] == items[i]; } else { assert Apart(items[i], items[j]); }
    }
  }

  lemma OneMoreRow(items: seq<Chip>, rows: nat, c: Chip)
    requires RowsUsed(items, rows)
    ensures RowsUsed(items + [c], if Drawn(c) && c.row + 1 > rows then c.row + 1 else rows)
  {
    var more := items + [c];
    if Drawn(c) && c.row + 1 > rows {
      assert more[|items|] == c;
    } else if rows > 0 {
      var i :| 0 <= i < |items| && Drawn(items[i]) && items[i].row == rows - 1;
      assert more[i] == items[i];
    }
  }

  // ---- folding

  /** The whole second of a time, rounded towards 0. */
  function WholeSecond(ns: int): int {
    if ns >= 0 then ns / 1000000000 else -(-ns / 1000000000)
  }

  /** A number in decimal. */
  function Digits(n: nat): string {
    var d := ['0' + (n % 10) as char];
    if n < 10 then d else Digits(n / 10) + d
  }

  /** A group with one marker more: its label is the count and the first label. */
  function Recounted(m: Marker): Marker {
    m.(count := m.count + 1, text := Digits(m.count + 1) + "\U{C3}\U{97} " + m.first)
  }

  /** The first n markers, by time, with each log marker folded into a log marker of its second right before it. */
  function Grouped(ms: seq<Marker>, n: nat): seq<Marker>
    requires n <= |ms|
  {
    if n == 0 then []
    else
      var out, m := Grouped(ms, n - 1), ms[n - 1];
      if out != [] && SameSecondLogs(out[|out| - 1], m) then out[|out| - 1 := Recounted(out[|out| - 1])]
      else out + [m.(count := 1, first := m.text)]
  }

  function Counted(out: seq<Marker>): nat {
    if out == [] then 0 else Counted(out[..|out| - 1]) + out[|out| - 1].count
  }

  /** Two log markers of one second. */
  predicate SameSecondLogs(a: Marker, b: Marker) {
    a.kind == Log && b.kind == Log && WholeSecond(a.wallNS) == WholeSecond(b.wallNS)
  }

  /** No two neighbours are log markers of one second. */
  ghost predicate Folded(out: seq<Marker>) {
    forall i :: 0 < i < |out| ==> !SameSecondLogs(out[i - 1], out[i])
  }

  ghost predicate ByTime(ms: seq<Marker>) {
    forall i, j :: 0 <= i <= j < |ms| ==> ms[i].wallNS <= ms[j].wallNS
  }

  lemma WholeSecondMonotone(a: int, b: int)
    requires a <= b
    ensures WholeSecond(a) <= WholeSecond(b)
  {}

  /** Where two log markers of one second are left, another kind of marker of that second stands between them. */
  lemma UnfoldedHaveOtherBetween(out: seq<Marker>, i: nat, j: nat)
    requires Folded(out) && ByTime(out) && i < j < |out| && SameSecondLogs(out[i], out[j])
    ensures exists k :: i < k < j && out[k].kind != Log && WholeSecond(out[k].wallNS) == WholeSecond(out[i].wallNS)
  {
    var k := i + 1;
    WholeSecondMonotone(out[i].wallNS, out[k].wallNS);
    WholeSecondMonotone(out[k].wallNS, out[j].wallNS);
    assert !SameSecondLogs(out[k - 1], out[k]);
  }

  /** The item that marker i ended in: the last one when it had been taken in. */
  function GroupOf(ms: seq<Marker>, i: nat): nat
    requires i < |ms|
  {
    |Grouped(ms, i + 1)| - 1
  }

  /** How many of the first n markers ended in item g. */
  function Members(ms: seq<Marker>, n: nat, g: nat): nat
    requires n <= |ms|
  {
    if n == 0 then 0 else Members(ms, n - 1, g) + if GroupOf(ms, n - 1) == g then 1 else 0
  }

  /** Each item counts the markers that ended in it, and starts at the first of them. */
  lemma {:induction false} ItemCountsMembers(ms: seq<Marker>, n: nat, g: nat)
    requires n <= |ms|
    ensures Members(ms, n, g) == if g < |Grouped(ms, n)| then Grouped(ms, n)[g].count else 0
    ensures g < |Grouped(ms, n)| ==> Grouped(ms, n)[g].count >= 1
  {
    if n > 0 {
      ItemCountsMembers(ms, n - 1, g);
    }
  }

  /** The last item is of the kind and the second of the last marker taken in. */
  lemma LastIsAlike(ms: seq<Marker>, n: nat)
    requires 0 < n <= |ms|
    ensures Grouped(ms, n) != []
    ensures var last := Grouped(ms, n)[|Grouped(ms, n)| - 1];
            last.kind == ms[n - 1].kind && WholeSecond(last.wallNS) == WholeSecond(ms[n - 1].wallNS)
  {}

  /** A marker joins the item of the one right before it exactly when both are log markers of one second. */
  lemma JoinsIff(ms: seq<Marker>, j: nat)
    requires 0 < j < |ms|
    ensures GroupOf(ms, j) == if SameSecondLogs(ms[j - 1], ms[j]) then GroupOf(ms, j - 1) else GroupOf(ms, j - 1) + 1
  {
    LastIsAlike(ms, j);
  }

  lemma {:induction false} SameGroupIff(ms: seq<Marker>, i: nat, j: nat)
    requires i <= j < |ms|
    ensures GroupOf(ms, i) <= GroupOf(ms, j)
    ensures GroupOf(ms, i) == GroupOf(ms, j) <==> forall k :: i < k <= j ==> SameSecondLogs(ms[k - 1], ms[k])
    decreases j
  {
    if i < j {
      JoinsIff(ms, j);
      SameGroupIff(ms, i, j - 1);
    }
  }

  /**
   Of markers sorted by time, two log markers of one second end in one item
   exactly when no marker of another kind stands between them.
  */
  lemma FoldedIff(ms: seq<Marker>, i: nat, j: nat)
    requires ByTime(ms) && i < j < |ms| && SameSecondLogs(ms[i], ms[j])
    ensures GroupOf(ms, i) == GroupOf(ms, j) <==> forall k :: i < k < j ==> ms[k].kind == Log
  {
    SameGroupIff(ms, i, j);
    forall k | i <= k <= j ensures WholeSecond(ms[k].wallNS) == WholeSecond(ms[i].wallNS) {
      WholeSecondMonotone(ms[i].wallNS, ms[k].wallNS);
      WholeSecondMonotone(ms[k].wallNS, ms[j].wallNS);
    }
    if forall k :: i < k <= j ==> SameSecondLogs(ms[k - 1], ms[k]) {
      forall k | i < k < j ensures ms[k].kind == Log {
        assert SameSecondLogs(ms[k - 1], ms[k]);
      }
    }
  }

  /** A note between two log markers of its own moment keeps them apart. */
  lemma NoteParts(ns: int, a: string, note: string, b: string)
    ensures var ms := [Marker(ns, Log, a, 0, ""), Marker(ns, Note, note, 0, ""), Marker(ns, Log, b, 0, "")];
            && ByTime(ms) && SameSecondLogs(ms[0], ms[2])
            && Grouped(ms, 3) == [Marker(ns, Log, a, 1, a), Marker(ns, Note, note, 1, note), Marker(ns, Log, b, 1, b)]
  {
    var ms := [Marker(ns, Log, a, 0, ""), Marker(ns, Note, note, 0, ""), Marker(ns, Log, b, 0, "")];
    assert Grouped(ms, 0) == [];
    assert Grouped(ms, 1) == [Marker(ns, Log, a, 1, a)];
    assert Grouped(ms, 2) == [Marker(ns, Log, a, 1, a), Marker(ns, Note, note, 1, note)];
  }

  // ---- seconds

  /** A sample's wall time and its softnet drops and squeezes. */
  datatype Tick = Tick(wallNS: int, dropped: nat, squeezed: nat)

  datatype Measure = Dropped | Squeezed

  function Value(t: Tick, m: Measure): nat {
    if m == Dropped then t.dropped else t.squeezed
  }

  function SecondOf(t: Tick, t0: int): int {
    WholeSecond(t.wallNS - t0)
  }

  /** What the first n samples measured that do not lie a second or more before t0. */
  function Sums(ts: seq<Tick>, n: nat, t0: int, m: Measure): nat
    requires n <= |ts|
  {
    if n == 0 then 0 else Sums(ts, n - 1, t0, m) + if SecondOf(ts[n - 1], t0) >= 0 then Value(ts[n - 1], m) else 0
  }

  /** What the first n samples measured in one second. */
  function SumIn(ts: seq<Tick>, n: nat, t0: int, m: Measure, sec: int): nat
    requires n <= |ts|
  {
    if n == 0 then 0
    else SumIn(ts, n - 1, t0, m, sec) + if SecondOf(ts[n - 1], t0) == sec then Value(ts[n - 1], m) else 0
  }

  /** A point of a per-second series. */
  datatype Point = Point(sec: int, v: nat)

  function Total(ps: seq<Point>): nat {
    if ps == [] then 0 else Total(ps[..|ps| - 1]) + ps[|ps| - 1].v
  }

  lemma TotalStep(ps: seq<Point>, p: Point)
    ensures Total(ps + [p]) == Total(ps) + p.v
  {
    assert (ps + [p])[..|ps|] == ps;
  }

  /** Samples in the order of time. */
  ghost predicate Forward(ts: seq<Tick>) {
    forall i, j :: 0 <= i <= j < |ts| ==> ts[i].wallNS <= ts[j].wallNS
  }

  /** Every point tells what its second measured, and no second after `until` has a point yet. */
  ghost predicate Exact(ps: seq<Point>, ts: seq<Tick>, n: nat, t0: int, m: Measure, until: int)
    requires n <= |ts|
  {
    forall k :: 0 <= k < |ps| ==> ps[k].sec < until && ps[k].v == SumIn(ts, n, t0, m, ps[k].sec)
  }

  /** Seconds follow one another. */
  ghost predicate Rising(ps: seq<Point>) {
    forall i, j :: 0 <= i < j < |ps| ==> ps[i].sec < ps[j].sec
  }

  ghost predicate HasPoint(ps: seq<Point>, sec: int) {
    exists k :: 0 <= k < |ps| && ps[k].sec == sec
  }

  /** Every sample at or after t0 has its second among the points or in the open one. */
  ghost predicate Complete(ps: seq<Point>, ts: seq<Tick>, n: nat, t0: int, open: int)
    requires n <= |ts|
  {
    forall k :: 0 <= k < n && SecondOf(ts[k], t0) >= 0 ==>
      SecondOf(ts[k], t0) == open || HasPoint(ps, SecondOf(ts[k], t0))
  }

  lemma CompleteGrows(ps: seq<Point>, ts: seq<Tick>, n: nat, t0: int, sec: int, p: Point)
    requires n <= |ts| && Complete(ps, ts, n, t0, sec) && p.sec == sec
    ensures Complete(ps + [p], ts, n, t0, -1)
  {
    var more := ps + [p];
    assert more[|ps|] == p;
    forall k | 0 <= k < n && SecondOf(ts[k], t0) >= 0 ensures HasPoint(more, SecondOf(ts[k], t0)) {
      if SecondOf(ts[k], t0) != sec {
        var i :| 0 <= i < |ps| && ps[i].sec == SecondOf(ts[k], t0);
        assert more[i] == ps[i];
      }
    }
  }

  /** A later sample changes no second that has its point. */
  lemma ExactLater(ps: seq<Point>, ts: seq<Tick>, n: nat, t0: int, m: Measure, until: int)
    requires n < |ts| && Exact(ps, ts, n, t0, m, until) && until <= SecondOf(ts[n], t0)
    ensures Exact(ps, ts, n + 1, t0, m, until)
  {}

  lemma {:induction false} NothingAhead(ts: seq<Tick>, n: nat, t0: int, m: Measure, sec: int)
    requires n <= |ts| && forall k :: 0 <= k < n ==> SecondOf(ts[k], t0) < sec
    ensures SumIn(ts, n, t0, m, sec) == 0
  {
    if n > 0 { NothingAhead(ts, n - 1, t0, m, sec); }
  }
}

module Chips {
  import opened ChipSpec

  /** Shortens a label until a chip for it fits on some row; row -1 when there is no honest chip left. */
  method PlaceChip(cx: real, text: string, rowEnd: seq<real>) returns (row: int, shown: string, x0: real, w: real)
    requires |rowEnd| == MAX_ROWS
    ensures row < 0 <==> Longest(rowEnd, cx, |text|) == 0
    ensures row >= 0 ==>
              && |shown| == Longest(rowEnd, cx, |text|) && shown == Shortened(text, |shown|)
              && x0 == ChipLeft(cx, |shown|) && w == ChipWidth(|shown|)
              && row == FirstFree(rowEnd, x0, 0) && row < MAX_ROWS
    ensures forall r :: 0 <= r < row ==> x0 <= rowEnd[r] + ROW_GAP
  {
    row, shown, x0, w := -1, text, 0.0, 0.0;
    while row < 0 && |shown| >= MIN_CHIP_LABEL
      invariant |shown| <= |text| && shown == Shortened(text, |shown|)
      invariant |text| >= MIN_CHIP_LABEL ==> |shown| >= MIN_CHIP_LABEL - 1
      invariant Longest(rowEnd, cx, |text|) == Longest(rowEnd, cx, |shown|)
      invariant row >= 0 ==> |shown| >= MIN_CHIP_LABEL && Placed(rowEnd, cx, |shown|, row, x0, w)
      decreases |shown| + if row < 0 then 1 else 0
    {
      row, x0, w := FindRow(rowEnd, cx, |shown|);
      if row < 0 {
        ShortenAgain(text, |shown|);
        shown := shown[..|shown| - 1 - |ELLIPSIS|] + ELLIPSIS;
      }
    }
    NoneBefore(rowEnd, x0);
  }

  /** A chip with a label of n bytes stands on the first row that has room for it. */
  ghost predicate Placed(rowEnd: seq<real>, cx: real, n: nat, row: int, x0: real, w: real) {
    x0 == ChipLeft(cx, n) && w == ChipWidth(n) && row == FirstFree(rowEnd, x0, 0) && row < |rowEnd|
  }

  /** The place of a chip with a label of n bytes, and the first row with room for it, or -1. */
  method FindRow(rowEnd: seq<real>, cx: real, n: nat) returns (row: int, x0: real, w: real)
    ensures Fits(rowEnd, cx, n) <==> row >= 0
    ensures row >= 0 ==> Placed(rowEnd, cx, n, row, x0, w)
    ensures row < 0 ==> row == -1
  {
    w := ChipWidth(n);
    x0 := MaxR(PAD_L, MinR(cx - w / 2.0, RIGHT - w));
    row := -1;
    for r := 0 to |rowEnd|
      invariant FirstFree(rowEnd, x0, 0) == FirstFree(rowEnd, x0, r)
    {
      if x0 > rowEnd[r] + ROW_GAP {
        row := r;
        return;
      }
    }
  }

  /** One byte less, ending in an ellipsis still. */
  lemma ShortenAgain(text: string, n: nat)
    requires 7 < n <= |text|
    ensures var s := Shortened(text, n); |s| == n && s[..n - 1 - |ELLIPSIS|] + ELLIPSIS == Shortened(text, n - 1)
  {}

  /** The chips so far, and where the rows end. */
  ghost predicate Packed(items: seq<Chip>, rowEnd: seq<real>, rows: nat, pick: (Marker, real, seq<real>) -> Chip) {
    && rowEnd == RowEnds(items, |items|) && AllChosen(items, pick)
    && AllApart(items) && Covered(items, rowEnd)
    && rows <= MAX_ROWS && RowsUsed(items, rows)
    && forall i :: 0 <= i < |items| ==> Inside(items[i])
  }

  lemma PackedGrows(items: seq<Chip>, rowEnd: seq<real>, rows: nat, c: Chip, pick: (Marker, real, seq<real>) -> Chip)
    requires Packed(items, rowEnd, rows, pick) && Inside(c) && c.row < MAX_ROWS && c == pick(c.m, c.x, rowEnd)
    requires Drawn(c) ==> c.x0 > rowEnd[c.row] + ROW_GAP && c.w >= 0.0
    ensures Packed(items + [c], EndsAfter(rowEnd, c), if Drawn(c) && c.row + 1 > rows then c.row + 1 else rows, pick)
  {
    OneMoreChosen(items, c, rowEnd, pick);
    OneMoreEnd(items, c);
    OneMoreApart(items, rowEnd, c);
    OneMoreRow(items, rows, c);
  }

  /** A chip for every marker within the chart, in order, packed into at most six rows. */
  method LayoutChips(markers: seq<Marker>, t0: int, tMax: real, x: real -> real) returns (items: seq<Chip>, rows: nat)
    ensures ItemsOf(items, InRange(markers, |markers|, t0, tMax))
    ensures forall i :: 0 <= i < |items| ==> Inside(items[i]) && items[i].x == x(Seconds(items[i].m, t0))
    ensures AllChosen(items, Picker())
    ensures AllApart(items)
    ensures rows <= MAX_ROWS && RowsUsed(items, rows)
  {
    items, rows := Pack(markers, t0, tMax, x, Picker());
  }

  method Pack(markers: seq<Marker>, t0: int, tMax: real, x: real -> real, ghost pick: (Marker, real, seq<real>) -> Chip)
    returns (items: seq<Chip>, rows: nat)
    requires pick == Picker()
    ensures ItemsOf(items, InRange(markers, |markers|, t0, tMax))
    ensures forall i :: 0 <= i < |items| ==> items[i].x == x(Seconds(items[i].m, t0))
    ensures Packed(items, RowEnds(items, |items|), rows, pick)
  {
    items, rows := [], 0;
    var rowEnd := [FAR_LEFT, FAR_LEFT, FAR_LEFT, FAR_LEFT, FAR_LEFT, FAR_LEFT];
    for i := 0 to |markers|
      invariant ItemsOf(items, InRange(markers, i, t0, tMax))
      invariant forall k :: 0 <= k < |items| ==> items[k].x == x(Seconds(items[k].m, t0))
      invariant Packed(items, rowEnd, rows, pick)
    {
      if Shown(markers[i], t0, tMax) {
        items, rowEnd, rows := TakeIn(items, rowEnd, rows, markers[i], x(Seconds(markers[i], t0)), pick);
      }
    }
  }

  /** One marker more, with the chip it gets. */
  method TakeIn(items: seq<Chip>, rowEnd: seq<real>, rows: nat, m: Marker, cx: real,
                ghost pick: (Marker, real, seq<real>) -> Chip)
    returns (items': seq<Chip>, rowEnd': seq<real>, rows': nat)
    requires Packed(items, rowEnd, rows, pick) && pick == Picker()
    ensures Packed(items', rowEnd', rows', pick)
    ensures |items'| == |items| + 1 && items'[..|items|] == items && items'[|items|].m == m && items'[|items|].x == cx
  {
    var c := ChipFor(m, cx, rowEnd, pick);
    rowEnd', rows' := Take(items, rowEnd, rows, c, pick);
    items' := items + [c];
  }

  /** A chip takes its place: its row ends with it. */
  method Take(ghost items: seq<Chip>, rowEnd: seq<real>, rows: nat, c: Chip,
              ghost pick: (Marker, real, seq<real>) -> Chip)
    returns (rowEnd': seq<real>, rows': nat)
    requires Packed(items, rowEnd, rows, pick) && Inside(c) && c.row < MAX_ROWS && c == pick(c.m, c.x, rowEnd)
    requires Drawn(c) ==> c.x0 > rowEnd[c.row] + ROW_GAP && c.w >= 0.0
    ensures Packed(items + [c], rowEnd', rows', pick)
  {
    PackedGrows(items, rowEnd, rows, c, pick);
    rowEnd', rows' := rowEnd, rows;
    if Drawn(c) {
      rowEnd' := rowEnd[c.row := c.x0 + c.w];
      if c.row + 1 > rows { rows' := c.row + 1; }
    }
  }

  /** The item of one marker: its chip, or only its rule. */
  method ChipFor(m: Marker, cx: real, rowEnd: seq<real>,
                 ghost pick: (Marker, real, seq<real>) -> Chip) returns (c: Chip)
    requires |rowEnd| == MAX_ROWS && pick == Picker()
    ensures c.m == m && c.x == cx && c == pick(m, cx, rowEnd)
    ensures Inside(c) && c.row < MAX_ROWS
    ensures Drawn(c) ==> c.x0 > rowEnd[c.row] + ROW_GAP && c.w >= 0.0
  {
    var text := m.text;
    if |text| > MAX_CHIP_LABEL { text := text[..37] + ELLIPSIS; }
    var row, shown, x0, w := PlaceChip(cx, text, rowEnd);
    LongestFits(rowEnd, cx, |text|);
    if row < 0 {
      return Chip(m, "", cx, 0.0, 0.0, 0);
    }
    ChipIsInside(cx, |shown|);
    c := Chip(m, shown, cx, x0, w, row);
  }

  /** The groups of n markers, the last of which is not later than the time given. */
  ghost predicate Grouping(out: seq<Marker>, n: nat, latest: int) {
    && Counted(out) == n && Folded(out) && ByTime(out)
    && (out != [] ==> out[|out| - 1].wallNS <= latest)
    && forall k :: 0 <= k < |out| ==> out[k].count > 0 && (out[k].kind != Log ==> out[k].count == 1)
  }

  lemma GroupingStarts(out: seq<Marker>, n: nat, latest: int, m: Marker)
    requires Grouping(out, n, latest) && latest <= m.wallNS && m.count == 1
    requires out == [] || !SameSecondLogs(out[|out| - 1], m)
    ensures Grouping(out + [m], n + 1, m.wallNS)
  {
    CountedStep(out, m);
    var more := out + [m];
    assert ByTime(more) by {
      forall i, j | 0 <= i <= j < |more| ensures more[i].wallNS <= more[j].wallNS {
        if i < |out| { assert out[i].wallNS <= out[|out| - 1].wallNS; }
      }
    }
  }

  lemma GroupingFolds(out: seq<Marker>, r: seq<Marker>, n: nat, latest: int, later: int)
    requires Grouping(out, n, latest) && latest <= later && out != [] && |r| == |out| && Counted(r) == n + 1
    requires out[|out| - 1].kind == Log
    requires forall k :: 0 <= k < |out| - 1 ==> r[k] == out[k]
    requires var a, b := out[|out| - 1], r[|out| - 1]; b == a.(count := a.count + 1, text := b.text)
    ensures Grouping(r, n + 1, later)
  {
    forall i | 0 < i < |r| ensures !SameSecondLogs(r[i - 1], r[i]) {
      assert !SameSecondLogs(out[i - 1], out[i]);
    }
    forall i, j | 0 <= i <= j < |r| ensures r[i].wallNS <= r[j].wallNS {
      assert out[i].wallNS <= out[j].wallNS;
    }
  }

  /** The markers that are not of the log, as they came. */
  function Others(ms: seq<Marker>, n: nat): seq<Marker>
    requires n <= |ms|
  {
    if n == 0 then []
    else Others(ms, n - 1) + if ms[n - 1].kind == Log then [] else [ms[n - 1].(count := 1, first := ms[n - 1].text)]
  }

  lemma {:induction false} OthersPrefix(a: seq<Marker>, b: seq<Marker>, n: nat)
    requires n <= |a| && n <= |b| && a[..n] == b[..n]
    ensures Others(a, n) == Others(b, n)
  {
    if n > 0 {
      assert a[..n][..n - 1] == b[..n][..n - 1] && a[..n][n - 1] == b[..n][n - 1];
      assert a[..n - 1] == a[..n][..n - 1] && b[..n - 1] == b[..n][..n - 1];
      OthersPrefix(a, b, n - 1);
    }
  }

  /** Notes and gaps come through folding one by one and in order. */
  lemma {:induction false} OthersAreKept(ms: seq<Marker>, n: nat)
    requires n <= |ms|
    ensures Others(Grouped(ms, n), |Grouped(ms, n)|) == Others(ms, n)
  {
    if n > 0 {
      OthersAreKept(ms, n - 1);
      var out, m := Grouped(ms, n - 1), ms[n - 1];
      if out != [] && SameSecondLogs(out[|out| - 1], m) {
        OthersUpdated(out, Recounted(out[|out| - 1]));
      } else {
        OthersAppended(out, m);
      }
    }
  }

  lemma OthersUpdated(out: seq<Marker>, last: Marker)
    requires out != [] && out[|out| - 1].kind == Log && last.kind == Log
    ensures Others(out[|out| - 1 := last], |out|) == Others(out, |out|)
  {
    OthersPrefix(out[|out| - 1 := last], out, |out| - 1);
  }

  lemma OthersAppended(out: seq<Marker>, m: Marker)
    ensures var k := m.(count := 1, first := m.text);
            Others(out + [k], |out| + 1) == Others(out, |out|) + if m.kind == Log then [] else [k]
  {
    OthersPrefix(out + [m.(count := 1, first := m.text)], out, |out|);
  }

  /** One marker more, folded or not. */
  lemma GroupingGrows(out: seq<Marker>, n: nat, latest: int, m: Marker)
    requires Grouping(out, n, latest) && latest <= m.wallNS
    ensures var r := if out != [] && SameSecondLogs(out[|out| - 1], m) then out[|out| - 1 := Recounted(out[|out| - 1])]
                     else out + [m.(count := 1, first := m.text)];
            Grouping(r, n + 1, m.wallNS)
  {
    if out != [] && SameSecondLogs(out[|out| - 1], m) {
      RecountedCounts(out);
      GroupingFolds(out, out[|out| - 1 := Recounted(out[|out| - 1])], n, latest, m.wallNS);
    } else {
      GroupingStarts(out, n, latest, m.(count := 1, first := m.text));
    }
  }

  /** What folding makes of markers by time: every marker counted once, in the order of time, neighbours told apart. */
  lemma {:induction false} GroupedCounts(ms: seq<Marker>, n: nat)
    requires ByTime(ms) && n <= |ms|
    ensures Grouping(Grouped(ms, n), n, if n == 0 then 0 else ms[n - 1].wallNS)
  {
    if n > 0 {
      GroupedCounts(ms, n - 1);
      var latest := if n == 1 then ms[0].wallNS else ms[n - 2].wallNS;
      GroupingGrows(Grouped(ms, n - 1), n - 1, latest, ms[n - 1]);
    }
  }

  lemma RecountedCounts(out: seq<Marker>)
    requires out != []
    ensures Counted(out[|out| - 1 := Recounted(out[|out| - 1])]) == Counted(out) + 1
  {
    var n := |out| - 1;
    assert out[n := Recounted(out[n])][..n] == out[..n];
  }

  /** Folds log markers of the same second into the one before, given the markers by time. */
  method GroupMarkers(sorted: seq<Marker>) returns (out: seq<Marker>)
    requires ByTime(sorted)
    ensures out == Grouped(sorted, |sorted|)
    ensures Counted(out) == |sorted| && Folded(out) && ByTime(out)
  {
    out := [];
    for i := 0 to |sorted|
      invariant out == Grouped(sorted, i)
    {
      var m := sorted[i];
      if out != [] && SameSecondLogs(out[|out| - 1], m) {
        var last := out[|out| - 1];
        last := last.(count := last.count + 1);
        last := last.(text := Digits(last.count) + "\U{C3}\U{97} " + last.first);
        out := out[|out| - 1 := last];
        continue;
      }
      out := out + [m.(count := 1, first := m.text)];
    }
    GroupedCounts(sorted, |sorted|);
  }

  lemma CountedStep(out: seq<Marker>, m: Marker)
    ensures Counted(out + [m]) == Counted(out) + m.count
  {
    assert (out + [m])[..|out|] == out;
  }

  /** Where the summing of one measure stands after n samples: the points flushed, and the open second. */
  ghost predicate Summing(ps: seq<Point>, ts: seq<Tick>, n: nat, t0: int, m: Measure, sec: int, open: nat)
    requires n <= |ts|
  {
    && Total(ps) + (if sec >= 0 then open else 0) == Sums(ts, n, t0, m)
    && (forall k :: 0 <= k < |ps| ==> ps[k].sec >= 0)
    && (if n == 0 then ps == [] && sec == -1 else sec == SecondOf(ts[n - 1], t0))
    && Complete(ps, ts, n, t0, sec)
    && (Forward(ts) ==> Rising(ps) && Exact(ps, ts, n, t0, m, sec) && (sec >= 0 ==> open == SumIn(ts, n, t0, m, sec)))
  }

  /** In the order of time, no sample lies in a later second than the last. */
  lemma SecondsSoFar(ts: seq<Tick>, n: nat, t0: int)
    requires 0 < n <= |ts| && Forward(ts)
    ensures forall k :: 0 <= k < n ==> SecondOf(ts[k], t0) <= SecondOf(ts[n - 1], t0)
  {
    forall k | 0 <= k < n ensures SecondOf(ts[k], t0) <= SecondOf(ts[n - 1], t0) {
      WholeSecondMonotone(ts[k].wallNS - t0, ts[n - 1].wallNS - t0);
    }
  }

  /** The next sample belongs to the open second. */
  lemma SummingGoesOn(ps: seq<Point>, ts: seq<Tick>, n: nat, t0: int, m: Measure, sec: int, open: nat)
    requires n < |ts| && Summing(ps, ts, n, t0, m, sec, open) && SecondOf(ts[n], t0) == sec
    ensures Summing(ps, ts, n + 1, t0, m, sec, open + Value(ts[n], m))
  {
    if Forward(ts) { ExactLater(ps, ts, n, t0, m, sec); }
  }

  /** The next sample opens another second: the open one is flushed first, unless it lies before t0. */
  lemma SummingOpens(ps: seq<Point>, ts: seq<Tick>, n: nat, t0: int, m: Measure, sec: int, open: nat, next: int)
    requires n < |ts| && Summing(ps, ts, n, t0, m, sec, open) && next == SecondOf(ts[n], t0) != sec
    ensures Summing(if sec >= 0 then ps + [Point(sec, open)] else ps, ts, n + 1, t0, m, next, Value(ts[n], m))
  {
    var qs := if sec >= 0 then ps + [Point(sec, open)] else ps;
    TotalStep(ps, Point(sec, open));
    CompleteGrows(ps, ts, n, t0, sec, Point(sec, open));
    if Forward(ts) { OpensExactly(ps, ts, n, t0, m, sec, open, next); }
  }

  lemma OpensExactly(ps: seq<Point>, ts: seq<Tick>, n: nat, t0: int, m: Measure, sec: int, open: nat, next: int)
    requires n < |ts| && Summing(ps, ts, n, t0, m, sec, open) && next == SecondOf(ts[n], t0) != sec && Forward(ts)
    ensures Exact(if sec >= 0 then ps + [Point(sec, open)] else ps, ts, n + 1, t0, m, next)
    ensures SumIn(ts, n + 1, t0, m, next) == Value(ts[n], m)
    ensures Rising(if sec >= 0 then ps + [Point(sec, open)] else ps)
  {
    if n > 0 {
      WholeSecondMonotone(ts[n - 1].wallNS - t0, ts[n].wallNS - t0);
      SecondsSoFar(ts, n, t0);
    }
    NothingAhead(ts, n, t0, m, next);
  }

  /** After the last sample the open second is flushed. */
  lemma SummingEnds(ps: seq<Point>, ts: seq<Tick>, t0: int, m: Measure, sec: int, open: nat)
    requires Summing(ps, ts, |ts|, t0, m, sec, open)
    ensures var qs := if sec >= 0 then ps + [Point(sec, open)] else ps; Series(qs, ts, t0, m)
  {
    TotalStep(ps, Point(sec, open));
    CompleteGrows(ps, ts, |ts|, t0, sec, Point(sec, open));
  }

  /**
   A per-second series: it loses nothing measured at or after t0 and has a point for every second sampled from then on;
   on samples in order the seconds rise and every point is exact.
  */
  ghost predicate Series(ps: seq<Point>, ts: seq<Tick>, t0: int, m: Measure) {
    && Total(ps) == Sums(ts, |ts|, t0, m)
    && (forall k :: 0 <= k < |ps| ==> ps[k].sec >= 0)
    && Complete(ps, ts, |ts|, t0, -1)
    && (Forward(ts) ==> Rising(ps) && forall k :: 0 <= k < |ps| ==> ps[k].v == SumIn(ts, |ts|, t0, m, ps[k].sec))
  }

  /** Drops and squeezes by the second. */
  method PerSecond(ts: seq<Tick>, t0: int) returns (drops: seq<Point>, squeeze: seq<Point>)
    ensures Series(drops, ts, t0, Dropped) && Series(squeeze, ts, t0, Squeezed)
  {
    drops, squeeze := [], [];
    var curSec: int, d: nat, q: nat := -1, 0, 0;
    for i := 0 to |ts|
      invariant Summing(drops, ts, i, t0, Dropped, curSec, d) && Summing(squeeze, ts, i, t0, Squeezed, curSec, q)
    {
      drops, squeeze, curSec, d, q := AddTick(drops, squeeze, curSec, d, q, ts, i, t0);
    }
    SummingEnds(drops, ts, t0, Dropped, curSec, d);
    SummingEnds(squeeze, ts, t0, Squeezed, curSec, q);
    drops, squeeze := Flush(drops, squeeze, curSec, d, q);
  }

  /** One sample: it joins the open second, or opens the next one after the open one is flushed. */
  method AddTick(drops: seq<Point>, squeeze: seq<Point>, curSec: int, d: nat, q: nat, ts: seq<Tick>, i: nat, t0: int)
    returns (drops': seq<Point>, squeeze': seq<Point>, sec: int, d': nat, q': nat)
    requires i < |ts| && Summing(drops, ts, i, t0, Dropped, curSec, d)
    requires Summing(squeeze, ts, i, t0, Squeezed, curSec, q)
    ensures Summing(drops', ts, i + 1, t0, Dropped, sec, d') && Summing(squeeze', ts, i + 1, t0, Squeezed, sec, q')
  {
    drops', squeeze', d', q' := drops, squeeze, d, q;
    sec := SecondOf(ts[i], t0);
    if sec != curSec {
      SummingOpens(drops, ts, i, t0, Dropped, curSec, d, sec);
      SummingOpens(squeeze, ts, i, t0, Squeezed, curSec, q, sec);
      drops', squeeze' := Flush(drops, squeeze, curSec, d, q);
      d', q' := 0, 0;
    } else {
      SummingGoesOn(drops, ts, i, t0, Dropped, curSec, d);
      SummingGoesOn(squeeze, ts, i, t0, Squeezed, curSec, q);
    }
    d', q' := d' + ts[i].dropped, q' + ts[i].squeezed;
  }

  method Flush(drops: seq<Point>, squeeze: seq<Point>, sec: int, d: nat, q: nat) returns (ds: seq<Point>,
               qs: seq<Point>)
    ensures ds == (if sec >= 0 then drops + [Point(sec, d)] else drops)
    ensures qs == (if sec >= 0 then squeeze + [Point(sec, q)] else squeeze)
  {
    ds, qs := drops, squeeze;
    if sec >= 0 { ds, qs := drops + [Point(sec, d)], squeeze + [Point(sec, q)]; }
  }
}

/**
 The dashboard grid (internal/dashboards/dashboards.go): panels are packed in
 list order into rows of 24 columns, and each row is widened until it is full.
 The specification goes row by row over the declared list; the in-place packer
 is proved to lay the list out so, and the geometry is proved of the
 specification.
*/
module GridSpec {
  import opened Words

  const COLUMNS: nat := 24

  datatype Panel = Panel(header: bool, collapsed: bool, w: int, h: int, x: int, y: int)

  /** A declared size: 0 stands for the default, and a header's is ignored. */
  predicate Declarable(p: Panel) {
    p.header || (0 <= p.w <= COLUMNS && 0 <= p.h)
  }

  ghost predicate AllDeclarable(ps: seq<Panel>) {
    forall i :: 0 <= i < |ps| ==> Declarable(ps[i])
  }

  function Width(p: Panel): int {
    if p.header then COLUMNS else if p.w == 0 then 12 else p.w
  }

  function Height(p: Panel): int {
    if p.header then 1 else if p.h == 0 then 8 else p.h
  }

  /** The declared widths of the panels lo..hi together. */
  function Span(ps: seq<Panel>, lo: nat, hi: nat): int
    requires hi <= |ps|
  {
    if hi <= lo then 0 else Span(ps, lo, hi - 1) + Width(ps[hi - 1])
  }

  function Tallest(ps: seq<Panel>, lo: nat, hi: nat): int
    requires hi <= |ps|
  {
    if hi <= lo then 0 else Max(Tallest(ps, lo, hi - 1), Height(ps[hi - 1]))
  }

  /** Where a row already width wide ends: before a header or a panel that does not fit, or once it is full. */
  function Fitting(ps: seq<Panel>, i: nat, width: int): (e: nat)
    requires i <= |ps|
    ensures i <= e <= |ps|
    decreases |ps| - i
  {
    if i == |ps| || ps[i].header || width + Width(ps[i]) > COLUMNS then i
    else if width + Width(ps[i]) >= COLUMNS then i + 1
    else Fitting(ps, i + 1, width + Width(ps[i]))
  }

  /** Where the row that starts at i ends. A header has a row to itself, and so has a panel too wide for any. */
  function RowEnd(ps: seq<Panel>, i: nat): (e: nat)
    requires i < |ps|
    ensures i < e <= |ps|
  {
    if ps[i].header || Fitting(ps, i, 0) == i then i + 1 else Fitting(ps, i, 0)
  }

  /** Of slack columns handed out to n panels, one each from the right and round after round: the share of panel k. */
  function Share(slack: nat, n: nat, k: nat): nat
    requires k < n
  {
    if slack < n then (if n - k <= slack then 1 else 0) else 1 + Share(slack - n, n, k)
  }

  function Slack(ps: seq<Panel>, lo: nat, hi: nat): nat
    requires hi <= |ps|
  {
    if Span(ps, lo, hi) < COLUMNS then COLUMNS - Span(ps, lo, hi) else 0
  }

  /** The width panel k gets in the row lo..hi. */
  function Widened(ps: seq<Panel>, lo: nat, hi: nat, k: nat): int
    requires lo <= k < hi <= |ps|
  {
    Width(ps[k]) + Share(Slack(ps, lo, hi), hi - lo, k - lo)
  }

  /** The columns left of panel k in the row lo..hi. */
  function Left(ps: seq<Panel>, lo: nat, hi: nat, k: nat): int
    requires lo <= k <= hi <= |ps|
  {
    if k == lo then 0 else Left(ps, lo, hi, k - 1) + Widened(ps, lo, hi, k - 1)
  }

  /** Panel k as it stands in the row lo..hi at height y. */
  function Placed(ps: seq<Panel>, lo: nat, hi: nat, y: int, k: nat): Panel
    requires lo <= k < hi <= |ps|
  {
    ps[k].(w := Widened(ps, lo, hi, k), h := Height(ps[k]), x := Left(ps, lo, hi, k), y := y)
  }

  ghost predicate RowPlaced(ps: seq<Panel>, out: seq<Panel>, lo: nat, hi: nat, y: int)
    requires hi <= |ps| == |out|
  {
    forall k :: lo <= k < hi ==> out[k] == Placed(ps, lo, hi, y, k)
  }

  /** From panel i at height y down to panel stop at height floor, out is the rows of ps, one below the other. */
  ghost predicate Laid(ps: seq<Panel>, out: seq<Panel>, i: nat, y: int, stop: nat, floor: int)
    requires i <= stop <= |ps| == |out|
    decreases stop - i
  {
    if i == stop then y == floor
    else
      var e := RowEnd(ps, i);
      e <= stop && RowPlaced(ps, out, i, e, y) && Laid(ps, out, e, y + Tallest(ps, i, e), stop, floor)
  }

  /** out is the layout of ps, floor rows high. */
  ghost predicate Layout(ps: seq<Panel>, out: seq<Panel>, floor: int) {
    |ps| == |out| && Laid(ps, out, 0, 0, |ps|, floor)
  }

  // ---- what a layout is

  /** a comes wholly above b, or to its left in the same row. */
  predicate Before(a: Panel, b: Panel) {
    a.y + a.h <= b.y || (a.y == b.y && a.x + a.w <= b.x)
  }

  predicate Covers(p: Panel, cx: int, cy: int) {
    p.x <= cx < p.x + p.w && p.y <= cy < p.y + p.h
  }

  /** Of some size, and on the grid. */
  predicate OnGrid(p: Panel) {
    0 <= p.x && p.x + p.w <= COLUMNS && 1 <= p.w && 1 <= p.h
  }

  ghost predicate InOrder(out: seq<Panel>, from: nat) {
    forall a, b :: from <= a < b < |out| ==> Before(out[a], out[b])
  }

  /** Panel k starts at the left edge or where its row neighbour ends, and the last of a row ends at the right edge. */
  ghost predicate TiledAt(out: seq<Panel>, k: nat)
    requires k < |out|
  {
    && out[k].x == (if 0 < k && out[k - 1].y == out[k].y then out[k - 1].x + out[k - 1].w else 0)
    && (k + 1 == |out| || out[k + 1].y != out[k].y ==> out[k].x + out[k].w == COLUMNS)
  }

  /** How much a panel was widened. */
  function Grown(p: Panel, q: Panel): int {
    q.w - Width(p)
  }

  /** Two panels of one row: the right one grew as much as the left one, or one column more. */
  ghost predicate FairPair(ps: seq<Panel>, out: seq<Panel>, a: nat, b: nat)
    requires a < b < |ps| == |out|
  {
    out[a].y == out[b].y ==> 0 <= Grown(ps[b], out[b]) - Grown(ps[a], out[a]) <= 1
  }

  // ---- sharing out the slack

  lemma {:induction false} SharesAreEven(slack: nat, n: nat, j: nat, k: nat)
    requires j <= k < n
    ensures 0 <= Share(slack, n, k) - Share(slack, n, j) <= 1
    decreases slack
  {
    if slack >= n { SharesAreEven(slack - n, n, j, k); }
  }

  /** What the first k of n panels get together. */
  function Given(slack: nat, n: nat, k: nat): nat
    requires k <= n
  {
    if k == 0 then 0 else Given(slack, n, k - 1) + Share(slack, n, k - 1)
  }

  lemma {:induction false} LastRound(slack: nat, n: nat, k: nat)
    requires slack < n && k <= n
    ensures Given(slack, n, k) == if n - k <= slack then k - (n - slack) else 0
  {
    if k > 0 { LastRound(slack, n, k - 1); }
  }

  lemma {:induction false} FullRound(slack: nat, n: nat, k: nat)
    requires slack >= n > 0 && k <= n
    ensures Given(slack, n, k) == k + Given(slack - n, n, k)
  {
    if k > 0 { FullRound(slack, n, k - 1); }
  }

  /** The slack is spent to the last column. */
  lemma {:induction false} AllIsGiven(slack: nat, n: nat)
    requires n > 0
    ensures Given(slack, n, n) == slack
    decreases slack
  {
    if slack < n {
      LastRound(slack, n, n);
    } else {
      FullRound(slack, n, n);
      AllIsGiven(slack - n, n);
    }
  }

  // ---- rows

  /** Panels lo..hi can share a row. */
  ghost predicate RowOf(ps: seq<Panel>, lo: nat, hi: nat) {
    && lo < hi <= |ps|
    && (forall k :: lo <= k < hi ==> Declarable(ps[k]))
    && Span(ps, lo, hi) <= COLUMNS
  }

  /** What the packer takes for a row: panels as long as they fit, and not one that would have. */
  lemma {:induction false} FittingIsGreedy(ps: seq<Panel>, lo: nat, i: nat, width: int)
    requires AllDeclarable(ps) && lo <= i <= |ps| && width == Span(ps, lo, i) <= COLUMNS
    ensures var e := Fitting(ps, i, width);
            && Span(ps, lo, e) <= COLUMNS
            && (e < |ps| && !ps[e].header ==> Span(ps, lo, e) + Width(ps[e]) > COLUMNS)
    decreases |ps| - i
  {
    if Fitting(ps, i, width) > i {
      var w := width + Width(ps[i]);
      if w < COLUMNS {
        FittingIsGreedy(ps, lo, i + 1, w);
      } else if i + 1 < |ps| {
        assert Declarable(ps[i + 1]);
      }
    }
  }

  /** Rows are as long as they can be: the next panel, unless it is a header, would not have fitted. */
  lemma RowsAreGreedy(ps: seq<Panel>, i: nat)
    requires AllDeclarable(ps) && i < |ps|
    ensures RowOf(ps, i, RowEnd(ps, i))
    ensures var e := RowEnd(ps, i); !ps[i].header && e < |ps| && !ps[e].header ==>
              Span(ps, i, e) + Width(ps[e]) > COLUMNS
  {
    assert Declarable(ps[i]);
    FittingIsGreedy(ps, i, i, 0);
  }

  lemma {:induction false} LeftIsSpanAndGiven(ps: seq<Panel>, lo: nat, hi: nat, k: nat)
    requires lo <= k <= hi <= |ps| && lo < hi
    ensures Left(ps, lo, hi, k) == Span(ps, lo, k) + Given(Slack(ps, lo, hi), hi - lo, k - lo)
  {
    if lo < k { LeftIsSpanAndGiven(ps, lo, hi, k - 1); }
  }

  /** The widened panels of a row fill it exactly. */
  lemma RowIsFull(ps: seq<Panel>, lo: nat, hi: nat)
    requires RowOf(ps, lo, hi)
    ensures Left(ps, lo, hi, hi) == COLUMNS
  {
    LeftIsSpanAndGiven(ps, lo, hi, hi);
    AllIsGiven(Slack(ps, lo, hi), hi - lo);
  }

  lemma {:induction false} LeftGrows(ps: seq<Panel>, lo: nat, hi: nat, j: nat, k: nat)
    requires RowOf(ps, lo, hi) && lo <= j <= k <= hi
    ensures Left(ps, lo, hi, j) + (k - j) <= Left(ps, lo, hi, k)
  {
    if j < k {
      LeftGrows(ps, lo, hi, j, k - 1);
      assert Declarable(ps[k - 1]);
    }
  }

  /** In a row, an earlier panel ends before a later one starts, and all of them are on the grid. */
  lemma RowIsInOrder(ps: seq<Panel>, lo: nat, hi: nat, y: int, j: nat, k: nat)
    requires RowOf(ps, lo, hi) && lo <= j <= k < hi
    ensures OnGrid(Placed(ps, lo, hi, y, k))
    ensures j < k ==> Before(Placed(ps, lo, hi, y, j), Placed(ps, lo, hi, y, k))
  {
    assert Declarable(ps[k]);
    RowIsFull(ps, lo, hi);
    LeftGrows(ps, lo, hi, lo, k);
    LeftGrows(ps, lo, hi, k + 1, hi);
    if j < k { LeftGrows(ps, lo, hi, j + 1, k); }
  }

  lemma {:induction false} TallestBounds(ps: seq<Panel>, lo: nat, hi: nat, k: nat)
    requires lo <= k < hi <= |ps|
    ensures Height(ps[k]) <= Tallest(ps, lo, hi)
  {
    if k < hi - 1 { TallestBounds(ps, lo, hi - 1, k); }
  }

  /** The row below starts where the tallest panel of the row ends. */
  lemma {:induction false} TallestIsReached(ps: seq<Panel>, lo: nat, hi: nat) returns (k: nat)
    requires RowOf(ps, lo, hi)
    ensures lo <= k < hi && Height(ps[k]) == Tallest(ps, lo, hi)
    decreases hi
  {
    k := hi - 1;
    assert Declarable(ps[k]);
    if lo < k && Height(ps[k]) < Tallest(ps, lo, k) {
      SpanGrows(ps, lo, hi);
      k := TallestIsReached(ps, lo, k);
    }
  }

  lemma SpanGrows(ps: seq<Panel>, lo: nat, hi: nat)
    requires lo < hi <= |ps| && Declarable(ps[hi - 1])
    ensures Span(ps, lo, hi - 1) <= Span(ps, lo, hi)
  {}

  // ---- layouts

  lemma {:induction false} LaidBelow(ps: seq<Panel>, out: seq<Panel>, i: nat, y: int, floor: int, k: nat)
    requires AllDeclarable(ps) && i <= k < |ps| == |out| && Laid(ps, out, i, y, |ps|, floor)
    ensures y <= out[k].y && out[k].y + out[k].h <= floor
    ensures OnGrid(out[k]) && 0 <= Grown(ps[k], out[k])
    decreases |ps| - i
  {
    var e := RowEnd(ps, i);
    RowsAreGreedy(ps, i);
    FloorBelow(ps, out, e, y + Tallest(ps, i, e), floor);
    if k < e {
      assert out[k] == Placed(ps, i, e, y, k);
      RowIsInOrder(ps, i, e, y, k, k);
      TallestBounds(ps, i, e, k);
    } else {
      TallestBounds(ps, i, e, i);
      assert Declarable(ps[i]);
      LaidBelow(ps, out, e, y + Tallest(ps, i, e), floor, k);
    }
  }

  lemma {:induction false} FloorBelow(ps: seq<Panel>, out: seq<Panel>, i: nat, y: int, floor: int)
    requires AllDeclarable(ps) && i <= |ps| == |out| && Laid(ps, out, i, y, |ps|, floor)
    ensures y <= floor
    decreases |ps| - i
  {
    if i < |ps| {
      assert Declarable(ps[i]);
      TallestBounds(ps, i, RowEnd(ps, i), i);
      FloorBelow(ps, out, RowEnd(ps, i), y + Tallest(ps, i, RowEnd(ps, i)), floor);
    }
  }

  lemma {:induction false} PairsBefore(ps: seq<Panel>, out: seq<Panel>, i: nat, y: int, floor: int, a: nat, b: nat)
    requires AllDeclarable(ps) && i <= a < b < |ps| == |out| && Laid(ps, out, i, y, |ps|, floor)
    ensures Before(out[a], out[b]) && FairPair(ps, out, a, b)
    decreases |ps| - i
  {
    var e := RowEnd(ps, i);
    var y' := y + Tallest(ps, i, e);
    RowsAreGreedy(ps, i);
    if e <= a {
      PairsBefore(ps, out, e, y', floor, a, b);
    } else if e <= b {
      assert out[a] == Placed(ps, i, e, y, a);
      assert Declarable(ps[a]);
      TallestBounds(ps, i, e, a);
      LaidBelow(ps, out, e, y', floor, b);
    } else {
      assert out[a] == Placed(ps, i, e, y, a) && out[b] == Placed(ps, i, e, y, b);
      RowIsInOrder(ps, i, e, y, a, b);
      SharesAreEven(Slack(ps, i, e), e - i, a - i, b - i);
    }
  }

  /** List order is reading order: every panel lies above every later one, or to its left in the same row. */
  lemma LayoutIsInOrder(ps: seq<Panel>, out: seq<Panel>, floor: int)
    requires AllDeclarable(ps) && Layout(ps, out, floor)
    ensures InOrder(out, 0)
  {
    forall a, b | 0 <= a < b < |out| ensures Before(out[a], out[b]) {
      PairsBefore(ps, out, 0, 0, floor, a, b);
    }
  }

  /** Panels lie on the 24 columns and above the floor, and none is narrower than it was declared. */
  lemma LayoutIsOnGrid(ps: seq<Panel>, out: seq<Panel>, floor: int)
    requires AllDeclarable(ps) && Layout(ps, out, floor)
    ensures forall k :: 0 <= k < |out| ==> OnGrid(out[k]) && 0 <= out[k].y && out[k].y + out[k].h <= floor
    ensures forall k :: 0 <= k < |out| ==> Width(ps[k]) <= out[k].w
  {
    forall k | 0 <= k < |out|
      ensures OnGrid(out[k]) && 0 <= out[k].y && out[k].y + out[k].h <= floor && Width(ps[k]) <= out[k].w
    {
      LaidBelow(ps, out, 0, 0, floor, k);
    }
  }

  /** Within a row, panels are widened alike: from the right, with at most one column between any two. */
  lemma LayoutIsFair(ps: seq<Panel>, out: seq<Panel>, floor: int)
    requires AllDeclarable(ps) && Layout(ps, out, floor)
    ensures forall a, b :: 0 <= a < b < |out| ==> FairPair(ps, out, a, b)
  {
    forall a, b | 0 <= a < b < |out| ensures FairPair(ps, out, a, b) {
      PairsBefore(ps, out, 0, 0, floor, a, b);
    }
  }

  /** No cell of the grid belongs to two panels. */
  lemma NoOverlap(ps: seq<Panel>, out: seq<Panel>, floor: int, a: nat, b: nat, cx: int, cy: int)
    requires AllDeclarable(ps) && Layout(ps, out, floor) && a < b < |out|
    ensures !(Covers(out[a], cx, cy) && Covers(out[b], cx, cy))
  {
    PairsBefore(ps, out, 0, 0, floor, a, b);
  }

  lemma {:induction false} LaidTiled(ps: seq<Panel>, out: seq<Panel>, i: nat, y: int, floor: int, k: nat)
    requires AllDeclarable(ps) && i <= k < |ps| == |out| && Laid(ps, out, i, y, |ps|, floor)
    requires 0 < i ==> out[i - 1].y < y
    ensures TiledAt(out, k)
    decreases |ps| - i
  {
    var e := RowEnd(ps, i);
    var y' := y + Tallest(ps, i, e);
    RowsAreGreedy(ps, i);
    assert Declarable(ps[i]);
    TallestBounds(ps, i, e, i);
    assert out[e - 1] == Placed(ps, i, e, y, e - 1);
    if e <= k {
      LaidTiled(ps, out, e, y', floor, k);
    } else {
      if e < |ps| { LaidBelow(ps, out, e, y', floor, e); }
      RowTiled(ps, out, i, e, y, k);
    }
  }

  lemma RowTiled(ps: seq<Panel>, out: seq<Panel>, lo: nat, hi: nat, y: int, k: nat)
    requires RowOf(ps, lo, hi) && |ps| == |out| && RowPlaced(ps, out, lo, hi, y) && lo <= k < hi
    requires (0 < lo ==> out[lo - 1].y < y) && (hi < |out| ==> y < out[hi].y)
    ensures TiledAt(out, k)
  {
    assert out[k] == Placed(ps, lo, hi, y, k);
    if lo < k { assert out[k - 1] == Placed(ps, lo, hi, y, k - 1); }
    if k + 1 < hi {
      assert out[k + 1] == Placed(ps, lo, hi, y, k + 1);
    } else {
      RowIsFull(ps, lo, hi);
    }
  }

  /** Rows have no holes: every row fills the 24 columns. */
  lemma LayoutIsTiled(ps: seq<Panel>, out: seq<Panel>, floor: int)
    requires AllDeclarable(ps) && Layout(ps, out, floor)
    ensures forall k :: 0 <= k < |out| ==> TiledAt(out, k)
  {
    forall k | 0 <= k < |out| ensures TiledAt(out, k) {
      LaidTiled(ps, out, 0, 0, floor, k);
    }
  }

  // ---- building a layout row by row

  /** What lies at stop and beyond does not matter to a layout down to stop. */
  lemma {:induction false} LaidFrame(ps: seq<Panel>, s: seq<Panel>, t: seq<Panel>, i: nat, y: int, stop: nat,
                                     floor: int)
    requires i <= stop <= |ps| == |s| == |t| && Laid(ps, s, i, y, stop, floor)
    requires forall k :: 0 <= k < stop ==> s[k] == t[k]
    ensures Laid(ps, t, i, y, stop, floor)
    decreases stop - i
  {
    if i < stop { LaidFrame(ps, s, t, RowEnd(ps, i), y + Tallest(ps, i, RowEnd(ps, i)), stop, floor); }
  }

  /** One row more. */
  lemma {:induction false} LaidGrows(ps: seq<Panel>, out: seq<Panel>, i: nat, y: int, stop: nat, floor: int)
    requires i <= stop < |ps| == |out| && Laid(ps, out, i, y, stop, floor)
    requires RowPlaced(ps, out, stop, RowEnd(ps, stop), floor)
    ensures Laid(ps, out, i, y, RowEnd(ps, stop), floor + Tallest(ps, stop, RowEnd(ps, stop)))
    decreases stop - i
  {
    if i < stop { LaidGrows(ps, out, RowEnd(ps, i), y + Tallest(ps, i, RowEnd(ps, i)), stop, floor); }
  }
}

module Grid {
  import opened GridSpec

  function Declared(p: Panel): Panel {
    p.(w := Width(p), h := Height(p))
  }

  // ---- filling one row

  method SlackOf(ps: array<Panel>, lo: nat, hi: nat, ghost orig: seq<Panel>) returns (slack: int)
    requires lo <= hi <= ps.Length == |orig|
    requires forall k :: lo <= k < hi ==> ps[k].w == Width(orig[k])
    ensures slack == COLUMNS - Span(orig, lo, hi)
  {
    slack := COLUMNS;
    for i := lo to hi
      invariant slack == COLUMNS - Span(orig, lo, i)
    {
      slack := slack - ps[i].w;
    }
  }

  /** One round: a column each from the right, while there are any. */
  method Round(ps: array<Panel>, lo: nat, hi: nat, slack: nat) returns (left: nat)
    requires lo < hi <= ps.Length
    modifies ps
    ensures forall k :: 0 <= k < ps.Length && !(lo <= k < hi) ==> ps[k] == old(ps[k])
    ensures left == if slack < hi - lo then 0 else slack - (hi - lo)
    ensures forall k :: lo <= k < hi ==> ps[k] == old(ps[k]).(w := old(ps[k].w) + if hi - k <= slack then 1 else 0)
  {
    left := slack;
    var k := hi;
    while k > lo && left > 0
      invariant lo <= k <= hi && left == slack - (hi - k)
      invariant forall j :: 0 <= j < ps.Length && !(k <= j < hi) ==> ps[j] == old(ps[j])
      invariant forall j :: k <= j < hi ==> ps[j] == old(ps[j]).(w := old(ps[j].w) + 1)
    {
      k := k - 1;
      ps[k] := ps[k].(w := ps[k].w + 1);
      left := left - 1;
    }
  }

  /** Rounds until nothing is left: every panel gets its share. */
  method Spend(ps: array<Panel>, lo: nat, hi: nat, slack: nat)
    requires lo < hi <= ps.Length
    modifies ps
    ensures forall k :: 0 <= k < ps.Length && !(lo <= k < hi) ==> ps[k] == old(ps[k])
    ensures forall k :: lo <= k < hi ==> ps[k] == old(ps[k]).(w := old(ps[k].w) + Share(slack, hi - lo, k - lo))
  {
    var left := slack;
    while left > 0
      invariant forall k :: 0 <= k < ps.Length && !(lo <= k < hi) ==> ps[k] == old(ps[k])
      invariant forall k :: lo <= k < hi ==>
        ps[k] == old(ps[k]).(w := old(ps[k].w) + Share(slack, hi - lo, k - lo) - Share(left, hi - lo, k - lo))
    {
      left := Round(ps, lo, hi, left);
    }
  }

  method PlaceOne(ps: array<Panel>, i: nat, x: int, y: int) returns (right: int)
    requires i < ps.Length
    modifies ps
    ensures ps[i] == old(ps[i]).(x := x, y := y) && right == x + old(ps[i].w)
    ensures forall k :: 0 <= k < ps.Length && k != i ==> ps[k] == old(ps[k])
  {
    ps[i] := ps[i].(x := x, y := y);
    right := x + ps[i].w;
  }

  /** The panels of the row get their places from left to right. */
  method Place(ps: array<Panel>, lo: nat, hi: nat, y: int, ghost orig: seq<Panel>)
    requires lo < hi <= ps.Length == |orig|
    requires forall k :: lo <= k < hi ==> ps[k] == orig[k].(w := Widened(orig, lo, hi, k), h := Height(orig[k]))
    modifies ps
    ensures forall k :: 0 <= k < ps.Length && !(lo <= k < hi) ==> ps[k] == old(ps[k])
    ensures forall k :: lo <= k < hi ==> ps[k] == Placed(orig, lo, hi, y, k)
  {
    var x := 0;
    for i := lo to hi
      invariant x == Left(orig, lo, hi, i)
      invariant forall k :: 0 <= k < ps.Length && !(lo <= k < i) ==> ps[k] == old(ps[k])
      invariant forall k :: lo <= k < i ==> ps[k] == Placed(orig, lo, hi, y, k)
    {
      x := PlaceOne(ps, i, x, y);
    }
  }

  /** Widens the panels lo..hi to 24 columns, from the right, and places them at height y. */
  method FillRow(ps: array<Panel>, lo: nat, hi: nat, y: int, ghost orig: seq<Panel>)
    requires lo < hi <= ps.Length == |orig|
    requires forall k :: lo <= k < hi ==> ps[k] == Declared(orig[k])
    modifies ps
    ensures forall k :: 0 <= k < ps.Length && !(lo <= k < hi) ==> ps[k] == old(ps[k])
    ensures forall k :: lo <= k < hi ==> ps[k] == Placed(orig, lo, hi, y, k)
  {
    var slack := SlackOf(ps, lo, hi, orig);
    if slack < 0 { slack := 0; }
    Spend(ps, lo, hi, slack);
    Place(ps, lo, hi, y, orig);
  }

  method TallestOf(ps: array<Panel>, lo: nat, hi: nat, ghost orig: seq<Panel>) returns (h: int)
    requires lo <= hi <= ps.Length == |orig|
    requires forall k :: lo <= k < hi ==> ps[k].h == Height(orig[k])
    ensures h == Tallest(orig, lo, hi)
  {
    h := 0;
    for i := lo to hi
      invariant h == Tallest(orig, lo, i)
    {
      if ps[i].h > h { h := ps[i].h; }
    }
  }

  // ---- the whole list

  /** The panels s: laid out up to start, with defaults filled in up to i, and untouched from there. */
  ghost predicate Stage(orig: seq<Panel>, s: seq<Panel>, start: nat, i: nat, y: int) {
    && start <= i <= |s| == |orig|
    && (forall k :: i <= k < |s| ==> s[k] == orig[k])
    && (forall k :: start <= k < i ==> s[k] == Declared(orig[k]))
    && Laid(orig, s, 0, 0, start, y)
  }

  /** The row in progress, from start to i and width wide, is not yet closed. */
  ghost predicate Open(orig: seq<Panel>, start: nat, i: nat, width: int) {
    && start <= i <= |orig|
    && (if start == i then width == 0
        else !orig[start].header && width < COLUMNS && RowEnd(orig, start) == Fitting(orig, i, width))
  }

  /** A header, a panel that does not fit, or the end closes the row where the layout does. */
  lemma OpenCloses(orig: seq<Panel>, start: nat, i: nat, width: int)
    requires Open(orig, start, i, width) && start < i
    requires i == |orig| || orig[i].header || width + Width(orig[i]) > COLUMNS
    ensures RowEnd(orig, start) == i
  {}

  /** A panel that fits joins the row, and may fill it. */
  lemma OpenTakes(orig: seq<Panel>, start: nat, i: nat, width: int)
    requires Open(orig, start, i, width) && i < |orig| && !orig[i].header
    requires start == i || width + Width(orig[i]) <= COLUMNS
    ensures var w := width + Width(orig[i]);
            if w >= COLUMNS then RowEnd(orig, start) == i + 1 else Open(orig, start, i + 1, w)
  {}

  lemma StageCloses(orig: seq<Panel>, s: seq<Panel>, t: seq<Panel>, start: nat, i: nat, y: int)
    requires Stage(orig, s, start, i, y) && start < i && RowEnd(orig, start) == i && |t| == |s|
    requires forall k :: 0 <= k < |s| && !(start <= k < i) ==> t[k] == s[k]
    requires RowPlaced(orig, t, start, i, y)
    ensures Stage(orig, t, i, i, y + Tallest(orig, start, i))
  {
    LaidFrame(orig, s, t, 0, 0, start, y);
    LaidGrows(orig, t, 0, 0, start, y);
  }

  lemma StageTakes(orig: seq<Panel>, s: seq<Panel>, t: seq<Panel>, start: nat, i: nat, y: int)
    requires Stage(orig, s, start, i, y) && i < |s| == |t|
    requires t[i] == Declared(orig[i]) && forall k :: 0 <= k < |s| && k != i ==> t[k] == s[k]
    ensures Stage(orig, t, start, i + 1, y)
  {
    LaidFrame(orig, s, t, 0, 0, start, y);
  }

  /** Closes the row in progress, if there is one: it is filled, and the next starts below its tallest panel. */
  method CloseRow(ps: array<Panel>, start: nat, i: nat, y: int, ghost orig: seq<Panel>) returns (below: int)
    requires Stage(orig, ps[..], start, i, y)
    requires start < i ==> RowEnd(orig, start) == i
    modifies ps
    ensures Stage(orig, ps[..], i, i, below)
  {
    if start == i { return y; }
    ghost var s := ps[..];
    FillRow(ps, start, i, y, orig);
    var h := TallestOf(ps, start, i, orig);
    below := y + h;
    StageCloses(orig, s, ps[..], start, i, y);
  }

  /** Packs the panels in place, and returns the height they take. */
  method LayOut(ps: array<Panel>) returns (floor: int)
    modifies ps
    ensures Layout(old(ps[..]), ps[..], floor)
  {
    ghost var orig := ps[..];
    var start: nat, y: int, width: int := 0, 0, 0;
    for i := 0 to ps.Length
      invariant Stage(orig, ps[..], start, i, y) && Open(orig, start, i, width)
    {
      start, y, width := Step(ps, start, i, y, width, orig);
    }
    if start < ps.Length { OpenCloses(orig, start, ps.Length, width); }
    floor := CloseRow(ps, start, ps.Length, y, orig);
  }

  /** One panel: a header closes the row and takes a line; any other joins the row or starts the next. */
  method Step(ps: array<Panel>, start: nat, i: nat, y: int, width: int, ghost orig: seq<Panel>)
    returns (start': nat, y': int, width': int)
    requires i < ps.Length && Stage(orig, ps[..], start, i, y) && Open(orig, start, i, width)
    modifies ps
    ensures Stage(orig, ps[..], start', i + 1, y') && Open(orig, start', i + 1, width')
  {
    if ps[i].header {
      if start < i { OpenCloses(orig, start, i, width); }
      y' := PlaceHeader(ps, start, i, y, orig);
      return i + 1, y', 0;
    }
    var w := if ps[i].w == 0 then 12 else ps[i].w;
    if start < i && width + w > COLUMNS {
      OpenCloses(orig, start, i, width);
      y' := CloseRow(ps, start, i, y, orig);
      start', y', width' := Join(ps, i, i, y', 0, orig);
    } else {
      start', y', width' := Join(ps, start, i, y, width, orig);
    }
  }

  /** A header closes the row in progress and gets the next line to itself. */
  method PlaceHeader(ps: array<Panel>, start: nat, i: nat, y: int, ghost orig: seq<Panel>) returns (below: int)
    requires i < ps.Length && Stage(orig, ps[..], start, i, y) && orig[i].header
    requires start < i ==> RowEnd(orig, start) == i
    modifies ps
    ensures Stage(orig, ps[..], i + 1, i + 1, below)
  {
    var line := CloseRow(ps, start, i, y, orig);
    ghost var s := ps[..];
    ps[i] := ps[i].(w := COLUMNS, h := 1, x := 0, y := line);
    below := line + 1;
    StageHeads(orig, s, ps[..], i, line);
  }

  lemma StageHeads(orig: seq<Panel>, s: seq<Panel>, t: seq<Panel>, i: nat, y: int)
    requires Stage(orig, s, i, i, y) && i < |s| == |t| && orig[i].header
    requires t[i] == orig[i].(w := COLUMNS, h := 1, x := 0, y := y)
    requires forall k :: 0 <= k < |s| && k != i ==> t[k] == s[k]
    ensures Stage(orig, t, i + 1, i + 1, y + 1)
  {
    LaidFrame(orig, s, t, 0, 0, i, y);
    HeaderRow(orig, i, y);
    LaidGrows(orig, t, 0, 0, i, y);
  }

  /** A header fills a row one high. */
  lemma HeaderRow(orig: seq<Panel>, i: nat, y: int)
    requires i < |orig| && orig[i].header
    ensures RowEnd(orig, i) == i + 1 && Tallest(orig, i, i + 1) == 1
    ensures Placed(orig, i, i + 1, y, i) == orig[i].(w := COLUMNS, h := 1, x := 0, y := y)
  {
    assert Span(orig, i, i) == 0;
  }

  /** A panel that fits joins the row, which closes if that fills it. */
  method Join(ps: array<Panel>, start: nat, i: nat, y: int, width: int, ghost orig: seq<Panel>)
    returns (start': nat, y': int, width': int)
    requires i < ps.Length && Stage(orig, ps[..], start, i, y) && Open(orig, start, i, width)
    requires !orig[i].header && (start == i || width + Width(orig[i]) <= COLUMNS)
    modifies ps
    ensures Stage(orig, ps[..], start', i + 1, y') && Open(orig, start', i + 1, width')
  {
    OpenTakes(orig, start, i, width);
    ghost var s := ps[..];
    if ps[i].w == 0 { ps[i] := ps[i].(w := 12); }
    if ps[i].h == 0 { ps[i] := ps[i].(h := 8); }
    width' := width + ps[i].w;
    StageTakes(orig, s, ps[..], start, i, y);
    if width' >= COLUMNS {
      y' := CloseRow(ps, start, i + 1, y, orig);
      start', width' := i + 1, 0;
    } else {
      start', y' := start, y;
    }
  }
}

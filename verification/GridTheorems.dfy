/**
 What every layout is (internal/dashboards/dashboards.go), said of the panels
 alone: their sizes, that rows touch, and where a row may end.
*/
module GridTheorems {
  import opened Words
  import opened GridSpec

  /** The row that starts at lo stands at height y, right below the row before it or at the top. */
  ghost predicate RowStands(ps: seq<Panel>, out: seq<Panel>, lo: nat, y: int, above: nat)
    requires lo < |ps| == |out|
  {
    && RowPlaced(ps, out, lo, RowEnd(ps, lo), y)
    && (lo == 0 ==> y == 0)
    && (0 < lo ==> Above(ps, out, above, lo, y))
  }

  ghost predicate Above(ps: seq<Panel>, out: seq<Panel>, above: nat, lo: nat, y: int)
    requires lo <= |ps| == |out|
  {
    above < lo && RowEnd(ps, above) == lo && RowPlaced(ps, out, above, lo, y - Tallest(ps, above, lo))
  }

  /** The row panel k stands in, and the one above it. */
  lemma {:induction false} RowOfPanel(ps: seq<Panel>, out: seq<Panel>, i: nat, y: int, floor: int, k: nat, p: nat)
    returns (lo: nat, y': int, above: nat)
    requires i <= k < |ps| == |out| && Laid(ps, out, i, y, |ps|, floor)
    requires (i == 0 ==> y == 0) && (0 < i ==> Above(ps, out, p, i, y))
    ensures lo <= k < RowEnd(ps, lo) && RowStands(ps, out, lo, y', above)
    decreases |ps| - i
  {
    var e := RowEnd(ps, i);
    if k < e {
      lo, y', above := i, y, p;
    } else {
      lo, y', above := RowOfPanel(ps, out, e, y + Tallest(ps, i, e), floor, k, i);
    }
  }

  lemma FindRow(ps: seq<Panel>, out: seq<Panel>, floor: int, k: nat) returns (lo: nat, y: int, above: nat)
    requires Layout(ps, out, floor) && k < |ps|
    ensures lo <= k < RowEnd(ps, lo) && RowStands(ps, out, lo, y, above)
  {
    lo, y, above := RowOfPanel(ps, out, 0, 0, floor, k, 0);
  }

  /**
   A panel keeps what it is. A header is 24 wide and 1 high; any other panel is as high as declared, 8 where
   nothing was, and at least as wide, 12 where nothing was.
  */
  lemma LayoutKeepsSizes(ps: seq<Panel>, out: seq<Panel>, floor: int, k: nat)
    requires AllDeclarable(ps) && Layout(ps, out, floor) && k < |ps|
    ensures out[k].header == ps[k].header && out[k].collapsed == ps[k].collapsed
    ensures if ps[k].header then out[k].w == 24 && out[k].h == 1
            else out[k].h == (if ps[k].h == 0 then 8 else ps[k].h) && out[k].w >= if ps[k].w == 0 then 12 else ps[k].w
  {
    var lo, y, above := FindRow(ps, out, floor, k);
    assert out[k] == Placed(ps, lo, RowEnd(ps, lo), y, k);
    LayoutIsOnGrid(ps, out, floor);
  }

  /** Panel j ends at height y. */
  ghost predicate Touches(out: seq<Panel>, j: nat, y: int) {
    j < |out| && out[j].y + out[j].h == y
  }

  lemma RowTouches(ps: seq<Panel>, out: seq<Panel>, lo: nat, hi: nat, y: int) returns (j: nat)
    requires RowOf(ps, lo, hi) && |ps| == |out| && RowPlaced(ps, out, lo, hi, y)
    ensures lo <= j < hi && Touches(out, j, y + Tallest(ps, lo, hi))
  {
    j := TallestIsReached(ps, lo, hi);
    assert out[j] == Placed(ps, lo, hi, y, j);
  }

  /** Rows touch: a panel stands at the top, or where an earlier one ends. */
  lemma LayoutHasNoGaps(ps: seq<Panel>, out: seq<Panel>, floor: int, k: nat)
    requires AllDeclarable(ps) && Layout(ps, out, floor) && k < |ps|
    ensures out[k].y == 0 || exists j: nat :: j < k && Touches(out, j, out[k].y)
  {
    var lo, y, above := FindRow(ps, out, floor, k);
    assert out[k] == Placed(ps, lo, RowEnd(ps, lo), y, k);
    if 0 < lo {
      RowsAreGreedy(ps, above);
      var j := RowTouches(ps, out, above, lo, y - Tallest(ps, above, lo));
    }
  }

  lemma {:induction false} FloorTouches(ps: seq<Panel>, out: seq<Panel>, i: nat, y: int, floor: int) returns (j: nat)
    requires AllDeclarable(ps) && i < |ps| == |out| && Laid(ps, out, i, y, |ps|, floor)
    ensures Touches(out, j, floor)
    decreases |ps| - i
  {
    var e := RowEnd(ps, i);
    RowsAreGreedy(ps, i);
    if e == |ps| {
      j := RowTouches(ps, out, i, e, y);
    } else {
      j := FloorTouches(ps, out, e, y + Tallest(ps, i, e), floor);
    }
  }

  /** And the height of the layout is where its lowest panel ends. */
  lemma LayoutEndsAtFloor(ps: seq<Panel>, out: seq<Panel>, floor: int)
    requires AllDeclarable(ps) && Layout(ps, out, floor)
    ensures if ps == [] then floor == 0 else exists j: nat :: Touches(out, j, floor)
  {
    if ps != [] { var j := FloorTouches(ps, out, 0, 0, floor); }
  }

  // ---- where rows end

  /** Panels j and k stand first and last in one row. */
  ghost predicate WholeRow(out: seq<Panel>, j: nat, k: nat) {
    && j <= k < |out| && out[j].y == out[k].y
    && (0 < j ==> out[j - 1].y != out[j].y)
    && (k + 1 < |out| ==> out[k + 1].y != out[k].y)
  }

  lemma RowBegins(ps: seq<Panel>, out: seq<Panel>, lo: nat, y: int, above: nat)
    requires AllDeclarable(ps) && lo < |ps| == |out| && RowStands(ps, out, lo, y, above)
    ensures forall a :: lo <= a < RowEnd(ps, lo) ==> out[a].y == y
  {
    forall a | lo <= a < RowEnd(ps, lo) ensures out[a].y == y {
      assert out[a] == Placed(ps, lo, RowEnd(ps, lo), y, a);
    }
  }

  /**
   A row ends only where it must: before a header, or before a panel that would not have fitted into 24 columns
   at the widths declared. A header has a row to itself.
  */
  lemma LayoutIsGreedy(ps: seq<Panel>, out: seq<Panel>, floor: int, j: nat, k: nat)
    requires AllDeclarable(ps) && Layout(ps, out, floor) && WholeRow(out, j, k)
    ensures forall a :: j <= a <= k && ps[a].header ==> j == k
    ensures k + 1 < |ps| && !ps[j].header && !ps[k + 1].header ==> Span(ps, j, k + 1) + Width(ps[k + 1]) > 24
  {
    var lo, y, above := FindRow(ps, out, floor, j);
    RowBegins(ps, out, lo, y, above);
    EndOfRow(ps, out, floor, lo, y, above, k);
    RowsAreGreedy(ps, lo);
    HeadersAlone(ps, lo);
  }

  lemma EndOfRow(ps: seq<Panel>, out: seq<Panel>, floor: int, lo: nat, y: int, above: nat, k: nat)
    requires AllDeclarable(ps) && Layout(ps, out, floor) && lo < |ps| && RowStands(ps, out, lo, y, above)
    requires lo <= k < |out| && out[k].y == y && (k + 1 < |out| ==> out[k + 1].y != y)
    ensures k + 1 == RowEnd(ps, lo)
  {
    var e := RowEnd(ps, lo);
    RowBegins(ps, out, lo, y, above);
    if e <= k { RowsApart(ps, out, floor, lo, y, above, k); }
  }

  /** A panel past the end of a row stands below it. */
  lemma RowsApart(ps: seq<Panel>, out: seq<Panel>, floor: int, lo: nat, y: int, above: nat, k: nat)
    requires AllDeclarable(ps) && Layout(ps, out, floor) && lo < |ps| && RowStands(ps, out, lo, y, above)
    requires RowEnd(ps, lo) <= k < |ps|
    ensures out[k].y > y
  {
    var a := RowEnd(ps, lo) - 1;
    RowsAreGreedy(ps, lo);
    assert out[a] == Placed(ps, lo, a + 1, y, a);
    RowIsFull(ps, lo, a + 1);
    LayoutIsOnGrid(ps, out, floor);
    LayoutIsInOrder(ps, out, floor);
    assert Before(out[a], out[k]);
    assert OnGrid(out[a]) && OnGrid(out[k]);
  }

  lemma {:induction false} NoHeaderFits(ps: seq<Panel>, i: nat, width: int, a: nat)
    requires i <= a < |ps| && a < Fitting(ps, i, width)
    ensures !ps[a].header
    decreases |ps| - i
  {
    if i < a { NoHeaderFits(ps, i + 1, width + Width(ps[i]), a); }
  }

  lemma HeadersAlone(ps: seq<Panel>, lo: nat)
    requires lo < |ps|
    ensures forall a :: lo <= a < RowEnd(ps, lo) && ps[a].header ==> RowEnd(ps, lo) == lo + 1
  {
    forall a | lo <= a < RowEnd(ps, lo) && ps[a].header ensures RowEnd(ps, lo) == lo + 1 {
      if RowEnd(ps, lo) > lo + 1 { NoHeaderFits(ps, lo, 0, a); }
    }
  }
}

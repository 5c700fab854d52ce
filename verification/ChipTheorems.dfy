/**
 What a reader of the chart sees (internal/chart/chart.go): where a marker's chip
 stands among the chips before it, which label it bears, and what a folded
 marker says.
*/
module ChipTheorems {
  import opened ChipSpec

  // ---- where a chip stands

  /** No chip before item i stands on row r so far right that one starting at x0 would touch it. */
  ghost predicate Room(items: seq<Chip>, i: nat, r: nat, x0: real)
    requires i <= |items|
  {
    forall j :: 0 <= j < i && Drawn(items[j]) && items[j].row == r ==> x0 > items[j].x0 + items[j].w + 6.0
  }

  /** Where a chip of a label of n bytes starts: centred on its marker, unless that would pass a margin. */
  function Start(x: real, n: nat): real {
    var w := 6.2 * n as real + 12.0;
    if x - w / 2.0 < 64.0 then 64.0 else if x + w / 2.0 > 1104.0 then 1104.0 - w else x - w / 2.0
  }

  /** One of the six rows has room for it. */
  ghost predicate RoomFor(items: seq<Chip>, i: nat, n: nat)
    requires i < |items|
  {
    exists r :: 0 <= r < 6 && Room(items, i, r, Start(items[i].x, n))
  }

  lemma StartIs(x: real, n: nat)
    requires n <= 40
    ensures Start(x, n) == ChipLeft(x, n)
  {}

  /** The end of row r is where some chip on it ends, or far to the left. */
  lemma {:induction false} EndsSomewhere(items: seq<Chip>, n: nat, r: nat)
    requires n <= |items| && r < 6
    ensures RowEnds(items, n)[r] == FAR_LEFT
         || exists j :: 0 <= j < n && Drawn(items[j]) && items[j].row == r
                        && items[j].x0 + items[j].w == RowEnds(items, n)[r]
  {
    if n > 0 { EndsSomewhere(items, n - 1, r); }
  }

  /** And no chip on it ends further right. */
  lemma {:induction false} EndsAreLast(items: seq<Chip>, n: nat, j: nat)
    requires j < n <= |items| && AllApart(items) && forall k :: 0 <= k < |items| ==> Inside(items[k])
    requires Drawn(items[j])
    ensures items[j].row < 6 && items[j].x0 + items[j].w <= RowEnds(items, n)[items[j].row]
    decreases n
  {
    assert Inside(items[j]);
    if j < n - 1 {
      EndsAreLast(items, n - 1, j);
      assert Apart(items[j], items[n - 1]);
      assert Inside(items[n - 1]);
    }
  }

  lemma RoomIff(items: seq<Chip>, i: nat, r: nat, x0: real)
    requires i <= |items| && r < 6 && x0 >= 64.0 && AllApart(items)
    requires forall k :: 0 <= k < |items| ==> Inside(items[k])
    ensures x0 > RowEnds(items, i)[r] + ROW_GAP <==> Room(items, i, r, x0)
  {
    EndsSomewhere(items, i, r);
    forall j | 0 <= j < i && Drawn(items[j]) && items[j].row == r
      ensures items[j].x0 + items[j].w <= RowEnds(items, i)[r]
    {
      EndsAreLast(items, i, j);
    }
  }

  lemma RoomForIff(items: seq<Chip>, i: nat, n: nat)
    requires i < |items| && n <= 40 && AllApart(items) && forall k :: 0 <= k < |items| ==> Inside(items[k])
    ensures Fits(RowEnds(items, i), items[i].x, n) <==> RoomFor(items, i, n)
  {
    var ends, x0 := RowEnds(items, i), ChipLeft(items[i].x, n);
    StartIs(items[i].x, n);
    NoneBefore(ends, x0);
    forall r | 0 <= r < 6 ensures x0 > ends[r] + ROW_GAP <==> Room(items, i, r, x0) {
      RoomIff(items, i, r, x0);
    }
    if FirstFree(ends, x0, 0) < 6 { assert Room(items, i, FirstFree(ends, x0, 0), x0); }
  }

  /** The label as it is, or its first bytes and an ellipsis. */
  ghost predicate LabelOf(text: string, shown: string) {
    shown == text || (3 <= |shown| < |text| && shown == text[..|shown| - 3] + ELLIPSIS)
  }

  lemma ShortenedIsLabel(text: string, n: nat)
    requires 12 <= n <= |Capped(text)|
    ensures var s := Shortened(Capped(text), n); LabelOf(text, s) && |s| == n
  {
    if |text| > 40 && n < 40 {
      assert Capped(text)[..n - 3] == text[..n - 3];
    }
  }

  /** As long as a chip's label may be: 40 bytes of a longer one. */
  function Most(text: string): nat {
    if |text| > 40 then 40 else |text|
  }

  /**
   A marker gets a chip exactly when its label has 12 bytes or more and some row has room for 12 of them; the label
   is then the longest there is room for, on the uppermost row that has it, centred where the margins allow.
  */
  lemma ChipStands(items: seq<Chip>, i: nat)
    requires i < |items| && AllChosen(items, Picker()) && AllApart(items)
    requires forall k :: 0 <= k < |items| ==> Inside(items[k])
    ensures Drawn(items[i]) <==> |items[i].m.text| >= 12 && RoomFor(items, i, 12)
    ensures Drawn(items[i]) ==>
              var c := items[i];
              && LabelOf(c.m.text, c.text)
              && c.x0 == Start(c.x, |c.text|)
              && Room(items, i, c.row, c.x0)
              && (forall r :: 0 <= r < c.row ==> !Room(items, i, r, c.x0))
              && (forall n :: |c.text| < n <= Most(c.m.text) ==> !RoomFor(items, i, n))
  {
    var c, ends, most := items[i], RowEnds(items, i), |Capped(items[i].m.text)|;
    assert ChosenAt(items, i, Picker());
    ChipIff(ends, c.x, most);
    LongestFits(ends, c.x, most);
    RoomForIff(items, i, 12);
    if Drawn(c) {
      ShortenedIsLabel(c.m.text, |c.text|);
      StartIs(c.x, |c.text|);
      ChipRow(items, i);
      forall n | |c.text| < n <= Most(c.m.text) ensures !RoomFor(items, i, n) {
        LongestIsLongest(ends, c.x, most, n);
        RoomForIff(items, i, n);
      }
    }
  }

  lemma ChipRow(items: seq<Chip>, i: nat)
    requires i < |items| && AllApart(items) && forall k :: 0 <= k < |items| ==> Inside(items[k])
    requires Drawn(items[i])
    requires items[i].x0 == ChipLeft(items[i].x, |items[i].text|)
    requires items[i].row == FirstFree(RowEnds(items, i), items[i].x0, 0)
    ensures Room(items, i, items[i].row, items[i].x0)
    ensures forall r :: 0 <= r < items[i].row ==> !Room(items, i, r, items[i].x0)
  {
    var c := items[i];
    assert Inside(c);
    NoneBefore(RowEnds(items, i), c.x0);
    RoomIff(items, i, c.row, c.x0);
    forall r | 0 <= r < c.row ensures !Room(items, i, r, c.x0) {
      RoomIff(items, i, r, c.x0);
    }
  }

  /** An item is shown for every marker of the chart's time, both ends included, and for no other. */
  lemma {:induction false} InRangeIff(ms: seq<Marker>, n: nat, t0: int, tMax: real, m: Marker)
    requires n <= |ms|
    ensures m in InRange(ms, n, t0, tMax) <==>
              m in ms[..n] && t0 <= m.wallNS && (m.wallNS - t0) as real <= 1_000_000_000.0 * tMax
  {
    if n > 0 {
      InRangeIff(ms, n - 1, t0, tMax, m);
      assert ms[..n] == ms[..n - 1] + [ms[n - 1]];
    }
  }

  // ---- what a folded marker says

  /** What an item of so many markers looks like, by the first of them. */
  ghost predicate LooksLike(item: Marker, first: Marker) {
    && item.kind == first.kind && item.wallNS == first.wallNS && item.first == first.text
    && item.text == if item.count == 1 then first.text else Digits(item.count) + "\U{C3}\U{97} " + first.text
  }

  lemma OneMoreGrouped(ms: seq<Marker>, n: nat, g: nat)
    requires 0 < n <= |ms| && g < |Grouped(ms, n)|
    ensures var out, r := Grouped(ms, n - 1), Grouped(ms, n);
            if g < |out| then r[g] == out[g] || r[g] == Recounted(out[g])
            else g == |out| == GroupOf(ms, n - 1) && r[g] == ms[n - 1].(count := 1, first := ms[n - 1].text)
  {}

  lemma StillLooks(item: Marker, next: Marker, first: Marker)
    requires LooksLike(item, first) && item.count >= 1 && (next == item || next == Recounted(item))
    ensures LooksLike(next, first)
  {}

  lemma NoneYet(ms: seq<Marker>, n: nat)
    requires 0 < n <= |ms|
    ensures forall k :: 0 <= k < n ==> GroupOf(ms, k) < |Grouped(ms, n)|
  {
    forall k | 0 <= k < n ensures GroupOf(ms, k) < |Grouped(ms, n)| {
      SameGroupIff(ms, k, n - 1);
    }
  }

  /** Marker i is the first that ended in item g, which looks like it. */
  ghost predicate FirstOf(ms: seq<Marker>, n: nat, g: nat, i: nat)
    requires n <= |ms|
  {
    && i < n && g < |Grouped(ms, n)|
    && GroupOf(ms, i) == g && (forall k :: 0 <= k < i ==> GroupOf(ms, k) != g)
    && LooksLike(Grouped(ms, n)[g], ms[i])
  }

  lemma StillFirst(ms: seq<Marker>, n: nat, g: nat, i: nat)
    requires 0 < n <= |ms| && FirstOf(ms, n - 1, g, i) && g < |Grouped(ms, n)|
    ensures FirstOf(ms, n, g, i)
  {
    OneMoreGrouped(ms, n, g);
    ItemCountsMembers(ms, n - 1, g);
    StillLooks(Grouped(ms, n - 1)[g], Grouped(ms, n)[g], ms[i]);
  }

  lemma NewFirst(ms: seq<Marker>, n: nat, g: nat)
    requires 0 < n <= |ms| && |Grouped(ms, n - 1)| <= g < |Grouped(ms, n)|
    ensures FirstOf(ms, n, g, n - 1)
  {
    OneMoreGrouped(ms, n, g);
    if 1 < n { NoneYet(ms, n - 1); }
  }

  /** An item shows the time and the label of the first marker in it, behind the count of more than one. */
  lemma {:induction false} ItemLooks(ms: seq<Marker>, n: nat, g: nat) returns (i: nat)
    requires n <= |ms| && g < |Grouped(ms, n)|
    ensures FirstOf(ms, n, g, i)
  {
    if g < |Grouped(ms, n - 1)| {
      i := ItemLooks(ms, n - 1, g);
      StillFirst(ms, n, g, i);
    } else {
      i := n - 1;
      NewFirst(ms, n, g);
    }
  }

  /** The number a string of digits stands for. */
  function Number(s: string): int {
    if s == "" then 0 else 10 * Number(s[..|s| - 1]) + (s[|s| - 1] as int - '0' as int)
  }

  /** The count reads back, without a zero before it. */
  lemma {:induction false} DigitsRead(n: nat)
    ensures var s := Digits(n);
            && s != "" && Number(s) == n
            && (forall k :: 0 <= k < |s| ==> '0' <= s[k] <= '9')
            && (n > 0 ==> s[0] != '0')
  {
    var d := ['0' + (n % 10) as char];
    if n < 10 {
      assert Number("") == 0;
      assert d[..0] == "";
    } else {
      DigitsRead(n / 10);
      assert (Digits(n / 10) + d)[..|Digits(n / 10)|] == Digits(n / 10);
    }
  }

  /** A second holds the times from its start up to the next one. */
  lemma SecondIff(ns: int, sec: int)
    requires 0 <= ns
    ensures WholeSecond(ns) == sec <==> sec * 1_000_000_000 <= ns < (sec + 1) * 1_000_000_000
  {}
}

/**
 Collapsed dashboard sections (internal/dashboards/dashboards.go): after the
 packer has laid out the flat list, the panels of a collapsed section are nested
 inside its header, and every panel gets its number.
*/
module NestingSpec {
  import opened GridSpec

  /** A top-level item: a panel, or a row header with what is nested in it; each panel with its id. */
  datatype Item = Single(panel: Panel, id: nat) | Section(head: Panel, headId: nat, children: seq<(Panel, nat)>)

  function Members(it: Item): seq<(Panel, nat)> {
    match it
    case Single(p, id) => [(p, id)]
    case Section(p, id, children) => [(p, id)] + children
  }

  function Flat(items: seq<Item>): seq<(Panel, nat)> {
    if items == [] then [] else Flat(items[..|items| - 1]) + Members(items[|items| - 1])
  }

  lemma FlatStep(items: seq<Item>, it: Item)
    ensures Flat(items + [it]) == Flat(items) + Members(it)
  {
    assert (items + [it])[..|items|] == items;
  }

  /** What is nested are panels, not headers, and a header nests them exactly when it is collapsed. */
  ghost predicate Sectioned(it: Item) {
    match it
    case Single(p, _) => !(p.header && p.collapsed)
    case Section(p, _, children) => p.header && p.collapsed && forall k :: 0 <= k < |children| ==> !children[k].0.header
  }

  /** The panel an item starts with. */
  function Lead(it: Item): Panel {
    match it
    case Single(p, _) => p
    case Section(p, _, _) => p
  }

  /** A section takes in everything up to the next header. */
  ghost predicate SectionsReach(items: seq<Item>) {
    forall k :: 0 < k < |items| && items[k - 1].Section? ==> Lead(items[k]).header
  }

  /** The panels lo..hi, each with its place in the list counted from 1. */
  function Numbered(ps: seq<Panel>, lo: nat, hi: nat): seq<(Panel, nat)>
    requires hi <= |ps|
  {
    if hi <= lo then [] else Numbered(ps, lo, hi - 1) + [(ps[hi - 1], hi)]
  }

  lemma {:induction false} NumberedJoin(ps: seq<Panel>, lo: nat, mid: nat, hi: nat)
    requires lo <= mid <= hi <= |ps|
    ensures Numbered(ps, lo, hi) == Numbered(ps, lo, mid) + Numbered(ps, mid, hi)
  {
    if mid < hi { NumberedJoin(ps, lo, mid, hi - 1); }
  }

  /** Panel k of the list is numbered k + 1. */
  lemma {:induction false} NumberedAt(ps: seq<Panel>, n: nat, k: nat)
    requires k < n <= |ps|
    ensures |Numbered(ps, 0, n)| == n && Numbered(ps, 0, n)[k] == (ps[k], k + 1)
    decreases n
  {
    if k < n - 1 { NumberedAt(ps, n - 1, k); } else if 0 < k { NumberedAt(ps, k, k - 1); }
  }
}

module Nesting {
  import opened GridSpec
  import opened NestingSpec

  /** The panels from i up to the next header, numbered by their places in the list. */
  method Children(ps: seq<Panel>, i: nat) returns (nested: seq<(Panel, nat)>, j: nat)
    requires i <= |ps|
    ensures i <= j <= |ps| && nested == Numbered(ps, i, j)
    ensures forall k :: 0 <= k < |nested| ==> !nested[k].0.header
    ensures j < |ps| ==> ps[j].header
  {
    nested, j := [], i;
    while j < |ps| && !ps[j].header
      invariant i <= j <= |ps| && nested == Numbered(ps, i, j)
      invariant forall k :: 0 <= k < |nested| ==> !nested[k].0.header
    {
      j := j + 1;
      nested := nested + [(ps[j - 1], j)];
    }
  }

  lemma FlatGrows(ps: seq<Panel>, out: seq<Item>, i: nat, it: Item, next: nat)
    requires i <= next <= |ps|
    requires Flat(out) == Numbered(ps, 0, i) && Members(it) == Numbered(ps, i, next)
    ensures Flat(out + [it]) == Numbered(ps, 0, next)
  {
    FlatStep(out, it);
    NumberedJoin(ps, 0, i, next);
  }

  lemma ReachGrows(out: seq<Item>, it: Item)
    requires SectionsReach(out) && (out != [] && out[|out| - 1].Section? ==> Lead(it).header)
    ensures SectionsReach(out + [it])
  {}

  /**
   Nests the panels after a collapsed row header, up to the next header, inside it: every
   panel once, in order, with its number.
  */
  method Nest(ps: seq<Panel>) returns (out: seq<Item>)
    ensures Flat(out) == Numbered(ps, 0, |ps|)
    ensures forall k :: 0 <= k < |out| ==> Sectioned(out[k])
    ensures SectionsReach(out)
  {
    out := [];
    var i: nat := 0;
    while i < |ps|
      invariant i <= |ps| && Flat(out) == Numbered(ps, 0, i)
      invariant forall k :: 0 <= k < |out| ==> Sectioned(out[k])
      invariant SectionsReach(out) && (out != [] && out[|out| - 1].Section? && i < |ps| ==> ps[i].header)
    {
      var it, next := Top(ps, i);
      FlatGrows(ps, out, i, it, next);
      ReachGrows(out, it);
      out, i := out + [it], next;
    }
  }

  /** The top-level item that starts at panel i, and where the next one starts. */
  method Top(ps: seq<Panel>, i: nat) returns (it: Item, next: nat)
    requires i < |ps|
    ensures i < next <= |ps| && Members(it) == Numbered(ps, i, next) && Sectioned(it) && Lead(it) == ps[i]
    ensures it.Section? && next < |ps| ==> ps[next].header
  {
    NumberedOne(ps, i);
    it, next := Single(ps[i], i + 1), i + 1;
    if ps[i].header && ps[i].collapsed {
      var nested, j := Children(ps, i + 1);
      NumberedFirst(ps, i, j);
      it, next := Section(ps[i], i + 1, nested), j;
    }
  }

  lemma NumberedOne(ps: seq<Panel>, i: nat)
    requires i < |ps|
    ensures Numbered(ps, i, i + 1) == [(ps[i], i + 1)]
  {
    assert Numbered(ps, i, i) == [];
  }

  lemma NumberedFirst(ps: seq<Panel>, i: nat, j: nat)
    requires i < j <= |ps|
    ensures Numbered(ps, i, j) == [(ps[i], i + 1)] + Numbered(ps, i + 1, j)
  {
    NumberedOne(ps, i);
    NumberedJoin(ps, i, i + 1, j);
  }
}

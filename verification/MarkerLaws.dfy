/**
 What every run of one agent life keeps of the trigger markers on their way to
 the sinks: none twice, none out of place, and none lost while the markers
 still to be sent fit the list the agent keeps.
*/
module MarkerLaws {
  import opened RingSpec
  import opened CaptureSpec
  import opened Serve
  import opened ForwardSpec
  import opened AgentLaws

  /** Markers in arming order, a condition's numbered above every one before it. */
  ghost predicate Ranked(ms: seq<Marker>) {
    forall i, j :: 0 <= i < j < |ms| ==>
                     ms[i].id < ms[j].id && (Auto(ms[j]) ==> ms[i].fire.seqNo < ms[j].fire.seqNo)
  }

  ghost predicate Has(ms: seq<Marker>, m: Marker) {
    exists i :: 0 <= i < |ms| && ms[i] == m
  }

  lemma HistoryIsRanked(s: State)
    requires forall i :: 0 <= i < |s.history| ==> s.history[i].id == i + 1
    requires Ordered(s.history)
    ensures Ranked(s.history) && Ranked(Kept(s))
  {
    var kept := Kept(s);
    var d := |s.history| - |kept|;
    assert forall i :: 0 <= i < |kept| ==> kept[i] == s.history[d + i];
  }

  lemma RankedTail(ms: seq<Marker>)
    requires Ranked(ms) && ms != []
    ensures Ranked(ms[1..])
  {
    assert forall i :: 0 <= i < |ms[1..]| ==> ms[1..][i] == ms[i + 1];
  }

  /** The markers in a range of numbers are exactly those markers, in the same order. */
  lemma {:induction false} RangeIsFilter(ms: seq<Marker>, after: nat, upTo: nat, m: Marker)
    ensures Has(InRange(ms, after, upTo), m) <==> Has(ms, m) && after < m.fire.seqNo <= upTo
  {
    if ms != [] {
      var rest := InRange(ms[1..], after, upTo);
      RangeIsFilter(ms[1..], after, upTo, m);
      HeldCons(ms, m);
      if after < ms[0].fire.seqNo <= upTo {
        HeldCons([ms[0]] + rest, m);
        assert ([ms[0]] + rest)[1..] == rest;
      }
    }
  }

  lemma HeldCons(ms: seq<Marker>, m: Marker)
    requires ms != []
    ensures Has(ms, m) <==> ms[0] == m || Has(ms[1..], m)
  {
    if Has(ms, m) && ms[0] != m {
      var i :| 0 <= i < |ms| && ms[i] == m;
      assert ms[1..][i - 1] == m;
    }
    if Has(ms[1..], m) {
      var i :| 0 <= i < |ms[1..]| && ms[1..][i] == m;
      assert ms[i + 1] == m;
    }
  }

  lemma {:induction false} RangeIsRanked(ms: seq<Marker>, after: nat, upTo: nat)
    requires Ranked(ms)
    ensures Ranked(InRange(ms, after, upTo))
  {
    if ms != [] {
      RankedTail(ms);
      var rest := InRange(ms[1..], after, upTo);
      RangeIsRanked(ms[1..], after, upTo);
      if after < ms[0].fire.seqNo <= upTo {
        forall j | 0 <= j < |rest|
          ensures ms[0].id < rest[j].id && (Auto(rest[j]) ==> ms[0].fire.seqNo < rest[j].fire.seqNo)
        {
          assert Has(rest, rest[j]);
          RangeIsFilter(ms[1..], after, upTo, rest[j]);
          var i :| 0 <= i < |ms[1..]| && ms[1..][i] == rest[j];
          assert ms[i + 1] == rest[j];
        }
      }
    }
  }

  // ---- the markers of one reply

  ghost predicate Writes(lines: seq<Line>, m: Marker) {
    exists p :: 0 <= p < |lines| && lines[p] == TriggerLine(m)
  }

  /**
   Each marker line differs from the ones before it, and precedes every sample at or
   above its number when a condition armed it.
  */
  ghost predicate WellPlaced(lines: seq<Line>) {
    && (forall p, q :: 0 <= p < q < |lines| && lines[p].TriggerLine? && lines[q].TriggerLine? ==>
                         lines[p].marker.id < lines[q].marker.id)
    && (forall p, q ::
          0 <= p < q < |lines| && lines[p].SampleLine? && lines[q].TriggerLine? && Auto(lines[q].marker) ==>
                         lines[p].entry.seqNo < lines[q].marker.fire.seqNo)
  }

  lemma {:induction false} WeaveIsWellPlaced(es: seq<Entry>, ms: seq<Marker>)
    requires Ranked(ms) && Numbered(es)
    ensures WellPlaced(Weave(es, ms))
    decreases |es| + |ms|
  {
    if es == [] {
    } else if ms != [] && ms[0].fire.seqNo <= es[0].seqNo {
      RankedTail(ms);
      WeaveIsWellPlaced(es, ms[1..]);
      var rest := Weave(es, ms[1..]);
      forall q | 0 <= q < |rest| && rest[q].TriggerLine? ensures ms[0].id < rest[q].marker.id {
        WeaveMembers(es, ms[1..], q);
      }
      PlacedCons(TriggerLine(ms[0]), rest);
    } else {
      NumberedTail(es);
      WeaveIsWellPlaced(es[1..], ms);
      var rest := Weave(es[1..], ms);
      forall q | 0 <= q < |rest| && rest[q].TriggerLine? && Auto(rest[q].marker)
        ensures es[0].seqNo < rest[q].marker.fire.seqNo
      {
        WeaveMembers(es[1..], ms, q);
        var i :| 0 <= i < |ms| && ms[i] == rest[q].marker;
        assert i == 0 || ms[0].fire.seqNo < ms[i].fire.seqNo;
      }
      PlacedCons(SampleLine(es[0]), rest);
    }
  }

  lemma PlacedCons(line: Line, rest: seq<Line>)
    requires WellPlaced(rest)
    requires line.TriggerLine? ==>
               forall q :: 0 <= q < |rest| && rest[q].TriggerLine? ==> line.marker.id < rest[q].marker.id
    requires line.SampleLine? ==>
               forall q :: 0 <= q < |rest| && rest[q].TriggerLine? && Auto(rest[q].marker) ==>
                 line.entry.seqNo < rest[q].marker.fire.seqNo
    ensures WellPlaced([line] + rest)
  {}

  lemma {:induction false} WeaveWrites(es: seq<Entry>, ms: seq<Marker>, m: Marker)
    requires forall i :: 0 <= i < |ms| ==> ms[i].fire.seqNo <= LastOf(es)
    requires es != []
    ensures Writes(Weave(es, ms), m) <==> Has(ms, m)
    decreases |es| + |ms|
  {
    var lines := Weave(es, ms);
    if Writes(lines, m) {
      var p :| 0 <= p < |lines| && lines[p] == TriggerLine(m);
      WeaveMembers(es, ms, p);
    }
    if ms == [] {
    } else if ms[0].fire.seqNo <= es[0].seqNo {
      WeaveWrites(es, ms[1..], m);
      HeldCons(ms, m);
      WritesCons(lines[0], Weave(es, ms[1..]), m);
    } else {
      WeaveWrites(es[1..], ms, m);
      WritesCons(lines[0], Weave(es[1..], ms), m);
    }
  }

  lemma WritesCons(line: Line, rest: seq<Line>, m: Marker)
    ensures Writes([line] + rest, m) <==> line == TriggerLine(m) || Writes(rest, m)
  {
    var t := [line] + rest;
    assert t[0] == line;
    assert forall p :: 0 <= p < |rest| ==> t[p + 1] == rest[p];
    if Writes(t, m) && line != TriggerLine(m) {
      var p :| 0 <= p < |t| && t[p] == TriggerLine(m);
      assert rest[p - 1] == TriggerLine(m);
    }
  }

  /** The markers of conditions still to be sent when the cursor is here all fit the list the agent keeps. */
  ghost predicate Fits(s: State, cursor: nat) {
    forall i :: 0 <= i < |s.history| - MAX_MARKERS && Auto(s.history[i]) ==> s.history[i].fire.seqNo <= cursor
  }

  /** How many markers were armed from the first one of a condition still to be sent. */
  function Unsent(ms: seq<Marker>, cursor: nat): nat {
    if ms == [] then 0
    else if Auto(ms[0]) && ms[0].fire.seqNo > cursor then |ms|
    else Unsent(ms[1..], cursor)
  }

  /** They fit exactly when at most 64 were armed since. */
  lemma FitsIffFewUnsent(s: State, cursor: nat)
    ensures Fits(s, cursor) <==> Unsent(s.history, cursor) <= MAX_MARKERS
  {
    UnsentFrom(s.history, cursor);
  }

  lemma {:induction false} UnsentFrom(ms: seq<Marker>, cursor: nat)
    ensures var u := Unsent(ms, cursor);
            && u <= |ms|
            && (forall i :: 0 <= i < |ms| - u && Auto(ms[i]) ==> ms[i].fire.seqNo <= cursor)
            && (0 < u ==> Auto(ms[|ms| - u]) && ms[|ms| - u].fire.seqNo > cursor)
  {
    if ms != [] && !(Auto(ms[0]) && ms[0].fire.seqNo > cursor) {
      UnsentFrom(ms[1..], cursor);
      var u := Unsent(ms, cursor);
      forall i | 0 <= i < |ms| - u && Auto(ms[i]) ensures ms[i].fire.seqNo <= cursor {
        assert i == 0 || ms[1..][i - 1] == ms[i];
      }
    }
  }

  /**
   What a reply carries: markers of this life, from its own range of numbers, well
   placed; all of them when they fit.
  */
  ghost predicate Carried(s: State, cursor: nat, lines: seq<Line>, all: bool) {
    && WellPlaced(lines)
    && (forall p :: 0 <= p < |lines| && lines[p].TriggerLine? ==>
                      && Has(s.history, lines[p].marker)
                      && cursor < lines[p].marker.fire.seqNo <= LastOf(Samples(lines)))
    && (all ==>
          forall i :: 0 <= i < |s.history| && Auto(s.history[i])
                      && cursor < s.history[i].fire.seqNo <= LastOf(Samples(lines)) ==>
                              Writes(lines, s.history[i]))
  }

  lemma ReadMarkersCarries(s: State, cursor: nat, batch: seq<Entry>)
    requires (forall i :: 0 <= i < |s.history| ==> s.history[i].id == i + 1) && Ordered(s.history) && Numbered(batch)
    ensures Carried(s, cursor, LinesOf(batch, Kept(s), cursor), Fits(s, cursor))
  {
    var lines := LinesOf(batch, Kept(s), cursor);
    if batch != [] {
      var ms := InRange(Kept(s), cursor, LastOf(batch));
      HistoryIsRanked(s);
      RangeIsRanked(Kept(s), cursor, LastOf(batch));
      WeaveIsWellPlaced(batch, ms);
      WeaveKeepsSamples(batch, ms);
      forall p | 0 <= p < |lines| && lines[p].TriggerLine?
        ensures Has(s.history, lines[p].marker) && cursor < lines[p].marker.fire.seqNo <= LastOf(batch)
      {
        WeaveMembers(batch, ms, p);
        var i :| 0 <= i < |ms| && ms[i] == lines[p].marker;
        RangeMember(s, cursor, LastOf(batch), ms[i]);
      }
      forall i | 0 <= i < |ms| ensures ms[i].fire.seqNo <= LastOf(batch) {
        RangeMember(s, cursor, LastOf(batch), ms[i]);
      }
      forall i | Fits(s, cursor) && 0 <= i < |s.history| && Auto(s.history[i])
        && cursor < s.history[i].fire.seqNo <= LastOf(batch)
        ensures Writes(lines, s.history[i])
      {
        KeptHolds(s, i);
        RangeIsFilter(Kept(s), cursor, LastOf(batch), s.history[i]);
        WeaveWrites(batch, ms, s.history[i]);
      }
    }
  }

  lemma RangeMember(s: State, after: nat, upTo: nat, m: Marker)
    requires Has(InRange(Kept(s), after, upTo), m)
    ensures Has(s.history, m) && after < m.fire.seqNo <= upTo
  {
    RangeIsFilter(Kept(s), after, upTo, m);
    var k :| 0 <= k < |Kept(s)| && Kept(s)[k] == m;
    assert s.history[|s.history| - |Kept(s)| + k] == m;
  }

  lemma KeptHolds(s: State, i: nat)
    requires i < |s.history| && |s.history| - MAX_MARKERS <= i
    ensures Has(Kept(s), s.history[i])
  {
    assert Kept(s)[i - (|s.history| - |Kept(s)|)] == s.history[i];
  }

  /**
   The 64 markers kept are enough for a range exactly when no marker of the
   range is older than the 64 newest.
  */
  lemma RangeCompleteIff(s: State, after: nat, upTo: nat)
    requires forall i :: 0 <= i < |s.history| ==> s.history[i].id == i + 1
    ensures (forall i :: 0 <= i < |s.history| && after < s.history[i].fire.seqNo <= upTo ==>
               Has(InRange(Kept(s), after, upTo), s.history[i]))
       <==> (forall i :: 0 <= i < |s.history| - MAX_MARKERS ==> !(after < s.history[i].fire.seqNo <= upTo))
  {
    var d := |s.history| - |Kept(s)|;
    assert forall k :: 0 <= k < |Kept(s)| ==> Kept(s)[k] == s.history[d + k];
    forall i | 0 <= i < |s.history|
      ensures Has(InRange(Kept(s), after, upTo), s.history[i]) <==> d <= i && after < s.history[i].fire.seqNo <= upTo
    {
      RangeIsFilter(Kept(s), after, upTo, s.history[i]);
      if d <= i { assert Kept(s)[i - d] == s.history[i]; }
    }
  }

  // ---- the markers the sinks received

  ghost predicate Received(ev: seq<Event>, m: Marker) {
    exists i :: 0 <= i < |ev| && ev[i] == TriggerEvent(m)
  }

  /**
   Every marker received is of this life, from a number the cursor passed; none came twice; a condition's came before
   every sample at or above its number.
  */
  ghost predicate Annotated(s: State, c0: nat, cursor: nat, ev: seq<Event>) {
    && (forall i :: 0 <= i < |ev| && ev[i].TriggerEvent? ==>
                      Has(s.history, ev[i].marker) && c0 < ev[i].marker.fire.seqNo <= cursor)
    && (forall i, j :: 0 <= i < j < |ev| && ev[i].TriggerEvent? && ev[j].TriggerEvent? ==> ev[i].marker != ev[j].marker)
    && (forall i, j :: 0 <= i < j < |ev| && ev[i].KernelEvent? && ev[j].TriggerEvent? && Auto(ev[j].marker) ==>
                         ev[i].entry.seqNo < ev[j].marker.fire.seqNo)
  }

  /** Every marker of a condition, from a number the cursor passed, was received. */
  ghost predicate Complete(s: State, c0: nat, cursor: nat, ev: seq<Event>) {
    forall i :: 0 <= i < |s.history| && Auto(s.history[i]) && c0 < s.history[i].fire.seqNo <= cursor ==>
      Received(ev, s.history[i])
  }

  lemma DeliverAnnotates(s: State, c0: nat, cursor: nat, ev: seq<Event>, gap: seq<Event>, lines: seq<Line>, all: bool)
    requires Annotated(s, c0, cursor, ev) && c0 <= cursor && Carried(s, cursor, lines, all)
    requires forall i :: 0 <= i < |ev| && ev[i].KernelEvent? ==> ev[i].entry.seqNo <= cursor
    requires forall i :: 0 <= i < |gap| ==> gap[i].GapEvent?
    requires Samples(lines) != [] ==> cursor <= LastOf(Samples(lines))
    ensures Annotated(s, c0, CursorAfter(cursor, lines), ev + gap + EventsOf(lines))
  {
    var t, k := ev + gap + EventsOf(lines), |ev| + |gap|;
    EventsAreLines(lines);
    JoinParts(ev, gap, EventsOf(lines));
    NoMarkersWithoutSamples(s, cursor, lines, all);
    PartsAreJoined(s, c0, cursor, ev, gap, lines, t, k);
    AnnotatedRange(s, c0, cursor, t, lines, k);
    AnnotatedOnce(s, c0, cursor, t, lines, k);
    AnnotatedPlaces(s, c0, cursor, t, lines, k);
  }

  lemma JoinParts(a: seq<Event>, b: seq<Event>, c: seq<Event>)
    ensures var t := a + b + c;
            && (forall i :: 0 <= i < |a| ==> t[i] == a[i])
            && (forall i :: |a| <= i < |a| + |b| ==> t[i] == b[i - |a|])
            && (forall i :: |a| + |b| <= i < |t| ==> t[i] == c[i - |a| - |b|])
  {}

  lemma PartsAreJoined(s: State, c0: nat, cursor: nat, ev: seq<Event>, gap: seq<Event>, lines: seq<Line>, t: seq<Event>,
                       k: nat)
    requires Annotated(s, c0, cursor, ev) && k == |ev| + |gap| && |t| == k + |lines|
    requires forall i :: 0 <= i < |ev| && ev[i].KernelEvent? ==> ev[i].entry.seqNo <= cursor
    requires forall i :: 0 <= i < |gap| ==> gap[i].GapEvent?
    requires forall i :: 0 <= i < |ev| ==> t[i] == ev[i]
    requires forall i :: |ev| <= i < k ==> t[i] == gap[i - |ev|]
    requires forall i :: k <= i < |t| ==> t[i] == EventOf(lines[i - k])
    requires forall p :: 0 <= p < |lines| && lines[p].TriggerLine? ==>
                           Has(s.history, lines[p].marker)
                             && cursor < lines[p].marker.fire.seqNo <= CursorAfter(cursor, lines)
    ensures Joined(s, c0, cursor, t, lines, k)
    ensures forall i, j :: 0 <= i < j < k && t[i].TriggerEvent? && t[j].TriggerEvent? ==> t[i].marker != t[j].marker
    ensures forall i, j :: 0 <= i < j < k && t[i].KernelEvent? && t[j].TriggerEvent? && Auto(t[j].marker) ==>
                             t[i].entry.seqNo < t[j].marker.fire.seqNo
  {}

  lemma NoMarkersWithoutSamples(s: State, cursor: nat, lines: seq<Line>, all: bool)
    requires Carried(s, cursor, lines, all)
    ensures Samples(lines) == [] ==> forall p :: 0 <= p < |lines| ==> !lines[p].TriggerLine?
  {}

  /** Events up to k are old ones or gaps; from k on they are the lines of the reply. */
  ghost predicate Joined(s: State, c0: nat, cursor: nat, t: seq<Event>, lines: seq<Line>, k: nat) {
    && k + |lines| == |t|
    && (forall i :: 0 <= i < k && t[i].TriggerEvent? ==>
         Has(s.history, t[i].marker) && c0 < t[i].marker.fire.seqNo <= cursor)
    && (forall i :: 0 <= i < k && t[i].KernelEvent? ==> t[i].entry.seqNo <= cursor)
    && (forall i :: k <= i < |t| ==> t[i] == EventOf(lines[i - k]))
    && (forall p :: 0 <= p < |lines| && lines[p].TriggerLine? ==>
                      Has(s.history, lines[p].marker)
                        && cursor < lines[p].marker.fire.seqNo <= CursorAfter(cursor, lines))
  }

  lemma AnnotatedRange(s: State, c0: nat, cursor: nat, t: seq<Event>, lines: seq<Line>, k: nat)
    requires Joined(s, c0, cursor, t, lines, k) && c0 <= cursor <= CursorAfter(cursor, lines)
    ensures forall i :: 0 <= i < |t| && t[i].TriggerEvent? ==>
                          Has(s.history, t[i].marker) && c0 < t[i].marker.fire.seqNo <= CursorAfter(cursor, lines)
  {}

  lemma AnnotatedOnce(s: State, c0: nat, cursor: nat, t: seq<Event>, lines: seq<Line>, k: nat)
    requires Joined(s, c0, cursor, t, lines, k) && WellPlaced(lines)
    requires forall i, j :: 0 <= i < j < k && t[i].TriggerEvent? && t[j].TriggerEvent? ==> t[i].marker != t[j].marker
    ensures forall i, j :: 0 <= i < j < |t| && t[i].TriggerEvent? && t[j].TriggerEvent? ==> t[i].marker != t[j].marker
  {}

  lemma AnnotatedPlaces(s: State, c0: nat, cursor: nat, t: seq<Event>, lines: seq<Line>, k: nat)
    requires Joined(s, c0, cursor, t, lines, k) && WellPlaced(lines)
    requires forall i, j :: 0 <= i < j < k && t[i].KernelEvent? && t[j].TriggerEvent? && Auto(t[j].marker) ==>
                              t[i].entry.seqNo < t[j].marker.fire.seqNo
    ensures forall i, j :: 0 <= i < j < |t| && t[i].KernelEvent? && t[j].TriggerEvent? && Auto(t[j].marker) ==>
                             t[i].entry.seqNo < t[j].marker.fire.seqNo
  {}

  lemma DeliverCompletes(s: State, c0: nat, cursor: nat, ev: seq<Event>, gap: seq<Event>, lines: seq<Line>)
    requires Complete(s, c0, cursor, ev) && Carried(s, cursor, lines, true)
    ensures Complete(s, c0, CursorAfter(cursor, lines), ev + gap + EventsOf(lines))
  {
    EventsAreLines(lines);
    var t := ev + gap + EventsOf(lines);
    var k := |ev| + |gap|;
    forall i | 0 <= i < |s.history| && Auto(s.history[i]) && c0 < s.history[i].fire.seqNo <= CursorAfter(cursor, lines)
      ensures Received(t, s.history[i])
    {
      var m := s.history[i];
      if m.fire.seqNo <= cursor {
        var j :| 0 <= j < |ev| && ev[j] == TriggerEvent(m);
        assert t[j] == TriggerEvent(m);
      } else {
        var p :| 0 <= p < |lines| && lines[p] == TriggerLine(m);
        assert t[k + p] == TriggerEvent(m);
      }
    }
  }

  /** A later fire changes nothing of what was carried or received; a condition's is numbered above all of it. */
  lemma ArmKeeps(s: State, t: State, m: Marker, c0: nat, cursor: nat, ev: seq<Event>, lines: seq<Line>, all: bool)
    requires t.history == s.history + [m]
    requires Auto(m) ==> cursor < m.fire.seqNo && LastOf(Samples(lines)) < m.fire.seqNo
    ensures Carried(s, cursor, lines, all) ==> Carried(t, cursor, lines, all)
    ensures Annotated(s, c0, cursor, ev) ==> Annotated(t, c0, cursor, ev)
    ensures Complete(s, c0, cursor, ev) ==> Complete(t, c0, cursor, ev)
  {
    forall x ensures Has(s.history, x) ==> Has(t.history, x) {
      if Has(s.history, x) {
        var i :| 0 <= i < |s.history| && s.history[i] == x;
        assert t.history[i] == x;
      }
    }
  }
}

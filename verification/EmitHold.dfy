/**
 Emit-on-change with a heartbeat (internal/agent/discovered.go), and the
 receiver that holds the last reading it was sent (internal/expo/expo.go). One
 source is a filter over its readings; the theorems compose the filter with the
 hold: the receiver knows the last reading although only changes travel, and a
 lost sample is made good within one heartbeat.
*/
module EmitSpec {
  import opened Words

  /**
   every: read one tick in so many; heartbeat: re-emit after so many ticks; all: the
   override that emits every read.
  */
  datatype Cadence = Cadence(every: int, heartbeat: nat, all: bool)

  /** What the filter remembers: the last value emitted, and when. */
  datatype Filter<V> = Filter(last: V, lastTick: nat)

  predicate Due(every: int, tick: nat) {
    every <= 1 || tick % every == 0
  }

  predicate Passes<V(==)>(f: Filter<V>, v: V, tick: nat, c: Cadence) {
    c.all || v != f.last || tick - f.lastTick >= c.heartbeat
  }

  /** One tick: a reading (None when the file could not be read) is emitted or not. */
  function Feed<V(==)>(f: Filter<V>, v: Option<V>, tick: nat, c: Cadence): (Filter<V>, Option<V>) {
    if Due(c.every, tick) && v.Some? && Passes(f, v.value, tick, c) then (Filter(v.value, tick), v) else (f, None)
  }

  /** A source's life: its readings from tick t0 + 1 on, with the filter it starts from. */
  function StateAt<V(==)>(rs: seq<Option<V>>, f0: Filter<V>, t0: nat, c: Cadence): Filter<V> {
    if rs == [] then f0 else Feed(StateAt(rs[..|rs| - 1], f0, t0, c), rs[|rs| - 1], t0 + |rs|, c).0
  }

  function SentAt<V(==)>(rs: seq<Option<V>>, f0: Filter<V>, t0: nat, c: Cadence, i: nat): Option<V>
    requires i < |rs|
  {
    Feed(StateAt(rs[..i], f0, t0, c), rs[i], t0 + i + 1, c).1
  }

  /** What the source last read, on the ticks it was due. */
  function LastRead<V>(rs: seq<Option<V>>, t0: nat, every: int, none: V): V {
    if rs == [] then none
    else if Due(every, t0 + |rs|) && rs[|rs| - 1].Some? then rs[|rs| - 1].value
    else LastRead(rs[..|rs| - 1], t0, every, none)
  }

  /** The same, passing over empty readings. */
  function LastKnown<V(==)>(rs: seq<Option<V>>, t0: nat, every: int, none: V): V {
    if rs == [] then none
    else if Due(every, t0 + |rs|) && rs[|rs| - 1].Some? && rs[|rs| - 1].value != none then rs[|rs| - 1].value
    else LastKnown(rs[..|rs| - 1], t0, every, none)
  }

  /** The receiver after one sample: an empty field keeps the last one that was not. */
  function Hold<V(==)>(held: V, field: V, none: V): V {
    if field == none then held else field
  }

  /** A sample that carries nothing of this source has an empty field. */
  function Field<V>(sent: Option<V>, none: V): V {
    if sent.Some? then sent.value else none
  }

  /** What the receiver holds, given which samples reached it. */
  function HeldAt<V(==)>(rs: seq<Option<V>>, f0: Filter<V>, t0: nat, c: Cadence, got: seq<bool>, none: V): V
    requires |got| == |rs|
  {
    if rs == [] then none
    else
      var n := |rs| - 1;
      var before := HeldAt(rs[..n], f0, t0, c, got[..n], none);
      if got[n] then Hold(before, Field(SentAt(rs, f0, t0, c, n), none), none) else before
  }

  ghost predicate NoneLost(got: seq<bool>, from: nat) {
    forall i :: from <= i < |got| ==> got[i]
  }

  /** Every reading taken on a due tick from sample i on has something in it. */
  ghost predicate FullFrom<V>(rs: seq<Option<V>>, t0: nat, every: int, none: V, i: nat) {
    forall k :: i <= k < |rs| && Due(every, t0 + k + 1) ==> rs[k].Some? && rs[k].value != none
  }

  /** The longest a source stays silent, in ticks. */
  function Silence(c: Cadence): nat {
    Max(c.heartbeat, 1) + Max(c.every, 1) - 1
  }

  // ---- the filter remembers what was read, whether or not it was sent

  /** Filtering is invisible to the filter itself: what it remembers is the last reading. */
  lemma {:induction false} FilterKnowsLastRead<V>(rs: seq<Option<V>>, none: V, t0: nat, c: Cadence)
    ensures StateAt(rs, Filter(none, 0), t0, c).last == LastRead(rs, t0, c.every, none)
  {
    if rs != [] { FilterKnowsLastRead(rs[..|rs| - 1], none, t0, c); }
  }

  lemma {:induction false} KnownIsRead<V>(rs: seq<Option<V>>, t0: nat, every: int, none: V)
    requires LastRead(rs, t0, every, none) != none
    ensures LastKnown(rs, t0, every, none) == LastRead(rs, t0, every, none)
  {
    if !(Due(every, t0 + |rs|) && rs[|rs| - 1].Some?) { KnownIsRead(rs[..|rs| - 1], t0, every, none); }
  }

  /** With nothing lost, the receiver holds the last reading that was not empty. */
  lemma {:induction false} HoldReconstructs<V>(rs: seq<Option<V>>, none: V, t0: nat, c: Cadence, got: seq<bool>)
    requires |got| == |rs| && NoneLost(got, 0)
    ensures HeldAt(rs, Filter(none, 0), t0, c, got, none) == LastKnown(rs, t0, c.every, none)
  {
    if rs != [] {
      var n := |rs| - 1;
      var p := rs[..n];
      HoldReconstructs(p, none, t0, c, got[..n]);
      FilterKnowsLastRead(p, none, t0, c);
      if LastRead(p, t0, c.every, none) != none {
        KnownIsRead(p, t0, c.every, none);
      }
    }
  }

  /** With nothing lost, the receiver is right exactly when the last reading was not empty, or none ever was. */
  lemma HoldIsRightIff<V>(rs: seq<Option<V>>, none: V, t0: nat, c: Cadence, got: seq<bool>)
    requires |got| == |rs| && NoneLost(got, 0)
    ensures var held, read := HeldAt(rs, Filter(none, 0), t0, c, got, none), LastRead(rs, t0, c.every, none);
            held == read <==> read != none || LastKnown(rs, t0, c.every, none) == none
  {
    HoldReconstructs(rs, none, t0, c, got);
    if LastRead(rs, t0, c.every, none) != none { KnownIsRead(rs, t0, c.every, none); }
  }

  /** A full reading and then an empty one: both are sent and arrive, and the receiver still holds the first. */
  lemma EmptyIsNotHeld<V>(v: V, none: V, heartbeat: nat)
    requires v != none
    ensures var rs, c := [Some(v), Some(none)], Cadence(1, heartbeat, false);
            && SentAt(rs, Filter(none, 0), 0, c, 0) == Some(v) && SentAt(rs, Filter(none, 0), 0, c, 1) == Some(none)
            && HeldAt(rs, Filter(none, 0), 0, c, [true, true], none) == v
            && LastRead(rs, 0, 1, none) == none
  {
    var rs, c := [Some(v), Some(none)], Cadence(1, heartbeat, false);
    assert rs[..0] == [] && rs[..1] == [Some(v)] && [Some(v)][..0] == [];
    HoldReconstructs(rs, none, 0, c, [true, true]);
    assert LastKnown(rs[..1], 0, 1, none) == v;
  }

  // ---- how long a source can be silent

  lemma {:induction false} LastTickBefore<V>(rs: seq<Option<V>>, f0: Filter<V>, t0: nat, c: Cadence)
    requires f0.lastTick <= t0
    ensures StateAt(rs, f0, t0, c).lastTick <= t0 + |rs|
  {
    if rs != [] { LastTickBefore(rs[..|rs| - 1], f0, t0, c); }
  }

  /** While nothing is sent, the filter does not move. */
  lemma {:induction false} SilenceKeepsFilter<V>(rs: seq<Option<V>>, f0: Filter<V>, t0: nat, c: Cadence, i: nat)
    requires i <= |rs|
    requires forall k :: i <= k < |rs| ==> SentAt(rs, f0, t0, c, k).None?
    ensures StateAt(rs, f0, t0, c) == StateAt(rs[..i], f0, t0, c)
  {
    if i < |rs| {
      var n := |rs| - 1;
      var p := rs[..n];
      forall k | i <= k < n ensures SentAt(p, f0, t0, c, k).None? {
        assert p[..k] == rs[..k];
        assert SentAt(rs, f0, t0, c, k).None?;
      }
      SilenceKeepsFilter(p, f0, t0, c, i);
      assert p[..i] == rs[..i];
      assert SentAt(rs, f0, t0, c, n).None?;
    } else {
      assert rs[..i] == rs;
    }
  }

  lemma MultipleOf(q: nat, m: nat)
    requires m > 0
    ensures q * m % m == 0
  {
    var q', r := q * m / m, q * m % m;
    var d := q - q';
    assert q' * m + r == q * m;
    assert d * m == q * m - q' * m;
    if d >= 1 { ScaleMonotone(1, d, m); }
    if d <= -1 { ScaleMonotone(1, -d, m); }
  }

  /** Of any so many ticks in a row one is due, and no other. */
  lemma DueOnce(every: int, t: nat) returns (d: nat)
    ensures t <= d < t + Max(every, 1)
    ensures forall u: nat :: t <= u < t + Max(every, 1) ==> (Due(every, u) <==> u == d)
    ensures every > 1 ==> d % every == 0
  {
    d := DueSoon(every, t);
    forall u: nat | t <= u < t + Max(every, 1) && Due(every, u) ensures u == d {
      if every > 1 && u != d { NoneBetween(every, Min(u, d), Max(u, d)); }
    }
  }

  lemma NoneBetween(every: int, a: nat, b: nat)
    requires every > 1 && a < b && a % every == 0 && b % every == 0
    ensures b - a >= every
  {
    var m, n := a / every, b / every;
    assert a == m * every && b == n * every;
    if n <= m { Times(n, m, every); } else { Times(m + 1, n, every); }
  }

  lemma {:induction false} Times(m: int, n: int, k: int)
    requires m <= n && 0 < k
    ensures m * k <= n * k
  {
    assert (n - m) * k >= 0;
  }


  /** A tick on which the source is due, among any `every` consecutive ticks. */
  lemma DueSoon(every: int, t: nat) returns (d: nat)
    ensures Due(every, d) && t <= d < t + Max(every, 1)
  {
    if every <= 1 || t % every == 0 {
      d := t;
    } else {
      d := t + (every - t % every);
      assert d == (t / every + 1) * every;
      MultipleOf(t / every + 1, every);
    }
  }

  /** In any stretch as long as the heartbeat plus the cadence less one, something is sent. */
  lemma NeverSilentLonger<V>(rs: seq<Option<V>>, f0: Filter<V>, t0: nat, c: Cadence, i: nat)
    requires f0.lastTick <= t0 && i + Silence(c) <= |rs|
    requires forall k :: i <= k < i + Silence(c) && Due(c.every, t0 + k + 1) ==> rs[k].Some?
    ensures exists k :: i <= k < i + Silence(c) && SentAt(rs, f0, t0, c, k).Some?
  {
    var d := DueSoon(c.every, t0 + i + Max(c.heartbeat, 1));
    var k := d - t0 - 1;
    LastTickBefore(rs[..i], f0, t0, c);
    if forall j :: i <= j < k ==> SentAt(rs, f0, t0, c, j).None? {
      var p := rs[..k];
      forall j | i <= j < k ensures SentAt(p, f0, t0, c, j).None? {
        assert p[..j] == rs[..j];
        assert SentAt(rs, f0, t0, c, j).None?;
      }
      SilenceKeepsFilter(p, f0, t0, c, i);
      assert p[..i] == rs[..i];
      assert SentAt(rs, f0, t0, c, k).Some?;
    }
  }

  // ---- exactly what is sent

  lemma StateSteps<V>(rs: seq<Option<V>>, f0: Filter<V>, t0: nat, c: Cadence, i: nat)
    requires i < |rs|
    ensures StateAt(rs[..i + 1], f0, t0, c) == Feed(StateAt(rs[..i], f0, t0, c), rs[i], t0 + i + 1, c).0
  {
    assert rs[..i + 1][..i] == rs[..i];
  }

  /** Nothing was sent on the ticks from..to. */
  ghost predicate Silent<V>(rs: seq<Option<V>>, f0: Filter<V>, t0: nat, c: Cadence, from: int, to: nat)
    requires to <= |rs|
  {
    forall k :: 0 <= k && from <= k < to ==> SentAt(rs, f0, t0, c, k).None?
  }

  /** The filter dates from the last tick on which something was sent, or from the start. */
  lemma {:induction false} LastTickIs<V>(rs: seq<Option<V>>, f0: Filter<V>, t0: nat, c: Cadence, i: nat)
    returns (k: nat)
    requires i <= |rs|
    ensures k <= i && Silent(rs, f0, t0, c, k, i)
    ensures 0 < k ==> SentAt(rs, f0, t0, c, k - 1).Some?
    ensures StateAt(rs[..i], f0, t0, c).lastTick == if k == 0 then f0.lastTick else t0 + k
  {
    if i == 0 {
      assert rs[..0] == [];
      k := 0;
    } else {
      StateSteps(rs, f0, t0, c, i - 1);
      if SentAt(rs, f0, t0, c, i - 1).Some? { k := i; } else { k := LastTickIs(rs, f0, t0, c, i - 1); }
    }
  }

  /**
   Exactly what travels, from a source that has sent nothing yet and without the
   override: a reading on a due tick, when it differs from the one before it, or
   when nothing was sent on the ticks of one heartbeat less one before it; at the
   start, when the source has ticked for a heartbeat.
  */
  lemma SentIff<V>(rs: seq<Option<V>>, none: V, t0: nat, c: Cadence, i: nat)
    requires i < |rs| && !c.all
    ensures var f0 := Filter(none, 0);
            SentAt(rs, f0, t0, c, i).Some? <==>
              && (c.every <= 1 || (t0 + i + 1) % c.every == 0)
              && rs[i].Some?
              && (|| rs[i].value != LastRead(rs[..i], t0, c.every, none)
                  || (if Silent(rs, f0, t0, c, 0, i) then t0 + i + 1 >= c.heartbeat
                      else Silent(rs, f0, t0, c, i - c.heartbeat + 1, i)))
    ensures SentAt(rs, Filter(none, 0), t0, c, i).Some? ==> SentAt(rs, Filter(none, 0), t0, c, i) == rs[i]
  {
    var f0 := Filter(none, 0);
    FilterKnowsLastRead(rs[..i], none, t0, c);
    var k := LastTickIs(rs, f0, t0, c, i);
    if 0 < k {
      assert !Silent(rs, f0, t0, c, 0, i);
      assert Silent(rs, f0, t0, c, i - c.heartbeat + 1, i) <==> k - 1 < i - c.heartbeat + 1;
    }
  }

  /** With the override every reading on a due tick travels. */
  lemma OverrideSendsAll<V>(rs: seq<Option<V>>, f0: Filter<V>, t0: nat, c: Cadence, i: nat)
    requires i < |rs| && c.all
    ensures SentAt(rs, f0, t0, c, i) == if c.every <= 1 || (t0 + i + 1) % c.every == 0 then rs[i] else None
  {}

  // ---- making good a loss

  /** Once the receiver agrees with the filter, it goes on agreeing until a sample is lost. */
  lemma {:induction false} AgreementLasts<V>(
      rs: seq<Option<V>>, f0: Filter<V>, t0: nat, c: Cadence, got: seq<bool>, none: V, k: nat)
    requires |got| == |rs| && k < |rs| && NoneLost(got, k) && FullFrom(rs, t0, c.every, none, k)
    requires SentAt(rs, f0, t0, c, k).Some?
    ensures HeldAt(rs, f0, t0, c, got, none) == StateAt(rs, f0, t0, c).last
  {
    var n := |rs| - 1;
    assert Due(c.every, t0 + n + 1) ==> rs[n].Some? && rs[n].value != none;
    if k < n {
      var p := rs[..n];
      assert p[..k] == rs[..k];
      AgreementLasts(p, f0, t0, c, got[..n], none, k);
    }
  }

  /**
   Whatever was lost, empty or unreadable before sample i, once a silence's worth of samples with full
   readings has arrived after it the receiver holds what the source last read.
  */
  lemma LossIsMadeGood<V>(rs: seq<Option<V>>, none: V, t0: nat, c: Cadence, got: seq<bool>, i: nat)
    requires |got| == |rs| && NoneLost(got, i) && FullFrom(rs, t0, c.every, none, i)
    requires i + Silence(c) <= |rs|
    ensures HeldAt(rs, Filter(none, 0), t0, c, got, none) == LastRead(rs, t0, c.every, none)
  {
    NeverSilentLonger(rs, Filter(none, 0), t0, c, i);
    var k :| i <= k < i + Silence(c) && SentAt(rs, Filter(none, 0), t0, c, k).Some?;
    AgreementLasts(rs, Filter(none, 0), t0, c, got, none, k);
    FilterKnowsLastRead(rs, none, t0, c);
  }

  // ---- equal maps

  lemma SameSizeSubset<T>(a: set<T>, b: set<T>)
    requires a <= b && |a| == |b|
    ensures a == b
  {
    assert |b - a| == |b| - |a|;
    assert b == a + (b - a);
  }
}

module Discovered {
  import opened Words
  import opened EmitSpec

  const SLAB_FLOOR_HZ: int := 6
  const HEARTBEAT_SECOND: nat := 60

  datatype Zone = Zone(node: int, zone: string, free: seq<nat>)

  /** What one tick's sample carries of the three change-filtered sources; an empty field was not sent. */
  datatype Fields = Fields(freqKHz: seq<nat>, slab: map<string, nat>, buddy: seq<Zone>)

  method EqualUints(a: seq<nat>, b: seq<nat>) returns (r: bool)
    ensures r <==> a == b
  {
    if |a| != |b| { return false; }
    for i := 0 to |a|
      invariant a[..i] == b[..i]
    {
      if a[i] != b[i] { return false; }
    }
    assert a == a[..|a|] && b == b[..|b|];
    return true;
  }

  method EqualBuddy(a: seq<Zone>, b: seq<Zone>) returns (r: bool)
    ensures r <==> a == b
  {
    if |a| != |b| { return false; }
    for i := 0 to |a|
      invariant a[..i] == b[..i]
    {
      var same := EqualUints(a[i].free, b[i].free);
      if a[i].node != b[i].node || a[i].zone != b[i].zone || !same { return false; }
    }
    assert a == a[..|a|] && b == b[..|b|];
    return true;
  }

  /** Sizes are compared, and then one map's entries are looked up in the other: enough for equality. */
  method EqualSlab(a: map<string, nat>, b: map<string, nat>) returns (r: bool)
    ensures r <==> a == b
  {
    if |a| != |b| { return false; }
    var keys := a.Keys;
    while keys != {}
      invariant keys <= a.Keys
      invariant forall k :: k in a.Keys - keys ==> k in b && a[k] == b[k]
      decreases keys
    {
      var k :| k in keys;
      if k !in b || a[k] != b[k] { return false; }
      keys := keys - {k};
    }
    assert a.Keys <= b.Keys;
    SameSizeSubset(a.Keys, b.Keys);
    return true;
  }

  /** Half the divisor added before dividing rounds to the nearest. */
  lemma Rounded(a: int, b: int)
    requires 0 < a && 0 < b
    ensures var q := (a + b / 2) / b; 0 - b <= 2 * (q * b - a) <= b && (b >= a ==> q <= 1)
  {
    var q, r := (a + b / 2) / b, (a + b / 2) % b;
    assert q * b + r == a + b / 2;
    if b >= a && q > 1 { ScaleMonotone(2, q, b); }
  }

  /** The part of the agent's source that decides what travels. */
  class ProcSource {
    var tick: nat
    var heartbeat: nat
    var slabEvery: int
    var emitAll: bool
    var lastFreqEmit: seq<nat>
    var lastFreqTick: nat
    var lastSlabEmit: map<string, nat>
    var lastSlabTick: nat
    var lastBuddy: seq<Zone>
    var lastBuddyTck: nat

    function Freq(): Filter<seq<nat>>
      reads this
    { Filter(lastFreqEmit, lastFreqTick) }

    function Slab(): Filter<map<string, nat>>
      reads this
    { Filter(lastSlabEmit, lastSlabTick) }

    function Buddy(): Filter<seq<Zone>>
      reads this
    { Filter(lastBuddy, lastBuddyTck) }

    function EveryTick(): Cadence
      reads this
    { Cadence(1, heartbeat, emitAll) }

    function SlabTicks(): Cadence
      reads this
    { Cadence(slabEvery, heartbeat, emitAll) }

    /** No source remembers a tick still to come. */
    predicate Valid()
      reads this
    {
      lastFreqTick <= tick && lastSlabTick <= tick && lastBuddyTck <= tick
    }

    constructor ()
      ensures Valid() && Freq() == Filter([], 0) && Slab() == Filter(map[], 0) && Buddy() == Filter([], 0)
      ensures tick == 0 && heartbeat == 0 && slabEvery == 0 && !emitAll
    {
      tick, heartbeat, slabEvery, emitAll := 0, 0, 0, false;
      lastFreqEmit, lastSlabEmit, lastBuddy := [], map[], [];
      lastFreqTick, lastSlabTick, lastBuddyTck := 0, 0, 0;
    }

    /** Forget what was sent, so that the next read sends everything it finds. */
    method ReArm()
      requires Valid()
      modifies `lastFreqEmit, `lastFreqTick, `lastSlabEmit, `lastSlabTick, `lastBuddy, `lastBuddyTck
      ensures Valid() && Freq() == Filter([], 0) && Slab() == Filter(map[], 0) && Buddy() == Filter([], 0)
    {
      lastFreqEmit, lastSlabEmit, lastBuddy := [], map[], [];
      lastFreqTick, lastSlabTick, lastBuddyTck := 0, 0, 0;
    }

    /** Cadences for a sampler rate: a heartbeat a minute, and slabs at their own floor. */
    method SetFloors(rateHz: int)
      requires Valid()
      modifies `heartbeat, `slabEvery, `emitAll
      ensures Valid() && !emitAll && slabEvery >= 1
      ensures heartbeat == Max(rateHz, 1) * HEARTBEAT_SECOND
      ensures slabEvery == 1 || 2 * Max(rateHz, 1) - SLAB_FLOOR_HZ < 2 * slabEvery * SLAB_FLOOR_HZ
                                <= 2 * Max(rateHz, 1) + SLAB_FLOOR_HZ
    {
      var rate := if rateHz < 1 then 1 else rateHz;
      emitAll := false;
      var n := (rate as real / SLAB_FLOOR_HZ as real + 0.5).Floor;
      slabEvery := if n < 1 then 1 else n;
      heartbeat := Max(rate * HEARTBEAT_SECOND, 1);
    }

    /** The override: one cadence for everything and no change filter; 0 keeps the floors. */
    method SetFloorOverride(floorHz: int, rateHz: int)
      requires Valid()
      modifies `heartbeat, `slabEvery, `emitAll
      ensures Valid()
      ensures floorHz < 1 ==> unchanged(this)
      ensures floorHz >= 1 ==> emitAll && heartbeat == 1 && slabEvery >= 1
      ensures 1 <= floorHz && slabEvery > 1 ==> -floorHz <= 2 * (slabEvery * floorHz - Max(rateHz, 1)) <= floorHz
      ensures floorHz >= Max(rateHz, 1) ==> slabEvery == 1
    {
      if floorHz < 1 { return; }
      var rate := if rateHz < 1 then 1 else rateHz;
      emitAll := true;
      slabEvery := Max((rate + floorHz / 2) / floorHz, 1);
      heartbeat := 1;
      Rounded(rate, floorHz);
    }

    /** One tick: each source is filtered on its own cadence. */
    method ReadDiscovered(freq: seq<nat>, slabs: map<string, nat>, buddy: Option<seq<Zone>>) returns (dst: Fields)
      requires Valid()
      modifies this
      ensures Valid() && tick == old(tick) + 1
      ensures heartbeat == old(heartbeat) && slabEvery == old(slabEvery) && emitAll == old(emitAll)
      ensures Freq() == Feed(old(Freq()), Some(freq), tick, EveryTick()).0
      ensures dst.freqKHz == Field(Feed(old(Freq()), Some(freq), tick, EveryTick()).1, [])
      ensures Slab() == Feed(old(Slab()), Some(slabs), tick, SlabTicks()).0
      ensures dst.slab == Field(Feed(old(Slab()), Some(slabs), tick, SlabTicks()).1, map[])
      ensures Buddy() == Feed(old(Buddy()), buddy, tick, EveryTick()).0
      ensures dst.buddy == Field(Feed(old(Buddy()), buddy, tick, EveryTick()).1, [])
    {
      tick := tick + 1;
      var f := ReadFreq(freq);
      var s := ReadSlab(slabs);
      var b := ReadBuddy(buddy);
      dst := Fields(f, s, b);
    }

    method ReadFreq(freq: seq<nat>) returns (out: seq<nat>)
      requires Valid()
      modifies `lastFreqEmit, `lastFreqTick
      ensures Valid() && Freq() == Feed(old(Freq()), Some(freq), tick, EveryTick()).0
      ensures out == Field(Feed(old(Freq()), Some(freq), tick, EveryTick()).1, [])
    {
      out := [];
      var same := EqualUints(freq, lastFreqEmit);
      if emitAll || !same || tick - lastFreqTick >= heartbeat {
        out := freq;
        lastFreqEmit, lastFreqTick := freq, tick;
      }
    }

    method ReadSlab(slabs: map<string, nat>) returns (out: map<string, nat>)
      requires Valid()
      modifies `lastSlabEmit, `lastSlabTick
      ensures Valid() && Slab() == Feed(old(Slab()), Some(slabs), tick, SlabTicks()).0
      ensures out == Field(Feed(old(Slab()), Some(slabs), tick, SlabTicks()).1, map[])
    {
      out := map[];
      if Due(slabEvery, tick) {
        var same := EqualSlab(slabs, lastSlabEmit);
        if emitAll || !same || tick - lastSlabTick >= heartbeat {
          out := slabs;
          lastSlabEmit, lastSlabTick := slabs, tick;
        }
      }
    }

    method ReadBuddy(zones: Option<seq<Zone>>) returns (out: seq<Zone>)
      requires Valid()
      modifies `lastBuddy, `lastBuddyTck
      ensures Valid() && Buddy() == Feed(old(Buddy()), zones, tick, EveryTick()).0
      ensures out == Field(Feed(old(Buddy()), zones, tick, EveryTick()).1, [])
    {
      out := [];
      if zones.Some? {
        var same := EqualBuddy(zones.value, lastBuddy);
        if emitAll || !same || tick - lastBuddyTck >= heartbeat {
          out := zones.value;
          lastBuddy, lastBuddyTck := zones.value, tick;
        }
      }
    }
  }

  /** The receiver's last known values. */
  class Totals {
    var heldFreq: seq<nat>
    var heldSlab: map<string, nat>
    var heldBuddy: seq<Zone>
    var last: Fields

    constructor ()
      ensures heldFreq == [] && heldSlab == map[] && heldBuddy == []
      ensures last == Fields([], map[], [])
    {
      heldFreq, heldSlab, heldBuddy := [], map[], [];
      last := Fields([], map[], []);
    }

    /** A sample arrives: an empty field shows the value held, and any other replaces it. */
    method HoldFloored(s: Fields)
      modifies this
      ensures heldFreq == Hold(old(heldFreq), s.freqKHz, [])
      ensures heldSlab == Hold(old(heldSlab), s.slab, map[])
      ensures heldBuddy == Hold(old(heldBuddy), s.buddy, [])
      ensures last == Fields(heldFreq, heldSlab, heldBuddy)
    {
      last := s;
      if |s.freqKHz| == 0 {
        last := last.(freqKHz := heldFreq);
      } else {
        heldFreq := s.freqKHz;
      }
      if |s.slab| == 0 {
        last := last.(slab := heldSlab);
      } else {
        heldSlab := s.slab;
      }
      if |s.buddy| == 0 {
        last := last.(buddy := heldBuddy);
      } else {
        heldBuddy := s.buddy;
      }
    }
  }
}

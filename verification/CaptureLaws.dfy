/**
 What every sequence of fires, collections and deletions keeps: the byte
 accounting, the budget under both policies, the ledger that says where every
 armed capture went, and the count of every hit.
*/
module CaptureLaws {
  import opened Words
  import opened RingSpec
  import opened CaptureSpec

  datatype Op =
    | DoFire(fire: Fire)
    | DoAfterPush(ring: seq<Entry>, newest: nat)
    | DoFinalize(ring: seq<Entry>)
    | DoDelete(id: nat)

  function Apply(cfg: Config, s: State, op: Op): State {
    match op
    case DoFire(f) => FireOf(cfg, s, f)
    case DoAfterPush(ring, newest) => AfterPushOf(cfg, s, ring, newest)
    case DoFinalize(ring) => FinalizeOf(cfg, s, ring)
    case DoDelete(id) => DeleteOf(s, id)
  }

  function Play(cfg: Config, s: State, ops: seq<Op>): State
    decreases |ops|
  {
    if ops == [] then s else Apply(cfg, Play(cfg, s, ops[..|ops| - 1]), ops[|ops| - 1])
  }

  /** What is held weighs what its entries weigh. */
  ghost predicate Weighs(held: seq<Capture>) {
    forall i :: 0 <= i < |held| ==> held[i].entries != [] && held[i].bytes == LineBytes(held[i].entries)
  }

  /** Captures are held in arming order, under identities 1 to top. */
  ghost predicate Rising(held: seq<Capture>, top: int) {
    && (forall i, j :: 0 <= i < j < |held| ==> held[i].id < held[j].id)
    && (forall i :: 0 <= i < |held| ==> 1 <= held[i].id <= top)
  }

  /** bytes is the weight of the held captures, within the budget. */
  ghost predicate Weighed(cfg: Config, s: State) {
    s.bytes == HeldBytes(s.held) <= cfg.budget && Weighs(s.held)
  }

  function PendingCount(s: State): nat {
    if s.pending.Some? then 1 else 0
  }

  /** Every capture ever armed is held, pending, refused, evicted or deleted. */
  ghost predicate Accounted(cfg: Config, s: State) {
    && |s.history| == |s.held| + PendingCount(s) + Count(s.refused, Empty) + Count(s.refused, Budget)
                      + s.evicted + s.deleted
    && (!cfg.evictOldest ==> s.evicted == 0)
  }

  /** Identities are 1, 2, 3, ... in arming order; the pending capture is the newest one armed. */
  ghost predicate Identified(s: State) {
    && (forall i :: 0 <= i < |s.history| ==> s.history[i].id == i + 1)
    && Rising(s.held, |s.history| - PendingCount(s))
    && (s.pending.Some? ==> 1 <= s.pending.value.id == |s.history|)
  }

  ghost predicate Sound(cfg: Config, s: State) {
    Weighed(cfg, s) && Accounted(cfg, s) && Identified(s)
  }

  lemma {:induction false} HeldBytesAppend(held: seq<Capture>, more: seq<Capture>)
    ensures HeldBytes(held + more) == HeldBytes(held) + HeldBytes(more)
  {
    if held == [] {
      assert held + more == more;
    } else {
      assert (held + more)[1..] == held[1..] + more;
      HeldBytesAppend(held[1..], more);
    }
  }

  lemma HeldBytesSplit(held: seq<Capture>, k: nat)
    requires k <= |held|
    ensures HeldBytes(held) == HeldBytes(held[..k]) + HeldBytes(held[k..])
  {
    assert held == held[..k] + held[k..];
    HeldBytesAppend(held[..k], held[k..]);
  }

  /** Eviction stops at the first point where the rest fits, and gets there when anything can. */
  lemma {:induction false} SurplusIsLeast(held: seq<Capture>, room: nat)
    ensures var k := Surplus(held, room);
            && HeldBytes(held[k..]) <= room
            && (0 < k ==> HeldBytes(held[k - 1..]) > room)
  {
    if held == [] || HeldBytes(held) <= room {
      assert held[0..] == held;
    } else {
      SurplusIsLeast(held[1..], room);
      var k := Surplus(held, room);
      assert held[1..][k - 1..] == held[k..];
      if k == 1 {
        assert held[0..] == held;
      } else {
        assert held[1..][k - 2..] == held[k - 1..];
      }
    }
  }

  lemma FireKeepsSound(cfg: Config, s: State, f: Fire)
    requires Sound(cfg, s)
    ensures Sound(cfg, FireOf(cfg, s, f))
  {
    if Judge(cfg, s, f) == Armed {
      ArmKeepsIdentified(s, FireOf(cfg, s, f), f, Arm(cfg, |s.history| + 1, f));
    }
  }

  lemma ArmKeepsIdentified(s: State, t: State, f: Fire, cp: Capture)
    requires Identified(s) && s.pending.None?
    requires t.history == s.history + [Marker(|s.history| + 1, f)] && t.pending == Some(cp) && t.held == s.held
    requires cp.id == |s.history| + 1
    ensures Identified(t)
  {}

  /** A placement that keeps the window leaves room for it. */
  lemma PlacementFits(cfg: Config, held: seq<Capture>, es: seq<Entry>)
    requires Place(cfg, held, es).Keep?
    ensures HeldBytes(held[Place(cfg, held, es).dropped..]) + LineBytes(es) <= cfg.budget
  {
    if HeldBytes(held) + LineBytes(es) <= cfg.budget {
      assert held[0..] == held;
    } else {
      SurplusIsLeast(held, cfg.budget - LineBytes(es));
    }
  }

  /** Dropping the oldest k captures and adding one. */
  lemma Replaced(held: seq<Capture>, k: nat, c: Capture, top: nat)
    requires k <= |held| && Weighs(held) && Rising(held, top)
    requires c.entries != [] && c.bytes == LineBytes(c.entries) && c.id == top + 1
    ensures var t := held[k..] + [c];
            Weighs(t) && Rising(t, top + 1) && HeldBytes(t) == HeldBytes(held[k..]) + c.bytes
  {
    HeldBytesAppend(held[k..], [c]);
    assert HeldBytes([c]) == c.bytes + HeldBytes([c][1..]);
  }

  lemma CollectKeepsSound(cfg: Config, s: State, tail: seq<Entry>)
    requires Sound(cfg, s) && s.pending.Some?
    ensures Sound(cfg, CollectOf(cfg, s, tail))
  {
    var cp := s.pending.value;
    var es := Between(tail, cp.firstSeq, cp.lastSeq);
    if Place(cfg, s.held, es).Keep? {
      KeepKeepsSound(cfg, s, tail, es, Place(cfg, s.held, es).dropped);
    }
  }

  lemma KeepKeepsSound(cfg: Config, s: State, tail: seq<Entry>, es: seq<Entry>, k: nat)
    requires Sound(cfg, s) && s.pending.Some?
    requires es == Between(tail, s.pending.value.firstSeq, s.pending.value.lastSeq) && Place(cfg, s.held, es) == Keep(k)
    ensures Sound(cfg, CollectOf(cfg, s, tail))
  {
    PlacementFits(cfg, s.held, es);
    Replaced(s.held, k, Filled(cfg, s.pending.value, es), |s.history| - 1);
    assert k > 0 ==> cfg.evictOldest;
  }

  /** Taking the i-th capture out. */
  lemma Removed(held: seq<Capture>, i: nat, top: int)
    requires i < |held| && Weighs(held) && Rising(held, top)
    ensures var t := held[..i] + held[i + 1..];
            Weighs(t) && Rising(t, top) && HeldBytes(t) == HeldBytes(held) - held[i].bytes
  {
    var t := held[..i] + held[i + 1..];
    assert forall j :: 0 <= j < |t| ==> t[j] == held[if j < i then j else j + 1];
    HeldBytesWithout(held, i);
  }

  lemma HeldBytesWithout(held: seq<Capture>, i: nat)
    requires i < |held|
    ensures HeldBytes(held[..i] + held[i + 1..]) == HeldBytes(held) - held[i].bytes
  {
    HeldBytesSplit(held, i);
    assert held[i..][1..] == held[i + 1..];
    HeldBytesAppend(held[..i], held[i + 1..]);
  }

  lemma DeleteKeepsSound(cfg: Config, s: State, id: nat)
    requires Sound(cfg, s)
    ensures Sound(cfg, DeleteOf(s, id))
  {
    var i := Find(s.held, id);
    if i < |s.held| {
      Removed(s.held, i, |s.history| - PendingCount(s));
      OneLess(cfg, s, DeleteOf(s, id), s.held[i].bytes);
    }
  }

  lemma OneLess(cfg: Config, s: State, t: State, size: nat)
    requires Sound(cfg, s) && |t.held| == |s.held| - 1 && t.bytes == s.bytes - size && t.deleted == s.deleted + 1
    requires t.history == s.history && t.pending == s.pending && t.refused == s.refused && t.evicted == s.evicted
    requires Weighs(t.held) && Rising(t.held, |s.history| - PendingCount(s))
    requires HeldBytes(t.held) == HeldBytes(s.held) - size
    ensures Sound(cfg, t)
  {}

  /** The budget, the ledger and the identities hold after every history of operations. */
  lemma {:induction false} AlwaysSound(cfg: Config, ops: seq<Op>)
    requires cfg.budget > 0
    ensures Sound(cfg, Play(cfg, INITIAL, ops))
    decreases |ops|
  {
    if ops != [] {
      var before := Play(cfg, INITIAL, ops[..|ops| - 1]);
      AlwaysSound(cfg, ops[..|ops| - 1]);
      match ops[|ops| - 1]
      case DoFire(f) => FireKeepsSound(cfg, before, f);
      case DoAfterPush(ring, newest) =>
        if before.pending.Some? { CollectKeepsSound(cfg, before, Suffix(ring, cfg.Window())); }
      case DoFinalize(ring) =>
        if before.pending.Some? { CollectKeepsSound(cfg, before, Suffix(ring, cfg.Window())); }
      case DoDelete(id) => DeleteKeepsSound(cfg, before, id);
    }
  }

  /**
   The policy "last" keeps a window as its newest capture exactly when the window is not
   empty and fits the budget.
  */
  lemma LastKeepsWhatFits(cfg: Config, s: State, tail: seq<Entry>)
    requires Sound(cfg, s) && s.pending.Some? && cfg.evictOldest
    ensures var cp := s.pending.value;
            var es := Between(tail, cp.firstSeq, cp.lastSeq);
            var t := CollectOf(cfg, s, tail);
            es != [] && LineBytes(es) <= cfg.budget <==> t.held != [] && t.held[|t.held| - 1].id == cp.id
  {}

  /** The policy "first" keeps it exactly when it fits beside all that is held. */
  lemma FirstKeepsWhatFits(cfg: Config, s: State, tail: seq<Entry>)
    requires Sound(cfg, s) && s.pending.Some? && !cfg.evictOldest
    ensures var cp := s.pending.value;
            var es := Between(tail, cp.firstSeq, cp.lastSeq);
            var t := CollectOf(cfg, s, tail);
            es != [] && HeldBytes(s.held) + LineBytes(es) <= cfg.budget <==>
              t.held != [] && t.held[|t.held| - 1].id == cp.id
  {}

  /** A window that is not kept is counted as refused, once: as empty when it is, and for the budget otherwise. */
  lemma RefusedIsCounted(cfg: Config, s: State, tail: seq<Entry>)
    requires Sound(cfg, s) && s.pending.Some?
    ensures var cp := s.pending.value;
            var es := Between(tail, cp.firstSeq, cp.lastSeq);
            var t := CollectOf(cfg, s, tail);
            var kept := t.held != [] && t.held[|t.held| - 1].id == cp.id;
            && Count(t.refused, Empty) == Count(s.refused, Empty) + (if es == [] then 1 else 0)
            && Count(t.refused, Budget) == Count(s.refused, Budget) + (if es != [] && !kept then 1 else 0)
  {}

  lemma PlacementIsLeast(cfg: Config, held: seq<Capture>, es: seq<Entry>)
    requires Place(cfg, held, es).Keep?
    ensures var k := Place(cfg, held, es).dropped;
            0 < k ==> HeldBytes(held[k - 1..]) + LineBytes(es) > cfg.budget
  {
    if HeldBytes(held) + LineBytes(es) > cfg.budget {
      SurplusIsLeast(held, cfg.budget - LineBytes(es));
    }
  }

  /**
   Eviction takes the oldest captures, no more of them than the new window needs, and
   leaves the rest as they were.
  */
  lemma LastEvictsTheLeast(cfg: Config, s: State, tail: seq<Entry>)
    requires s.pending.Some? && cfg.evictOldest
    ensures var es := Between(tail, s.pending.value.firstSeq, s.pending.value.lastSeq);
            var t := CollectOf(cfg, s, tail);
            var k := t.evicted - s.evicted;
            && 0 <= k <= |s.held|
            && (t.held == s.held || (t.held != [] && t.held[..|t.held| - 1] == s.held[k..]))
            && (0 < k ==> HeldBytes(s.held[k - 1..]) + LineBytes(es) > cfg.budget)
  {
    var es := Between(tail, s.pending.value.firstSeq, s.pending.value.lastSeq);
    if Place(cfg, s.held, es).Keep? {
      PlacementIsLeast(cfg, s.held, es);
    }
  }

  /** The policy "first" never gives up a held capture: only a deletion removes one. */
  lemma FirstNeverEvicts(cfg: Config, s: State, op: Op)
    requires Sound(cfg, s) && !cfg.evictOldest && !op.DoDelete?
    ensures s.held <= Apply(cfg, s, op).held
    ensures Apply(cfg, s, op).evicted == 0
  {}

  /** A deletion removes the capture with that identity and no other. */
  lemma DeleteRemovesOne(cfg: Config, s: State, id: nat, c: Capture)
    requires Sound(cfg, s)
    ensures c in DeleteOf(s, id).held <==> c in s.held && c.id != id
  {
    var i := Find(s.held, id);
    var t := DeleteOf(s, id).held;
    if i < |s.held| {
      assert forall j :: 0 <= j < |t| ==> t[j] == s.held[if j < i then j else j + 1];
      if c in s.held && c.id != id {
        var j :| 0 <= j < |s.held| && s.held[j] == c;
        assert t[if j < i then j else j - 1] == c;
      }
    }
  }

  function FiresOf(ops: seq<Op>, c: Cause): nat
    decreases |ops|
  {
    if ops == [] then 0
    else
      var last := ops[|ops| - 1];
      FiresOf(ops[..|ops| - 1], c) + if last.DoFire? && last.fire.cause == c then 1 else 0
  }

  function Counted(s: State, c: Cause, v: Verdict): nat {
    Count(s.counted, (c, v))
  }

  /** Each hit is counted once, under the verdict it got, and under no other. */
  lemma FireCountsOnce(cfg: Config, s: State, f: Fire, c: Cause, v: Verdict)
    ensures Counted(FireOf(cfg, s, f), c, v)
            == Counted(s, c, v) + if c == f.cause && v == Judge(cfg, s, f) then 1 else 0
  {}

  /** Over any history, fired + suppressed by refractory + suppressed by pending is the number of hits. */
  lemma {:induction false} EveryHitCounted(cfg: Config, ops: seq<Op>, c: Cause)
    ensures var s := Play(cfg, INITIAL, ops);
            Counted(s, c, Armed) + Counted(s, c, Refractory) + Counted(s, c, Pending) == FiresOf(ops, c)
    decreases |ops|
  {
    if ops != [] {
      var before := Play(cfg, INITIAL, ops[..|ops| - 1]);
      EveryHitCounted(cfg, ops[..|ops| - 1], c);
      var last := ops[|ops| - 1];
      if last.DoFire? {
        FireCountsOnce(cfg, before, last.fire, c, Armed);
        FireCountsOnce(cfg, before, last.fire, c, Refractory);
        FireCountsOnce(cfg, before, last.fire, c, Pending);
      }
    }
  }

  /** The lines of these entries, one after another. */
  function Text(es: seq<Entry>): seq<char> {
    if es == [] then "" else Text(es[..|es| - 1]) + es[|es| - 1].line
  }

  lemma {:induction false} TextCons(es: seq<Entry>)
    requires es != []
    ensures Text(es) == es[0].line + Text(es[1..])
  {
    var n := |es| - 1;
    if n > 0 {
      TextCons(es[..n]);
      assert es[..n][1..] == es[1..][..n - 1];
    }
  }

  /** What captures weigh is the length of the lines they would serve. */
  lemma {:induction false} WeightIsText(es: seq<Entry>)
    ensures LineBytes(es) == |Text(es)|
  {
    if es != [] {
      WeightIsText(es[1..]);
      TextCons(es);
    }
  }
}

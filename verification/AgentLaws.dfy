/**
 What every run of one agent life keeps on the agent's side: the numbering of
 the samples, the order and spacing of the trigger markers, and the exact
 content of every collected window.
*/
module AgentLaws {
  import opened Words
  import opened RingSpec
  import opened CaptureSpec
  import opened Pipeline

  /** Armed by a configured condition, not by hand. */
  predicate Auto(m: Marker) {
    m.fire.cause.Condition?
  }

  ghost predicate Ticks(pushed: seq<Entry>, phase: Phase) {
    && FromOne(pushed)
    && |pushed| + 1 < TWO_64
    && (phase.Sampling? ==> phase.next.seqNo == |pushed| + 1 && phase.next.seqNo + 1 < TWO_64)
  }

  /** The sample being evaluated has the one number above those pushed. */
  function Evaluating(pushed: seq<Entry>, phase: Phase, s: State): int {
    if phase.Sampling? && s.pending.Some? then |pushed| + 1 else |pushed|
  }

  /** No marker is from the future, and one on the sample being evaluated is still pending. */
  ghost predicate Dated(pushed: seq<Entry>, phase: Phase, s: State) {
    forall i :: 0 <= i < |s.history| ==> s.history[i].fire.seqNo <= Evaluating(pushed, phase, s)
  }

  ghost predicate Identities(s: State) {
    && (forall i :: 0 <= i < |s.history| ==> s.history[i].id == i + 1)
    && (s.pending.Some? ==>
         s.history != [] && s.history[|s.history| - 1] == Marker(s.pending.value.id, s.pending.value.fire))
  }

  /** A condition's marker is numbered above every marker armed before it. */
  ghost predicate Ordered(history: seq<Marker>) {
    forall i, j :: 0 <= i < j < |history| && Auto(history[j]) ==> history[i].fire.seqNo < history[j].fire.seqNo
  }

  /** Two fires of conditions are more than post samples apart, and two of one condition a refractory window apart. */
  ghost predicate Spaced(cfg: Config, history: seq<Marker>) {
    forall i, j :: 0 <= i < j < |history| && Auto(history[i]) && Auto(history[j]) ==>
                     && history[i].fire.seqNo + cfg.post < history[j].fire.seqNo
                     && (history[i].fire.cause == history[j].fire.cause ==>
                           history[i].fire.seqNo + cfg.refractory <= history[j].fire.seqNo)
  }

  /** The windows of all but the pending fire have passed, until the sampler stops. */
  ghost predicate Passed(cfg: Config, pushed: seq<Entry>, phase: Phase, s: State) {
    phase.Stopped? || forall i :: 0 <= i < |s.history| - (if s.pending.Some? then 1 else 0) && Auto(s.history[i]) ==>
                  s.history[i].fire.seqNo + cfg.post <= |pushed|
  }

  /** lastFire is at or above every fire of its condition. */
  ghost predicate Remembered(pushed: seq<Entry>, phase: Phase, s: State) {
    && (forall i :: 0 <= i < |s.history| && Auto(s.history[i]) ==>
                      && s.history[i].fire.cause in s.lastFire
                      && s.history[i].fire.seqNo <= s.lastFire[s.history[i].fire.cause])
    && (forall c :: c in s.lastFire && c.Condition? ==> s.lastFire[c] <= Evaluating(pushed, phase, s))
  }

  /** The pending capture is as armed; a condition's window has not passed unnoticed. */
  ghost predicate Awaited(cfg: Config, pushed: seq<Entry>, phase: Phase, s: State) {
    s.pending.Some? ==>
      var cp := s.pending.value;
      && cp == Arm(cfg, cp.id, cp.fire)
      && cp.fire.seqNo <= Evaluating(pushed, phase, s)
      && (cp.fire.cause.Manual? ==> cp.fire.seqNo <= |pushed|)
      && (cp.fire.cause.Condition? ==>
            && 1 <= cp.fire.seqNo
            && |pushed| <= cp.lastSeq
            && (!phase.Stored? ==> |pushed| < cp.lastSeq))
  }

  /** The first number a window asks for. */
  function FirstWanted(cfg: Config, f: nat): (n: nat)
    ensures 1 <= n && (1 <= f ==> n <= f)
  {
    if f > cfg.pre then f - cfg.pre else 1
  }

  /**
   What a collection with n pushes in all finds of the window around sample f,
   as positions in the pushes: from the first sample wanted, or from where the
   newest pre+post+1 entries held begin, up to the end of the window or of the
   pushes.
  */
  function WindowStart(su: Setup, f: nat, n: nat): nat {
    Max(FirstWanted(su.cfg, f) - 1, n - Min(su.capacity, su.cfg.Window()))
  }

  function WindowEnd(su: Setup, f: nat, n: nat): nat {
    Min(f + su.cfg.post, n)
  }

  /**
   A capture collected with n pushes in all: exactly what such a collection finds, and
   complete when that is the whole window.
  */
  ghost predicate Cut(su: Setup, pushed: seq<Entry>, c: Capture, n: nat) {
    var lo, hi := WindowStart(su, c.fire.seqNo, n), WindowEnd(su, c.fire.seqNo, n);
    && n <= |pushed| && lo < hi
    && c.entries == pushed[lo..hi]
    && c.firstSeq == lo + 1 && c.lastSeq == hi && c.samples == hi - lo
    && (c.complete <==> hi - lo == su.cfg.Window())
  }

  /** A condition's window was collected when its last sample came, or when the sampler stopped before that. */
  ghost predicate OnTime(su: Setup, pushed: seq<Entry>, phase: Phase, f: Fire, n: nat) {
    f.cause.Condition? ==>
      && 1 <= f.seqNo
      && n == Min(f.seqNo + su.cfg.post, |pushed|)
      && (f.seqNo + su.cfg.post <= |pushed| || phase.Stopped?)
  }

  ghost predicate Collected(su: Setup, pushed: seq<Entry>, phase: Phase, c: Capture) {
    exists n :: Cut(su, pushed, c, n) && OnTime(su, pushed, phase, c.fire, n)
  }

  /** Every held capture, of whatever cause, was cut out of the pushes so, and has one of the identities given out. */
  ghost predicate Windows(su: Setup, pushed: seq<Entry>, phase: Phase, held: seq<Capture>, ids: nat) {
    forall i :: 0 <= i < |held| ==> held[i].id <= ids && Collected(su, pushed, phase, held[i])
  }

  /** What holds of the markers and of the pending capture. */
  ghost predicate Histories(cfg: Config, pushed: seq<Entry>, phase: Phase, s: State) {
    && Dated(pushed, phase, s)
    && Identities(s)
    && Ordered(s.history)
    && Spaced(cfg, s.history)
    && Passed(cfg, pushed, phase, s)
    && Remembered(pushed, phase, s)
    && Awaited(cfg, pushed, phase, s)
  }

  ghost predicate AgentInv(su: Setup, pushed: seq<Entry>, phase: Phase, s: State) {
    && 0 < su.capacity
    && Ticks(pushed, phase)
    && Histories(su.cfg, pushed, phase, s)
    && Windows(su, pushed, phase, s.held, |s.history|)
  }

  lemma FreshAgent(su: Setup)
    requires 0 < su.capacity
    ensures AgentInv(su, [], Waiting, INITIAL)
  {}

  /** The markers and the pending capture are all of the state this looks at. */
  lemma SameMarkers(cfg: Config, pushed: seq<Entry>, phase: Phase, s: State, t: State)
    requires Histories(cfg, pushed, phase, s)
    requires t.history == s.history && t.lastFire == s.lastFire && t.pending == s.pending
    ensures Histories(cfg, pushed, phase, t)
  {}

  // ---- fires

  /** A fire of a condition on the sample being evaluated. */
  lemma HitKeeps(cfg: Config, pushed: seq<Entry>, phase: Phase, s: State, f: Fire)
    requires Histories(cfg, pushed, phase, s)
    requires phase.Sampling? && f.cause.Condition? && f.seqNo == |pushed| + 1
    ensures Histories(cfg, pushed, phase, FireOf(cfg, s, f))
  {
    if Judge(cfg, s, f) == Armed {
      HitSpaces(cfg, pushed, phase, s, f);
    }
  }

  lemma HitSpaces(cfg: Config, pushed: seq<Entry>, phase: Phase, s: State, f: Fire)
    requires Dated(pushed, phase, s) && Ordered(s.history) && Spaced(cfg, s.history)
    requires Passed(cfg, pushed, phase, s) && Remembered(pushed, phase, s) && phase.Sampling?
    requires f.cause.Condition? && f.seqNo == |pushed| + 1
    requires Judge(cfg, s, f) == Armed
    ensures Ordered(s.history + [Marker(|s.history| + 1, f)])
    ensures Spaced(cfg, s.history + [Marker(|s.history| + 1, f)])
  {}

  /** A manual fire at a number the ring has reached. */
  lemma ManualKeeps(cfg: Config, pushed: seq<Entry>, phase: Phase, s: State, f: Fire)
    requires Histories(cfg, pushed, phase, s)
    requires f.cause.Manual? && f.seqNo <= |pushed|
    ensures Histories(cfg, pushed, phase, FireOf(cfg, s, f))
  {
    if Judge(cfg, s, f) == Armed {
      ManualArmed(cfg, pushed, phase, s, FireOf(cfg, s, f), Marker(|s.history| + 1, f));
    } else {
      SameMarkers(cfg, pushed, phase, s, FireOf(cfg, s, f));
    }
  }

  lemma ManualArmed(cfg: Config, pushed: seq<Entry>, phase: Phase, s: State, t: State, m: Marker)
    requires Histories(cfg, pushed, phase, s) && s.pending.None?
    requires m.fire.cause.Manual? && m.fire.seqNo <= |pushed| && m.id == |s.history| + 1
    requires t.history == s.history + [m] && t.pending == Some(Arm(cfg, m.id, m.fire))
    requires t.lastFire == s.lastFire[m.fire.cause := m.fire.seqNo]
    ensures Histories(cfg, pushed, phase, t)
  {
    ManualSpaces(cfg, s.history, m);
    ManualRemembered(pushed, phase, s, t, m);
    ManualDated(cfg, pushed, phase, s, t, m);
  }

  lemma ManualDated(cfg: Config, pushed: seq<Entry>, phase: Phase, s: State, t: State, m: Marker)
    requires Dated(pushed, phase, s) && Identities(s) && Passed(cfg, pushed, phase, s) && !Auto(m) && s.pending.None?
    requires t.history == s.history + [m] && t.pending == Some(Arm(cfg, m.id, m.fire))
    requires m.fire.cause.Manual? && m.id == |s.history| + 1 && m.fire.seqNo <= |pushed|
    ensures Dated(pushed, phase, t) && Identities(t) && Passed(cfg, pushed, phase, t) && Awaited(cfg, pushed, phase, t)
  {}

  lemma ManualSpaces(cfg: Config, history: seq<Marker>, m: Marker)
    requires Ordered(history) && Spaced(cfg, history) && !Auto(m)
    ensures Ordered(history + [m]) && Spaced(cfg, history + [m])
  {}

  lemma ManualRemembered(pushed: seq<Entry>, phase: Phase, s: State, t: State, m: Marker)
    requires Remembered(pushed, phase, s) && !Auto(m) && s.pending.None?
    requires t.history == s.history + [m] && t.lastFire == s.lastFire[m.fire.cause := m.fire.seqNo]
    ensures Remembered(pushed, phase, t)
  {}

  // ---- pushes

  lemma PushKeeps(cfg: Config, pushed: seq<Entry>, phase: Phase, s: State)
    requires Ticks(pushed, phase) && Histories(cfg, pushed, phase, s) && phase.Sampling?
    ensures Ticks(pushed + [phase.next], Stored)
    ensures Histories(cfg, pushed + [phase.next], Stored, s)
  {}

  /** Windows already collected are not touched by later pushes. */
  lemma PushKeepsWindows(su: Setup, pushed: seq<Entry>, phase: Phase, held: seq<Capture>, ids: nat, e: Entry)
    requires Windows(su, pushed, phase, held, ids) && !phase.Stopped?
    ensures Windows(su, pushed + [e], Stored, held, ids)
  {
    forall i | 0 <= i < |held| ensures Collected(su, pushed + [e], Stored, held[i]) {
      var n :| Cut(su, pushed, held[i], n) && OnTime(su, pushed, phase, held[i].fire, n);
      PushKeepsCut(su, pushed, held[i], n, e);
    }
  }

  lemma PushKeepsCut(su: Setup, pushed: seq<Entry>, c: Capture, n: nat, e: Entry)
    requires Cut(su, pushed, c, n)
    ensures Cut(su, pushed + [e], c, n)
  {
    var lo, hi := WindowStart(su, c.fire.seqNo, n), WindowEnd(su, c.fire.seqNo, n);
    assert (pushed + [e])[lo..hi] == pushed[lo..hi];
  }

  /** So too when the sampler goes on to another phase. */
  lemma PhaseKeepsWindows(su: Setup, pushed: seq<Entry>, phase: Phase, next: Phase, held: seq<Capture>, ids: nat,
                          more: nat)
    requires Windows(su, pushed, phase, held, ids) && ids <= more && (phase.Stopped? ==> next.Stopped?)
    ensures Windows(su, pushed, next, held, more)
  {
    forall i | 0 <= i < |held| ensures Collected(su, pushed, next, held[i]) {
      var n :| Cut(su, pushed, held[i], n) && OnTime(su, pushed, phase, held[i].fire, n);
      assert OnTime(su, pushed, next, held[i].fire, n);
    }
  }

  // ---- collections

  /** In entries numbered upward the ones between two numbers are one slice. */
  lemma {:induction false} BetweenIsSlice(es: seq<Entry>, first: nat, last: nat, lo: nat, hi: nat)
    requires lo <= hi <= |es|
    requires forall i :: 0 <= i < lo ==> es[i].seqNo < first || last < es[i].seqNo
    requires forall i :: lo <= i < hi ==> first <= es[i].seqNo <= last
    requires forall i :: hi <= i < |es| ==> last < es[i].seqNo
    ensures Between(es, first, last) == es[lo..hi]
  {
    if es == [] {
    } else if 0 < lo {
      BetweenIsSlice(es[1..], first, last, lo - 1, hi - 1);
      assert es[1..][lo - 1..hi - 1] == es[lo..hi];
    } else if 0 < hi {
      BetweenIsSlice(es[1..], first, last, 0, hi - 1);
      assert es[lo..hi] == [es[0]] + es[1..][0..hi - 1];
    } else {
      BetweenIsSlice(es[1..], first, last, 0, 0);
    }
  }

  /** The newest entries of what the ring holds, as a slice of the pushes. */
  lemma TailIsSlice(pushed: seq<Entry>, capacity: nat, n: nat)
    ensures Suffix(Held(pushed, capacity), n) == pushed[Max(|pushed| - Min(capacity, n), 0)..]
  {}

  lemma BetweenOfTail(pushed: seq<Entry>, tail: seq<Entry>, d: nat, first: nat, last: nat)
    requires FromOne(pushed) && d <= |pushed| && tail == pushed[d..] && 1 <= first
    ensures var lo, hi := Max(first - 1, d), Min(last, |pushed|);
            Between(tail, first, last) == if lo < hi then pushed[lo..hi] else []
  {
    var hi := Max(Min(last, |pushed|), d);
    var lo := Min(Max(first - 1, d), hi);
    TailNumbers(pushed, tail, d);
    BetweenOfNumbered(tail, d, first, last, lo - d, hi - d);
    SliceOfTail(pushed, tail, d, lo, hi);
  }

  lemma TailNumbers(pushed: seq<Entry>, tail: seq<Entry>, d: nat)
    requires FromOne(pushed) && d <= |pushed| && tail == pushed[d..]
    ensures forall i :: 0 <= i < |tail| ==> tail[i].seqNo == d + i + 1
  {
    assert forall i :: 0 <= i < |tail| ==> tail[i] == pushed[d + i];
  }

  lemma BetweenOfNumbered(tail: seq<Entry>, d: nat, first: nat, last: nat, lo: nat, hi: nat)
    requires (forall i :: 0 <= i < |tail| ==> tail[i].seqNo == d + i + 1) && 1 <= first
    requires hi == Max(Min(last - d, |tail|), 0) && lo == Min(Max(first - 1 - d, 0), hi)
    ensures Between(tail, first, last) == tail[lo..hi]
  {
    BetweenIsSlice(tail, first, last, lo, hi);
  }

  lemma SliceOfTail(pushed: seq<Entry>, tail: seq<Entry>, d: nat, lo: nat, hi: nat)
    requires d <= lo <= hi <= |pushed| && tail == pushed[d..]
    ensures tail[lo - d..hi - d] == pushed[lo..hi]
  {}

  /** What a collection finds of the window around sample f. */
  function Found(su: Setup, pushed: seq<Entry>, f: nat): seq<Entry> {
    var lo, hi := WindowStart(su, f, |pushed|), WindowEnd(su, f, |pushed|);
    if lo < hi then pushed[lo..hi] else []
  }

  /**
   What is collected of a window, with any number of entries in the ring: for
   every fire, pre, post and capacity it is one slice of the pushes, cut only
   where the tail no longer reaches or the pushes end.
  */
  lemma CollectedIsExact(su: Setup, pushed: seq<Entry>, f: nat)
    requires FromOne(pushed)
    ensures Between(Suffix(Held(pushed, su.capacity), su.cfg.Window()), FirstWanted(su.cfg, f), f + su.cfg.post)
            == Found(su, pushed, f)
  {
    TailIsSlice(pushed, su.capacity, su.cfg.Window());
    TailHas(su, pushed, Suffix(Held(pushed, su.capacity), su.cfg.Window()), f);
  }

  lemma TailHas(su: Setup, pushed: seq<Entry>, tail: seq<Entry>, f: nat)
    requires FromOne(pushed) && tail == pushed[Max(|pushed| - Min(su.capacity, su.cfg.Window()), 0)..]
    ensures Between(tail, FirstWanted(su.cfg, f), f + su.cfg.post) == Found(su, pushed, f)
  {
    BetweenOfTail(pushed, tail, Max(|pushed| - Min(su.capacity, su.cfg.Window()), 0),
                  FirstWanted(su.cfg, f), f + su.cfg.post);
  }

  /** Nothing pending any more: the pending window has passed, or the sampler stops. */
  lemma CollectKeepsHistories(cfg: Config, pushed: seq<Entry>, phase: Phase, next: Phase, s: State, t: State)
    requires Histories(cfg, pushed, phase, s) && !phase.Sampling? && !next.Sampling?
    requires s.pending.None? || s.pending.value.lastSeq <= |pushed| || next.Stopped?
    requires phase.Stopped? ==> next.Stopped?
    requires t.history == s.history && t.lastFire == s.lastFire && t.pending == None
    ensures Histories(cfg, pushed, next, t)
  {}

  lemma AfterPushKeeps(su: Setup, pushed: seq<Entry>, s: State)
    requires AgentInv(su, pushed, Stored, s)
    ensures AgentInv(su, pushed, Waiting, AfterPushOf(su.cfg, s, Held(pushed, su.capacity), |pushed|))
  {
    if s.pending.Some? && s.pending.value.lastSeq <= |pushed| {
      CollectKeeps(su, pushed, Stored, Waiting, s, Suffix(Held(pushed, su.capacity), su.cfg.Window()));
    } else {
      StillPending(su.cfg, pushed, s);
      PhaseKeepsWindows(su, pushed, Stored, Waiting, s.held, |s.history|, |s.history|);
    }
  }

  lemma FinalizeKeeps(su: Setup, pushed: seq<Entry>, s: State)
    requires AgentInv(su, pushed, Waiting, s)
    ensures AgentInv(su, pushed, Stopped, FinalizeOf(su.cfg, s, Held(pushed, su.capacity)))
  {
    if s.pending.Some? {
      CollectKeeps(su, pushed, Waiting, Stopped, s, Suffix(Held(pushed, su.capacity), su.cfg.Window()));
    } else {
      CollectKeepsHistories(su.cfg, pushed, Waiting, Stopped, s, s);
      PhaseKeepsWindows(su, pushed, Waiting, Stopped, s.held, |s.history|, |s.history|);
    }
  }

  lemma CollectKeeps(su: Setup, pushed: seq<Entry>, phase: Phase, next: Phase, s: State, tail: seq<Entry>)
    requires AgentInv(su, pushed, phase, s) && !phase.Sampling? && !phase.Stopped? && !next.Sampling? && s.pending.Some?
    requires if next.Stopped? then true else phase.Stored? && s.pending.value.lastSeq <= |pushed|
    requires tail == Suffix(Held(pushed, su.capacity), su.cfg.Window())
    ensures AgentInv(su, pushed, next, CollectOf(su.cfg, s, tail))
  {
    CollectKeepsHistories(su.cfg, pushed, phase, next, s, CollectOf(su.cfg, s, tail));
    CollectKeepsWindows(su, pushed, phase, next, s, tail);
  }

  lemma CollectKeepsWindows(su: Setup, pushed: seq<Entry>, phase: Phase, next: Phase, s: State, tail: seq<Entry>)
    requires AgentInv(su, pushed, phase, s) && !phase.Sampling? && !phase.Stopped? && s.pending.Some?
    requires if next.Stopped? then true else phase.Stored? && s.pending.value.lastSeq <= |pushed|
    requires tail == Suffix(Held(pushed, su.capacity), su.cfg.Window())
    ensures Windows(su, pushed, next, CollectOf(su.cfg, s, tail).held, |s.history|)
  {
    CollectedIsExact(su, pushed, s.pending.value.fire.seqNo);
    PhaseKeepsWindows(su, pushed, phase, next, s.held, |s.history|, |s.history|);
    TailKeepsWindows(su, pushed, phase, next, s, tail);
  }

  lemma StillPending(cfg: Config, pushed: seq<Entry>, s: State)
    requires Histories(cfg, pushed, Stored, s)
    requires s.pending.None? || |pushed| < s.pending.value.lastSeq
    ensures Histories(cfg, pushed, Waiting, s)
  {}

  /** The capture made of what the collection finds. */
  lemma FilledIsCut(su: Setup, pushed: seq<Entry>, cp: Capture, es: seq<Entry>)
    requires FromOne(pushed) && es == Found(su, pushed, cp.fire.seqNo) && es != []
    ensures Cut(su, pushed, Filled(su.cfg, cp, es), |pushed|)
  {}

  lemma TailKeepsWindows(su: Setup, pushed: seq<Entry>, phase: Phase, next: Phase, s: State, tail: seq<Entry>)
    requires FromOne(pushed) && Awaited(su.cfg, pushed, phase, s) && Windows(su, pushed, next, s.held, |s.history|)
    requires Identities(s) && s.pending.Some? && !phase.Stopped? && !phase.Sampling?
    requires if next.Stopped? then true else phase.Stored? && s.pending.value.lastSeq <= |pushed|
    requires var f := s.pending.value.fire.seqNo;
             Between(tail, FirstWanted(su.cfg, f), f + su.cfg.post) == Found(su, pushed, f)
    ensures Windows(su, pushed, next, CollectOf(su.cfg, s, tail).held, |s.history|)
  {
    var cp := s.pending.value;
    var es := Found(su, pushed, cp.fire.seqNo);
    HeldAfter(su.cfg, s, tail, es);
    if Place(su.cfg, s.held, es).Keep? {
      FilledIsCut(su, pushed, cp, es);
      FilledIsOnTime(su, pushed, phase, next, s, Filled(su.cfg, cp, es));
      WindowsReplaced(su, pushed, next, s.held, |s.history|, Place(su.cfg, s.held, es).dropped, Filled(su.cfg, cp, es));
    }
  }

  lemma HeldAfter(cfg: Config, s: State, tail: seq<Entry>, es: seq<Entry>)
    requires s.pending.Some? && Between(tail, s.pending.value.firstSeq, s.pending.value.lastSeq) == es
    ensures var p := Place(cfg, s.held, es);
            CollectOf(cfg, s, tail).held
            == if p.Keep? then s.held[p.dropped..] + [Filled(cfg, s.pending.value, es)] else s.held
  {}

  lemma FilledIsOnTime(su: Setup, pushed: seq<Entry>, phase: Phase, next: Phase, s: State, c: Capture)
    requires Awaited(su.cfg, pushed, phase, s) && s.pending.Some? && !phase.Stopped? && !phase.Sampling?
    requires if next.Stopped? then true else phase.Stored? && s.pending.value.lastSeq <= |pushed|
    requires Cut(su, pushed, c, |pushed|) && c.fire == s.pending.value.fire
    ensures Collected(su, pushed, next, c)
  {
    assert OnTime(su, pushed, next, c.fire, |pushed|);
  }

  lemma WindowsReplaced(su: Setup, pushed: seq<Entry>, phase: Phase, held: seq<Capture>, ids: nat, k: nat, c: Capture)
    requires Windows(su, pushed, phase, held, ids) && k <= |held|
    requires c.id <= ids && Collected(su, pushed, phase, c)
    ensures Windows(su, pushed, phase, held[k..] + [c], ids)
  {}

  lemma DeleteKeeps(su: Setup, pushed: seq<Entry>, phase: Phase, s: State, id: nat)
    requires AgentInv(su, pushed, phase, s)
    ensures AgentInv(su, pushed, phase, DeleteOf(s, id))
  {
    SameMarkers(su.cfg, pushed, phase, s, DeleteOf(s, id));
    WindowsRemoved(su, pushed, phase, s.held, |s.history|, Find(s.held, id));
  }

  lemma WindowsRemoved(su: Setup, pushed: seq<Entry>, phase: Phase, held: seq<Capture>, ids: nat, i: nat)
    requires Windows(su, pushed, phase, held, ids)
    ensures i < |held| ==> Windows(su, pushed, phase, held[..i] + held[i + 1..], ids)
  {}
}

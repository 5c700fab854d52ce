/**
 When the one pending capture is collected, and what it then holds: a fire of
 any kind is collected at the first chance at or past the end of its window, so
 a manual fire on an out-of-date number can come too late for part of its
 window, or for all of it.
*/
module WindowTheorems {
  import opened Words
  import opened RingSpec
  import opened CaptureSpec
  import opened Pipeline
  import opened AgentLaws
  import opened PipelineTheorems

  /** How many pushes there are when the sampler next comes to collect. */
  function NextChance(pushed: seq<Entry>, phase: Phase): nat {
    |pushed| + if phase.Stored? then 0 else 1
  }

  /** How many there are when a fire on sample f is collected that was armed with the next chance at p. */
  function DueAt(cfg: Config, f: nat, p: nat): nat {
    Max(f + cfg.post, p)
  }

  /** Collected when due, or with what there was when the sampler stopped before that. */
  ghost predicate WhenDue(su: Setup, pushed: seq<Entry>, phase: Phase, c: Capture, f: Fire, n: nat) {
    && c.fire == f
    && Cut(su, pushed, c, Min(n, |pushed|))
    && (n <= |pushed| || phase.Stopped?)
  }

  ghost predicate AllWhenDue(su: Setup, pushed: seq<Entry>, phase: Phase, held: seq<Capture>, f: Fire, id: nat,
                             n: nat) {
    forall i :: 0 <= i < |held| && held[i].id == id ==> WhenDue(su, pushed, phase, held[i], f, n)
  }

  /**
   The fire f that was armed as number id, with the next chance at p, is still pending
   and not overdue, or was collected when due.
  */
  ghost predicate Due(su: Setup, pushed: seq<Entry>, phase: Phase, s: State, f: Fire, id: nat, p: nat) {
    && 1 <= id <= |s.history|
    && p <= NextChance(pushed, phase)
    && (s.pending.Some? && s.pending.value.id == id ==>
          s.pending.value == Arm(su.cfg, id, f) && NextChance(pushed, phase) <= DueAt(su.cfg, f.seqNo, p))
    && AllWhenDue(su, pushed, phase, s.held, f, id, DueAt(su.cfg, f.seqNo, p))
  }

  lemma ArmingIsDue(su: Setup, w: World, f: Fire)
    requires AgentInv(su, w.pushed, w.phase, w.caps) && Judge(su.cfg, w.caps, f) == Armed
    ensures Due(su, w.pushed, w.phase, FireOf(su.cfg, w.caps, f), f, |w.caps.history| + 1,
                NextChance(w.pushed, w.phase))
  {}

  lemma LaterFireKeepsDue(su: Setup, pushed: seq<Entry>, phase: Phase, s: State, f: Fire, id: nat, p: nat, g: Fire)
    requires Due(su, pushed, phase, s, f, id, p)
    ensures Due(su, pushed, phase, FireOf(su.cfg, s, g), f, id, p)
  {}

  lemma PushKeepsDue(su: Setup, pushed: seq<Entry>, phase: Phase, s: State, f: Fire, id: nat, p: nat)
    requires Due(su, pushed, phase, s, f, id, p) && phase.Sampling?
    ensures Due(su, pushed + [phase.next], Stored, s, f, id, p)
  {
    forall i | 0 <= i < |s.held| && s.held[i].id == id
      ensures WhenDue(su, pushed + [phase.next], Stored, s.held[i], f, DueAt(su.cfg, f.seqNo, p))
    {
      PushKeepsCut(su, pushed, s.held[i], Min(DueAt(su.cfg, f.seqNo, p), |pushed|), phase.next);
    }
  }

  lemma DeleteKeepsDue(su: Setup, pushed: seq<Entry>, phase: Phase, s: State, f: Fire, id: nat, p: nat, gone: nat)
    requires Due(su, pushed, phase, s, f, id, p)
    ensures Due(su, pushed, phase, DeleteOf(s, gone), f, id, p)
  {}

  /** A sampler that goes on without collecting. */
  lemma WaitKeepsDue(su: Setup, pushed: seq<Entry>, phase: Phase, next: Phase, s: State, f: Fire, id: nat, p: nat)
    requires Due(su, pushed, phase, s, f, id, p) && (phase.Stopped? ==> next.Stopped?) && !next.Stored?
    requires phase.Stored? && s.pending.Some? ==> |pushed| < s.pending.value.lastSeq
    ensures Due(su, pushed, next, s, f, id, p)
  {}

  lemma CollectKeepsDue(su: Setup, pushed: seq<Entry>, phase: Phase, next: Phase, s: State, f: Fire, id: nat, p: nat,
                        tail: seq<Entry>)
    requires AgentInv(su, pushed, phase, s) && Due(su, pushed, phase, s, f, id, p) && s.pending.Some?
    requires (phase.Waiting? && next.Stopped?)
             || (phase.Stored? && next.Waiting? && s.pending.value.lastSeq <= |pushed|)
    requires tail == Suffix(Held(pushed, su.capacity), su.cfg.Window())
    ensures Due(su, pushed, next, CollectOf(su.cfg, s, tail), f, id, p)
  {
    var cp, n := s.pending.value, DueAt(su.cfg, f.seqNo, p);
    CollectedIsExact(su, pushed, cp.fire.seqNo);
    var es := AgentLaws.Found(su, pushed, cp.fire.seqNo);
    HeldAfter(su.cfg, s, tail, es);
    if Place(su.cfg, s.held, es).Keep? {
      FilledIsCut(su, pushed, cp, es);
      CollectedWhenDue(su, pushed, phase, next, s, f, id, p, Filled(su.cfg, cp, es));
      AllReplaced(su, pushed, next, s.held, f, id, n, Place(su.cfg, s.held, es).dropped, Filled(su.cfg, cp, es));
    }
  }

  /** What is collected now is collected when due. */
  lemma CollectedWhenDue(su: Setup, pushed: seq<Entry>, phase: Phase, next: Phase, s: State, f: Fire, id: nat, p: nat,
                         c: Capture)
    requires Due(su, pushed, phase, s, f, id, p) && s.pending.Some?
    requires (phase.Waiting? && next.Stopped?)
             || (phase.Stored? && next.Waiting? && s.pending.value.lastSeq <= |pushed|)
    requires c.id == s.pending.value.id && c.fire == s.pending.value.fire && Cut(su, pushed, c, |pushed|)
    ensures c.id == id ==> WhenDue(su, pushed, next, c, f, DueAt(su.cfg, f.seqNo, p))
    ensures AllWhenDue(su, pushed, next, s.held, f, id, DueAt(su.cfg, f.seqNo, p))
  {}

  lemma AllReplaced(su: Setup, pushed: seq<Entry>, phase: Phase, held: seq<Capture>, f: Fire, id: nat, n: nat, k: nat,
                    c: Capture)
    requires AllWhenDue(su, pushed, phase, held, f, id, n) && k <= |held|
    requires c.id == id ==> WhenDue(su, pushed, phase, c, f, n)
    ensures AllWhenDue(su, pushed, phase, held[k..] + [c], f, id, n)
  {}

  lemma StepKeepsDue(su: Setup, w: World, step: Step, f: Fire, id: nat, p: nat)
    requires AgentInv(su, w.pushed, w.phase, w.caps) && Due(su, w.pushed, w.phase, w.caps, f, id, p)
    requires Enabled(su, w, step) && !step.Restart?
    ensures var z := Next(su, w, step); Due(su, z.pushed, z.phase, z.caps, f, id, p)
  {
    match step
    case Begin(e) => WaitKeepsDue(su, w.pushed, w.phase, Sampling(e), w.caps, f, id, p);
    case Hit(g) => LaterFireKeepsDue(su, w.pushed, w.phase, w.caps, f, id, p, g);
    case ManualFire(g) => LaterFireKeepsDue(su, w.pushed, w.phase, w.caps, f, id, p, g);
    case Push => PushKeepsDue(su, w.pushed, w.phase, w.caps, f, id, p);
    case AfterPush => AfterPushKeepsDue(su, w.pushed, w.caps, f, id, p);
    case Finalize => FinalizeKeepsDue(su, w.pushed, w.caps, f, id, p);
    case Delete(gone) => DeleteKeepsDue(su, w.pushed, w.phase, w.caps, f, id, p, gone);
    case _ =>
  }

  lemma AfterPushKeepsDue(su: Setup, pushed: seq<Entry>, s: State, f: Fire, id: nat, p: nat)
    requires AgentInv(su, pushed, Stored, s) && Due(su, pushed, Stored, s, f, id, p)
    ensures Due(su, pushed, Waiting, AfterPushOf(su.cfg, s, Held(pushed, su.capacity), |pushed|), f, id, p)
  {
    if s.pending.Some? && s.pending.value.lastSeq <= |pushed| {
      CollectKeepsDue(su, pushed, Stored, Waiting, s, f, id, p, Suffix(Held(pushed, su.capacity), su.cfg.Window()));
    } else {
      WaitKeepsDue(su, pushed, Stored, Waiting, s, f, id, p);
    }
  }

  lemma FinalizeKeepsDue(su: Setup, pushed: seq<Entry>, s: State, f: Fire, id: nat, p: nat)
    requires AgentInv(su, pushed, Waiting, s) && Due(su, pushed, Waiting, s, f, id, p)
    ensures Due(su, pushed, Stopped, FinalizeOf(su.cfg, s, Held(pushed, su.capacity)), f, id, p)
  {
    if s.pending.Some? {
      CollectKeepsDue(su, pushed, Waiting, Stopped, s, f, id, p, Suffix(Held(pushed, su.capacity), su.cfg.Window()));
    } else {
      WaitKeepsDue(su, pushed, Waiting, Stopped, s, f, id, p);
    }
  }

  lemma {:induction false} RunKeepsDue(su: Setup, w: World, steps: seq<Step>, f: Fire, id: nat, p: nat)
    requires AgentInv(su, w.pushed, w.phase, w.caps) && Due(su, w.pushed, w.phase, w.caps, f, id, p)
    requires Runs(su, w, steps) && OneLife(steps)
    ensures var z := After(su, w, steps); Due(su, z.pushed, z.phase, z.caps, f, id, p)
    decreases |steps|
  {
    if steps != [] {
      StepKeepsDue(su, w, steps[0], f, id, p);
      StepKeepsAgent(su, w, steps[0]);
      assert OneLife(steps[1..]);
      RunKeepsDue(su, Next(su, w, steps[0]), steps[1..], f, id, p);
    }
  }

  // ---- what a run makes of one fire

  /** A state some run of a fresh agent reaches, whatever interleaves and however often it restarts. */
  ghost predicate Reached(su: Setup, v: World) {
    0 < su.capacity && exists w, steps :: Fresh(w) && Runs(su, w, steps) && After(su, w, steps) == v
  }

  lemma ReachedIsSound(su: Setup, v: World)
    requires Reached(su, v)
    ensures AgentInv(su, v.pushed, v.phase, v.caps)
  {
    var w, steps :| Fresh(w) && Runs(su, w, steps) && After(su, w, steps) == v;
    FreshAgent(su);
    RunKeepsAgent(su, w, steps);
  }

  /** In v the step fires f, the evaluator arms it, and within the same life the run goes on to z. */
  ghost predicate ArmedThen(su: Setup, v: World, step: Step, f: Fire, steps: seq<Step>, z: World) {
    && Enabled(su, v, step)
    && (step == Hit(f) || step == ManualFire(f))
    && Judge(su.cfg, v.caps, f) == Armed
    && Runs(su, Next(su, v, step), steps) && OneLife(steps)
    && z == After(su, Next(su, v, step), steps)
  }

  /** The capture came of the fire that was armed in v. */
  predicate CameOf(v: World, c: Capture) {
    c.id == |v.caps.history| + 1
  }

  /** With how many pushes in all the fire f armed in v is collected. */
  function DueFrom(su: Setup, v: World, f: Fire): nat {
    DueAt(su.cfg, f.seqNo, NextChance(v.pushed, v.phase))
  }

  /**
   A fire of any kind, armed in any reachable state v: at every later moment of
   the same life it is still pending and not overdue, or what is held of it was
   collected the moment it was due, or with what there was when the sampler
   stopped.
  */
  lemma ArmedIsCollectedWhenDue(su: Setup, v: World, step: Step, f: Fire, steps: seq<Step>, z: World)
    requires Reached(su, v) && ArmedThen(su, v, step, f, steps, z)
    ensures forall i :: 0 <= i < |z.caps.held| && CameOf(v, z.caps.held[i]) ==>
                          WhenDue(su, z.pushed, z.phase, z.caps.held[i], f, DueFrom(su, v, f))
    ensures z.caps.pending.Some? && CameOf(v, z.caps.pending.value) ==>
              NextChance(z.pushed, z.phase) <= DueFrom(su, v, f)
  {
    ReachedIsSound(su, v);
    ArmingIsDue(su, v, f);
    StepKeepsAgent(su, v, step);
    RunKeepsDue(su, Next(su, v, step), steps, f, |v.caps.history| + 1, NextChance(v.pushed, v.phase));
  }

  /**
   A manual fire on the sample that is the newest when it is armed, with a
   window that goes on past it and a ring as long as the window: what is held of
   it is exactly its window.
  */
  lemma ManualAtNewestIsExact(su: Setup, v: World, f: Fire, steps: seq<Step>, z: World)
    requires Reached(su, v) && ArmedThen(su, v, ManualFire(f), f, steps, z) && f.seqNo == |v.pushed|
    requires 1 <= su.cfg.post && su.cfg.Window() <= su.capacity
    ensures var first, end := FirstWanted(su.cfg, f.seqNo), Min(f.seqNo + su.cfg.post, |z.pushed|);
            forall i :: 0 <= i < |z.caps.held| && CameOf(v, z.caps.held[i]) ==>
                          && first <= end
                          && z.caps.held[i].entries == z.pushed[first - 1..end]
                          && (end < f.seqNo + su.cfg.post ==> z.phase.Stopped?)
                          && (z.caps.held[i].complete <==> su.cfg.pre < f.seqNo && end == f.seqNo + su.cfg.post)
  {
    ArmedIsCollectedWhenDue(su, v, ManualFire(f), f, steps, z);
  }

  /** Where the newest entries a collection looks at begin, with n pushes in all. */
  function TailStart(su: Setup, n: nat): nat {
    Max(n - Min(su.capacity, su.cfg.Window()), 0)
  }

  /**
   A fire on any number, armed however late: what is held of it, once it was due,
   is its whole window exactly when the entries looked at still reach its first
   sample; and nothing of it is ever held when they begin past its last.
  */
  lemma LateWindowIff(su: Setup, v: World, step: Step, f: Fire, steps: seq<Step>, z: World)
    requires Reached(su, v) && ArmedThen(su, v, step, f, steps, z) && DueFrom(su, v, f) <= |z.pushed|
    ensures forall i :: 0 <= i < |z.caps.held| && CameOf(v, z.caps.held[i]) ==>
                          WholeIff(su, z.pushed, z.caps.held[i], f, DueFrom(su, v, f))
    ensures f.seqNo + su.cfg.post <= TailStart(su, DueFrom(su, v, f)) ==>
              forall i :: 0 <= i < |z.caps.held| ==> !CameOf(v, z.caps.held[i])
  {
    ArmedIsCollectedWhenDue(su, v, step, f, steps, z);
    forall i | 0 <= i < |z.caps.held| && CameOf(v, z.caps.held[i])
      ensures WholeIff(su, z.pushed, z.caps.held[i], f, DueFrom(su, v, f))
    {
      CutIsWholeIff(su, z.pushed, z.caps.held[i], DueFrom(su, v, f));
    }
  }

  /**
   The capture is its whole window exactly when the entries looked at, with n pushes in
   all, reach the first sample.
  */
  ghost predicate WholeIff(su: Setup, pushed: seq<Entry>, c: Capture, f: Fire, n: nat) {
    var first, end := FirstWanted(su.cfg, f.seqNo), f.seqNo + su.cfg.post;
    && first <= end <= |pushed| && TailStart(su, n) < end
    && (c.entries == pushed[first - 1..end] <==> TailStart(su, n) < first)
  }

  lemma CutIsWholeIff(su: Setup, pushed: seq<Entry>, c: Capture, n: nat)
    requires Cut(su, pushed, c, n) && c.fire.seqNo + su.cfg.post <= n
    ensures WholeIff(su, pushed, c, c.fire, n)
  {
    var first, end := FirstWanted(su.cfg, c.fire.seqNo), c.fire.seqNo + su.cfg.post;
    if first - 1 != WindowStart(su, c.fire.seqNo, n) {
      assert |c.entries| < |pushed[first - 1..end]|;
    }
  }

  /**
   The collection of a pending window is refused as empty exactly when the entries looked
   at begin past its last sample.
  */
  lemma RefusedEmptyIff(su: Setup, w: World)
    requires AgentInv(su, w.pushed, w.phase, w.caps) && w.phase.Stored?
    requires w.caps.pending.Some? && w.caps.pending.value.lastSeq <= |w.pushed|
    ensures var z := Next(su, w, AfterPush).caps;
            && z.pending.None?
            && (w.caps.pending.value.lastSeq <= TailStart(su, |w.pushed|) <==>
                  z == w.caps.(pending := None, refused := Bump(w.caps.refused, Empty)))
  {
    CollectedIsExact(su, w.pushed, w.caps.pending.value.fire.seqNo);
    RefusedEmptyOf(su, w, Suffix(Held(w.pushed, su.capacity), su.cfg.Window()));
  }

  lemma RefusedEmptyOf(su: Setup, w: World, tail: seq<Entry>)
    requires AgentInv(su, w.pushed, w.phase, w.caps) && w.caps.pending.Some?
    requires w.caps.pending.value.lastSeq <= |w.pushed|
    requires var f := w.caps.pending.value.fire.seqNo;
             Between(tail, FirstWanted(su.cfg, f), f + su.cfg.post) == AgentLaws.Found(su, w.pushed, f)
    ensures var z := CollectOf(su.cfg, w.caps, tail);
            && z.pending.None?
            && (w.caps.pending.value.lastSeq <= TailStart(su, |w.pushed|) <==>
                  z == w.caps.(pending := None, refused := Bump(w.caps.refused, Empty)))
  {
    var cp := w.caps.pending.value;
    var es := AgentLaws.Found(su, w.pushed, cp.fire.seqNo);
    assert es == [] <==> cp.lastSeq <= TailStart(su, |w.pushed|);
    if es != [] && Place(su.cfg, w.caps.held, es) == Refuse(Budget) {
      assert Bump(w.caps.refused, Budget)[Budget] != Count(w.caps.refused, Budget);
    }
  }
}

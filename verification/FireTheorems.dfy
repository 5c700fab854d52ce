/**
 When a hit of a condition is refused (internal/agent/capture.go): over every run
 from a fresh agent, what becomes of it is said by the markers armed before it
 and by whether a capture is pending.
*/
module FireTheorems {
  import opened Words
  import opened RingSpec
  import opened CaptureSpec
  import opened Pipeline
  import opened AgentLaws
  import opened PipelineTheorems

  /** The sample of the newest marker of a cause. */
  function NewestOf(history: seq<Marker>, c: Cause): Option<U64> {
    if history == [] then None
    else if history[|history| - 1].fire.cause == c then Some(history[|history| - 1].fire.seqNo)
    else NewestOf(history[..|history| - 1], c)
  }

  lemma {:induction false} NewestIsMarker(history: seq<Marker>, c: Cause, n: nat) returns (i: nat)
    requires NewestOf(history, c) == Some(n)
    ensures i < |history| && history[i].fire.cause == c && history[i].fire.seqNo == n
  {
    i := |history| - 1;
    if history[i].fire.cause != c { i := NewestIsMarker(history[..i], c, n); }
  }

  /** What is remembered of a cause is the newest of its fires. */
  ghost predicate RemembersNewest(s: State) {
    forall c :: NewestOf(s.history, c) == if c in s.lastFire then Some(s.lastFire[c]) else None
  }

  lemma FireKeepsNewest(cfg: Config, s: State, f: Fire)
    requires RemembersNewest(s)
    ensures RemembersNewest(FireOf(cfg, s, f))
  {
    var t := FireOf(cfg, s, f);
    if t.history != s.history {
      assert t.history[..|s.history|] == s.history;
      forall c ensures NewestOf(t.history, c) == if c in t.lastFire then Some(t.lastFire[c]) else None {
        assert NewestOf(s.history, c) == if c in s.lastFire then Some(s.lastFire[c]) else None;
      }
    }
  }

  lemma StepKeepsNewest(su: Setup, w: World, step: Step)
    requires Enabled(su, w, step) && RemembersNewest(w.caps)
    ensures RemembersNewest(Next(su, w, step).caps)
  {
    match step
    case Hit(f) => FireKeepsNewest(su.cfg, w.caps, f);
    case ManualFire(f) => FireKeepsNewest(su.cfg, w.caps, f);
    case _ =>
  }

  lemma {:induction false} RunKeepsNewest(su: Setup, w: World, steps: seq<Step>)
    requires RemembersNewest(w.caps) && Runs(su, w, steps)
    ensures RemembersNewest(After(su, w, steps).caps)
    decreases |steps|
  {
    if steps != [] {
      StepKeepsNewest(su, w, steps[0]);
      RunKeepsNewest(su, Next(su, w, steps[0]), steps[1..]);
    }
  }

  // ---- hits

  /** A capture of the same cause was armed less than the refractory window before this sample. */
  ghost predicate FiredLately(cfg: Config, history: seq<Marker>, f: Fire) {
    exists i :: 0 <= i < |history| && history[i].fire.cause == f.cause
                && f.seqNo < history[i].fire.seqNo + cfg.refractory
  }

  lemma RefractoryIff(cfg: Config, pushed: seq<Entry>, phase: Phase, s: State, f: Fire)
    requires Remembered(pushed, phase, s) && RemembersNewest(s) && phase.Sampling? && f.cause.Condition?
    requires f.seqNo == |pushed| + 1
    ensures Judge(cfg, s, f) == Refractory <==> FiredLately(cfg, s.history, f)
  {
    assert NewestOf(s.history, f.cause) == if f.cause in s.lastFire then Some(s.lastFire[f.cause]) else None;
    if f.cause in s.lastFire {
      assert s.lastFire[f.cause] <= f.seqNo;
      var i := NewestIsMarker(s.history, f.cause, s.lastFire[f.cause]);
      if Judge(cfg, s, f) == Refractory { assert f.seqNo < s.history[i].fire.seqNo + cfg.refractory; }
    }
  }

  /** Counted once more under this verdict, and under the others as before. */
  ghost predicate OneMore(s: State, t: State, c: Cause, v: Verdict) {
    forall u :: Count(t.counted, (c, u)) == Count(s.counted, (c, u)) + if u == v then 1 else 0
  }

  /**
   From a fresh agent, whatever interleaves, a condition that hits on the sample
   being evaluated: it counts as refractory exactly when a marker of the same
   condition was armed less than the refractory window before it; otherwise as
   pending exactly when a capture is pending; and otherwise it is armed, with a
   marker of its own and no other change to the markers.
  */
  lemma HitIsJudged(su: Setup, w: World, steps: seq<Step>, f: Fire)
    requires 0 < su.capacity && Fresh(w) && Runs(su, w, steps) && Enabled(su, After(su, w, steps), Hit(f))
    ensures var s := After(su, w, steps).caps;
            var t := Next(su, After(su, w, steps), Hit(f)).caps;
            var lately := exists i :: 0 <= i < |s.history| && s.history[i].fire.cause == f.cause
                                      && f.seqNo < s.history[i].fire.seqNo + su.cfg.refractory;
            if lately then OneMore(s, t, f.cause, Refractory) && t.history == s.history && t.pending == s.pending
            else if s.pending.Some? then
              OneMore(s, t, f.cause, Pending) && t.history == s.history && t.pending == s.pending
            else
              && OneMore(s, t, f.cause, Armed) && t.history == s.history + [Marker(|s.history| + 1, f)]
              && t.pending.Some? && t.pending.value.fire == f && t.pending.value.id == |s.history| + 1
  {
    FreshAgent(su);
    RunKeepsAgent(su, w, steps);
    RunKeepsNewest(su, w, steps);
    var z := After(su, w, steps);
    HitOf(su, z, f);
  }

  lemma HitOf(su: Setup, z: World, f: Fire)
    requires AgentInv(su, z.pushed, z.phase, z.caps) && RemembersNewest(z.caps) && Enabled(su, z, Hit(f))
    ensures var s, t := z.caps, Next(su, z, Hit(f)).caps;
            if FiredLately(su.cfg, s.history, f) then
              OneMore(s, t, f.cause, Refractory) && t.history == s.history && t.pending == s.pending
            else if s.pending.Some? then
              OneMore(s, t, f.cause, Pending) && t.history == s.history && t.pending == s.pending
            else
              && OneMore(s, t, f.cause, Armed) && t.history == s.history + [Marker(|s.history| + 1, f)]
              && t.pending.Some? && t.pending.value.fire == f && t.pending.value.id == |s.history| + 1
  {
    RefractoryIff(su.cfg, z.pushed, z.phase, z.caps, f);
  }

  // ---- fires by hand

  /**
   A fire by hand within the window of the newest one before it, in 64-bit
   arithmetic: a number that is out of date may lie below that one.
  */
  ghost predicate ByHandLately(cfg: Config, history: seq<Marker>, f: Fire) {
    match NewestOf(history, Manual)
    case None => false
    case Some(n) => if n <= f.seqNo then f.seqNo - n < cfg.refractory else TWO_64 - (n - f.seqNo) < cfg.refractory
  }

  /**
   The same for a fire by hand: it is refused within the refractory window of the
   newest one before it, or while a capture is pending.
  */
  lemma ManualIsJudged(su: Setup, w: World, steps: seq<Step>, f: Fire)
    requires Fresh(w) && Runs(su, w, steps) && Enabled(su, After(su, w, steps), ManualFire(f))
    ensures var s := After(su, w, steps).caps;
            var t := Next(su, After(su, w, steps), ManualFire(f)).caps;
            if ByHandLately(su.cfg, s.history, f) then OneMore(s, t, Manual, Refractory) && t.history == s.history
            else if s.pending.Some? then OneMore(s, t, Manual, Pending) && t.history == s.history
            else OneMore(s, t, Manual, Armed) && t.history == s.history + [Marker(|s.history| + 1, f)]
  {
    RunKeepsNewest(su, w, steps);
    ManualOf(su.cfg, After(su, w, steps).caps, f);
  }

  lemma ManualOf(cfg: Config, s: State, f: Fire)
    requires RemembersNewest(s) && f.cause.Manual?
    ensures var t := FireOf(cfg, s, f);
            if ByHandLately(cfg, s.history, f) then OneMore(s, t, Manual, Refractory) && t.history == s.history
            else if s.pending.Some? then OneMore(s, t, Manual, Pending) && t.history == s.history
            else OneMore(s, t, Manual, Armed) && t.history == s.history + [Marker(|s.history| + 1, f)]
  {
    assert NewestOf(s.history, Manual) == if Manual in s.lastFire then Some(s.lastFire[Manual]) else None;
  }

  /**
   Seconds count in samples, at no less than one a second: with the default 5 s before, 5 s after and 10 s of quiet,
   a condition that fired on a sample hits again without being refused from the hundredth sample after it on, at 10 Hz.
  */
  lemma DefaultsAtTenHertz(budget: int, history: seq<Marker>, f: Fire)
    requires budget > 0
    ensures var cfg := Configure(10, 5, 5, 10, budget, "first");
            && cfg == Some(Config(50, 50, 100, budget, false))
            && (FiredLately(cfg.value, history, f) <==>
                  exists i :: 0 <= i < |history| && history[i].fire.cause == f.cause
                              && f.seqNo < history[i].fire.seqNo + 100)
  {}
}

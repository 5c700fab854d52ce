/**
 The agent and its collector as one transition system. A step is one lock
 section of the agent (internal/agent/sampler.go, ring.go, capture.go, http.go)
 or one action of the collector's loop (internal/forward/forward.go), so a run
 is any interleaving of ticks, fires, reads and deliveries.
*/
module Pipeline {
  import opened Words
  import opened RingSpec
  import opened CaptureSpec
  import opened Serve
  import opened ForwardSpec

  datatype Setup = Setup(capacity: nat, cfg: Config)

  /**
   Where the sampler's loop is: waiting for a tick, evaluating the sample it just read,
   about to collect, or ended.
  */
  datatype Phase = Waiting | Sampling(next: Entry) | Stored | Stopped

  /**
   The collector's one outstanding request. A pull reads the batch, then, when
   it missed some samples, the oldest number for the gap line, then the
   markers. A health read takes the newest number, then the oldest.
  */
  datatype Request =
    | Quiet
    | BatchRead(since: nat, batch: seq<Entry>, missed: bool)
    | GapRead(since: nat, batch: seq<Entry>, gap: Option<Gap>)
    | Answered(reply: Reply)
    | NewestRead(newest: nat)
    | HealthRead(health: Health)

  datatype World = World(pushed: seq<Entry>, phase: Phase, caps: State, request: Request, col: Collector)

  datatype Step =
    | Begin(next: Entry)
    | Hit(fire: Fire)
    | Push
    | AfterPush
    | Finalize
    | ManualFire(fire: Fire)
    | Delete(id: nat)
    | ReadBatch(limit: int)
    | ReadGap
    | ReadMarkers
    | Deliver
    | Fail
    | ReadNewest
    | ReadHealth
    | Resync
    | Restart

  predicate Enabled(su: Setup, w: World, step: Step) {
    match step
    case Begin(e) => w.phase.Waiting? && e.seqNo == |w.pushed| + 1 && e.seqNo + 1 < TWO_64
    case Hit(f) => w.phase.Sampling? && f.cause.Condition? && f.seqNo == w.phase.next.seqNo
    case Push => w.phase.Sampling?
    case AfterPush => w.phase.Stored?
    case Finalize => w.phase.Waiting?
    // The newest number is read in a lock section of its own, so it may be out of date when it fires.
    case ManualFire(f) => f.cause.Manual? && f.seqNo <= |w.pushed|
    case Delete(_) => true
    case ReadBatch(_) => w.request.Quiet? && w.col.cursor + 1 < TWO_64
    case ReadGap => w.request.BatchRead? && w.request.missed
    case ReadMarkers => w.request.GapRead? || (w.request.BatchRead? && !w.request.missed)
    case Deliver => w.request.Answered?
    case Fail => !w.request.Quiet?
    case ReadNewest => w.request.Quiet?
    case ReadHealth => w.request.NewestRead?
    case Resync => w.request.HealthRead?
    case Restart => true
  }

  function Next(su: Setup, w: World, step: Step): World
    requires Enabled(su, w, step)
  {
    match step
    case Begin(e) => w.(phase := Sampling(e))
    case Hit(f) => w.(caps := FireOf(su.cfg, w.caps, f))
    case Push => w.(pushed := w.pushed + [w.phase.next], phase := Stored)
    case AfterPush =>
      w.(caps := AfterPushOf(su.cfg, w.caps, Held(w.pushed, su.capacity), |w.pushed|), phase := Waiting)
    // The agent is told to stop: no tick follows, but the ring can still be read.
    case Finalize => w.(caps := FinalizeOf(su.cfg, w.caps, Held(w.pushed, su.capacity)), phase := Stopped)
    case ManualFire(f) => w.(caps := FireOf(su.cfg, w.caps, f))
    case Delete(id) => w.(caps := DeleteOf(w.caps, id))
    case ReadBatch(limit) =>
      var (batch, missed) := SinceOf(w.pushed, su.capacity, w.col.cursor, limit);
      w.(request := BatchRead(w.col.cursor, batch, missed))
    case ReadGap =>
      var r := w.request;
      w.(request := GapRead(r.since, r.batch, GapLine(true, r.since, OldestOf(w.pushed, su.capacity))))
    case ReadMarkers =>
      var r := w.request;
      var gap := if r.GapRead? then r.gap else None;
      w.(request := Answered(Reply(gap, LinesOf(r.batch, Kept(w.caps), r.since))))
    case Deliver => w.(col := PullOf(w.col, Some(w.request.reply)), request := Quiet)
    case Fail => w.(col := PullOf(w.col, None), request := Quiet)
    case ReadNewest => w.(request := NewestRead(LastOf(w.pushed)))
    case ReadHealth => w.(request := HealthRead(Health(w.request.newest, OldestOf(w.pushed, su.capacity))))
    case Resync => w.(col := ResyncOf(w.col, w.request.health), request := Quiet)
    // A request the old agent had not finished fails; an answer already sent may still arrive.
    case Restart =>
      w.(pushed := [], phase := Waiting, caps := INITIAL,
         request := if w.request.Answered? || w.request.HealthRead? then w.request else Quiet)
  }

  predicate Runs(su: Setup, w: World, steps: seq<Step>)
    decreases |steps|
  {
    steps == [] || (Enabled(su, w, steps[0]) && Runs(su, Next(su, w, steps[0]), steps[1..]))
  }

  function After(su: Setup, w: World, steps: seq<Step>): World
    requires Runs(su, w, steps)
    decreases |steps|
  {
    if steps == [] then w else After(su, Next(su, w, steps[0]), steps[1..])
  }

  /** The run stays within one life of the agent. */
  predicate OneLife(steps: seq<Step>) {
    forall i :: 0 <= i < |steps| ==> !steps[i].Restart?
  }
}

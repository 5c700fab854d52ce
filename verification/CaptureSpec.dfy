/**
 Triggered captures (internal/agent/capture.go) as functions on values: what
 one fire, one collection and one deletion do to the state the evaluator keeps,
 each the effect of one lock section.
*/
module CaptureSpec {
  import opened Words
  import opened RingSpec

  /** Sizes in samples and bytes; evictOldest is the policy "last". */
  datatype Config = Config(pre: nat, post: nat, refractory: nat, budget: int, evictOldest: bool) {
    function Window(): nat { pre + post + 1 }
  }

  const MAX_MARKERS: nat := 64

  /** The feature is off without a budget; a policy that is not "last" is "first". */
  function Configure(rateHz: int, preS: nat, postS: nat, refractoryS: nat, budget: int,
                     policy: string): Option<Config> {
    var rate := Max(rateHz, 1);
    if budget <= 0 then None
    else Some(Config(preS * rate, postS * rate, refractoryS * rate, budget, policy == "last"))
  }

  datatype Cause = Condition(name: string) | Manual

  /** One comparison that tripped, on the sample numbered seqNo. */
  datatype Fire = Fire(cause: Cause, threshold: real, field: string, value: real, seqNo: U64, monoNS: int, wallNS: int)

  datatype Marker = Marker(id: nat, fire: Fire)

  datatype Capture = Capture(id: nat, fire: Fire, firstSeq: nat, lastSeq: nat,
                             samples: nat, bytes: nat, complete: bool, entries: seq<Entry>)

  datatype Verdict = Refractory | Pending | Armed
  datatype Refusal = Empty | Budget

  /**
   The evaluator's state. history is every marker ever armed, of which the
   evaluator keeps the last MAX_MARKERS; evicted and deleted count captures
   that left the held list.
  */
  datatype State = State(lastFire: map<Cause, U64>, counted: map<(Cause, Verdict), nat>, refused: map<Refusal, nat>,
                         pending: Option<Capture>, held: seq<Capture>, bytes: int,
                         history: seq<Marker>, evicted: nat, deleted: nat)

  const INITIAL: State := State(map[], map[], map[], None, [], 0, [], 0, 0)

  function Count<K>(m: map<K, nat>, k: K): nat {
    if k in m then m[k] else 0
  }

  function Bump<K>(m: map<K, nat>, k: K): map<K, nat> {
    m[k := Count(m, k) + 1]
  }

  function Judge(cfg: Config, s: State, f: Fire): Verdict {
    if f.cause in s.lastFire && Minus64(f.seqNo, s.lastFire[f.cause]) < cfg.refractory then Refractory
    else if s.pending.Some? then Pending
    else Armed
  }

  /** The capture a fire arms, before anything is collected. */
  function Arm(cfg: Config, id: nat, f: Fire): Capture {
    Capture(id, f, if f.seqNo > cfg.pre then f.seqNo - cfg.pre else 1, f.seqNo + cfg.post, 0, 0, false, [])
  }

  function FireOf(cfg: Config, s: State, f: Fire): State {
    var v := Judge(cfg, s, f);
    var t := s.(counted := Bump(s.counted, (f.cause, v)));
    if v != Armed then t
    else
      var id := |s.history| + 1;
      t.(lastFire := s.lastFire[f.cause := f.seqNo],
         pending := Some(Arm(cfg, id, f)),
         history := s.history + [Marker(id, f)])
  }

  /** The entries of a tail numbered first to last. */
  function Between(tail: seq<Entry>, first: nat, last: nat): seq<Entry> {
    if tail == [] then []
    else if first <= tail[0].seqNo <= last then [tail[0]] + Between(tail[1..], first, last)
    else Between(tail[1..], first, last)
  }

  function LineBytes(es: seq<Entry>): nat {
    if es == [] then 0 else |es[0].line| + LineBytes(es[1..])
  }

  function HeldBytes(held: seq<Capture>): nat {
    if held == [] then 0 else held[0].bytes + HeldBytes(held[1..])
  }

  /** How many of the oldest captures go before the rest fit in room. */
  function Surplus(held: seq<Capture>, room: int): (k: nat)
    ensures k <= |held|
  {
    if held == [] || HeldBytes(held) <= room then 0 else 1 + Surplus(held[1..], room)
  }

  function Filled(cfg: Config, cp: Capture, es: seq<Entry>): Capture
    requires es != []
  {
    cp.(entries := es, bytes := LineBytes(es), samples := |es|,
        firstSeq := es[0].seqNo, lastSeq := es[|es| - 1].seqNo, complete := |es| == cfg.Window())
  }

  /** What a collection with this window makes of the captures already held: how many it evicts, or a refusal. */
  datatype Placement = Keep(dropped: nat) | Refuse(why: Refusal)

  function Place(cfg: Config, held: seq<Capture>, es: seq<Entry>): (p: Placement)
    ensures p.Keep? ==> es != [] && p.dropped <= |held|
  {
    var size := LineBytes(es);
    if es == [] then Refuse(Empty)
    else if size > cfg.budget then Refuse(Budget)
    else if HeldBytes(held) + size <= cfg.budget then Keep(0)
    else if cfg.evictOldest then Keep(Surplus(held, cfg.budget - size))
    else Refuse(Budget)
  }

  /** Collecting the pending capture from the newest entries of the ring. */
  function CollectOf(cfg: Config, s: State, tail: seq<Entry>): State
    requires s.pending.Some?
  {
    var cp := s.pending.value;
    var es := Between(tail, cp.firstSeq, cp.lastSeq);
    match Place(cfg, s.held, es)
    case Refuse(why) => s.(pending := None, refused := Bump(s.refused, why))
    case Keep(k) =>
      var kept := s.held[k..];
      s.(pending := None, held := kept + [Filled(cfg, cp, es)],
         bytes := HeldBytes(kept) + LineBytes(es), evicted := s.evicted + k)
  }

  /** After the sample numbered newest is in the ring: collect once the window has passed. */
  function AfterPushOf(cfg: Config, s: State, held: seq<Entry>, newest: nat): State {
    if s.pending.None? || newest < s.pending.value.lastSeq then s
    else CollectOf(cfg, s, Suffix(held, cfg.Window()))
  }

  function FinalizeOf(cfg: Config, s: State, held: seq<Entry>): State {
    if s.pending.None? then s else CollectOf(cfg, s, Suffix(held, cfg.Window()))
  }

  /** The place of the first held capture with this id, or |held|. */
  function Find(held: seq<Capture>, id: nat): (i: nat)
    ensures i <= |held|
    ensures i < |held| ==> held[i].id == id
    ensures forall j :: 0 <= j < i ==> held[j].id != id
  {
    if held == [] || held[0].id == id then 0 else 1 + Find(held[1..], id)
  }

  function DeleteOf(s: State, id: nat): State {
    var i := Find(s.held, id);
    if i == |s.held| then s
    else s.(held := s.held[..i] + s.held[i + 1..], bytes := s.bytes - s.held[i].bytes, deleted := s.deleted + 1)
  }

  /** The markers fired on samples numbered above after, up to upTo. */
  function InRange(ms: seq<Marker>, after: nat, upTo: nat): seq<Marker> {
    if ms == [] then []
    else if after < ms[0].fire.seqNo <= upTo then [ms[0]] + InRange(ms[1..], after, upTo)
    else InRange(ms[1..], after, upTo)
  }

  function Kept(s: State): seq<Marker> {
    Suffix(s.history, MAX_MARKERS)
  }
}

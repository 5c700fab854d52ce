/**
 The evaluator of internal/agent/capture.go: its fields, updated in place by
 one lock section at a time. Each method is proved to do to the fields what
 CaptureSpec says it does to the state.
*/
module CaptureStore {
  import opened Words
  import opened RingSpec
  import opened Rings
  import opened CaptureSpec
  import opened CaptureLaws

  class Captures {
    const cfg: Config
    var lastFire: map<Cause, U64>
    var counted: map<(Cause, Verdict), nat>
    var refused: map<Refusal, nat>
    var pending: Option<Capture>
    var held: seq<Capture>
    var bytes: int
    var nextID: nat
    var markers: seq<Marker>
    ghost var history: seq<Marker>
    ghost var evicted: nat
    ghost var deleted: nat

    ghost function Now(): State
      reads this
    {
      State(lastFire, counted, refused, pending, held, bytes, history, evicted, deleted)
    }

    ghost predicate Valid()
      reads this
    {
      && cfg.budget > 0
      && bytes == HeldBytes(held)
      && nextID == |history|
      && markers == Kept(Now())
    }

    constructor (cfg: Config)
      requires cfg.budget > 0
      ensures Valid() && Now() == INITIAL && this.cfg == cfg
    {
      this.cfg := cfg;
      lastFire, counted, refused, pending, held, bytes := map[], map[], map[], None, [], 0;
      nextID, markers, history, evicted, deleted := 0, [], [], 0, 0;
    }

    method FireOn(f: Fire)
      requires Valid()
      modifies this
      ensures Valid() && Now() == FireOf(cfg, old(Now()), f)
    {
      if f.cause in lastFire && Minus64(f.seqNo, lastFire[f.cause]) < cfg.refractory {
        counted := Bump(counted, (f.cause, Refractory));
        return;
      }
      if pending.Some? {
        counted := Bump(counted, (f.cause, Pending));
        return;
      }
      ArmOn(f);
    }

    method ArmOn(f: Fire)
      requires Valid() && Judge(cfg, Now(), f) == Armed
      modifies this
      ensures Valid() && Now() == FireOf(cfg, old(Now()), f)
    {
      var first := 1;
      if f.seqNo > cfg.pre {
        first := f.seqNo - cfg.pre;
      }
      lastFire := lastFire[f.cause := f.seqNo];
      counted := Bump(counted, (f.cause, Armed));
      nextID := nextID + 1;
      pending := Some(Capture(nextID, f, first, f.seqNo + cfg.post, 0, 0, false, []));
      KeepMarker(Marker(nextID, f));
    }

    /** One marker more, of which the last 64 are kept. */
    method KeepMarker(m: Marker)
      requires markers == Suffix(history, MAX_MARKERS)
      modifies `markers, `history
      ensures history == old(history) + [m] && markers == Suffix(history, MAX_MARKERS)
    {
      KeepOneMore(history, m);
      markers := markers + [m];
      if |markers| > MAX_MARKERS {
        markers := markers[|markers| - MAX_MARKERS..];
      }
      history := history + [m];
    }

    /** A manual capture fires at the ring's newest sample. */
    method FireManual(ring: Ring, reason: string, monoNS: int, wallNS: int)
      requires Valid() && ring.Valid() && LastOf(ring.pushed) < TWO_64
      modifies this
      ensures Valid()
      ensures Now() == FireOf(cfg, old(Now()), Fire(Manual, 0.0, reason, 0.0, LastOf(ring.pushed), monoNS, wallNS))
    {
      var newest := ring.Last();
      FireOn(Fire(Manual, 0.0, reason, 0.0, newest, monoNS, wallNS));
    }

    method AfterPush(ring: Ring, newest: nat)
      requires Valid() && ring.Valid()
      modifies this
      ensures Valid() && Now() == AfterPushOf(cfg, old(Now()), Held(ring.pushed, ring.buf.Length), newest)
    {
      if pending.None? || newest < pending.value.lastSeq {
        return;
      }
      Collect(ring);
    }

    method Finalize(ring: Ring)
      requires Valid() && ring.Valid()
      modifies this
      ensures Valid() && Now() == FinalizeOf(cfg, old(Now()), Held(ring.pushed, ring.buf.Length))
    {
      if pending.Some? {
        Collect(ring);
      }
    }

    method Collect(ring: Ring)
      requires Valid() && pending.Some? && ring.Valid()
      modifies this
      ensures Valid() && Now() == CollectOf(cfg, old(Now()), Suffix(Held(ring.pushed, ring.buf.Length), cfg.Window()))
    {
      var cp := pending.value;
      var tail := ring.Tail(cfg.Window());
      pending := None;
      var entries := Select(tail, cp.firstSeq, cp.lastSeq);
      Settle(cp, entries);
    }

    /** A window cut out is refused, or held after the evictions the policy allows. */
    method Settle(cp: Capture, entries: seq<Entry>)
      requires bytes == HeldBytes(held)
      modifies this`refused, this`held, this`bytes, this`evicted
      ensures bytes == HeldBytes(held)
      ensures match Place(cfg, old(held), entries)
              case Refuse(why) => refused == Bump(old(refused), why) && held == old(held) && evicted == old(evicted)
              case Keep(k) =>
                && refused == old(refused) && evicted == old(evicted) + k
                && held == old(held)[k..] + [Filled(cfg, cp, entries)]
                && bytes == HeldBytes(old(held)[k..]) + LineBytes(entries)
    {
      if entries == [] {
        refused := Bump(refused, Empty);
        return;
      }
      var size := Weigh(entries);
      if size > cfg.budget {
        refused := Bump(refused, Budget);
        return;
      }
      var room := MakeRoom(size);
      if !room {
        refused := Bump(refused, Budget);
        return;
      }
      HeldBytesAppend(held, [Filled(cfg, cp, entries)]);
      held := held + [Filled(cfg, cp, entries)];
      bytes := bytes + size;
    }

    /** The eviction loop: false when the window is refused instead. */
    method MakeRoom(size: nat) returns (ok: bool)
      requires bytes == HeldBytes(held) && size <= cfg.budget
      modifies this`held, this`bytes, this`evicted
      ensures ok <==> cfg.evictOldest || old(bytes) + size <= cfg.budget
      ensures bytes == HeldBytes(held)
      ensures var k := if ok && old(bytes) + size > cfg.budget then Surplus(old(held), cfg.budget - size) else 0;
              held == old(held)[k..] && evicted == old(evicted) + k
    {
      ghost var k: nat := 0;
      while bytes + size > cfg.budget
        invariant k <= |old(held)| && held == old(held)[k..] && evicted == old(evicted) + k
        invariant bytes == HeldBytes(held)
        invariant 0 < k ==> cfg.evictOldest && old(bytes) + size > cfg.budget
        invariant Surplus(old(held), cfg.budget - size) == k + Surplus(held, cfg.budget - size)
        decreases |held|
      {
        if !cfg.evictOldest || held == [] {
          return false;
        }
        bytes := bytes - held[0].bytes;
        held := held[1..];
        k, evicted := k + 1, evicted + 1;
      }
      return true;
    }

    method Delete(id: nat) returns (found: bool)
      requires Valid()
      modifies this
      ensures Valid() && Now() == DeleteOf(old(Now()), id)
      ensures found <==> exists c :: c in old(held) && c.id == id
    {
      for i := 0 to |held|
        invariant Now() == old(Now()) && Valid()
        invariant forall j :: 0 <= j < i ==> held[j].id != id
      {
        if held[i].id == id {
          HeldBytesWithout(held, i);
          bytes := bytes - held[i].bytes;
          held := held[..i] + held[i + 1..];
          deleted := deleted + 1;
          return true;
        }
      }
      return false;
    }

    method MarkersBetween(after: nat, upTo: nat) returns (out: seq<Marker>)
      requires Valid()
      ensures out == InRange(Kept(Now()), after, upTo)
    {
      out := [];
      for i := 0 to |markers|
        invariant out + InRange(markers[i..], after, upTo) == InRange(markers, after, upTo)
      {
        if after < markers[i].fire.seqNo && markers[i].fire.seqNo <= upTo {
          out := out + [markers[i]];
        }
      }
    }
  }

  /** Keeping the last 64 of the last 64 and one more keeps the last 64. */
  lemma KeepOneMore(history: seq<Marker>, m: Marker)
    ensures var more := Suffix(history, MAX_MARKERS) + [m];
            Suffix(history + [m], MAX_MARKERS) == if |more| > MAX_MARKERS then more[|more| - MAX_MARKERS..] else more
  {}

  /** The entries of the tail that belong to the window. */
  method Select(tail: seq<Entry>, first: nat, last: nat) returns (out: seq<Entry>)
    ensures out == Between(tail, first, last)
  {
    out := [];
    for i := 0 to |tail|
      invariant out + Between(tail[i..], first, last) == Between(tail, first, last)
    {
      if tail[i].seqNo >= first && tail[i].seqNo <= last {
        out := out + [tail[i]];
      }
    }
  }

  method Weigh(entries: seq<Entry>) returns (size: nat)
    ensures size == LineBytes(entries)
  {
    size := 0;
    for i := 0 to |entries|
      invariant size + LineBytes(entries[i..]) == LineBytes(entries)
    {
      size := size + |entries[i].line|;
    }
  }
}

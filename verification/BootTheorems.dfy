/**
 What the reboot detection makes of the calls it gets (internal/derive/derive.go),
 said by the calls alone: which boot changes it notes, when it waits and for how
 long, what it says of the boot log, and when a port flaps.
*/
module BootTheorems {
  import opened Words
  import opened BootSpec

  // ---- changes

  /** The boot ids noted, those not known left out. */
  function Ids(cs: seq<Call>): seq<string> {
    if cs == [] then []
    else
      var c := cs[|cs| - 1];
      Ids(cs[..|cs| - 1]) + if c.NoteBoot? && c.bootID != "" then [c.bootID] else []
  }

  /** How often an id differs from the one before it. */
  function Turns(ids: seq<string>): nat {
    if |ids| < 2 then 0 else Turns(ids[..|ids| - 1]) + if ids[|ids| - 1] != ids[|ids| - 2] then 1 else 0
  }

  /** The id before the last that differs from the one before it. */
  function TurnedFrom(ids: seq<string>): string {
    if |ids| < 2 then "" else if ids[|ids| - 1] != ids[|ids| - 2] then ids[|ids| - 2] else TurnedFrom(ids[..|ids| - 1])
  }

  lemma OneMoreId(ids: seq<string>, id: string)
    ensures Turns(ids + [id]) == Turns(ids) + if ids != [] && id != ids[|ids| - 1] then 1 else 0
    ensures TurnedFrom(ids + [id]) == if ids != [] && id != ids[|ids| - 1] then ids[|ids| - 1] else TurnedFrom(ids)
  {
    var more := ids + [id];
    assert more[..|ids|] == ids && more[|ids|] == id;
    if ids != [] { assert more[|ids| - 1] == ids[|ids| - 1]; }
  }

  lemma {:induction false} KnownIds(cs: seq<Call>)
    ensures forall k :: 0 <= k < |Ids(cs)| ==> Ids(cs)[k] != ""
  {
    if cs != [] { KnownIds(cs[..|cs| - 1]); }
  }

  /** What the state tells of the ids noted, and the count of changes. */
  ghost predicate Tells(b: Boot, noted: nat, ids: seq<string>) {
    && b.id == (if ids == [] then "" else ids[|ids| - 1])
    && noted == Turns(ids)
    && (b.from != "" ==> b.from == TurnedFrom(ids))
  }

  lemma OneMoreTells(b: Boot, noted: nat, ids: seq<string>, id: string)
    requires Tells(b, noted, ids) && id != "" && (ids != [] ==> ids[|ids| - 1] != "")
    ensures Tells(NoteBootOf(b, id), noted + if Changes(b, id) then 1 else 0, ids + [id])
  {
    OneMoreId(ids, id);
  }

  lemma OthersTell(b: Boot, noted: nat, ids: seq<string>, c: Call)
    requires Tells(b, noted, ids) && (c.NoteBoot? ==> c.bootID == "")
    ensures Tells(Next(b, c), noted, ids)
  {}

  /**
   The id known is the last one noted; the changes noted are the places where
   one differs from the one before it; and a pending change is from the id
   before the last such place.
  */
  lemma {:induction false} NotedAreTurns(cs: seq<Call>)
    ensures Tells(After(cs), Noted(cs), Ids(cs))
  {
    if cs != [] {
      var p, c := cs[..|cs| - 1], cs[|cs| - 1];
      NotedAreTurns(p);
      KnownIds(p);
      if c.NoteBoot? && c.bootID != "" {
        OneMoreTells(After(p), Noted(p), Ids(p), c.bootID);
      } else {
        assert Ids(p) + [] == Ids(p);
        OthersTell(After(p), Noted(p), Ids(p), c);
      }
    }
  }

  // ---- waiting for the boot log

  /**
   The boot log was asked for with a change pending, and since then neither
   said anything nor was the change reported.
  */
  ghost predicate AskedAt(cs: seq<Call>, i: nat) {
    && i < |cs| && cs[i].AwaitBootLog? && After(cs[..i]).from != ""
    && forall j :: i < j < |cs| ==> !cs[j].NoteBootLog? && !(cs[j].Sample? && Tries(After(cs[..j]), cs[j].wallNS))
  }

  lemma AskedOneMore(cs: seq<Call>, i: nat)
    requires cs != [] && i + 1 < |cs|
    ensures var p, c := cs[..|cs| - 1], cs[|cs| - 1];
            AskedAt(cs, i) <==> AskedAt(p, i) && !c.NoteBootLog? && !(c.Sample? && Tries(After(p), c.wallNS))
  {
    var n := |cs| - 1;
    var p := cs[..n];
    assert p[..i] == cs[..i];
    forall j | i < j < n ensures p[j] == cs[j] && p[..j] == cs[..j] {}
  }

  lemma {:induction false} WaitIsAsked(cs: seq<Call>)
    requires After(cs).wait
    ensures exists i: nat :: AskedAt(cs, i)
  {
    var n := |cs| - 1;
    var p, c := cs[..n], cs[n];
    WaitingIsForAChange(p);
    if c.AwaitBootLog? && After(p).from != "" {
      assert AskedAt(cs, n);
    } else {
      WaitIsAsked(p);
      var i: nat :| AskedAt(p, i);
      AskedOneMore(cs, i);
    }
  }

  lemma {:induction false} AskedIsWait(cs: seq<Call>, i: nat)
    requires AskedAt(cs, i)
    ensures After(cs).wait
    decreases |cs|
  {
    if i < |cs| - 1 {
      AskedOneMore(cs, i);
      AskedIsWait(cs[..|cs| - 1], i);
      WaitingIsForAChange(cs[..|cs| - 1]);
    }
  }

  /** Waiting, in terms of the calls. */
  lemma WaitIff(cs: seq<Call>)
    ensures After(cs).wait <==> exists i: nat :: AskedAt(cs, i)
  {
    if After(cs).wait { WaitIsAsked(cs); }
    if i: nat :| AskedAt(cs, i) { AskedIsWait(cs, i); }
  }

  /**
   Whether a sample is held back: exactly when the boot log is being waited for and the
   first sample held for the change, if there is one, is less than three minutes
   old and not from the future.
  */
  lemma HeldIff(cs: seq<Call>, now: int)
    requires After(cs).from != ""
    ensures !Tries(After(cs), now) <==>
              && (exists i: nat :: AskedAt(cs, i))
              && (FirstHeld(cs).Some? ==> 0 <= now - FirstHeld(cs).value < 180_000_000_000)
  {
    WaitIff(cs);
    WaitingIsForAChange(cs);
  }

  /** What was said of the boot log last, since a change was reported. */
  function Said(cs: seq<Call>): BootLog {
    if cs == [] then Unsaid
    else
      var p, c := cs[..|cs| - 1], cs[|cs| - 1];
      if c.NoteBootLog? then c.said
      else if c.Sample? && Tries(After(p), c.wallNS) then Unsaid
      else Said(p)
  }

  /**
   What a report says of the boot log: that it came too late when it was still
   waited for, and else what was said of it.
  */
  lemma {:induction false} ReportSays(cs: seq<Call>, now: int)
    ensures After(cs).log == Said(cs)
    ensures Tries(After(cs), now) ==> HeldOf(After(cs), now).log == if After(cs).wait then TooLate else Said(cs)
  {
    if cs != [] {
      ReportSays(cs[..|cs| - 1], now);
    }
  }

  // ---- flapping ports

  /** The name a record's port goes by: the router's own, or the kernel's where the router has none. */
  predicate SamePort(a: Record, b: Record) {
    (if a.rosIface != "" then a.rosIface else a.iface) == (if b.rosIface != "" then b.rosIface else b.iface)
  }

  /** Record s and one seen before it tell of a link transition of one port, at most a minute apart. */
  ghost predicate Follows(ss: seq<Seen>, i: int, s: Seen) {
    && 0 <= i < |ss|
    && ss[i].r.iface != "" && ss[i].r.link
    && SamePort(ss[i].r, s.r)
    && s.now - ss[i].now <= 60_000_000_000
  }

  lemma FollowsIff(ss: seq<Seen>, i: int, s: Seen)
    ensures Follows(ss, i, s) <==> 0 <= i < |ss| && OfPort(ss[i], Port(s.r)) && s.now - ss[i].now <= FLAP_NS
  {}

  /** What record r shows, on top of the links known, is a flap. */
  ghost predicate Flaps(r: Record, prevUS: nat, links: map<string, seq<int>>, now: int) {
    exists a :: a in RecordAttempts(r, prevUS, links, now) && a.rule.name == "link-flap"
  }

  /**
   A flap is tried exactly when a link transition follows another of the same
   port by at most a minute, on a clock that does not go back.
  */
  lemma FlapTriedIff(ss: seq<Seen>, s: Seen, prevUS: nat)
    requires ForwardClock(ss + [s])
    ensures Flaps(s.r, prevUS, LinksSeen(ss), s.now) <==>
              s.r.iface != "" && s.r.link && exists i :: Follows(ss, i, s)
  {
    FlapAttempt(s.r, prevUS, LinksSeen(ss), s.now);
    if Links(s.r) {
      FlapIff(ss, s);
      FollowsAll(ss, s);
    }
  }

  lemma FollowsAll(ss: seq<Seen>, s: Seen)
    ensures (exists i :: Follows(ss, i, s)) <==>
              exists i :: 0 <= i < |ss| && OfPort(ss[i], Port(s.r)) && s.now - ss[i].now <= FLAP_NS
  {
    if i :| Follows(ss, i, s) { FollowsIff(ss, i, s); }
    if i :| 0 <= i < |ss| && OfPort(ss[i], Port(s.r)) && s.now - ss[i].now <= FLAP_NS { FollowsIff(ss, i, s); }
  }

  lemma FlapAttempt(r: Record, prevUS: nat, links: map<string, seq<int>>, now: int)
    ensures Flaps(r, prevUS, links, now) <==> Links(r) && |Joined(links, r, now)| >= 2
  {
    assert |"link-flap"| != |"reboot"|;
    var flap := Attempt(Rule("link-flap", Port(r)), now);
    if Links(r) && |Joined(links, r, now)| >= 2 {
      assert flap in RecordAttempts(r, prevUS, links, now) && flap.rule.name == "link-flap";
    }
  }
}

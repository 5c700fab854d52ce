/**
 Reboot detection (internal/derive/derive.go): a change of the kernel's boot id
 is reported with the next sample, which may be held back while the boot log is
 read. The state machine is a value with one function per call; the theorems
 are about every order of calls, and the class is proved against the functions.
*/
module BootSpec {
  import opened Words

  /** What the detection's message says about the boot log. */
  datatype BootLog = Unsaid | Unreadable | NoLine | Logged(lines: seq<string>) | TooLate

  /** An empty string is an id not known, or no change pending; heldAt 0 is no sample held. */
  datatype Boot = Boot(id: string, from: string, log: BootLog, wait: bool, heldAt: int)

  const BOOT_LOG_HOLD_NS: int := 3 * 60 * 1_000_000_000

  const INITIAL := Boot("", "", Unsaid, false, 0)

  /** The calls the stage receives; a sample carries its wall time. */
  datatype Call = NoteBoot(bootID: string) | AwaitBootLog | NoteBootLog(said: BootLog) | Sample(wallNS: int)

  /** A boot id that differs from a known one: the device booted again. */
  predicate Changes(b: Boot, id: string) {
    id != "" && b.id != "" && id != b.id
  }

  function NoteBootOf(b: Boot, id: string): Boot {
    if id == "" || id == b.id then b
    else if b.id == "" then b.(id := id)
    else b.(id := id, from := b.id)
  }

  function AwaitOf(b: Boot): Boot {
    if b.from != "" then b.(wait := true) else b
  }

  function NoteLogOf(b: Boot, said: BootLog): Boot {
    b.(log := said, wait := false)
  }

  /** Whether a sample at now leaves the detection waiting. */
  predicate Held(b: Boot, now: int) {
    var at := if b.heldAt == 0 then now else b.heldAt;
    b.wait && at <= now < at + BOOT_LOG_HOLD_NS
  }

  /** Whether a sample at now reports the pending change. */
  predicate Tries(b: Boot, now: int) {
    b.from != "" && !Held(b, now)
  }

  function HeldOf(b: Boot, now: int): Boot {
    if !b.wait then b
    else
      var c := if b.heldAt == 0 then b.(heldAt := now) else b;
      if Held(b, now) then c else c.(wait := false, log := TooLate)
  }

  function SampleOf(b: Boot, now: int): Boot {
    if b.from == "" then b
    else if Held(b, now) then HeldOf(b, now)
    else HeldOf(b, now).(from := "", log := Unsaid, heldAt := 0)
  }

  function Next(b: Boot, c: Call): Boot {
    match c
    case NoteBoot(id) => NoteBootOf(b, id)
    case AwaitBootLog => AwaitOf(b)
    case NoteBootLog(said) => NoteLogOf(b, said)
    case Sample(now) => SampleOf(b, now)
  }

  function After(cs: seq<Call>): Boot {
    if cs == [] then INITIAL else Next(After(cs[..|cs| - 1]), cs[|cs| - 1])
  }

  // ---- accounting over a whole run

  /** How many changes were noted. */
  function Noted(cs: seq<Call>): nat {
    if cs == [] then 0
    else
      var b, c := After(cs[..|cs| - 1]), cs[|cs| - 1];
      Noted(cs[..|cs| - 1]) + if c.NoteBoot? && Changes(b, c.bootID) then 1 else 0
  }

  /** How many were noted while another was still pending, and took its place. */
  function Replaced(cs: seq<Call>): nat {
    if cs == [] then 0
    else
      var b, c := After(cs[..|cs| - 1]), cs[|cs| - 1];
      Replaced(cs[..|cs| - 1]) + if c.NoteBoot? && Changes(b, c.bootID) && b.from != "" then 1 else 0
  }

  /** How many were reported. */
  function Tried(cs: seq<Call>): nat {
    if cs == [] then 0
    else
      var b, c := After(cs[..|cs| - 1]), cs[|cs| - 1];
      Tried(cs[..|cs| - 1]) + if c.Sample? && Tries(b, c.wallNS) then 1 else 0
  }

  /** The wall time of the first sample held for the pending change, passing over samples at time 0. */
  function FirstHeld(cs: seq<Call>): Option<int> {
    if cs == [] then None
    else
      var b, c, first := After(cs[..|cs| - 1]), cs[|cs| - 1], FirstHeld(cs[..|cs| - 1]);
      if !c.Sample? || b.from == "" then first
      else if Tries(b, c.wallNS) then None
      else if first.Some? || c.wallNS == 0 then first
      else Some(c.wallNS)
  }

  /** Waiting is always for a change, and only a pending change has a sample held for it. */
  lemma {:induction false} WaitingIsForAChange(cs: seq<Call>)
    ensures After(cs).wait ==> After(cs).from != ""
    ensures After(cs).heldAt == (if FirstHeld(cs).Some? then FirstHeld(cs).value else 0)
    ensures FirstHeld(cs).Some? ==> FirstHeld(cs).value != 0 && After(cs).from != ""
  {
    if cs != [] {
      WaitingIsForAChange(cs[..|cs| - 1]);
    }
  }

  /** Every change noted is reported once, replaced by a later one, or still pending. */
  lemma {:induction false} EveryChangeAccounted(cs: seq<Call>)
    ensures Noted(cs) == Tried(cs) + Replaced(cs) + if After(cs).from != "" then 1 else 0
  {
    if cs != [] { EveryChangeAccounted(cs[..|cs| - 1]); }
  }

  /** Reporting a change leaves nothing behind that could hold or colour the next one. */
  lemma TryingClearsHold(cs: seq<Call>, now: int)
    requires Tries(After(cs), now)
    ensures var b := After(cs + [Sample(now)]); b == Boot(After(cs).id, "", Unsaid, false, 0)
    ensures FirstHeld(cs + [Sample(now)]).None?
  {
    assert (cs + [Sample(now)])[..|cs|] == cs;
  }

  /** A sample that does not report a pending change was held, within the bound of the first held sample. */
  lemma HoldIsBounded(cs: seq<Call>, now: int)
    requires After(cs).from != "" && !Tries(After(cs), now)
    ensures After(cs).wait
    ensures FirstHeld(cs).Some? ==> 0 <= now - FirstHeld(cs).value < BOOT_LOG_HOLD_NS
  {
    WaitingIsForAChange(cs);
  }

  /** Samples at a time other than 0, in order. */
  ghost predicate Clocked(cs: seq<Call>) {
    && (forall i :: 0 <= i < |cs| && cs[i].Sample? ==> cs[i].wallNS != 0)
    && (forall i, j :: 0 <= i <= j < |cs| && cs[i].Sample? && cs[j].Sample? ==> cs[i].wallNS <= cs[j].wallNS)
  }

  /** Sample i was held for the change still pending at the end of cs. */
  ghost predicate HeldAtCall(cs: seq<Call>, i: nat) {
    && i < |cs|
    && cs[i].Sample?
    && After(cs[..i]).from != ""
    && forall j :: i <= j < |cs| && cs[j].Sample? ==> !Tries(After(cs[..j]), cs[j].wallNS)
  }

  lemma {:induction false} PendingStays(cs: seq<Call>, i: nat)
    requires HeldAtCall(cs, i)
    ensures After(cs).from != ""
    ensures cs[i].wallNS != 0 ==> FirstHeld(cs).Some?
    decreases |cs| - i, |cs|
  {
    var n := |cs| - 1;
    var p := cs[..n];
    assert cs[..n] == p;
    if i < n {
      assert p[..i] == cs[..i];
      forall j | i <= j < n && p[j].Sample? ensures !Tries(After(p[..j]), p[j].wallNS) {
        assert p[..j] == cs[..j];
      }
      PendingStays(p, i);
    } else {
      assert cs[..i] == p;
    }
    assert cs[n].Sample? ==> !Tries(After(cs[..n]), cs[n].wallNS);
  }

  lemma {:induction false} FirstIsNoLater(cs: seq<Call>, i: nat)
    requires HeldAtCall(cs, i) && Clocked(cs)
    ensures FirstHeld(cs).Some? && FirstHeld(cs).value <= cs[i].wallNS
    decreases |cs| - i, |cs|
  {
    var n := |cs| - 1;
    var p := cs[..n];
    PendingStays(cs, i);
    if i < n {
      assert p[..i] == cs[..i];
      forall j | i <= j < n && p[j].Sample? ensures !Tries(After(p[..j]), p[j].wallNS) {
        assert p[..j] == cs[..j];
      }
      assert p[i] == cs[i];
      FirstIsNoLater(p, i);
    } else {
      FirstIsASample(p);
    }
  }

  lemma {:induction false} FirstIsASample(cs: seq<Call>)
    ensures FirstHeld(cs).Some? ==> exists k :: 0 <= k < |cs| && cs[k].Sample? && cs[k].wallNS == FirstHeld(cs).value
  {
    if cs != [] {
      var n := |cs| - 1;
      FirstIsASample(cs[..n]);
      if FirstHeld(cs).Some? && FirstHeld(cs) == FirstHeld(cs[..n]) {
        var k :| 0 <= k < n && cs[..n][k].Sample? && cs[..n][k].wallNS == FirstHeld(cs).value;
        assert cs[k].wallNS == FirstHeld(cs).value;
      }
    }
  }

  /**
   On a clock that does not go back or stand at 0: of any two samples held for the same change, the
   later is less than the bound after the earlier.
  */
  lemma HeldLessThanBound(cs: seq<Call>, i: nat, now: int)
    requires Clocked(cs + [Sample(now)]) && HeldAtCall(cs, i) && !Tries(After(cs), now)
    ensures 0 <= now - cs[i].wallNS < BOOT_LOG_HOLD_NS
  {
    var ds := cs + [Sample(now)];
    assert ds[|cs|] == Sample(now) && ds[i] == cs[i];
    assert Clocked(cs) by {
      forall a | 0 <= a < |cs| && cs[a].Sample? ensures cs[a].wallNS != 0 { assert ds[a] == cs[a]; }
      forall a, b | 0 <= a <= b < |cs| && cs[a].Sample? && cs[b].Sample? ensures cs[a].wallNS <= cs[b].wallNS {
        assert ds[a] == cs[a] && ds[b] == cs[b];
      }
    }
    PendingStays(cs, i);
    FirstIsNoLater(cs, i);
    HoldIsBounded(cs, now);
    FirstIsASample(cs);
  }

  /** Why time 0 is excepted: a hold that starts at it has no start, and outlives the bound. */
  lemma HoldOutlivesBoundIff(b: Boot, t0: int, now: int)
    requires b.from != "" && b.wait && b.heldAt == 0 && now >= t0 + BOOT_LOG_HOLD_NS
    ensures Held(b, t0)
    ensures Held(SampleOf(b, t0), now) <==> t0 == 0
  {}

  // ---- the refractory window

  /** A rule, and what it is about: the window is kept for each of the two together. */
  datatype Rule = Rule(name: string, key: string)

  const REBOOT := Rule("reboot", "")
  const RESTART := Rule("agent-restart", "")

  datatype Attempt = Attempt(rule: Rule, wallNS: int)

  predicate Withheld(lastFire: map<Rule, int>, a: Attempt, refractoryNS: int) {
    a.rule in lastFire && a.wallNS - lastFire[a.rule] < refractoryNS
  }

  /** The detections let through, of all the attempts. */
  function Accepted(attempts: seq<Attempt>, refractoryNS: int): seq<Attempt> {
    if attempts == [] then []
    else
      var p, a := attempts[..|attempts| - 1], attempts[|attempts| - 1];
      Accepted(p, refractoryNS) + if Withheld(LastFire(p, refractoryNS), a, refractoryNS) then [] else [a]
  }

  function LastFire(attempts: seq<Attempt>, refractoryNS: int): map<Rule, int> {
    if attempts == [] then map[]
    else
      var p, a := attempts[..|attempts| - 1], attempts[|attempts| - 1];
      if Withheld(LastFire(p, refractoryNS), a, refractoryNS) then LastFire(p, refractoryNS)
      else LastFire(p, refractoryNS)[a.rule := a.wallNS]
  }

  /** Two detections of one rule are at least the refractory window apart. */
  ghost predicate Spaced(acc: seq<Attempt>, refractoryNS: int) {
    forall i, j :: 0 <= i < j < |acc| && acc[i].rule == acc[j].rule ==> acc[j].wallNS - acc[i].wallNS >= refractoryNS
  }

  /** The last detection of every rule is what the map remembers. */
  ghost predicate Remembers(lastFire: map<Rule, int>, acc: seq<Attempt>) {
    && (forall i :: 0 <= i < |acc| ==> acc[i].rule in lastFire && acc[i].wallNS <= lastFire[acc[i].rule])
    && (forall r :: r in lastFire ==> exists i :: 0 <= i < |acc| && acc[i] == Attempt(r, lastFire[r]))
  }

  lemma RemembersOneMore(lastFire: map<Rule, int>, acc: seq<Attempt>, a: Attempt)
    requires Remembers(lastFire, acc) && (a.rule in lastFire ==> lastFire[a.rule] <= a.wallNS)
    ensures Remembers(lastFire[a.rule := a.wallNS], acc + [a])
  {
    var more, lf := acc + [a], lastFire[a.rule := a.wallNS];
    forall r | r in lf ensures exists i :: 0 <= i < |more| && more[i] == Attempt(r, lf[r]) {
      if r == a.rule {
        assert more[|acc|] == Attempt(r, lf[r]);
      } else {
        var i :| 0 <= i < |acc| && acc[i] == Attempt(r, lastFire[r]);
        assert more[i] == Attempt(r, lf[r]);
      }
    }
  }

  /** Whatever the clock does, detections of one rule are spaced, and none is withheld without a recent one. */
  lemma {:induction false} DetectionsAreSpaced(attempts: seq<Attempt>, refractoryNS: int)
    requires refractoryNS > 0
    ensures Spaced(Accepted(attempts, refractoryNS), refractoryNS)
    ensures Remembers(LastFire(attempts, refractoryNS), Accepted(attempts, refractoryNS))
  {
    if attempts != [] {
      var p, a := attempts[..|attempts| - 1], attempts[|attempts| - 1];
      DetectionsAreSpaced(p, refractoryNS);
      var acc, lf := Accepted(p, refractoryNS), LastFire(p, refractoryNS);
      if !Withheld(lf, a, refractoryNS) {
        RemembersOneMore(lf, acc, a);
        SpacedOneMore(acc, a, lf, refractoryNS);
      } else {
        assert acc + [] == acc;
      }
    }
  }

  lemma SpacedOneMore(acc: seq<Attempt>, a: Attempt, lastFire: map<Rule, int>, refractoryNS: int)
    requires Spaced(acc, refractoryNS) && Remembers(lastFire, acc) && !Withheld(lastFire, a, refractoryNS)
    ensures Spaced(acc + [a], refractoryNS)
  {}

  /** A detection of a's rule was let through less than the window before a. */
  ghost predicate RecentlyFired(acc: seq<Attempt>, a: Attempt, refractoryNS: int) {
    exists i :: 0 <= i < |acc| && acc[i].rule == a.rule && a.wallNS - acc[i].wallNS < refractoryNS
  }

  lemma WithheldIffBlocked(lastFire: map<Rule, int>, acc: seq<Attempt>, a: Attempt, refractoryNS: int)
    requires Remembers(lastFire, acc)
    ensures Withheld(lastFire, a, refractoryNS) <==> RecentlyFired(acc, a, refractoryNS)
  {
    if Withheld(lastFire, a, refractoryNS) {
      var i :| 0 <= i < |acc| && acc[i] == Attempt(a.rule, lastFire[a.rule]);
      assert acc[i].rule == a.rule;
    }
    if RecentlyFired(acc, a, refractoryNS) {
      var i :| 0 <= i < |acc| && acc[i].rule == a.rule && a.wallNS - acc[i].wallNS < refractoryNS;
      assert acc[i].wallNS <= lastFire[acc[i].rule];
    }
  }

  /** An attempt is withheld exactly when a detection of its rule was let through less than the window before it. */
  lemma WithheldIff(attempts: seq<Attempt>, a: Attempt, refractoryNS: int)
    requires refractoryNS > 0
    ensures Withheld(LastFire(attempts, refractoryNS), a, refractoryNS)
       <==> RecentlyFired(Accepted(attempts, refractoryNS), a, refractoryNS)
  {
    DetectionsAreSpaced(attempts, refractoryNS);
    WithheldIffBlocked(LastFire(attempts, refractoryNS), Accepted(attempts, refractoryNS), a, refractoryNS);
  }

  // ---- the kernel log

  /**
   A kernel-log record: its time, the interface it is about, the router's name for it,
   and whether it tells of a link up or down.
  */
  datatype Record = Record(timeUS: nat, iface: string, rosIface: string, link: bool)

  const FLAP_NS: int := 60 * 1_000_000_000

  predicate Links(r: Record) {
    r.iface != "" && r.link
  }

  function Port(r: Record): string {
    if r.rosIface == "" then r.iface else r.rosIface
  }

  function HistOf(links: map<string, seq<int>>, port: string): seq<int> {
    if port in links then links[port] else []
  }

  /** The transitions of a record's port, with the record's own. */
  function Joined(links: map<string, seq<int>>, r: Record, now: int): seq<int> {
    DropOld(HistOf(links, Port(r)) + [now], now, FLAP_NS)
  }

  function LinksAfter(links: map<string, seq<int>>, r: Record, now: int): map<string, seq<int>> {
    if Links(r) then links[Port(r) := Joined(links, r, now)] else links
  }

  /**
   What one record shows: a reboot, when it is earlier than the one before it; a flapping
   port, at its second transition in a minute.
  */
  function RecordAttempts(r: Record, prevUS: nat, links: map<string, seq<int>>, now: int): seq<Attempt> {
    (if 0 < prevUS && r.timeUS < prevUS then [Attempt(REBOOT, now)] else [])
    + (if Links(r) && |Joined(links, r, now)| >= 2 then [Attempt(Rule("link-flap", Port(r)), now)] else [])
  }

  /** The time of the last record, or the one known before. */
  function PrevKmsg(events: seq<Record>, prevUS: nat): nat {
    if events == [] then prevUS else events[|events| - 1].timeUS
  }

  function LinksRun(events: seq<Record>, links: map<string, seq<int>>, now: int): map<string, seq<int>> {
    if events == [] then links
    else LinksAfter(LinksRun(events[..|events| - 1], links, now), events[|events| - 1], now)
  }

  /** What a sample's records show, one after another. */
  function KmsgAttempts(events: seq<Record>, prevUS: nat, links: map<string, seq<int>>, now: int): seq<Attempt> {
    if events == [] then []
    else
      var p, r := events[..|events| - 1], events[|events| - 1];
      KmsgAttempts(p, prevUS, links, now) + RecordAttempts(r, PrevKmsg(p, prevUS), LinksRun(p, links, now), now)
  }

  lemma OneRecordMore(p: seq<Record>, r: Record, prevUS: nat, links: map<string, seq<int>>, now: int)
    ensures PrevKmsg(p + [r], prevUS) == r.timeUS
    ensures LinksRun(p + [r], links, now) == LinksAfter(LinksRun(p, links, now), r, now)
    ensures KmsgAttempts(p + [r], prevUS, links, now)
         == KmsgAttempts(p, prevUS, links, now) + RecordAttempts(r, PrevKmsg(p, prevUS), LinksRun(p, links, now), now)
  {
    assert (p + [r])[..|p|] == p;
  }

  /** How many of the attempts are of a reboot. */
  function Reboots(attempts: seq<Attempt>): nat {
    if attempts == [] then 0
    else Reboots(attempts[..|attempts| - 1]) + if attempts[|attempts| - 1].rule == REBOOT then 1 else 0
  }

  lemma {:induction false} RebootsJoin(a: seq<Attempt>, b: seq<Attempt>)
    ensures Reboots(a + b) == Reboots(a) + Reboots(b)
  {
    if b == [] {
      assert a + b == a;
    } else {
      assert (a + b)[..|a + b| - 1] == a + b[..|b| - 1];
      RebootsJoin(a, b[..|b| - 1]);
    }
  }

  lemma RebootsOne(a: Attempt)
    ensures Reboots([a]) == if a.rule == REBOOT then 1 else 0
  {
    assert [a][..0] == [];
  }

  lemma FlapIsNoReboot(port: string)
    ensures Rule("link-flap", port) != REBOOT
  {
    assert |"link-flap"| != |"reboot"|;
  }

  /** What may be tried first is a reboot or nothing, and then a flap or nothing. */
  lemma RebootsOfTwo(reboot: seq<Attempt>, flap: seq<Attempt>, now: int, port: string)
    requires reboot == [] || reboot == [Attempt(REBOOT, now)]
    requires flap == [] || flap == [Attempt(Rule("link-flap", port), now)]
    ensures Reboots(reboot + flap) == |reboot|
  {
    RebootsJoin(reboot, flap);
    RebootsOne(Attempt(REBOOT, now));
    RebootsOne(Attempt(Rule("link-flap", port), now));
    FlapIsNoReboot(port);
  }

  lemma RecordReboots(r: Record, prevUS: nat, links: map<string, seq<int>>, now: int)
    ensures Reboots(RecordAttempts(r, prevUS, links, now)) == if 0 < prevUS && r.timeUS < prevUS then 1 else 0
  {
    RebootsOfTwo(if 0 < prevUS && r.timeUS < prevUS then [Attempt(REBOOT, now)] else [],
                 if Links(r) && |Joined(links, r, now)| >= 2 then [Attempt(Rule("link-flap", Port(r)), now)] else [],
                 now, Port(r));
  }

  ghost predicate Rising(events: seq<Record>) {
    forall i, j :: 0 <= i <= j < |events| ==> events[i].timeUS <= events[j].timeUS
  }

  ghost predicate Timed(events: seq<Record>) {
    forall i :: 0 <= i < |events| ==> events[i].timeUS > 0
  }

  /** The records are in order, and none is before the last one known. */
  ghost predicate InOrderFrom(events: seq<Record>, prevUS: nat) {
    Rising(events) && (events != [] ==> prevUS <= events[0].timeUS)
  }

  lemma InOrderSplit(events: seq<Record>, prevUS: nat)
    requires events != []
    ensures var n := |events| - 1;
            InOrderFrom(events, prevUS) <==>
              InOrderFrom(events[..n], prevUS) && PrevKmsg(events[..n], prevUS) <= events[n].timeUS
  {
    var n := |events| - 1;
    var p := events[..n];
    if InOrderFrom(p, prevUS) && PrevKmsg(p, prevUS) <= events[n].timeUS {
      forall i, j | 0 <= i <= j < |events| ensures events[i].timeUS <= events[j].timeUS {
        if j < n { assert p[i].timeUS <= p[j].timeUS; } else if i < n { assert p[i].timeUS <= p[n - 1].timeUS; }
      }
    }
    if InOrderFrom(events, prevUS) {
      assert forall i, j :: 0 <= i <= j < |p| ==> p[i].timeUS <= p[j].timeUS;
      if n > 0 { assert events[n - 1].timeUS <= events[n].timeUS; }
    }
  }

  /** Records in order after the last one known show no reboot, and only those do. */
  lemma {:induction false} NoRebootIff(events: seq<Record>, prevUS: nat, links: map<string, seq<int>>, now: int)
    requires Timed(events)
    ensures Reboots(KmsgAttempts(events, prevUS, links, now)) == 0 <==> InOrderFrom(events, prevUS)
  {
    if events != [] {
      var n := |events| - 1;
      var p := events[..n];
      assert Timed(p);
      NoRebootIff(p, prevUS, links, now);
      RecordReboots(events[n], PrevKmsg(p, prevUS), LinksRun(p, links, now), now);
      RebootsJoin(KmsgAttempts(p, prevUS, links, now),
                  RecordAttempts(events[n], PrevKmsg(p, prevUS), LinksRun(p, links, now), now));
      InOrderSplit(events, prevUS);
    }
  }

  // ---- a reboot, over the samples that follow

  /** One sample: its wall time and its kernel-log records. */
  datatype Batch = Batch(wallNS: int, records: seq<Record>)

  function BootAfter(b: Boot, ss: seq<Batch>, n: nat): Boot
    requires n <= |ss|
  {
    if n == 0 then b else SampleOf(BootAfter(b, ss, n - 1), ss[n - 1].wallNS)
  }

  function Records(ss: seq<Batch>, n: nat): seq<Record>
    requires n <= |ss|
  {
    if n == 0 then [] else Records(ss, n - 1) + ss[n - 1].records
  }

  function LinksOver(ss: seq<Batch>, n: nat, links: map<string, seq<int>>): map<string, seq<int>>
    requires n <= |ss|
  {
    if n == 0 then links else LinksRun(ss[n - 1].records, LinksOver(ss, n - 1, links), ss[n - 1].wallNS)
  }

  /** What sample s tries, after those before it. */
  function SampleAttempts(b: Boot, prevUS: nat, links: map<string, seq<int>>, s: Batch): seq<Attempt> {
    (if Tries(b, s.wallNS) then [Attempt(REBOOT, s.wallNS)] else []) + KmsgAttempts(s.records, prevUS, links, s.wallNS)
  }

  /** What the first n samples try in turn, by the boot change and by the kernel log. */
  function RunAttempts(b: Boot, prevUS: nat, links: map<string, seq<int>>, ss: seq<Batch>, n: nat): seq<Attempt>
    requires n <= |ss|
  {
    if n == 0 then []
    else
      RunAttempts(b, prevUS, links, ss, n - 1)
      + SampleAttempts(BootAfter(b, ss, n - 1), PrevKmsg(Records(ss, n - 1), prevUS), LinksOver(ss, n - 1, links),
                       ss[n - 1])
  }

  lemma InOrderJoin(a: seq<Record>, b: seq<Record>, t: seq<Record>, prevUS: nat)
    requires t == a + b && InOrderFrom(t, prevUS) && Timed(t)
    ensures InOrderFrom(a, prevUS) && InOrderFrom(b, PrevKmsg(a, prevUS)) && Timed(a) && Timed(b)
  {
    assert forall i :: 0 <= i < |a| ==> a[i] == t[i];
    assert forall i :: 0 <= i < |b| ==> b[i] == t[|a| + i];
    forall i, j | 0 <= i <= j < |b| ensures b[i].timeUS <= b[j].timeUS {
      assert t[|a| + i].timeUS <= t[|a| + j].timeUS;
    }
    if a != [] && b != [] { assert t[|a| - 1].timeUS <= t[|a|].timeUS; }
  }

  lemma SampleReboots(b: Boot, prevUS: nat, links: map<string, seq<int>>, s: Batch)
    requires Timed(s.records) && InOrderFrom(s.records, prevUS)
    ensures Reboots(SampleAttempts(b, prevUS, links, s)) == if Tries(b, s.wallNS) then 1 else 0
  {
    NoRebootIff(s.records, prevUS, links, s.wallNS);
    RebootsJoin(if Tries(b, s.wallNS) then [Attempt(REBOOT, s.wallNS)] else [],
                KmsgAttempts(s.records, prevUS, links, s.wallNS));
    RebootsOne(Attempt(REBOOT, s.wallNS));
  }

  /** A sample tries a pending change and ends it, or leaves it pending; without one it does nothing. */
  lemma TriedIsOver(b: Boot, now: int)
    ensures (SampleOf(b, now).from == "") <==> (b.from == "" || Tries(b, now))
    ensures b.from == "" ==> !Tries(b, now)
  {}

  /** One sample more, after attempts that hold the reboot if it was tried. */
  lemma OneSampleMore(before: seq<Attempt>, b: Boot, prevUS: nat, links: map<string, seq<int>>, s: Batch)
    requires Timed(s.records) && InOrderFrom(s.records, prevUS)
    requires Reboots(before) == if b.from == "" then 1 else 0
    ensures Reboots(before + SampleAttempts(b, prevUS, links, s)) == if SampleOf(b, s.wallNS).from == "" then 1 else 0
  {
    SampleReboots(b, prevUS, links, s);
    RebootsJoin(before, SampleAttempts(b, prevUS, links, s));
    TriedIsOver(b, s.wallNS);
  }

  /** The records of the first n samples have times, in order. */
  ghost predicate Orderly(ss: seq<Batch>, n: nat)
    requires n <= |ss|
  {
    Timed(Records(ss, n)) && Rising(Records(ss, n))
  }

  lemma OrderlyBefore(ss: seq<Batch>, n: nat)
    requires 0 < n <= |ss| && Orderly(ss, n)
    ensures Orderly(ss, n - 1)
    ensures Timed(ss[n - 1].records) && InOrderFrom(ss[n - 1].records, PrevKmsg(Records(ss, n - 1), 0))
  {
    InOrderJoin(Records(ss, n - 1), ss[n - 1].records, Records(ss, n), 0);
  }

  /** Of the first n samples one tried the reboot, if it is no longer pending, and otherwise none. */
  ghost predicate TriedOnce(b: Boot, links: map<string, seq<int>>, ss: seq<Batch>, n: nat)
    requires n <= |ss|
  {
    Reboots(RunAttempts(b, 0, links, ss, n)) == if BootAfter(b, ss, n).from == "" then 1 else 0
  }

  lemma OneBatchMore(b: Boot, links: map<string, seq<int>>, ss: seq<Batch>, k: nat, boot: Boot, prevUS: nat)
    requires k < |ss| && boot == BootAfter(b, ss, k) && prevUS == PrevKmsg(Records(ss, k), 0)
    requires Timed(ss[k].records) && InOrderFrom(ss[k].records, prevUS) && TriedOnce(b, links, ss, k)
    ensures TriedOnce(b, links, ss, k + 1)
  {
    OneSampleMore(RunAttempts(b, 0, links, ss, k), boot, prevUS, LinksOver(ss, k, links), ss[k]);
  }

  /**
   A boot change noted makes the kernel log's clock start afresh. Over all the
   samples that follow, as long as the new boot's records are in order and no
   other change is noted, the reboot is tried exactly once, or not yet.
  */
  lemma {:induction false} OneRebootOnce(b: Boot, links: map<string, seq<int>>, ss: seq<Batch>, n: nat)
    requires n <= |ss| && b.from != "" && Orderly(ss, n)
    ensures TriedOnce(b, links, ss, n)
  {
    if n > 0 {
      OrderlyBefore(ss, n);
      OneRebootOnce(b, links, ss, n - 1);
      OneBatchMore(b, links, ss, n - 1, BootAfter(b, ss, n - 1), PrevKmsg(Records(ss, n - 1), 0));
    }
  }

  // ---- a flapping port

  /** A record and the wall time of its sample. */
  datatype Seen = Seen(r: Record, now: int)

  function LinksSeen(ss: seq<Seen>): map<string, seq<int>> {
    if ss == [] then map[] else LinksAfter(LinksSeen(ss[..|ss| - 1]), ss[|ss| - 1].r, ss[|ss| - 1].now)
  }

  ghost predicate ForwardClock(ss: seq<Seen>) {
    forall i, j :: 0 <= i <= j < |ss| ==> ss[i].now <= ss[j].now
  }

  ghost predicate Sorted(hist: seq<int>) {
    forall i, j :: 0 <= i <= j < |hist| ==> hist[i] <= hist[j]
  }

  predicate OfPort(s: Seen, port: string) {
    Links(s.r) && Port(s.r) == port
  }

  /** The newest time kept is that of the port's last transition. */
  ghost predicate KeepsLast(ss: seq<Seen>, port: string, hist: seq<int>) {
    && Sorted(hist)
    && (forall i :: 0 <= i < |ss| && OfPort(ss[i], port) ==> hist != [] && ss[i].now <= hist[|hist| - 1])
    && (hist != [] ==> exists i :: 0 <= i < |ss| && OfPort(ss[i], port) && ss[i].now == hist[|hist| - 1])
  }

  /** Trimming a history in order keeps the newest, and one more exactly when that is at most a minute old. */
  lemma {:induction false} TrimmedKeeps(hist: seq<int>, now: int)
    requires Sorted(hist) && (hist != [] ==> hist[|hist| - 1] <= now)
    ensures var t := DropOld(hist + [now], now, FLAP_NS);
            && Sorted(t) && t != [] && t[|t| - 1] == now
            && (|t| >= 2 <==> hist != [] && now - hist[|hist| - 1] <= FLAP_NS)
  {
    if hist == [] {
      assert hist + [now] == [now];
    } else if now - hist[0] > FLAP_NS {
      assert (hist + [now])[1..] == hist[1..] + [now];
      TrimmedKeeps(hist[1..], now);
    }
  }

  lemma KeepsLastStep(ss: seq<Seen>, s: Seen, port: string, hist: seq<int>)
    requires KeepsLast(ss, port, hist) && ForwardClock(ss + [s]) && OfPort(s, port)
    ensures KeepsLast(ss + [s], port, DropOld(hist + [s.now], s.now, FLAP_NS))
  {
    var more, t := ss + [s], DropOld(hist + [s.now], s.now, FLAP_NS);
    assert forall i :: 0 <= i < |ss| ==> more[i] == ss[i];
    assert more[|ss|] == s;
    if hist != [] {
      var i :| 0 <= i < |ss| && OfPort(ss[i], port) && ss[i].now == hist[|hist| - 1];
      assert more[i].now <= more[|ss|].now;
    }
    TrimmedKeeps(hist, s.now);
    forall i | 0 <= i < |more| && OfPort(more[i], port) ensures more[i].now <= t[|t| - 1] {
      assert more[i].now <= more[|ss|].now;
    }
  }

  lemma KeepsLastSkip(ss: seq<Seen>, s: Seen, port: string, hist: seq<int>)
    requires KeepsLast(ss, port, hist) && !OfPort(s, port)
    ensures KeepsLast(ss + [s], port, hist)
  {
    var more := ss + [s];
    assert forall i :: 0 <= i < |ss| ==> more[i] == ss[i];
    if hist != [] {
      var i :| 0 <= i < |ss| && OfPort(ss[i], port) && ss[i].now == hist[|hist| - 1];
      assert more[i] == ss[i];
    }
  }

  lemma {:induction false} HistoryKeepsLast(ss: seq<Seen>, port: string)
    requires ForwardClock(ss)
    ensures KeepsLast(ss, port, HistOf(LinksSeen(ss), port))
  {
    if ss != [] {
      var n := |ss| - 1;
      var p, s := ss[..n], ss[n];
      assert ss == p + [s];
      HistoryKeepsLast(p, port);
      if OfPort(s, port) {
        KeepsLastStep(p, s, port, HistOf(LinksSeen(p), port));
      } else {
        KeepsLastSkip(p, s, port, HistOf(LinksSeen(p), port));
      }
    }
  }

  /**
   On a clock that does not go back, a transition shows a flapping port exactly when the
   port had another one at most a minute before.
  */
  lemma FlapIff(ss: seq<Seen>, s: Seen)
    requires ForwardClock(ss + [s]) && Links(s.r)
    ensures |Joined(LinksSeen(ss), s.r, s.now)| >= 2
       <==> exists i :: 0 <= i < |ss| && OfPort(ss[i], Port(s.r)) && s.now - ss[i].now <= FLAP_NS
  {
    var more, port := ss + [s], Port(s.r);
    assert forall i :: 0 <= i < |ss| ==> more[i] == ss[i];
    assert more[|ss|] == s;
    HistoryKeepsLast(ss, port);
    var hist := HistOf(LinksSeen(ss), port);
    if hist != [] {
      var i :| 0 <= i < |ss| && OfPort(ss[i], port) && ss[i].now == hist[|hist| - 1];
      assert more[i].now <= more[|ss|].now;
    }
    TrimmedKeeps(hist, s.now);
  }
}

module BootHold {
  import opened Words
  import opened BootSpec

  /** The times from the first one on that is at most a minute before now. */
  method CutOld(hist: seq<int>, now: int) returns (kept: seq<int>)
    ensures kept == DropOld(hist, now, FLAP_NS)
  {
    var cut := 0;
    while cut < |hist| && now - hist[cut] > FLAP_NS
      invariant cut <= |hist| && DropOld(hist, now, FLAP_NS) == DropOld(hist[cut..], now, FLAP_NS)
    {
      cut := cut + 1;
    }
    kept := hist[cut..];
  }

  /** The reboot and link part of the derive stage. */
  class Stage {
    const refractoryNS: int
    var prevSeq: nat
    var prevKmsgUS: nat
    var linkEvents: map<string, seq<int>>
    var bootID: string
    var bootSame: bool
    var bootFrom: string
    var bootLog: BootLog
    var bootLogWait: bool
    var bootHeldAt: int
    var lastFire: map<Rule, int>
    var suppressed: nat
    ghost var attempts: seq<Attempt>

    function State(): Boot
      reads this
    {
      Boot(bootID, bootFrom, bootLog, bootLogWait, bootHeldAt)
    }

    ghost predicate Valid()
      reads this
    {
      && refractoryNS > 0
      && lastFire == LastFire(attempts, refractoryNS)
      && suppressed + |Accepted(attempts, refractoryNS)| == |attempts|
    }

    constructor (refractoryNS: int)
      ensures Valid() && State() == INITIAL && attempts == [] && prevSeq == 0 && prevKmsgUS == 0 && linkEvents == map[]
      ensures !bootSame
      ensures this.refractoryNS == if refractoryNS <= 0 then 10_000_000_000 else refractoryNS
    {
      this.refractoryNS := if refractoryNS <= 0 then 10_000_000_000 else refractoryNS;
      prevSeq, prevKmsgUS, linkEvents, bootSame := 0, 0, map[], false;
      bootID, bootFrom, bootLog, bootLogWait, bootHeldAt := "", "", Unsaid, false, 0;
      lastFire, suppressed, attempts := map[], 0, [];
    }

    method NoteBoot(id: string) returns (prev: string, changed: bool)
      requires Valid()
      modifies `bootID, `bootSame, `bootFrom, `prevKmsgUS
      ensures Valid() && State() == NoteBootOf(old(State()), id)
      ensures changed <==> Changes(old(State()), id)
      ensures changed ==> prev == old(bootID)
      ensures bootSame <==> id != "" && id == old(bootID)
      ensures prevKmsgUS == if changed then 0 else old(prevKmsgUS)
    {
      bootSame := id != "" && id == bootID;
      if id == "" || id == bootID { return bootID, false; }
      prev, bootID := bootID, id;
      if prev == "" { return "", false; }
      bootFrom := prev;
      prevKmsgUS := 0;
      return prev, true;
    }

    method AwaitLog()
      requires Valid()
      modifies `bootLogWait
      ensures Valid() && State() == AwaitOf(old(State()))
    {
      if bootFrom != "" { bootLogWait := true; }
    }

    method NoteLog(lines: seq<string>, failed: bool)
      requires Valid()
      modifies `bootLog, `bootLogWait
      ensures Valid()
      ensures State()
              == NoteLogOf(old(State()), if failed then Unreadable else if lines == [] then NoLine else Logged(lines))
    {
      if failed {
        bootLog := Unreadable;
      } else if |lines| == 0 {
        bootLog := NoLine;
      } else {
        bootLog := Logged(lines);
      }
      bootLogWait := false;
    }

    method HeldForBootLog(nowNS: int) returns (held: bool)
      modifies `bootLog, `bootLogWait, `bootHeldAt
      ensures held == Held(old(State()), nowNS)
      ensures State() == HeldOf(old(State()), nowNS)
    {
      if !bootLogWait { return false; }
      if bootHeldAt == 0 { bootHeldAt := nowNS; }
      if nowNS >= bootHeldAt && nowNS - bootHeldAt < BOOT_LOG_HOLD_NS { return true; }
      bootLogWait := false;
      bootLog := TooLate;
      return false;
    }

    /** One attempt, let through unless its rule fired less than the refractory window ago. */
    method Fire(rule: Rule, wallNS: int) returns (ok: bool)
      requires Valid()
      modifies `lastFire, `suppressed, `attempts
      ensures Valid() && attempts == old(attempts) + [Attempt(rule, wallNS)]
      ensures ok <==> !Withheld(old(lastFire), Attempt(rule, wallNS), refractoryNS)
    {
      attempts := attempts + [Attempt(rule, wallNS)];
      assert attempts[..|attempts| - 1] == old(attempts);
      if rule in lastFire && wallNS - lastFire[rule] < refractoryNS {
        suppressed := suppressed + 1;
        return false;
      }
      lastFire := lastFire[rule := wallNS];
      return true;
    }

    method KmsgRules(events: seq<Record>, wallNS: int)
      requires Valid()
      modifies `prevKmsgUS, `linkEvents, `lastFire, `suppressed, `attempts
      ensures Valid() && prevKmsgUS == PrevKmsg(events, old(prevKmsgUS))
      ensures linkEvents == LinksRun(events, old(linkEvents), wallNS)
      ensures attempts == old(attempts) + KmsgAttempts(events, old(prevKmsgUS), old(linkEvents), wallNS)
    {
      for k := 0 to |events|
        invariant Valid() && prevKmsgUS == PrevKmsg(events[..k], old(prevKmsgUS))
        invariant linkEvents == LinksRun(events[..k], old(linkEvents), wallNS)
        invariant attempts == old(attempts) + KmsgAttempts(events[..k], old(prevKmsgUS), old(linkEvents), wallNS)
      {
        ghost var before := KmsgAttempts(events[..k], old(prevKmsgUS), old(linkEvents), wallNS);
        assert events[..k + 1] == events[..k] + [events[k]];
        OneRecordMore(events[..k], events[k], old(prevKmsgUS), old(linkEvents), wallNS);
        Regroup(old(attempts), before, RecordAttempts(events[k], prevKmsgUS, linkEvents, wallNS));
        NoteRecord(events[k], wallNS);
      }
      assert events[..|events|] == events;
    }

    method NoteRecord(r: Record, wallNS: int)
      requires Valid()
      modifies `prevKmsgUS, `linkEvents, `lastFire, `suppressed, `attempts
      ensures Valid() && prevKmsgUS == r.timeUS && linkEvents == LinksAfter(old(linkEvents), r, wallNS)
      ensures attempts == old(attempts) + RecordAttempts(r, old(prevKmsgUS), old(linkEvents), wallNS)
    {
      ghost var reboot := if 0 < prevKmsgUS && r.timeUS < prevKmsgUS then [Attempt(REBOOT, wallNS)] else [];
      NoteTime(r.timeUS, wallNS);
      ghost var before := attempts;
      if r.iface != "" && r.link {
        NoteLink(r, wallNS);
      }
      Regroup(old(attempts), reboot, attempts[|before|..]);
    }

    /** A record earlier than the one before it shows a reboot. */
    method NoteTime(timeUS: nat, wallNS: int)
      requires Valid()
      modifies `prevKmsgUS, `lastFire, `suppressed, `attempts
      ensures Valid() && prevKmsgUS == timeUS
      ensures attempts == old(attempts)
                          + if 0 < old(prevKmsgUS) && timeUS < old(prevKmsgUS) then [Attempt(REBOOT, wallNS)] else []
    {
      if prevKmsgUS > 0 && timeUS < prevKmsgUS {
        var rebooted := Fire(REBOOT, wallNS);
      }
      prevKmsgUS := timeUS;
    }

    /** A link transition joins its port's history, cut to the last minute. */
    method NoteLink(r: Record, wallNS: int)
      requires Valid() && Links(r)
      modifies `linkEvents, `lastFire, `suppressed, `attempts
      ensures Valid() && linkEvents == LinksAfter(old(linkEvents), r, wallNS)
      ensures attempts == old(attempts)
                        + if |Joined(old(linkEvents), r, wallNS)| >= 2
                          then [Attempt(Rule("link-flap", Port(r)), wallNS)] else []
    {
      var port := r.rosIface;
      if port == "" { port := r.iface; }
      var hist := (if port in linkEvents then linkEvents[port] else []) + [wallNS];
      hist := CutOld(hist, wallNS);
      linkEvents := linkEvents[port := hist];
      if |hist| >= 2 {
        var flapping := Fire(Rule("link-flap", port), wallNS);
      }
    }

    /** The pending boot change is reported with this sample, unless it is held. */
    method BootRule(wallNS: int)
      requires Valid()
      modifies `bootFrom, `bootLog, `bootLogWait, `bootHeldAt, `lastFire, `suppressed, `attempts
      ensures Valid() && State() == SampleOf(old(State()), wallNS)
      ensures attempts == old(attempts) + if Tries(old(State()), wallNS) then [Attempt(REBOOT, wallNS)] else []
    {
      if bootFrom != "" {
        var held := HeldForBootLog(wallNS);
        if !held {
          var rebooted := Fire(REBOOT, wallNS);
          bootFrom, bootLog, bootHeldAt := "", Unsaid, 0;
        }
      }
    }

    /** A number below the last one means that the agent restarted. */
    method RestartRule(seqNo: nat, wallNS: int)
      requires Valid()
      modifies `prevSeq, `lastFire, `suppressed, `attempts
      ensures Valid() && prevSeq == seqNo
      ensures attempts == old(attempts) + if seqNo < old(prevSeq) then [Attempt(RESTART, wallNS)] else []
    {
      if prevSeq > 0 && seqNo < prevSeq {
        var restarted := Fire(RESTART, wallNS);
      }
      prevSeq := seqNo;
    }

    /** One kernel sample: a restart, the pending boot change, and the kernel log's records. */
    method Kernel(seqNo: nat, wallNS: int, events: seq<Record>)
      requires Valid()
      modifies this
      ensures Valid() && State() == SampleOf(old(State()), wallNS)
      ensures prevSeq == seqNo && prevKmsgUS == PrevKmsg(events, old(prevKmsgUS))
      ensures linkEvents == LinksRun(events, old(linkEvents), wallNS)
      ensures attempts == old(attempts)
                        + (if seqNo < old(prevSeq) then [Attempt(RESTART, wallNS)] else [])
                        + SampleAttempts(old(State()), old(prevKmsgUS), old(linkEvents), Batch(wallNS, events))
    {
      RestartRule(seqNo, wallNS);
      ghost var before := attempts;
      BootAndLog(wallNS, events);
      assert attempts == before + SampleAttempts(old(State()), old(prevKmsgUS), old(linkEvents), Batch(wallNS, events));
    }

    method BootAndLog(wallNS: int, events: seq<Record>)
      requires Valid()
      modifies `bootFrom, `bootLog, `bootLogWait, `bootHeldAt, `prevKmsgUS, `linkEvents
      modifies `lastFire, `suppressed, `attempts
      ensures Valid() && State() == SampleOf(old(State()), wallNS)
      ensures prevKmsgUS == PrevKmsg(events, old(prevKmsgUS)) && linkEvents == LinksRun(events, old(linkEvents), wallNS)
      ensures attempts == old(attempts)
              + SampleAttempts(old(State()), old(prevKmsgUS), old(linkEvents), Batch(wallNS, events))
    {
      ghost var boot := if Tries(State(), wallNS) then [Attempt(REBOOT, wallNS)] else [];
      BootRule(wallNS);
      KmsgRules(events, wallNS);
      Regroup(old(attempts), boot, KmsgAttempts(events, old(prevKmsgUS), old(linkEvents), wallNS));
    }
  }

  lemma Regroup(a: seq<Attempt>, b: seq<Attempt>, c: seq<Attempt>)
    ensures a + b + c == a + (b + c)
  {}
}

/**
 The agent's sample ring (internal/agent/ring.go): a fixed array, a write
 position, a count and the newest number. The specification is on the sequence
 of every entry ever pushed; the class is proved to hold its newest part, for
 every write position, and to answer its readers from that part alone.
*/
module RingSpec {
  import opened Words

  /** What the ring keeps of one sample. */
  datatype Entry = Entry(seqNo: nat, monoNS: int, line: string)

  /** The entries a ring of the given capacity still holds, oldest first. */
  function Held(pushed: seq<Entry>, capacity: nat): seq<Entry> {
    Suffix(pushed, capacity)
  }

  /** The sampler numbers its samples one after another. */
  ghost predicate Numbered(es: seq<Entry>) {
    && (es != [] ==> 1 <= es[0].seqNo)
    && forall i :: 0 <= i < |es| ==> es[i].seqNo == es[0].seqNo + i
  }

  function LastOf(pushed: seq<Entry>): nat {
    if pushed == [] then 0 else pushed[|pushed| - 1].seqNo
  }

  /** The number of the oldest entry held; 0 when nothing is. */
  function OldestOf(pushed: seq<Entry>, capacity: nat): nat {
    var held := Held(pushed, capacity);
    if held == [] then 0 else held[0].seqNo
  }

  /** The entries numbered start or higher, in order. */
  function From(es: seq<Entry>, start: nat): seq<Entry> {
    if es == [] then []
    else if start <= es[0].seqNo then [es[0]] + From(es[1..], start)
    else From(es[1..], start)
  }

  /** The entries numbered above a cursor, in order. */
  function NewerThan(es: seq<Entry>, after: nat): seq<Entry> {
    From(es, after + 1)
  }

  /** At most limit entries; a limit of zero or less means all of them. */
  function Limited(es: seq<Entry>, limit: int): seq<Entry> {
    if 0 < limit < |es| then es[..limit] else es
  }

  /**
   What Since answers. The cursor is a 64-bit number a client chose and its
   successor wraps, so the largest one is answered from number 0 on.
  */
  function SinceOf(pushed: seq<Entry>, capacity: nat, after: U64, limit: int): (seq<Entry>, bool) {
    var held := Held(pushed, capacity);
    (Limited(From(held, Next64(after)), limit), held != [] && after != 0 && Next64(after) < held[0].seqNo)
  }

  /** One more push: the oldest entry goes when the ring is full. */
  lemma HeldGrows(pushed: seq<Entry>, capacity: nat, e: Entry)
    requires 0 < capacity
    ensures var held := Held(pushed, capacity);
            Held(pushed + [e], capacity) == (if |held| < capacity then held else held[1..]) + [e]
  {}

  /** In a numbered sequence the entries from a number on are one slice. */
  lemma {:induction false} FromIsSlice(es: seq<Entry>, start: nat, k: nat)
    requires Numbered(es)
    requires k <= |es|
    requires forall i :: 0 <= i < k ==> es[i].seqNo < start
    requires forall i :: k <= i < |es| ==> start <= es[i].seqNo
    ensures From(es, start) == es[k..]
  {
    if es == [] {
    } else {
      NumberedTail(es);
      if k == 0 {
        FromIsSlice(es[1..], start, 0);
        assert es == [es[0]] + es[1..];
      } else {
        FromIsSlice(es[1..], start, k - 1);
        assert es[1..][k - 1..] == es[k..];
      }
    }
  }

  /** What a reader from a number on gets of a non-empty numbered sequence, by first place and count. */
  lemma LimitedFromIsSlice(es: seq<Entry>, from: nat, limit: int)
    requires Numbered(es) && es != []
    ensures var start := Max(es[0].seqNo, from);
            var k := Min(start - es[0].seqNo, |es|);
            Limited(From(es, from), limit) == es[k..k + Taken(|es| - k, limit)]
  {
    var k := Min(Max(es[0].seqNo, from) - es[0].seqNo, |es|);
    FromIsSlice(es, from, k);
    LimitedTail(es, From(es, from), k, limit);
  }

  /** How many of n entries a limit lets through. */
  function Taken(n: nat, limit: int): (k: nat)
    ensures k <= n
  {
    if limit > 0 && n > limit then limit else n
  }

  lemma LimitedTail(es: seq<Entry>, newer: seq<Entry>, k: nat, limit: int)
    requires k <= |es| && newer == es[k..]
    ensures Limited(newer, limit) == es[k..k + Taken(|es| - k, limit)]
  {}

  lemma NumberedTail(es: seq<Entry>)
    requires Numbered(es) && es != []
    ensures Numbered(es[1..])
  {
    var t := es[1..];
    forall i | 0 <= i < |t| ensures t[i].seqNo == t[0].seqNo + i {
      assert t[i] == es[i + 1];
    }
  }

  lemma NumberedSuffix(es: seq<Entry>, n: nat)
    requires Numbered(es)
    ensures Numbered(Suffix(es, n))
  {
    if n <= |es| {
      var t := es[|es| - n..];
      forall i | 0 <= i < |t| ensures t[i].seqNo == t[0].seqNo + i {
        assert t[i] == es[|es| - n + i] && t[0] == es[|es| - n];
      }
    }
  }

  lemma NumberedLast(pushed: seq<Entry>)
    requires Numbered(pushed) && pushed != []
    ensures |pushed| <= LastOf(pushed)
  {}

  /** The numbers of the entries held. */
  lemma HeldNumbers(pushed: seq<Entry>, capacity: nat)
    requires Numbered(pushed) && pushed != [] && 0 < capacity
    ensures var held := Held(pushed, capacity);
            && Numbered(held) && held != []
            && |held| <= LastOf(pushed)
            && held[0].seqNo == LastOf(pushed) + 1 - |held|
  {
    NumberedLast(pushed);
    NumberedSuffix(pushed, capacity);
  }

  /** By the newest number and the count of the entries: how many of them lie below a number, or all. */
  function Skipped(count: nat, last: nat, next: nat): nat
    requires count <= last
  {
    Min(Max(last - count + 1, next) - (last - count + 1), count)
  }

  /** What a reader gets, in the numbers the ring computes with. */
  lemma SinceInNumbers(pushed: seq<Entry>, capacity: nat, after: U64, limit: int)
    requires Numbered(pushed) && pushed != [] && 0 < capacity
    ensures var held, last := Held(pushed, capacity), LastOf(pushed);
            && |held| <= last
            && var skip := Skipped(|held|, last, Next64(after));
               var n := Taken(|held| - skip, limit);
               SinceOf(pushed, capacity, after, limit)
                 == (held[skip..skip + n], after != 0 && Next64(after) < last - |held| + 1)
  {
    HeldNumbers(pushed, capacity);
    LimitedFromIsSlice(Held(pushed, capacity), Next64(after), limit);
  }

  /** The sampler's own numbering: 1, 2, 3, ... */
  ghost predicate FromOne(es: seq<Entry>) {
    forall i :: 0 <= i < |es| ==> es[i].seqNo == i + 1
  }

  /** Where a batch read at cursor after starts and ends, as positions in the pushes of one agent life. */
  function BatchFrom(pushes: nat, capacity: nat, after: nat): (lo: nat)
    ensures lo <= pushes
  {
    Max(Min(after, pushes), pushes - capacity)
  }

  function BatchTo(pushes: nat, capacity: nat, after: nat, limit: int): (hi: nat)
    ensures BatchFrom(pushes, capacity, after) <= hi <= pushes
  {
    var lo := BatchFrom(pushes, capacity, after);
    if limit > 0 then Min(lo + limit, pushes) else pushes
  }

  /** A batch is one slice of the pushes: right after the cursor, or from the oldest entry held. */
  lemma BatchIsSlice(pushed: seq<Entry>, capacity: nat, after: nat, limit: int)
    requires FromOne(pushed)
    ensures Limited(NewerThan(Held(pushed, capacity), after), limit)
         == pushed[BatchFrom(|pushed|, capacity, after)..BatchTo(|pushed|, capacity, after, limit)]
  {
    HeldAboveCursor(pushed, capacity, after);
    var lo := BatchFrom(|pushed|, capacity, after);
    var newer := pushed[lo..];
    if 0 < limit < |newer| {
      assert newer[..limit] == pushed[lo..lo + limit];
    }
  }

  lemma HeldAboveCursor(pushed: seq<Entry>, capacity: nat, after: nat)
    requires FromOne(pushed)
    ensures NewerThan(Held(pushed, capacity), after) == pushed[BatchFrom(|pushed|, capacity, after)..]
  {
    AboveCursor(pushed, Held(pushed, capacity), Max(|pushed| - capacity, 0), after);
  }

  lemma AboveCursor(pushed: seq<Entry>, held: seq<Entry>, d: nat, after: nat)
    requires FromOne(pushed) && d <= |pushed| && held == pushed[d..]
    ensures NewerThan(held, after) == pushed[Max(Min(after, |pushed|), d)..]
  {
    assert forall i :: 0 <= i < |held| ==> held[i] == pushed[d + i];
    var k := Max(Min(after, |pushed|), d) - d;
    FromIsSlice(held, after + 1, k);
    TailOfTail(pushed, d, k);
  }

  lemma TailOfTail(pushed: seq<Entry>, d: nat, k: nat)
    requires d + k <= |pushed|
    ensures pushed[d..][k..] == pushed[d + k..]
  {}

  /** The doctor command's cursor (cmd/mikroscope/health.go), with its ring bound. */
  const RING_MAX: nat := 10000

  function HealthSince(newest: nat, oldest: nat): nat {
    var since := if oldest > 0 then oldest - 1 else 0;
    if newest > RING_MAX && newest - RING_MAX > since then newest - RING_MAX else since
  }

  /** Reading from the doctor's cursor with its bound gives the newest entries, never an older window. */
  lemma HealthSinceReadsNewest(pushed: seq<Entry>, capacity: nat)
    requires Numbered(pushed) && 0 < capacity
    requires LastOf(pushed) + 1 < TWO_64
    ensures var since := HealthSince(LastOf(pushed), OldestOf(pushed, capacity));
            && since + 1 < TWO_64
            && SinceOf(pushed, capacity, since, RING_MAX).0 == Suffix(Held(pushed, capacity), RING_MAX)
            && !SinceOf(pushed, capacity, since, RING_MAX).1
  {
    var held := Held(pushed, capacity);
    NumberedSuffix(pushed, capacity);
    if held != [] {
      assert held[|held| - 1] == pushed[|pushed| - 1];
      var since := HealthSince(LastOf(pushed), OldestOf(pushed, capacity));
      var k := Max(|held| - RING_MAX, 0);
      FromIsSlice(held, since + 1, k);
    }
  }
}

module Rings {
  import opened Words
  import opened RingSpec

  /** The position i places into a circular buffer of n, counted from place base. */
  function Wrap(i: int, n: nat): int {
    if i < 0 then i + n else if i < n then i else i - n
  }

  /** Where the k-th entry is after one more is written: where it was, or at the old write position for the new one. */
  lemma WrapNext(head: nat, count: nat, n: nat, k: nat)
    requires head < n && count <= n && k < Min(count + 1, n)
    ensures var at := Wrap((if head + 1 < n then head + 1 else 0) - Min(count + 1, n) + k, n);
            var j := if count < n then k else k + 1;
            && 0 <= at < n
            && (k == Min(count + 1, n) - 1 ==> at == head)
            && (k < Min(count + 1, n) - 1 ==> j < count && at == Wrap(head - count + j, n) && at != head)
  {}

  /** The contents stand in the slots in order, ending just before the write position. */
  ghost predicate Round(slots: seq<Entry>, head: nat, contents: seq<Entry>) {
    && head < |slots| && |contents| <= |slots|
    && forall k :: 0 <= k < |contents| ==> contents[k] == slots[Wrap(head - |contents| + k, |slots|)]
  }

  /** Writing one entry at the write position and moving it on keeps them so. */
  lemma OneMoreRound(slots: seq<Entry>, head: nat, contents: seq<Entry>, e: Entry)
    requires Round(slots, head, contents)
    ensures Round(slots[head := e], if head + 1 < |slots| then head + 1 else 0,
                  (if |contents| < |slots| then contents else contents[1..]) + [e])
  {
    var n := |slots|;
    var more := (if |contents| < n then contents else contents[1..]) + [e];
    forall k | 0 <= k < |more|
      ensures more[k] == slots[head := e][Wrap((if head + 1 < n then head + 1 else 0) - |more| + k, n)]
    {
      WrapNext(head, |contents|, n, k);
    }
  }

  /** A position within twice round the buffer, taken round it. */
  method Around(i: nat, n: nat) returns (at: nat)
    requires 0 < n && i < 2 * n
    ensures at == if i < n then i else i - n
  {
    ModuloOnce(i, n);
    at := i % n;
  }

  class Ring {
    const buf: array<Entry>
    var head: nat
    var count: nat
    var last: nat
    ghost var pushed: seq<Entry>
    ghost var contents: seq<Entry>

    ghost predicate Valid()
      reads this, buf
    {
      && Stored()
      && last == LastOf(pushed)
      && contents == Held(pushed, buf.Length)
    }

    constructor (capacity: int)
      requires capacity < TWO_64
      ensures Valid() && fresh(buf)
      ensures pushed == [] && buf.Length == Max(capacity, 1)
    {
      var n := if capacity < 1 then 1 else capacity;
      buf := new Entry[n](_ => Entry(0, 0, ""));
      head, count, last, pushed, contents := 0, 0, 0, [], [];
    }

    method Push(e: Entry)
      requires Valid()
      modifies this, buf
      ensures Valid()
      ensures pushed == old(pushed) + [e]
    {
      HeldGrows(pushed, buf.Length, e);
      Store(e);
      last := e.seqNo;
      pushed := pushed + [e];
    }

    ghost predicate Stored()
      reads this, buf
    {
      && 0 < buf.Length < TWO_64
      && count == |contents|
      && Round(buf[..], head, contents)
    }

    /** One entry into the slots, over the oldest when they are full. */
    method Store(e: Entry)
      requires Stored()
      modifies buf, this`head, this`count, this`contents
      ensures Stored()
      ensures contents == (if |old(contents)| < buf.Length then old(contents) else old(contents)[1..]) + [e]
    {
      OneMoreRound(buf[..], head, contents, e);
      Write(head, e);
      contents := (if count < buf.Length then contents else contents[1..]) + [e];
      head := Around(head + 1, buf.Length);
      if count < buf.Length {
        count := count + 1;
      }
    }

    method Write(i: nat, e: Entry)
      requires i < buf.Length
      modifies buf
      ensures buf[..] == old(buf[..])[i := e]
    {
      buf[i] := e;
    }

    method Last() returns (n: nat)
      requires Valid()
      ensures n == LastOf(pushed)
    {
      n := last;
    }

    /** The arithmetic of Oldest and Since is on numbers, and asks that the one writer numbers its samples. */
    method Oldest() returns (n: nat)
      requires Valid() && Numbered(pushed)
      ensures n == OldestOf(pushed, buf.Length)
    {
      if count == 0 {
        return 0;
      }
      NumberedLast(pushed);
      n := last - count + 1;
    }

    method Since(after: U64, limit: int) returns (out: seq<Entry>, gap: bool)
      requires Valid() && Numbered(pushed)
      ensures out == SinceOf(pushed, buf.Length, after, limit).0
      ensures gap == SinceOf(pushed, buf.Length, after, limit).1
    {
      if count == 0 {
        return [], false;
      }
      NumberedLast(pushed);
      var oldest := last - count + 1;
      gap := after != 0 && Next64(after) < oldest;
      var start := Max(oldest, Next64(after));
      if start > last {
        out := [];
      } else {
        var n := last - start + 1;
        if limit > 0 && n > limit {
          n := limit;
        }
        out := Copy(start - oldest, n);
      }
      SinceInNumbers(pushed, buf.Length, after, limit);
    }

    /** The copying loop of both readers, from skip places after the oldest entry. */
    method Copy(skip: nat, n: nat) returns (out: seq<Entry>)
      requires Valid()
      ensures |out| == n
      ensures skip + n <= count ==> out == Held(pushed, buf.Length)[skip..skip + n]
    {
      var first := (head - count + skip + buf.Length) % buf.Length;
      out := [];
      for i := 0 to n
        invariant |out| == i
        invariant forall j :: 0 <= j < i ==> out[j] == buf[(first + j) % buf.Length]
      {
        out := out + [buf[(first + i) % buf.Length]];
      }
      CopyIsHeld(out, first, skip);
    }

    /** A copy that starts k places into the contents is the contents from k on. */
    lemma CopyIsHeld(out: seq<Entry>, first: nat, k: nat)
      requires Valid()
      requires first == (head - count + k + buf.Length) % buf.Length
      requires forall i :: 0 <= i < |out| ==> out[i] == buf[(first + i) % buf.Length]
      ensures k + |out| <= count ==> out == contents[k..k + |out|]
    {
      if count < k + |out| {
        return;
      }
      var n := buf.Length;
      forall i | 0 <= i < |out|
        ensures out[i] == contents[k + i]
      {
        ModuloOnce(head - count + k + n, n);
        ModuloOnce(first + i, n);
        assert buf[(first + i) % n] == buf[..][Wrap(head - count + (k + i), n)];
      }
    }

    method Tail(want: int) returns (out: seq<Entry>)
      requires Valid()
      ensures out == Suffix(contents, Max(want, 0))
    {
      var n := Min(want, count);
      if n <= 0 {
        return [];
      }
      out := Copy(count - n, n);
    }

    /** The doctor command's read of the ring: newest number, oldest number, one bounded batch. */
    method ReadNewest() returns (out: seq<Entry>)
      requires Valid()
      requires Numbered(pushed) && LastOf(pushed) + 1 < TWO_64
      ensures out == Suffix(contents, RING_MAX)
    {
      var newest := Last();
      var oldest := Oldest();
      var since := HealthSince(newest, oldest);
      var gap;
      out, gap := Since(since, RING_MAX);
      HealthSinceReadsNewest(pushed, buf.Length);
    }
  }
}

/**
 What the casts inside lpad and concat calls do to quoted literals, and the cast
 of one tag (internal/dashboards/postgres.go). The pass skips literals, but the
 parenthesis that closes a call is looked for without regard to them.
*/
module SqlCasts {
  import opened Words
  import opened SqlPasses
  import opened SqlText
  import opened SqlLiterals

  /** Every quote is closed. */
  predicate Closed(s: string)
    decreases |s|
  {
    if s == "" then true
    else if s[0] == QUOTE then Quote(s, 1) < |s| && Closed(s[Quote(s, 1) + 1..])
    else Closed(s[Quote(s, 0)..])
  }

  /** The literals of a text, and whether the last of them is closed. */
  datatype Reading = Reading(literals: seq<string>, closed: bool)

  function Read(s: string): Reading {
    Reading(Literals(s), Closed(s))
  }

  /** The reading of a text that a literal is put in front of. */
  function WithFirst(t: string, r: Reading): Reading {
    Reading([t] + r.literals, r.closed)
  }

  function Together(a: Reading, b: Reading): Reading {
    Reading(a.literals + b.literals, b.closed)
  }

  /** A text that closes no parenthesis it did not open. */
  predicate Contained(t: string) {
    Walk(t, 0, |t|, 0).Some?
  }

  ghost predicate AllContained(literals: seq<string>) {
    forall k :: 0 <= k < |literals| ==> Contained(literals[k])
  }

  // ---- reading from left to right

  ghost predicate PlainLaw(read: string -> Reading, c: char, s: string) {
    c != QUOTE ==> read([c] + s) == read(s)
  }

  ghost predicate QuotedLaw(read: string -> Reading, t: string, s: string) {
    Quoted(t) ==> read(t + s) == WithFirst(t, read(s))
  }

  ghost predicate OpenLaw(read: string -> Reading, s: string) {
    s != "" && s[0] == QUOTE && Quote(s, 1) == |s| ==> read(s) == Reading([s], false)
  }

  /** All that is used of the reading: what a character, a literal and an open literal in front do to it. */
  ghost predicate Laws(read: string -> Reading) {
    && read("") == Reading([], true)
    && (forall c, s :: PlainLaw(read, c, s))
    && (forall t, s :: QuotedLaw(read, t, s))
    && (forall s :: OpenLaw(read, s))
  }

  function Reader(): string -> Reading {
    s => Read(s)
  }

  lemma PlainHolds(c: char, s: string)
    ensures PlainLaw(Reader(), c, s)
  {
    if c != QUOTE {
      QuoteIn([c], s, 0);
      assert ([c] + s)[1 + Quote(s, 0)..] == s[Quote(s, 0)..];
      if s == "" || s[0] == QUOTE { assert s[0..] == s; }
    }
  }

  lemma QuotedHolds(t: string, s: string)
    ensures QuotedLaw(Reader(), t, s)
  {
    if Quoted(t) {
      LiteralFirst(t, s);
      var n := |t| - 1;
      var a, b := t[..n], t[n..] + s;
      assert t + s == a + b && b[0] == QUOTE;
      QuoteIn(a, b, 1);
      assert (t + s)[n + 1..] == s;
    }
  }

  lemma LawsHold()
    ensures Laws(Reader())
  {
    forall c, s ensures PlainLaw(Reader(), c, s) { PlainHolds(c, s); }
    forall t, s ensures QuotedLaw(Reader(), t, s) { QuotedHolds(t, s); }
  }

  // ---- what follows from them alone

  lemma PlainStep(read: string -> Reading, s: string)
    requires Laws(read) && s != "" && s[0] != QUOTE
    ensures read(s) == read(s[1..])
  {
    assert PlainLaw(read, s[0], s[1..]);
    assert s == [s[0]] + s[1..];
  }

  lemma QuotedStep(read: string -> Reading, s: string, e: nat)
    requires Laws(read) && s != "" && s[0] == QUOTE && e == Quote(s, 1) < |s|
    ensures Quoted(s[..e + 1]) && read(s) == WithFirst(s[..e + 1], read(s[e + 1..]))
  {
    CutsLiteral(s, e);
    Rejoined(s, e + 1);
    assert QuotedLaw(read, s[..e + 1], s[e + 1..]);
  }

  lemma Rejoined(s: string, k: nat)
    requires k <= |s|
    ensures s[..k] + s[k..] == s
  {}

  lemma PlainConcat(read: string -> Reading, c: char, a: string, b: string)
    requires Laws(read) && c != QUOTE && read(a + b) == Together(read(a), read(b))
    ensures read([c] + a + b) == Together(read([c] + a), read(b))
  {
    assert PlainLaw(read, c, a) && PlainLaw(read, c, a + b);
    assert [c] + a + b == [c] + (a + b);
  }

  lemma QuotedConcat(read: string -> Reading, t: string, a: string, b: string)
    requires Laws(read) && Quoted(t) && read(a + b) == Together(read(a), read(b))
    ensures read(t + a + b) == Together(read(t + a), read(b))
  {
    assert QuotedLaw(read, t, a) && QuotedLaw(read, t, a + b);
    assert t + a + b == t + (a + b);
    assert [t] + (read(a).literals + read(b).literals) == ([t] + read(a).literals) + read(b).literals;
  }

  /** After closed text the rest is read on its own. */
  lemma {:induction false} ClosedConcat(read: string -> Reading, a: string, b: string)
    requires Laws(read) && read(a).closed
    ensures read(a + b) == Together(read(a), read(b))
    decreases |a|
  {
    if a == "" {
      assert a + b == b;
    } else if a[0] == QUOTE {
      var e := Quote(a, 1);
      assert OpenLaw(read, a);
      QuotedStep(read, a, e);
      ClosedConcat(read, a[e + 1..], b);
      QuotedConcat(read, a[..e + 1], a[e + 1..], b);
      assert a == a[..e + 1] + a[e + 1..];
    } else {
      PlainStep(read, a);
      ClosedConcat(read, a[1..], b);
      PlainConcat(read, a[0], a[1..], b);
      assert a == [a[0]] + a[1..];
    }
  }

  lemma {:induction false} PlainText(read: string -> Reading, t: string, s: string)
    requires Laws(read) && QUOTE !in t
    ensures read(t + s) == read(s)
  {
    if t == "" {
      assert t + s == s;
    } else {
      PlainText(read, t[1..], s);
      assert PlainLaw(read, t[0], t[1..] + s);
      assert t + s == [t[0]] + (t[1..] + s);
    }
  }

  /** The literal a text starts with. */
  lemma FirstLiteral(read: string -> Reading, s: string)
    requires Laws(read) && s != "" && s[0] == QUOTE
    ensures read(s).literals != [] && read(s).literals[0] == if Quote(s, 1) < |s| then s[..Quote(s, 1) + 1] else s
  {
    if Quote(s, 1) < |s| {
      QuotedStep(read, s, Quote(s, 1));
    } else {
      assert OpenLaw(read, s);
    }
  }

  lemma ContainedParts(a: seq<string>, b: seq<string>)
    requires AllContained(a + b)
    ensures AllContained(a) && AllContained(b)
  {
    forall k | 0 <= k < |a| ensures Contained(a[k]) { assert a[k] == (a + b)[k]; }
    forall k | 0 <= k < |b| ensures Contained(b[k]) { assert b[k] == (a + b)[|a| + k]; }
  }

  /** In such a text no parenthesis closes what stood open before it. */
  lemma ContainedStaysUp(t: string, n: nat, d: nat)
    requires Contained(t) && n < |t| && t[n] == ')'
    ensures Walk(t, 0, n, d) != Some(0)
  {
    WalkSplit(t, 0, n + 1, |t|, 0);
    WalkSplit(t, 0, n, n + 1, 0);
    WalkLift(t, 0, n, 0, d);
  }

  /** A walk over the front, and over the rest. */
  lemma WalkRest(s: string, k: nat, n: nat, d: nat)
    requires k <= n <= |s| && Walk(s, 0, n, d).Some?
    ensures Walk(s, 0, k, d).Some? && Walk(s[k..], 0, n - k, Walk(s, 0, k, d).value) == Walk(s, 0, n, d)
  {
    WalkSplit(s, 0, k, n, d);
    var e := Walk(s, 0, k, d).value;
    assert s[k..][0..n - k] == s[k..k + (n - k)];
    WalkSame(s, k, s[k..], 0, n - k, e);
  }

  lemma WalkFront(s: string, t: string, n: nat, d: nat)
    requires n <= |t| <= |s| && t == s[..|t|]
    ensures Walk(t, 0, n, d) == Walk(s, 0, n, d)
  {
    assert s[0..0 + n] == t[0..0 + n];
    WalkSame(s, 0, t, 0, n, d);
  }

  /** The place where an open parenthesis closes lies past a literal that starts before it. */
  lemma ClosesPastLiteral(s: string, t: string, n: nat, d: nat)
    requires Contained(t) && |t| <= |s| && t == s[..|t|] && n < |s| && s[n] == ')' && Walk(s, 0, n, d) == Some(0)
    ensures |t| <= n
  {
    if n < |t| {
      WalkFront(s, t, n, d);
      ContainedStaysUp(t, n, d);
    }
  }

  /** Where every literal is contained, the parenthesis that closes what stood open at the start stands outside them. */
  lemma {:induction false} ParenStandsOutside(read: string -> Reading, s: string, n: nat, d: nat)
    requires Laws(read) && AllContained(read(s).literals) && n < |s| && s[n] == ')' && Walk(s, 0, n, d) == Some(0)
    ensures read(s[..n]).closed
    decreases |s|
  {
    if s[0] == QUOTE {
      OutsideLiteral(read, s, n, d);
      var e := Quote(s, 1);
      WalkRest(s, e + 1, n, d);
      ParenStandsOutside(read, s[e + 1..], n - e - 1, Walk(s, 0, e + 1, d).value);
      ClosedAfterLiteral(read, s[..e + 1], s[e + 1..][..n - e - 1]);
      TakeJoin(s, e + 1, n);
    } else if n > 0 {
      PlainStep(read, s);
      WalkRest(s, 1, n, d);
      ParenStandsOutside(read, s[1..], n - 1, Walk(s, 0, 1, d).value);
      ClosedAfterPlain(read, s[0], s[1..][..n - 1]);
      TakeCons(s, n);
    }
  }

  /** A text that starts with a literal: it is closed before that place, and the rest is such a text too. */
  lemma OutsideLiteral(read: string -> Reading, s: string, n: nat, d: nat)
    requires Laws(read) && AllContained(read(s).literals) && n < |s| && s[n] == ')' && Walk(s, 0, n, d) == Some(0)
    requires s[0] == QUOTE
    ensures Quote(s, 1) < n && Quoted(s[..Quote(s, 1) + 1]) && AllContained(read(s[Quote(s, 1) + 1..]).literals)
  {
    FirstLiteral(read, s);
    var t := read(s).literals[0];
    assert Contained(t);
    ClosesPastLiteral(s, t, n, d);
    QuotedStep(read, s, Quote(s, 1));
    ContainedParts([s[..Quote(s, 1) + 1]], read(s[Quote(s, 1) + 1..]).literals);
  }

  lemma TakeCons(s: string, n: nat)
    requires 0 < n <= |s|
    ensures s[..n] == [s[0]] + s[1..][..n - 1]
  {}

  lemma TakeJoin(s: string, k: nat, n: nat)
    requires k <= n <= |s|
    ensures s[..n] == s[..k] + s[k..][..n - k]
  {}

  lemma ClosedAfterPlain(read: string -> Reading, c: char, s: string)
    requires Laws(read) && c != QUOTE && read(s).closed
    ensures read([c] + s).closed
  {
    assert PlainLaw(read, c, s);
  }

  lemma ClosedAfterLiteral(read: string -> Reading, t: string, s: string)
    requires Laws(read) && Quoted(t) && read(s).closed
    ensures read(t + s).closed
  {
    assert QuotedLaw(read, t, s);
  }

  // ---- replacing outside literals

  /** A cast that leaves every literal as it is. */
  ghost predicate KeepsLiterals(read: string -> Reading, cast: string -> string) {
    forall a {:trigger cast(a)} :: read(cast(a)) == read(a)
  }

  lemma {:induction false} ReplacedKeeps(read: string -> Reading, s: string, f: string -> string)
    requires Laws(read) && NoNewQuotes(f)
    ensures read(Replaced(s, f)) == read(s)
    decreases |s|
  {
    if s == "" {
    } else if s[0] == QUOTE {
      var e := Quote(s, 1);
      if e < |s| {
        QuotedStep(read, s, e);
        ReplacedKeeps(read, s[e + 1..], f);
        QuotedReads(read, s[..e + 1], Replaced(s[e + 1..], f), s[e + 1..]);
      }
    } else {
      var e := Quote(s, 0);
      CutsPlain(s, e);
      ReplacedKeeps(read, s[e..], f);
      PlainReads(read, f(s[..e]), s[..e], Replaced(s[e..], f), s[e..]);
      assert s == s[..e] + s[e..];
    }
  }

  lemma QuotedReads(read: string -> Reading, t: string, a: string, b: string)
    requires Laws(read) && Quoted(t) && read(a) == read(b)
    ensures read(t + a) == WithFirst(t, read(b))
  {
    assert QuotedLaw(read, t, a);
  }

  lemma PlainReads(read: string -> Reading, t: string, u: string, a: string, b: string)
    requires Laws(read) && QUOTE !in t && QUOTE !in u && read(a) == read(b)
    ensures read(t + a) == read(u + b)
  {
    PlainText(read, t, a);
    PlainText(read, u, b);
  }

  lemma {:induction false} CastIdentifiersKeep(read: string -> Reading, args: string, fs: seq<string -> string>)
    requires Laws(read) && forall k :: 0 <= k < |fs| ==> NoNewQuotes(fs[k])
    ensures read(CastIdentifiers(args, fs)) == read(args)
  {
    if fs != [] {
      var n := |fs| - 1;
      CastIdentifiersKeep(read, args, fs[..n]);
      ReplacedKeeps(read, CastIdentifiers(args, fs[..n]), fs[n]);
    }
  }

  /** Casting the tags of an argument list, outside literals, leaves every literal as it is. */
  lemma TagCastKeepsLiterals(fs: seq<string -> string>)
    requires forall k :: 0 <= k < |fs| ==> NoNewQuotes(fs[k])
    ensures KeepsLiterals(Reader(), args => CastIdentifiers(args, fs))
  {
    LawsHold();
    forall a ensures Reader()(CastIdentifiers(a, fs)) == Reader()(a) {
      CastIdentifiersKeep(Reader(), a, fs);
    }
  }

  // ---- the whole pass

  /**
   A piece copied is a whole literal or one plain character; a call's name holds no
   quote, and what it encloses is balanced.
  */
  ghost predicate MindsLiterals(q: string, i: nat, p: Piece)
    requires i < |q|
  {
    match p
    case Copy(j) => j == if q[i] == QUOTE then Min(Quote(q, i + 1) + 1, |q|) else i + 1
    case TextCall(fn, end) => QUOTE !in fn && i + |fn| < end < |q| && Balanced(q[i + |fn| + 1..end])
  }

  ghost predicate AllMindLiterals(f: (string, nat) -> Piece) {
    forall q: string, i: nat :: i < |q| ==> MindsLiterals(q, i, f(q, i))
  }

  lemma SplitterMinds(fns: seq<string>)
    requires forall k :: 0 <= k < |fns| ==> QUOTE !in fns[k]
    ensures AllMindLiterals(Splitter(fns))
  {
    forall q: string, i: nat | i < |q| ensures MindsLiterals(q, i, Splitter(fns)(q, i)) {
      var c := TextFunctionAt(q, fns, i);
      if c.Some? {
        var k :| 0 <= k < |fns| && fns[k] == c.value.0;
        ClosingEnclosesBalanced(q, i + |c.value.0|, i + |c.value.0| + 1);
      }
    }
  }

  lemma CallReads(read: string -> Reading, fn: string, args: string, rest: string)
    requires Laws(read) && QUOTE !in fn && read(args).closed
    ensures read(Call(fn, args) + rest) == Together(read(args), read(rest))
  {
    CallIsText(fn, args, rest);
    PlainText(read, fn + "(", args + (")" + rest));
    ClosedConcat(read, args, ")" + rest);
    PlainText(read, ")", rest);
  }

  lemma CallIsText(fn: string, args: string, rest: string)
    ensures Call(fn, args) + rest == (fn + "(") + (args + (")" + rest))
  {}

  /** A literal in front, copied. */
  lemma LiteralPiece(read: string -> Reading, s: string, n: nat, rest: string)
    requires Laws(read) && s != "" && s[0] == QUOTE && n == Min(Quote(s, 1) + 1, |s|)
    requires read(rest) == read(s[n..]) && (n == |s| ==> rest == "")
    ensures read(s[..n] + rest) == read(s)
  {
    if Quote(s, 1) < |s| {
      QuotedStep(read, s, n - 1);
      assert QuotedLaw(read, s[..n], rest);
    } else {
      assert s[..n] + rest == s;
    }
  }

  lemma QuoteFrom(q: string, i: nat)
    requires i < |q|
    ensures Quote(q, i + 1) == i + Quote(q[i..], 1)
  {
    QuoteShift(q[..i], q[i..], 1);
    assert q[..i] + q[i..] == q;
  }

  lemma SlicesFrom(q: string, i: nat, j: nat)
    requires i <= j <= |q|
    ensures q[i..][..j - i] == q[i..j] && q[i..][j - i..] == q[j..]
  {}

  lemma CharPiece(read: string -> Reading, q: string, i: nat, rest: string)
    requires Laws(read) && i < |q| && q[i] != QUOTE && read(rest) == read(q[i + 1..])
    ensures read(q[i..i + 1] + rest) == read(q[i..])
  {
    assert PlainLaw(read, q[i], rest) && PlainLaw(read, q[i], q[i + 1..]);
    assert q[i..i + 1] == [q[i]] && q[i..] == [q[i]] + q[i + 1..];
  }

  /** A call of the query: the parenthesis that closes it stands outside literals. */
  lemma CallPiece(read: string -> Reading, q: string, i: nat, fn: string, end: nat)
    requires Laws(read) && i < |q| && PieceOf(q, i, TextCall(fn, end)) && MindsLiterals(q, i, TextCall(fn, end))
    requires AllContained(read(q[i..]).literals)
    ensures var inside := q[i + |fn| + 1..end];
            read(inside).closed && read(q[i..]) == Together(read(inside), read(q[end + 1..]))
  {
    var inside := q[i + |fn| + 1..end];
    CallFrom(q, i, fn, end);
    var rest := inside + (")" + q[end + 1..]);
    CallIsText(fn, inside, q[end + 1..]);
    PlainText(read, fn + "(", rest);
    assert rest[|inside|] == ')' && rest[..|inside|] == inside;
    WalkFront(rest, inside, |inside|, 0);
    ParenStandsOutside(read, rest, |inside|, 0);
    CallReads(read, fn, inside, q[end + 1..]);
  }

  lemma CallFrom(q: string, i: nat, fn: string, end: nat)
    requires i < |q| && PieceOf(q, i, TextCall(fn, end))
    ensures q[i..] == Call(fn, q[i + |fn| + 1..end]) + q[end + 1..]
  {
    OpensThere(q, fn, i);
    Pieces(q, fn, i, end);
  }

  /** What is cut off in front takes no literal from the rest but its own. */
  lemma PieceHasNone(read: string -> Reading, q: string, i: nat, p: Piece)
    requires Laws(read) && i < |q| && PieceOf(q, i, p) && MindsLiterals(q, i, p) && AllContained(read(q[i..]).literals)
    ensures PieceEnd(p) <= |q| && AllContained(read(q[PieceEnd(p)..]).literals)
  {
    match p
    case Copy(j) =>
      CopyHasNone(read, q, i, j);
    case TextCall(fn, end) =>
      CallPiece(read, q, i, fn, end);
      ContainedParts(read(q[i + |fn| + 1..end]).literals, read(q[end + 1..]).literals);
  }

  lemma CopyHasNone(read: string -> Reading, q: string, i: nat, j: nat)
    requires Laws(read) && i < j <= |q| && MindsLiterals(q, i, Copy(j)) && AllContained(read(q[i..]).literals)
    ensures AllContained(read(q[j..]).literals)
  {
    SlicesFrom(q, i, j);
    if j == |q| {
      assert q[j..] == "";
    } else if q[i] == QUOTE {
      QuoteFrom(q, i);
      QuotedStep(read, q[i..], j - i - 1);
      ContainedParts([q[i..][..j - i]], read(q[j..]).literals);
    } else {
      PlainStep(read, q[i..]);
    }
  }

  lemma CopyKeeps(read: string -> Reading, q: string, i: nat, j: nat, rest: string)
    requires Laws(read) && i < j <= |q| && MindsLiterals(q, i, Copy(j))
    requires read(rest) == read(q[j..]) && (j == |q| ==> rest == "")
    ensures read(q[i..j] + rest) == read(q[i..])
  {
    if q[i] == QUOTE {
      QuoteFrom(q, i);
      SlicesFrom(q, i, j);
      LiteralPiece(read, q[i..], j - i, rest);
    } else {
      CharPiece(read, q, i, rest);
    }
  }

  lemma CastInside(read: string -> Reading, q: string, cast: string -> string, i: nat, fn: string, end: nat)
    requires Laws(read) && KeepsLiterals(read, cast)
    requires i < |q| && PieceOf(q, i, TextCall(fn, end)) && MindsLiterals(q, i, TextCall(fn, end))
    requires AllContained(read(q[i..]).literals)
    ensures read(cast(q[i + |fn| + 1..end])) == read(q[i + |fn| + 1..end])
    ensures AllContained(read(cast(q[i + |fn| + 1..end])).literals)
  {
    CallPiece(read, q, i, fn, end);
    ContainedParts(read(q[i + |fn| + 1..end]).literals, read(q[end + 1..]).literals);
  }

  lemma CallKeeps(read: string -> Reading, q: string, i: nat, fn: string, end: nat, out: string, rest: string)
    requires Laws(read) && i < |q| && PieceOf(q, i, TextCall(fn, end)) && MindsLiterals(q, i, TextCall(fn, end))
    requires AllContained(read(q[i..]).literals)
    requires read(out) == read(q[i + |fn| + 1..end]) && read(rest) == read(q[end + 1..])
    ensures read(Call(fn, out) + rest) == read(q[i..])
  {
    CallPiece(read, q, i, fn, end);
    CallReads(read, fn, out, rest);
  }

  /** One piece of the pass, and the rest. */
  lemma PieceStep(q: string, f: (string, nat) -> Piece, cast: string -> string, i: nat, p: Piece)
    requires i < |q| && Splits(f) && KeepsParentheses(cast) && f(q, i) == p && PieceOf(q, i, p)
    ensures PieceEnd(p) <= |q|
    ensures CastTags(q, f, cast, i) == CastPiece(q, f, cast, i, p) + CastTags(q, f, cast, PieceEnd(p))
    ensures PieceEnd(p) == |q| ==> CastTags(q, f, cast, PieceEnd(p)) == ""
  {}

  /** The pieces from i on, when every literal there is contained: every literal comes through. */
  lemma {:induction false} CastKeepsLiterals(read: string -> Reading, q: string, f: (string, nat) -> Piece,
                                             cast: string -> string, i: nat)
    requires Laws(read) && KeepsLiterals(read, cast) && KeepsParentheses(cast)
    requires i <= |q| && Splits(f) && AllMindLiterals(f) && AllContained(read(q[i..]).literals)
    ensures read(CastTags(q, f, cast, i)) == read(q[i..])
    decreases Count(q, '('), 1, |q| - i
  {
    if i == |q| {
      assert q[i..] == "" && CastTags(q, f, cast, i) == "";
    } else {
      var p := f(q, i);
      assert PieceOf(q, i, p) && MindsLiterals(q, i, p);
      PieceHasNone(read, q, i, p);
      PieceStep(q, f, cast, i, p);
      CastKeepsLiterals(read, q, f, cast, PieceEnd(p));
      CastPieceKeeps(read, q, f, cast, i, p, CastTags(q, f, cast, PieceEnd(p)));
    }
  }

  lemma {:induction false} CastPieceKeeps(read: string -> Reading, q: string, f: (string, nat) -> Piece,
                                          cast: string -> string, i: nat,
                                          p: Piece, rest: string)
    requires Laws(read) && i < |q| && Splits(f) && AllMindLiterals(f) && KeepsParentheses(cast)
    requires KeepsLiterals(read, cast)
    requires PieceOf(q, i, p) && MindsLiterals(q, i, p) && AllContained(read(q[i..]).literals)
    requires PieceEnd(p) <= |q| && read(rest) == read(q[PieceEnd(p)..]) && (PieceEnd(p) == |q| ==> rest == "")
    ensures read(CastPiece(q, f, cast, i, p) + rest) == read(q[i..])
    decreases Count(q, '('), 0, 0
  {
    match p
    case Copy(j) =>
      CopyKeeps(read, q, i, j, rest);
    case TextCall(fn, end) =>
      var inside := q[i + |fn| + 1..end];
      ArgumentsShrink(q, cast, i, fn, end);
      CastInside(read, q, cast, i, fn, end);
      assert cast(inside)[0..] == cast(inside);
      CastKeepsLiterals(read, cast(inside), f, cast, 0);
      CallKeeps(read, q, i, fn, end, CastTags(cast(inside), f, cast, 0), rest);
  }

  /**
   A query in which no literal closes a parenthesis it did not open: casting
   touches none of its literals, for every cast that itself leaves literals alone.
  */
  lemma CastLeavesLiterals(q: string, fns: seq<string>, cast: string -> string)
    requires forall k :: 0 <= k < |fns| ==> QUOTE !in fns[k]
    requires KeepsParentheses(cast) && KeepsLiterals(Reader(), cast) && AllContained(Literals(q))
    ensures Splits(Splitter(fns)) && Literals(CastTags(q, Splitter(fns), cast, 0)) == Literals(q)
  {
    LawsHold();
    SplitterSplits(fns);
    SplitterMinds(fns);
    assert q[0..] == q;
    CastKeepsLiterals(Reader(), q, Splitter(fns), cast, 0);
  }
}

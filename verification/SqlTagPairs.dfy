/**
 Exactly which lists of tags are cast once: for any other a text is given that
 the second cast changes (castIdentifiers in internal/dashboards/postgres.go).
*/
module SqlTagPairs {
  import opened Words
  import opened SqlPasses
  import opened SqlText
  import opened SqlLiterals
  import opened SqlCasts
  import opened SqlTags
  import opened SqlReach
  import opened SqlOnce
  import opened SqlTagLists

  // ---- one tag after the other

  /** The tags cast one after another in text without quotes. */
  ghost function Chain(s: string, tags: seq<string>): string
    requires AllWords(tags)
  {
    if tags == [] then s else CastTag(Chain(s, tags[..|tags| - 1]), tags[|tags| - 1], 0)
  }

  lemma {:induction false} ChainIsCast(s: string, tags: seq<string>)
    requires AllWords(tags) && QUOTE !in s && s != ""
    ensures TagCast(tags)(s) == Chain(s, tags) && QUOTE !in Chain(s, tags) && |Chain(s, tags)| >= |s|
  {
    if tags == [] {
      assert Casters(tags) == [];
    } else {
      var n := |tags| - 1;
      var fs := Casters(tags);
      ChainIsCast(s, tags[..n]);
      assert fs[..n] == Casters(tags[..n]) && fs[n] == Caster(tags[n]);
      var t := Chain(s, tags[..n]);
      ReplacedWhole(t, Caster(tags[n]));
      CastTagPlain(t, tags[n], 0);
      CastTagGrows(t, tags[n], 0);
    }
  }

  lemma {:induction false} ChainGrows(s: string, tags: seq<string>)
    requires AllWords(tags)
    ensures |Chain(s, tags)| >= |s|
  {
    if tags != [] {
      ChainGrows(s, tags[..|tags| - 1]);
      CastTagGrows(Chain(s, tags[..|tags| - 1]), tags[|tags| - 1], 0);
    }
  }

  lemma {:induction false} ChainSplits(s: string, tags: seq<string>, k: nat)
    requires AllWords(tags) && k <= |tags|
    ensures Chain(s, tags) == Chain(Chain(s, tags[..k]), tags[k..])
  {
    if k == |tags| {
      assert tags[..k] == tags && tags[k..] == [];
    } else {
      ChainSplits(s, tags[..|tags| - 1], k);
      LastOfRest(tags, k);
    }
  }

  lemma LastOfRest(tags: seq<string>, k: nat)
    requires k < |tags|
    ensures var n := |tags| - 1;
            && tags[..n][..k] == tags[..k] && tags[..n][k..] == tags[k..][..n - k]
            && |tags[k..]| == n - k + 1 && tags[k..][n - k] == tags[n]
  {}

  /** Tags that find nothing change nothing. */
  lemma {:induction false} ChainIdle(s: string, tags: seq<string>)
    requires AllWords(tags) && forall k :: 0 <= k < |tags| ==> CastTag(s, tags[k], 0) == s
    ensures Chain(s, tags) == s
  {
    if tags != [] { ChainIdle(s, tags[..|tags| - 1]); }
  }

  /** Where all but the tag at k find nothing, that tag's cast is all there is. */
  lemma ChainOfOne(s: string, tags: seq<string>, k: nat, out: string)
    requires AllWords(tags) && k < |tags| && CastTag(s, tags[k], 0) == out
    requires forall m :: 0 <= m < k ==> CastTag(s, tags[m], 0) == s
    requires forall m :: k < m < |tags| ==> CastTag(out, tags[m], 0) == out
    ensures Chain(s, tags) == out
  {
    ChainSplits(s, tags, k);
    ChainIdle(s, tags[..k]);
    var rest := tags[k..];
    ChainSplits(s, rest, 1);
    assert rest[..1] == [tags[k]] && rest[1..] == tags[k + 1..];
    assert [tags[k]][..0] == [] && Chain(s, []) == s;
    assert Chain(s, [tags[k]]) == out;
    ChainIdle(out, tags[k + 1..]);
  }

  /** Where the tag at k is the first to find something, and has the text grow, it does not stay. */
  lemma ChainChanges(s: string, tags: seq<string>, k: nat)
    requires AllWords(tags) && k < |tags| && |CastTag(s, tags[k], 0)| > |s|
    requires forall m :: 0 <= m < k ==> CastTag(s, tags[m], 0) == s
    ensures Chain(s, tags) != s
  {
    ChainSplits(s, tags, k + 1);
    var front := tags[..k + 1];
    assert front[..k] == tags[..k] && front[k] == tags[k];
    ChainIdle(s, tags[..k]);
    ChainGrows(Chain(s, front), tags[k + 1..]);
  }

  /** Text without quotes and parentheses that the list, cast again, changes again. */
  ghost predicate CastAgainIn(s: string, tags: seq<string>)
    requires AllWords(tags)
  {
    s != "" && QUOTE !in s && Plain(s) && TagCast(tags)(TagCast(tags)(s)) != TagCast(tags)(s)
  }

  /** So the list is not cast once when such a text comes of it. */
  lemma NotOnce(tags: seq<string>, s: string, out: string)
    requires AllWords(tags) && QUOTE !in s && Plain(s) && s != "" && Chain(s, tags) == out && Chain(out, tags) != out
    ensures CastAgainIn(s, tags)
  {
    ChainIsCast(s, tags);
    ChainIsCast(out, tags);
  }

  // ---- text in which a tag does not stand alone

  ghost predicate Clean(s: string, x: string) {
    forall i :: 0 <= i <= |s| ==> BareEnd(s, i, x) < 0
  }

  lemma CleanIsIdle(s: string, x: string)
    requires Word(x) && Clean(s, x)
    ensures CastTag(s, x, 0) == s
  {
    forall j | 0 <= j < |s| ensures RefEnd(s, j, x) < 0 {}
    CopiedUpTo(s, x, 0, |s|);
    assert s[0..|s|] + "" == s;
  }

  lemma WordIsClean(w: string, x: string)
    requires Word(w) && Word(x) && w != x
    ensures Clean(w, x)
  {
    forall i | 0 <= i <= |w| ensures BareEnd(w, i, x) < 0 {
      if i == 0 && BareEnd(w, 0, x) >= 0 { SameText(w, x); }
    }
  }

  lemma SameText(w: string, x: string)
    requires Word(w) && BareEnd(w, 0, x) >= 0
    ensures w == x
  {
    assert |w| == |x|;
    WordThere(w, x, 0);
    assert w[0..|w|] == w;
  }

  /** Text joined at a character that is in no name. */
  lemma CleanJoin(u: string, c: char, v: string, x: string)
    requires Word(x) && !IdentByte(c) && Clean(u, x) && Clean(v, x)
    ensures Clean(u + ([c] + v), x)
  {
    var s := u + ([c] + v);
    forall i | 0 <= i <= |s| ensures BareEnd(s, i, x) < 0 {
      if i <= |u| { CleanFront(u, c, v, x, i); } else { CleanBack(u, c, v, x, i - |u| - 1); }
    }
  }

  lemma CleanFront(u: string, c: char, v: string, x: string, i: nat)
    requires Word(x) && !IdentByte(c) && i <= |u| && BareEnd(u, i, x) < 0
    ensures BareEnd(u + ([c] + v), i, x) < 0
  {
    var s := u + ([c] + v);
    Joint(u, c, v);
    if At(s, x, i) {
      if i + |x| <= |u| {
        forall m | 0 <= m < |x| ensures u[i + m] == x[m] { assert s[i + m] == x[m]; }
      } else {
        InsideTag(s, i, x, |u|);
      }
    }
  }

  lemma CleanBack(u: string, c: char, v: string, x: string, k: nat)
    requires Word(x) && !IdentByte(c) && k <= |v| && BareEnd(v, k, x) < 0
    ensures BareEnd(u + ([c] + v), |u| + 1 + k, x) < 0
  {
    var s := u + ([c] + v);
    Joint(u, c, v);
    if At(s, x, |u| + 1 + k) {
      forall m | 0 <= m < |x| ensures v[k + m] == x[m] { assert s[|u| + 1 + (k + m)] == v[k + m]; }
      if k > 0 { assert s[|u| + 1 + (k - 1)] == v[k - 1]; }
      if k + |x| < |v| { assert s[|u| + 1 + (k + |x|)] == v[k + |x|]; }
    }
  }

  // ---- a suffix of the text's own

  /** A name and its suffix, in which the tag text is found again. */
  lemma SuffixedName(w: string)
    requires Word(w)
    ensures var s := w + TEXT;
            && |s| == |w| + 6 && s == w + ([':'] + ([':'] + "text")) && s[|w|] == ':' && s[|w| + 1] == ':'
            && s[|w|..] == TEXT && '.' !in s
  {
    assert TEXT == [':'] + ([':'] + "text");
    assert '.' !in w;
  }

  lemma SuffixedIsClean(w: string, x: string)
    requires Word(x) && x != "text" && Clean(w, x)
    ensures Clean(w + TEXT, x)
  {
    assert w + TEXT == w + ([':'] + ([':'] + "text")) by { assert TEXT == [':'] + ([':'] + "text"); }
    assert Word("text");
    WordIsClean("text", x);
    assert Clean("", x);
    CleanJoin("", ':', "text", x);
    assert "" + ([':'] + "text") == [':'] + "text";
    CleanJoin(w, ':', [':'] + "text", x);
  }

  /** Nothing before it refers to the tag text, and it does. */
  lemma TextIsBare(w: string, x: string)
    requires Word(w) && w != "text" && x == "text"
    ensures var s := w + TEXT;
            && (forall k :: 0 <= k < |w| + 2 ==> RefEnd(s, k, x) < 0)
            && RefEnd(s, |w| + 2, x) == |s| && Bare(s, x, |w| + 2)
  {
    var s := w + TEXT;
    SuffixedName(w);
    WordIsClean(w, x);
    forall k | 0 <= k < |w| + 2 ensures RefEnd(s, k, x) < 0 {
      NoAlias(s, k);
      if k <= |w| { CleanFront(w, ':', [':'] + "text", x, k); } else { NotAt(s, x, k); }
    }
    NoAlias(s, |w| + 2);
    TextAtEnd(s, |w|, x);
  }

  lemma TextAtEnd(s: string, n: nat, x: string)
    requires n + 6 == |s| && s[n..] == TEXT && x == "text" && s[n + 1] == ':'
    ensures BareEnd(s, n + 2, x) == |s|
  {
    assert s[n..n + 6] == s[n..];
    TextChars(s, n);
    forall m | 0 <= m < 4 ensures s[n + 2 + m] == x[m] { assert s[n + 2..n + 6][m] == s[n + 2 + m]; }
  }

  lemma TextIsCast(w: string, x: string)
    requires Word(w) && w != "text" && x == "text"
    ensures CastTag(w + TEXT, x, 0) == (w + TEXT) + TEXT
  {
    TextIsBare(w, x);
    LastIsCast(w + TEXT, x, |w| + 2);
  }

  /** A reference that ends the text, the first one, is given the suffix. */
  lemma LastIsCast(s: string, x: string, i: nat)
    requires x != "" && i < |s| && RefEnd(s, i, x) == |s| && forall k :: 0 <= k < i ==> RefEnd(s, k, x) < 0
    ensures CastTag(s, x, 0) == s + TEXT
  {
    CopiedUpTo(s, x, 0, i);
    assert !At(s, TEXT, |s|) && CastTag(s, x, |s|) == "";
    CutAndSuffix(s, i);
  }

  lemma CutAndSuffix(s: string, i: nat)
    requires i <= |s|
    ensures s[0..i] + (s[i..|s|] + (TEXT + "")) == s + TEXT
  {}

  ghost predicate Distinct(tags: seq<string>) {
    forall k, m :: 0 <= k < m < |tags| ==> tags[k] != tags[m]
  }

  /** A tag text before another: the suffix of the other is cast in its turn. */
  lemma TextFirst(tags: seq<string>, k: nat, m: nat) returns (s: string)
    requires AllWords(tags) && Distinct(tags) && k < m < |tags| && tags[k] == "text"
    ensures CastAgainIn(s, tags)
  {
    s := tags[m];
    forall j | 0 <= j < |tags| && j != m ensures CastTag(s, tags[j], 0) == s {
      WordIsClean(s, tags[j]);
      CleanIsIdle(s, tags[j]);
    }
    TagItself(s);
    forall j | 0 <= j < |tags| && j != m && j != k ensures CastTag(s + TEXT, tags[j], 0) == s + TEXT {
      WordIsClean(s, tags[j]);
      SuffixedIsClean(s, tags[j]);
      CleanIsIdle(s + TEXT, tags[j]);
    }
    TextIsCast(s, tags[k]);
    ChainOfOne(s, tags, m, s + TEXT);
    ChainChanges(s + TEXT, tags, k);
    NotOnce(tags, s, s + TEXT);
  }

  // ---- a name of digits behind the tag that follows it

  /** The tag twice, the first for an alias, and its suffix. */
  function Twin(a: string): string {
    a + (['.'] + (a + TEXT))
  }

  /** What stands before: the digits, or the tag with a suffix that they follow at once. */
  ghost function Front(a: string, b: string): string {
    if Digits(b, 0) then b else a + (TEXT + b[Min(4, |b|)..])
  }

  /** In this text a is cast, with the first a for the alias of the second. */
  ghost function Shown(a: string, b: string): string {
    Front(a, b) + (['.'] + Twin(a))
  }

  /** Once b is cast, its suffix is the alias of the first. */
  ghost function Changed(a: string, b: string, rest: string): string {
    (Front(a, b) + TEXT) + (['.'] + (a + (['.'] + rest)))
  }

  ghost predicate Pair(a: string, b: string) {
    Word(a) && Word(b) && a != b && a != "text" && IdentStart(a[0]) && Digital(b)
  }

  /** Where b starts in the front, and from where on there are digits alone. */
  ghost function Start(a: string, b: string): nat {
    if Digits(b, 0) then 0 else |a| + 2
  }

  ghost function DigitsFrom(a: string, b: string): nat {
    if Digits(b, 0) then 0 else |a| + 6
  }

  lemma FrontParts(a: string, b: string)
    requires Pair(a, b)
    ensures var f, p, e := Front(a, b), Start(a, b), DigitsFrom(a, b);
            && |f| == p + |b| && f[p..] == b && p <= e <= |f| && (p > 0 ==> !IdentByte(f[p - 1]))
            && forall k :: e <= k < |f| ==> !IdentStart(f[k])
  {
    if !Digits(b, 0) { FrontText(a, b, Front(a, b)); }
  }

  lemma FrontText(a: string, b: string, f: string)
    requires Pair(a, b) && !Digits(b, 0) && f == Front(a, b)
    ensures |f| == |a| + 2 + |b| && f[..|a|] == a && f[|a|..|a| + 6] == TEXT && f[|a| + 2..] == b
    ensures f[|a|] == ':' && f[|a| + 1] == ':' && forall k :: |a| + 6 <= k < |f| ==> !IdentStart(f[k])
  {
    ThreeParts(a, TEXT, b[4..]);
    TextChars(f, |a|);
    TextInFront(f, |a|, b);
    DigitsBehind(f, |a| + 6, b);
  }

  lemma DigitsBehind(f: string, e: nat, b: string)
    requires e <= |f| && |b| >= 4 && f[e..] == b[4..] && Digits(b, 4)
    ensures forall k :: e <= k < |f| ==> !IdentStart(f[k])
  {
    forall k | e <= k < |f| ensures !IdentStart(f[k]) { assert f[e..][k - e] == b[4..][k - e] == b[4 + (k - e)]; }
  }

  lemma TextInFront(f: string, n: nat, b: string)
    requires n + 6 <= |f| && f[n + 2..n + 6] == "text" && |b| >= 4 && b[..4] == "text" && f[n + 6..] == b[4..]
    ensures f[n + 2..] == b
  {
    assert f[n + 2..] == f[n + 2..n + 6] + f[n + 6..];
    assert b == b[..4] + b[4..];
  }

  lemma ThreeParts(a: string, h: string, b: string)
    ensures var f := a + (h + b);
            && |f| == |a| + |h| + |b| && f[..|a|] == a && f[|a|..|a| + |h|] == h && f[|a| + |h|..] == b
            && forall k :: 0 <= k < |b| ==> f[|a| + |h| + k] == b[k]
  {}

  /** No reference to a name starts at what is no start of one. */
  lemma NoStart(s: string, a: string, i: nat)
    requires i < |s| && Word(a) && IdentStart(a[0]) && !IdentStart(s[i])
    ensures RefEnd(s, i, a) < 0
  {
    NotAt(s, a, i);
  }

  lemma AtSlice(s: string, w: string, i: nat)
    requires i + |w| <= |s| && s[i..i + |w|] == w
    ensures At(s, w, i)
  {
    forall m | 0 <= m < |w| ensures s[i + m] == w[m] { assert s[i..i + |w|][m] == s[i + m]; }
  }

  /** A name x with a dot and the tag a behind it is read as the alias of the tag. */
  lemma AliasRef(s: string, x: string, i: nat, a: string)
    requires Word(x) && IdentStart(x[0]) && Word(a) && At(s, x, i)
    requires i + |x| < |s| && s[i + |x|] == '.' && At(s, a, i + |x| + 1)
    requires Stops(s, i + |x| + 1 + |a|)
    ensures RefEnd(s, i, a) == i + |x| + 1 + |a|
  {
    RunTo(s, x, i, i + |x|, i);
    assert s[i + 0] == x[0];
  }

  /** Where the tag stands twice, from o on. */
  ghost predicate TwinAt(s: string, o: nat, a: string) {
    o <= |s| && s[o..] == Twin(a)
  }

  lemma TwinParts(s: string, o: nat, a: string)
    requires Word(a) && TwinAt(s, o, a)
    ensures |s| == o + |a| + 1 + |a| + 6 && At(s, a, o) && s[o + |a|] == '.' && s[o + |a| + 1..] == a + TEXT
  {
    ThreeParts(a, ['.'], a + TEXT);
    var v := s[o..];
    assert s[o..o + |a|] == v[..|a|] && s[o + |a|] == v[|a|] && s[o + |a| + 1..] == v[|a| + 1..];
    AtSlice(s, a, o);
  }

  lemma NameAtEnd(s: string, o: nat, a: string)
    requires o <= |s| && s[o..] == a + TEXT
    ensures |s| == o + |a| + 6 && At(s, a, o) && At(s, TEXT, o + |a|)
  {
    var w := s[o..];
    assert s[o..o + |a|] == w[..|a|] == a;
    AtSlice(s, a, o);
    assert s[o + |a|..o + |a| + 6] == w[|a|..] == TEXT;
    AtSlice(s, TEXT, o + |a|);
  }

  lemma TwinIsSettled(s: string, o: nat, a: string)
    requires Word(a) && IdentStart(a[0]) && TwinAt(s, o, a)
    ensures Settled(s, a, o)
  {
    TwinParts(s, o, a);
    NameAtEnd(s, o + |a| + 1, a);
    var r := o + |a| + 1 + |a|;
    assert s[r + 0] == TEXT[0];
    AliasRef(s, a, o, a);
    assert Settled(s, a, |s|);
    RefBack(s, a, o, r);
  }

  // ---- the text, and what becomes of it

  lemma ShownParts(a: string, b: string)
    requires Pair(a, b)
    ensures var s, n := Shown(a, b), |Front(a, b)|;
            && n < |s| && s[..n] == Front(a, b) && s[n] == '.' && TwinAt(s, n + 1, a)
            && forall k :: 0 <= k < n ==> s[k] == Front(a, b)[k]
  {
    ThreeParts(Front(a, b), ['.'], Twin(a));
    Joint(Front(a, b), '.', Twin(a));
  }

  /** Nothing refers to a from the digits on up to the dot. */
  lemma NoneInDigits(s: string, a: string, b: string, k: nat)
    requires Pair(a, b) && DigitsFrom(a, b) <= k < |Front(a, b)| <= |s| && s[k] == Front(a, b)[k]
    ensures RefEnd(s, k, a) < 0
  {
    FrontParts(a, b);
    NoStart(s, a, k);
  }

  /** Before the digits a stands with its suffix, or nothing does. */
  lemma StartsSuffixed(s: string, a: string, b: string)
    requires Pair(a, b) && !Digits(b, 0) && |Front(a, b)| <= |s| && s[..|Front(a, b)|] == Front(a, b)
    ensures s != "" && RefEnd(s, 0, a) == |a| && At(s, TEXT, |a|)
  {
    var f := Front(a, b);
    FrontText(a, b, f);
    assert s[0..|a|] == f[..|a|] && s[|a|..|a| + 6] == s[..|f|][|a|..|a| + 6];
    AtSlice(s, a, 0);
    AtSlice(s, TEXT, |a|);
    assert s[|a| + 0] == TEXT[0];
    RunTo(s, a, 0, |a|, 0);
  }

  lemma ShownIsSettled(a: string, b: string)
    requires Pair(a, b)
    ensures CastTag(Shown(a, b), a, 0) == Shown(a, b)
  {
    ShownParts(a, b);
    TwinIsSettled(Shown(a, b), |Front(a, b)| + 1, a);
    FrontIsSettled(Shown(a, b), a, b, |Front(a, b)|);
    assert Shown(a, b)[0..] == Shown(a, b);
  }

  lemma FrontIsSettled(s: string, a: string, b: string, n: nat)
    requires Pair(a, b) && n == |Front(a, b)| < |s| && s[..n] == Front(a, b) && s[n] == '.' && Settled(s, a, n + 1)
    ensures Settled(s, a, 0)
  {
    FrontParts(a, b);
    NoneUpTo(s, a, b, n, n + 1);
    SettledOver(s, a, DigitsFrom(a, b), n + 1);
    if !Digits(b, 0) { StartIsSettled(s, a, b); }
  }

  lemma StartIsSettled(s: string, a: string, b: string)
    requires Pair(a, b) && !Digits(b, 0) && |Front(a, b)| <= |s| && s[..|Front(a, b)|] == Front(a, b)
    requires Settled(s, a, |a| + 6)
    ensures Settled(s, a, 0)
  {
    StartsSuffixed(s, a, b);
    RefBack(s, a, 0, |a|);
  }

  /** Nothing refers to a from the digits on up to i. */
  lemma NoneUpTo(s: string, a: string, b: string, n: nat, i: nat)
    requires Pair(a, b) && n == |Front(a, b)| <= i <= |s| && s[..n] == Front(a, b)
    requires forall k :: n <= k < i ==> !IdentStart(s[k])
    ensures forall k :: DigitsFrom(a, b) <= k < i ==> RefEnd(s, k, a) < 0
  {
    forall k | DigitsFrom(a, b) <= k < i ensures RefEnd(s, k, a) < 0 {
      if k < n {
        assert s[k] == s[..n][k];
        NoneInDigits(s, a, b, k);
      } else {
        NoStart(s, a, k);
      }
    }
  }

  // ---- the cast of b

  /** Up to where b starts nothing refers to it. */
  lemma NoneBeforeStart(s: string, a: string, b: string, k: nat)
    requires Pair(a, b) && |Front(a, b)| <= |s| && s[..|Front(a, b)|] == Front(a, b) && k < Start(a, b)
    ensures RefEnd(s, k, b) < 0
  {
    var f := Front(a, b);
    FrontText(a, b, f);
    assert s[0..|a|] == f[..|a|] && s[|a|] == f[|a|] && s[|a| + 1] == f[|a| + 1];
    if k < |a| { NoneInName(s, a, b, k); } else { NotAt(s, b, k); }
  }

  /** Nor in a name that starts the text, with a colon behind it. */
  lemma NoneInName(s: string, a: string, b: string, k: nat)
    requires Word(a) && Word(b) && a != b && k < |a| < |s| && s[0..|a|] == a && s[|a|] == ':'
    ensures RefEnd(s, k, b) < 0
  {
    AtSlice(s, a, 0);
    RunTo(s, a, 0, |a|, k);
    WordIsClean(a, b);
    CutAtChar(s, a, ':');
    CleanFront(a, ':', s[|a| + 1..], b, k);
  }

  lemma CutAtChar(s: string, a: string, c: char)
    requires |a| < |s| && s[0..|a|] == a && s[|a|] == c
    ensures s == a + ([c] + s[|a| + 1..])
  {}

  lemma NotTwin(a: string, b: string, k: nat)
    requires Word(a) && Word(b) && a != b && k <= |a|
    ensures BareEnd(Twin(a), k, b) < 0 && BareEnd(Twin(a), |a| + 1, b) < 0
  {
    WordIsClean(a, b);
    CleanFront(a, '.', a + TEXT, b, k);
    SuffixedName(a);
    CleanFront(a, ':', [':'] + "text", b, 0);
    CleanBack(a, '.', a + TEXT, b, 0);
  }

  /** There it is referred to, without a suffix. */
  lemma StartIsBare(s: string, a: string, b: string, p: nat, n: nat)
    requires Pair(a, b) && s == Shown(a, b) && p == Start(a, b) && n == |Front(a, b)|
    ensures p < n < |s| && RefEnd(s, p, b) == n && Bare(s, b, p) && StepEnd(s, b, p) == n && s[p..n] == b
  {
    ShownParts(a, b);
    FrontParts(a, b);
    var f := Front(a, b);
    assert s[p..n] == f[p..];
    if p > 0 { assert s[p - 1] == f[p - 1]; }
    NotTwin(a, b, 0);
    CleanBack(f, '.', Twin(a), b, 0);
    NameIsBare(s, b, p, n);
  }

  lemma NameIsBare(s: string, b: string, p: nat, n: nat)
    requires Word(b) && n == p + |b| < |s| && s[p..n] == b && s[n] == '.' && Edge(s, p) && BareEnd(s, n + 1, b) < 0
    ensures RefEnd(s, p, b) == n && Bare(s, b, p) && StepEnd(s, b, p) == n
  {
    AtSlice(s, b, p);
    RunTo(s, b, p, n, p);
    NotAt(s, TEXT, n);
  }

  /** What follows the dot: a and the next dot, copied, and then the rest. */
  lemma TwinIsCast(a: string, b: string)
    requires Word(a) && Word(b) && a != b && IdentStart(a[0])
    ensures CastTag(Twin(a), b, 0) == a + (['.'] + CastTag(a + TEXT, b, 0))
  {
    var s := Twin(a);
    Joint(a, '.', a + TEXT);
    forall k | 0 <= k < |a| + 1 ensures RefEnd(s, k, b) < 0 { NoneInTwin(s, a, b, k); }
    BackIsCast(a, '.', a + TEXT, b);
    CopiedFront(s, b, a, CastTag(a + TEXT, b, 0));
  }

  lemma NoneInTwin(s: string, a: string, b: string, k: nat)
    requires Word(a) && Word(b) && a != b && IdentStart(a[0]) && k <= |a| && s == Twin(a)
    ensures |a| < |s| && RefEnd(s, k, b) < 0
  {
    Joint(a, '.', a + TEXT);
    NotTwin(a, b, k);
    NoneBeforeDot(s, a, b, k);
  }

  lemma NoneBeforeDot(s: string, a: string, b: string, k: nat)
    requires Word(a) && Word(b) && k <= |a| < |s| && s[|a|] == '.' && forall m :: 0 <= m < |a| ==> s[m] == a[m]
    requires BareEnd(s, k, b) < 0 && BareEnd(s, |a| + 1, b) < 0
    ensures RefEnd(s, k, b) < 0
  {
    if k < |a| { TwinRun(s, a, k); } else { NotAt(s, b, k); }
  }

  lemma TwinRun(s: string, a: string, k: nat)
    requires Word(a) && k < |a| < |s| && s[|a|] == '.' && forall m :: 0 <= m < |a| ==> s[m] == a[m]
    ensures RunEnd(s, k) == |a|
  {
    assert At(s, a, 0);
    RunTo(s, a, 0, |a|, k);
  }

  lemma CopiedFront(s: string, b: string, a: string, rest: string)
    requires b != "" && |a| < |s| && s[0..|a| + 1] == a + ['.'] && CastTag(s, b, |a| + 1) == rest
    requires forall k :: 0 <= k < |a| + 1 ==> RefEnd(s, k, b) < 0
    ensures CastTag(s, b, 0) == a + (['.'] + rest)
  {
    CopiedUpTo(s, b, 0, |a| + 1);
    InFront(a, ['.'], rest);
  }

  lemma ShownIsCast(a: string, b: string)
    requires Pair(a, b)
    ensures CastTag(Shown(a, b), b, 0) == Changed(a, b, CastTag(a + TEXT, b, 0))
  {
    var s, p, n := Shown(a, b), Start(a, b), |Front(a, b)|;
    ShownParts(a, b);
    FrontParts(a, b);
    forall k | 0 <= k < p ensures RefEnd(s, k, b) < 0 { NoneBeforeStart(s, a, b, k); }
    CopiedUpTo(s, b, 0, p);
    StartIsBare(s, a, b, p, n);
    DotIsCopied(s, a, b, n);
    Assembled(s, p, n, b, Front(a, b), CastTag(s, b, n));
  }

  lemma DotIsCopied(s: string, a: string, b: string, n: nat)
    requires Pair(a, b) && s == Shown(a, b) && n == |Front(a, b)|
    ensures n < |s| && CastTag(s, b, n) == ['.'] + (a + (['.'] + CastTag(a + TEXT, b, 0)))
  {
    ShownParts(a, b);
    BackIsCast(Front(a, b), '.', Twin(a), b);
    TwinIsCast(a, b);
    DotInFront(s, b, n, CastTag(Twin(a), b, 0));
  }

  lemma DotInFront(s: string, b: string, n: nat, rest: string)
    requires Word(b) && n < |s| && s[n] == '.' && CastTag(s, b, n + 1) == rest
    ensures CastTag(s, b, n) == ['.'] + rest
  {
    NotAt(s, b, n);
    CastCopies(s, b, n, n + 1, rest);
    assert s[n..n + 1] == ['.'];
  }

  lemma Assembled(s: string, p: nat, n: nat, b: string, f: string, rest: string)
    requires p <= n <= |s| && s[..n] == f && s[p..n] == b
    ensures s[0..p] + (b + (TEXT + rest)) == (f + TEXT) + rest
  {
    assert s[..n] == s[0..p] + s[p..n];
  }

  // ---- the second cast

  lemma ChangedParts(a: string, b: string, rest: string)
    requires Pair(a, b)
    ensures var s, n := Changed(a, b, rest), |Front(a, b)|;
            && n + 7 + |a| < |s| && s[..n] == Front(a, b) && s[n..n + 6] == TEXT && s[n + 6] == '.'
            && s[n + 7..n + 7 + |a|] == a && s[n + 7 + |a|] == '.'
  {
    var s, f := Changed(a, b, rest), Front(a, b);
    JointCuts(f + TEXT, '.', a + (['.'] + rest), s);
    AllCuts(s, f, a, rest);
  }

  lemma AllCuts(s: string, f: string, a: string, rest: string)
    requires |f| + 7 <= |s| && s[..|f| + 6] == f + TEXT && s[|f| + 7..] == a + (['.'] + rest)
    ensures |f| + 7 + |a| < |s| && s[..|f|] == f && s[|f|..|f| + 6] == TEXT
    ensures s[|f| + 7..|f| + 7 + |a|] == a && s[|f| + 7 + |a|] == '.'
  {
    CutsOfFront(s, f);
    CutsOfBack(s, |f| + 7, a, rest);
  }

  lemma JointCuts(u: string, c: char, v: string, s: string)
    requires s == u + ([c] + v)
    ensures |s| == |u| + 1 + |v| && s[..|u|] == u && s[|u|] == c && s[|u| + 1..] == v
  {}

  lemma CutsOfFront(s: string, f: string)
    requires |f| + 6 <= |s| && s[..|f| + 6] == f + TEXT
    ensures s[..|f|] == f && s[|f|..|f| + 6] == TEXT
  {
    assert s[..|f|] == s[..|f| + 6][..|f|] && s[|f|..|f| + 6] == s[..|f| + 6][|f|..];
  }

  lemma CutsOfBack(s: string, n: nat, a: string, rest: string)
    requires n <= |s| && s[n..] == a + (['.'] + rest)
    ensures n + |a| < |s| && s[n..n + |a|] == a && s[n + |a|] == '.'
  {
    var v := s[n..];
    assert s[n..n + |a|] == v[..|a|] && s[n + |a|] == v[|a|];
  }

  /** The suffix is the alias of the first a now, which has no suffix of its own. */
  lemma SuffixIsAlias(s: string, a: string, n: nat)
    requires Word(a) && n + 7 + |a| < |s| && s[n..n + 6] == TEXT && s[n + 6] == '.'
    requires s[n + 7..n + 7 + |a|] == a && s[n + 7 + |a|] == '.'
    ensures Bare(s, a, n + 2) && !IdentStart(s[n]) && !IdentStart(s[n + 1])
  {
    TextChars(s, n);
    AtSlice(s, a, n + 7);
    TextIsAlias(s, n + 6, a);
    NotAt(s, TEXT, n + 7 + |a|);
  }

  lemma GrowsFrom(s: string, a: string, e: nat, i: nat)
    requires a != "" && e <= i < |s| && Bare(s, a, i) && |CastTag(s, a, 0)| == e + |CastTag(s, a, e)|
    requires forall k :: e <= k < i ==> RefEnd(s, k, a) < 0
    ensures |CastTag(s, a, 0)| > |s|
  {
    CopiedUpTo(s, a, e, i);
    CastTagGrows(s, a, StepEnd(s, a, i));
  }

  lemma ChangedGrows(a: string, b: string, rest: string)
    requires Pair(a, b)
    ensures |CastTag(Changed(a, b, rest), a, 0)| > |Changed(a, b, rest)|
  {
    ChangedParts(a, b, rest);
    ChangedGrowsFrom(Changed(a, b, rest), a, b, |Front(a, b)|);
  }

  lemma ChangedGrowsFrom(s: string, a: string, b: string, n: nat)
    requires Pair(a, b) && n == |Front(a, b)| && n + 7 + |a| < |s| && s[..n] == Front(a, b)
    requires s[n..n + 6] == TEXT && s[n + 6] == '.' && s[n + 7..n + 7 + |a|] == a && s[n + 7 + |a|] == '.'
    ensures |CastTag(s, a, 0)| > |s|
  {
    SuffixIsAlias(s, a, n);
    AliasIsReached(s, a, b, n, DigitsFrom(a, b));
    GrowsFrom(s, a, DigitsFrom(a, b), n + 2);
  }

  lemma AliasIsReached(s: string, a: string, b: string, n: nat, e: nat)
    requires Pair(a, b) && n == |Front(a, b)| && n + 2 < |s| && s[..n] == Front(a, b) && e == DigitsFrom(a, b)
    requires !IdentStart(s[n]) && !IdentStart(s[n + 1])
    ensures e <= n + 2 && |CastTag(s, a, 0)| == e + |CastTag(s, a, e)|
    ensures forall k :: e <= k < n + 2 ==> RefEnd(s, k, a) < 0
  {
    FrontParts(a, b);
    NoneUpTo(s, a, b, n, n + 2);
    if !Digits(b, 0) { StartIsCopied(s, a, b); }
  }

  lemma StartIsCopied(s: string, a: string, b: string)
    requires Pair(a, b) && !Digits(b, 0) && |Front(a, b)| <= |s| && s[..|Front(a, b)|] == Front(a, b)
    ensures |a| + 6 <= |s| && |CastTag(s, a, 0)| == |a| + 6 + |CastTag(s, a, |a| + 6)|
  {
    StartsSuffixed(s, a, b);
    CastCopies(s, a, 0, |a| + 6, CastTag(s, a, |a| + 6));
  }

  // ---- the other tags of the list

  lemma FrontIsClean(a: string, b: string, x: string)
    requires Pair(a, b) && Word(x) && x != a && x != b && x != "text"
    ensures Clean(Front(a, b), x) && Clean(Twin(a), x)
  {
    WordIsClean(a, x);
    WordIsClean(b, x);
    SuffixedIsClean(a, x);
    CleanJoin(a, '.', a + TEXT, x);
    if !Digits(b, 0) {
      CleanJoin("", ':', b, x);
      assert "" + ([':'] + b) == [':'] + b;
      CleanJoin(a, ':', [':'] + b, x);
      FrontAsJoined(a, b);
    }
  }

  lemma FrontAsJoined(a: string, b: string)
    requires Pair(a, b) && !Digits(b, 0)
    ensures Front(a, b) == a + ([':'] + ([':'] + b))
  {
    var f := Front(a, b);
    FrontText(a, b, f);
    CutAtColons(f, a, b);
  }

  lemma CutAtColons(f: string, a: string, b: string)
    requires |f| == |a| + 2 + |b| && f[..|a|] == a && f[|a|] == ':' && f[|a| + 1] == ':' && f[|a| + 2..] == b
    ensures f == a + ([':'] + ([':'] + b))
  {
    CutAtChars(f, |a|);
  }

  lemma CutAtChars(f: string, n: nat)
    requires n + 1 < |f|
    ensures f == f[..n] + ([f[n]] + ([f[n + 1]] + f[n + 2..]))
  {}

  lemma ShownIsIdle(a: string, b: string, x: string)
    requires Pair(a, b) && Word(x) && x != a && x != b && x != "text"
    ensures CastTag(Shown(a, b), x, 0) == Shown(a, b)
  {
    FrontIsClean(a, b, x);
    CleanJoin(Front(a, b), '.', Twin(a), x);
    CleanIsIdle(Shown(a, b), x);
  }

  /** What becomes of the second a. */
  lemma RestIsClean(a: string, b: string, x: string)
    requires Pair(a, b) && Word(x) && x != a && x != b && x != "text"
    ensures Clean(CastTag(a + TEXT, b, 0), x)
  {
    WordIsClean(a, x);
    SuffixedIsClean(a, x);
    if b == "text" {
      TextIsCast(a, b);
      SuffixedIsClean(a + TEXT, x);
    } else {
      WordIsClean(a, b);
      SuffixedIsClean(a, b);
      CleanIsIdle(a + TEXT, b);
    }
  }

  lemma ChangedIsIdle(a: string, b: string, x: string)
    requires Pair(a, b) && Word(x) && x != a && x != b && x != "text"
    ensures var out := Changed(a, b, CastTag(a + TEXT, b, 0)); CastTag(out, x, 0) == out
  {
    var rest := CastTag(a + TEXT, b, 0);
    FrontIsClean(a, b, x);
    RestIsClean(a, b, x);
    WordIsClean(a, x);
    SuffixedIsClean(Front(a, b), x);
    CleanJoin(a, '.', rest, x);
    CleanJoin(Front(a, b) + TEXT, '.', a + (['.'] + rest), x);
    CleanIsIdle(Changed(a, b, rest), x);
  }

  /** A name of digits behind a tag that may be an alias: its suffix is one. */
  lemma DigitsBehindTag(tags: seq<string>, k: nat, m: nat) returns (s: string)
    requires AllWords(tags) && Distinct(tags) && k < m < |tags| && Pair(tags[k], tags[m])
    requires forall j :: 0 <= j < |tags| && j != m ==> tags[j] != "text"
    ensures CastAgainIn(s, tags)
  {
    var a, b := tags[k], tags[m];
    s := Shown(a, b);
    var out := Changed(a, b, CastTag(a + TEXT, b, 0));
    forall j | 0 <= j < |tags| && j != m ensures CastTag(s, tags[j], 0) == s {
      if j == k { ShownIsSettled(a, b); } else { ShownIsIdle(a, b, tags[j]); }
    }
    ShownIsCast(a, b);
    forall j | 0 <= j < |tags| && j != m && j != k ensures CastTag(out, tags[j], 0) == out {
      ChangedIsIdle(a, b, tags[j]);
    }
    ChangedGrows(a, b, CastTag(a + TEXT, b, 0));
    ChainOfOne(s, tags, m, out);
    ChainChanges(out, tags, k);
    ShownIsPlain(a, b);
    NotOnce(tags, s, out);
  }

  lemma ShownIsPlain(a: string, b: string)
    requires Pair(a, b)
    ensures QUOTE !in Shown(a, b) && Plain(Shown(a, b)) && Shown(a, b) != ""
  {
    PlainWords(a, b, QUOTE);
    PlainWords(a, b, '(');
    PlainWords(a, b, ')');
  }

  lemma PlainWords(a: string, b: string, c: char)
    requires Pair(a, b) && !IdentByte(c) && c != ':' && c != '.'
    ensures c !in Shown(a, b)
  {
    assert c !in a && c !in b && c !in TEXT;
    assert c !in b[Min(4, |b|)..];
    assert c !in Front(a, b) && c !in Twin(a);
  }

  ghost predicate EachSafe(tags: seq<string>) {
    forall k, m :: 0 <= k < m < |tags| ==> Safe(tags[k], tags[m])
  }

  lemma UnsafeIsCastAgain(tags: seq<string>) returns (s: string)
    requires AllWords(tags) && Distinct(tags) && !EachSafe(tags)
    ensures CastAgainIn(s, tags)
  {
    var k, m :| 0 <= k < m < |tags| && !Safe(tags[k], tags[m]);
    var n := |tags| - 1;
    if j :| 0 <= j < n && tags[j] == "text" {
      s := TextFirst(tags, j, n);
    } else if tags[n] == "text" {
      assert Digits("text", 4) && "text"[..4] == "text";
      s := DigitsBehindTag(tags, k, n);
    } else {
      s := DigitsBehindTag(tags, k, m);
    }
  }

  /**
   Of distinct names, the lists that are cast once are exactly those in which each may be
   cast after all before it.
  */
  lemma OnceIff(tags: seq<string>)
    requires AllWords(tags) && Distinct(tags)
    ensures Once(TagCast(tags)) <==> EachSafe(tags)
  {
    if EachSafe(tags) {
      ListOnce(tags);
    } else {
      var s := UnsafeIsCastAgain(tags);
    }
  }

  // ---- the pass

  /** A query of one call: its arguments are cast. */
  lemma OneCall(s: string, tags: seq<string>)
    requires AllWords(tags) && tags != [] && Balanced(s) && '(' !in s
    ensures Pass(Call("concat", s), tags) == Call("concat", TagCast(tags)(s))
  {
    TagCastIsSafe(tags);
    CallIsPiece(s);
    CallIsPassed(s, Splitter(FUNCTIONS), TagCast(tags));
  }

  lemma CallIsPiece(s: string)
    requires Balanced(s)
    ensures Splitter(FUNCTIONS)(Call("concat", s), 0) == TextCall("concat", 7 + |s|)
  {
    CallStandsThere(Call("concat", s), s);
    PieceOfCall(Call("concat", s), s, 7 + |s|);
  }

  lemma CallStandsThere(q: string, s: string)
    requires q == Call("concat", s)
    ensures At(q, "concat" + "(", 0) && |q| == 8 + |s| && q[7..7 + |s|] == s && q[7 + |s|] == ')'
  {
    CallLies("", "concat", s, "");
    assert "" + (q + "") == q;
  }

  lemma PieceOfCall(q: string, s: string, e: nat)
    requires At(q, "concat" + "(", 0) && e == 7 + |s| < |q| && q[7..e] == s && q[e] == ')' && Balanced(s)
    ensures Splitter(FUNCTIONS)(q, 0) == TextCall("concat", e)
  {
    WalkSlice(q, 7, e, 0);
    SplitterFindsCall(q, 0, "concat", e);
    assert FindsCall(Splitter(FUNCTIONS), q, 0, "concat", e);
  }

  lemma CallIsPassed(s: string, f: (string, nat) -> Piece, cast: string -> string)
    requires Splits(f) && KeepsParentheses(cast) && '(' !in s && f(Call("concat", s), 0) == TextCall("concat", 7 + |s|)
    ensures CastTags(Call("concat", s), f, cast, 0) == Call("concat", cast(s))
  {
    var q := Call("concat", s);
    assert PieceOf(q, 0, f(q, 0)) && q[7..7 + |s|] == s;
    PieceStep(q, f, cast, 0, TextCall("concat", 7 + |s|));
    CastCall(q, f, cast, 0, "concat", 7 + |s|, cast(s));
    StaysPlain(cast, s);
    NoCallIsCopied(cast(s), f, cast, 0);
    assert cast(s)[0..] == cast(s) && Call("concat", cast(s)) + "" == Call("concat", cast(s));
  }

  lemma StaysPlain(cast: string -> string, s: string)
    requires KeepsParentheses(cast) && '(' !in s
    ensures '(' !in cast(s) && (Balanced(s) ==> Balanced(cast(s)))
  {
    assert Alike(cast(s), s);
    CountNone(s, '(');
    CountNone(cast(s), '(');
  }

  ghost predicate PassedOnce(q: string, tags: seq<string>)
    requires AllWords(tags)
  {
    AllContained(Literals(q)) ==> Pass(Pass(q, tags), tags) == Pass(q, tags)
  }

  /** So too for the pass over whole queries whose literals are contained. */
  lemma PassOnceIff(tags: seq<string>)
    requires AllWords(tags) && Distinct(tags)
    ensures (forall q :: PassedOnce(q, tags)) <==> EachSafe(tags)
  {
    if EachSafe(tags) {
      forall q ensures PassedOnce(q, tags) {
        if AllContained(Literals(q)) { PassOnce(q, tags); }
      }
    } else {
      var s := UnsafeIsCastAgain(tags);
      NotPassedOnce(s, tags);
    }
  }

  lemma NotPassedOnce(s: string, tags: seq<string>)
    requires AllWords(tags) && tags != [] && CastAgainIn(s, tags)
    ensures !PassedOnce(Call("concat", s), tags)
  {
    OneCallTwice(s, tags, TagCast(tags)(s));
    NoLiterals(Call("concat", s));
    CallsDiffer(TagCast(tags)(s), TagCast(tags)(TagCast(tags)(s)));
  }

  lemma OneCallTwice(s: string, tags: seq<string>, t: string)
    requires AllWords(tags) && tags != [] && Plain(s) && t == TagCast(tags)(s)
    ensures Pass(Call("concat", s), tags) == Call("concat", t)
    ensures Pass(Call("concat", t), tags) == Call("concat", TagCast(tags)(t))
  {
    PlainIsBalanced(s);
    OneCall(s, tags);
    TagCastIsSafe(tags);
    StaysPlain(TagCast(tags), s);
    OneCall(t, tags);
  }

  lemma NoLiterals(q: string)
    requires QUOTE !in q
    ensures Literals(q) == []
  {
    LawsHold();
    PlainText(Reader(), q, "");
    assert q + "" == q;
  }

  lemma CallsDiffer(s: string, t: string)
    requires s != t
    ensures Call("concat", s) != Call("concat", t)
  {
    CallLies("", "concat", s, "");
    CallLies("", "concat", t, "");
    assert "" + (Call("concat", s) + "") == Call("concat", s) && "" + (Call("concat", t) + "") == Call("concat", t);
  }
}

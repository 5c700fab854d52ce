/**
 No tag is cast twice (internal/dashboards/postgres.go): the arguments of a call
 are cast before the calls inside them are looked at, and then nothing is left
 to cast there; nor when the pass is made over the query again, as it is once
 for every table the query reads.
*/
module SqlOnce {
  import opened Words
  import opened SqlPasses
  import opened SqlText
  import opened SqlLiterals
  import opened SqlCasts
  import opened SqlTags
  import opened SqlReach

  predicate Paren(c: char) {
    c == '(' || c == ')'
  }

  /** Casting goes on anew behind a parenthesis. */
  ghost predicate CutAtParen(f: string -> string, u: string, c: char, v: string) {
    f(u + ([c] + v)) == f(u) + ([c] + f(v))
  }

  // ---- the cast of one tag

  lemma Joint(u: string, c: char, v: string)
    ensures var s := u + ([c] + v);
            && |s| == |u| + 1 + |v| && s[|u|] == c
            && (forall k :: 0 <= k < |u| ==> s[k] == u[k])
            && (forall k :: 0 <= k < |v| ==> s[|u| + 1 + k] == v[k])
  {}

  lemma FrontAligned(u: string, c: char, v: string, i: nat)
    requires i <= |u| && Paren(c)
    ensures Aligned(u, i, u + ([c] + v), i, |u| - i)
  {
    Joint(u, c, v);
  }

  lemma BackAligned(u: string, c: char, v: string, k: nat)
    requires k <= |v|
    ensures Aligned(v, k, u + ([c] + v), |u| + 1 + k, |v| - k)
  {
    Joint(u, c, v);
    var s := u + ([c] + v);
    forall p | k <= p < k + (|v| - k) ensures v[p] == s[|u| + 1 + k + (p - k)] {
      assert s[|u| + 1 + p] == v[p];
    }
  }

  /** The suffix stands in the front as in the whole. */
  lemma SuffixInFront(u: string, c: char, v: string, e: nat)
    requires e <= |u| && Paren(c)
    ensures At(u + ([c] + v), TEXT, e) == At(u, TEXT, e)
  {
    Joint(u, c, v);
    var s := u + ([c] + v);
    if At(s, TEXT, e) && e + |TEXT| > |u| {
      InWord(s, TEXT, e, |u|);
    }
  }

  lemma SuffixInBack(u: string, c: char, v: string, e: nat)
    requires e <= |v|
    ensures At(u + ([c] + v), TEXT, |u| + 1 + e) == At(v, TEXT, e)
  {
    Joint(u, c, v);
    var s := u + ([c] + v);
    assert s[|u| + 1 + e..] == v[e..];
    AtFrom(s, TEXT, |u| + 1 + e);
    AtFrom(v, TEXT, e);
  }

  lemma AtFrom(s: string, word: string, k: nat)
    requires k <= |s|
    ensures At(s, word, k) == At(s[k..], word, 0)
  {
    if At(s[k..], word, 0) {
      forall m | 0 <= m < |word| ensures s[k + m] == word[m] { assert s[k..][0 + m] == s[k + m]; }
    }
    if At(s, word, k) {
      forall m | 0 <= m < |word| ensures s[k..][0 + m] == word[m] { assert s[k + m] == word[m]; }
    }
  }

  lemma StepInFront(u: string, c: char, v: string, tag: string, i: nat)
    requires i < |u| && Paren(c) && Word(tag)
    ensures var s := u + ([c] + v); StepEnd(s, tag, i) == StepEnd(u, tag, i) && Bare(s, tag, i) == Bare(u, tag, i)
  {
    var s := u + ([c] + v);
    Joint(u, c, v);
    FrontAligned(u, c, v, i);
    RefSame(u, i, s, i, |u| - i, tag);
    if RefEnd(u, i, tag) >= 0 { SuffixInFront(u, c, v, RefEnd(u, i, tag)); }
  }

  lemma StepInBack(u: string, c: char, v: string, tag: string, k: nat, s: string, j: nat)
    requires k < |v| && !IdentByte(c) && Word(tag) && s == u + ([c] + v) && j == |u| + 1 + k
    ensures j < |s| && StepEnd(s, tag, j) == j + (StepEnd(v, tag, k) - k) && Bare(s, tag, j) == Bare(v, tag, k)
  {
    RefInBack(u, c, v, tag, k, s, j);
    if RefEnd(v, k, tag) >= 0 { SuffixInBack(u, c, v, RefEnd(v, k, tag)); }
  }

  lemma RefInBack(u: string, c: char, v: string, tag: string, k: nat, s: string, j: nat)
    requires k < |v| && !IdentByte(c) && Word(tag) && s == u + ([c] + v) && j == |u| + 1 + k
    ensures j < |s| && RefEnd(s, j, tag) == if RefEnd(v, k, tag) < 0 then -1 else j + (RefEnd(v, k, tag) - k)
  {
    BackAligned(u, c, v, k);
    BackEdge(u, c, v, k);
    RefSame(v, k, s, j, |v| - k, tag);
  }

  lemma BackEdge(u: string, c: char, v: string, k: nat)
    requires k <= |v| && !IdentByte(c)
    ensures Edge(v, k) == Edge(u + ([c] + v), |u| + 1 + k)
  {
    Joint(u, c, v);
    if k > 0 { assert (u + ([c] + v))[|u| + 1 + (k - 1)] == v[k - 1]; }
  }

  /** A text cast step by step: from i on, up to where a step ends, and the suffix put in there. */
  datatype Stepping = Stepping(s: string, from: nat -> string, end: nat -> nat, suffix: nat -> string)

  ghost predicate StepAt(t: Stepping, i: nat)
    requires i < |t.s|
  {
    i < t.end(i) <= |t.s| && t.from(i) == t.s[i..t.end(i)] + (t.suffix(i) + t.from(t.end(i)))
  }

  ghost predicate Steps(t: Stepping) {
    t.from(|t.s|) == "" && forall i :: 0 <= i < |t.s| ==> StepAt(t, i)
  }

  function TagSteps(s: string, tag: string): Stepping
    requires tag != ""
  {
    Stepping(
      s,
      (i: nat) => if i <= |s| then CastTag(s, tag, i) else "",
      (i: nat) => if i < |s| then StepEnd(s, tag, i) else i,
      (i: nat) => if i < |s| && Bare(s, tag, i) then TEXT else "")
  }

  lemma TagStepsHold(s: string, tag: string)
    requires tag != ""
    ensures Steps(TagSteps(s, tag))
  {
    forall i | 0 <= i < |s| ensures StepAt(TagSteps(s, tag), i) {}
  }

  /** From o on, the one takes the same step as the other. */
  ghost predicate SameStep(t: Stepping, o: nat, u: Stepping, k: nat)
    requires k < |u.s| && o + |u.s| <= |t.s|
  {
    && k < u.end(k) <= |u.s|
    && t.end(o + k) == o + u.end(k)
    && t.suffix(o + k) == u.suffix(k)
    && t.s[o + k..o + u.end(k)] == u.s[k..u.end(k)]
  }

  ghost predicate SameSteps(t: Stepping, o: nat, u: Stepping)
    requires o + |u.s| <= |t.s|
  {
    forall k :: 0 <= k < |u.s| ==> SameStep(t, o, u, k)
  }

  /** What is cast from k on in the one is cast so in the other, with what follows. */
  lemma {:induction false} SameCast(t: Stepping, o: nat, u: Stepping, k: nat, rest: string)
    requires Steps(t) && Steps(u) && k <= |u.s| && o + |u.s| <= |t.s| && SameSteps(t, o, u)
    requires rest == t.from(o + |u.s|)
    ensures t.from(o + k) == u.from(k) + rest
    decreases |u.s| - k
  {
    if k < |u.s| {
      assert SameStep(t, o, u, k) && StepAt(t, o + k) && StepAt(u, k);
      var j := u.end(k);
      SameCast(t, o, u, j, rest);
      Joined(t.from(o + k), u.from(k), u.s[k..j], u.suffix(k), u.from(j), rest);
    } else {
      assert u.from(k) + rest == rest;
    }
  }

  lemma Joined(c: string, d: string, piece: string, suffix: string, r: string, rest: string)
    requires c == piece + (suffix + (r + rest)) && d == piece + (suffix + r)
    ensures c == d + rest
  {}

  lemma BackIsCast(u: string, c: char, v: string, tag: string)
    requires !IdentByte(c) && Word(tag)
    ensures CastTag(u + ([c] + v), tag, |u| + 1) == CastTag(v, tag, 0)
  {
    Joint(u, c, v);
    BackSteps(u, c, v, tag, |u| + 1);
    EndIsCast(u + ([c] + v), |u| + 1, v, tag);
  }

  lemma EndIsCast(s: string, o: nat, v: string, tag: string)
    requires tag != "" && o + |v| == |s| && SameSteps(TagSteps(s, tag), o, TagSteps(v, tag))
    ensures CastTag(s, tag, o) == CastTag(v, tag, 0)
  {
    TagStepsHold(s, tag);
    TagStepsHold(v, tag);
    SameCast(TagSteps(s, tag), o, TagSteps(v, tag), 0, "");
    assert CastTag(v, tag, 0) + "" == CastTag(v, tag, 0);
  }

  lemma BackSteps(u: string, c: char, v: string, tag: string, o: nat)
    requires !IdentByte(c) && Word(tag) && o == |u| + 1
    ensures SameSteps(TagSteps(u + ([c] + v), tag), o, TagSteps(v, tag))
  {
    Joint(u, c, v);
    forall k | 0 <= k < |v| ensures SameStep(TagSteps(u + ([c] + v), tag), o, TagSteps(v, tag), k) {
      BackStep(u, c, v, tag, k, u + ([c] + v), o);
    }
  }

  lemma BackStep(u: string, c: char, v: string, tag: string, k: nat, s: string, o: nat)
    requires k < |v| && !IdentByte(c) && Word(tag) && s == u + ([c] + v) && o == |u| + 1
    ensures o + |v| == |s| && SameStep(TagSteps(s, tag), o, TagSteps(v, tag), k)
  {
    var e := StepEnd(v, tag, k);
    StepInBack(u, c, v, tag, k, s, o + k);
    BackSlice(u, c, v, k, e, s, o);
    TheSameStep(s, o, v, tag, k, e);
  }

  lemma TheSameStep(s: string, o: nat, v: string, tag: string, k: nat, e: nat)
    requires k < |v| && o + |v| <= |s| && tag != "" && e == StepEnd(v, tag, k)
    requires StepEnd(s, tag, o + k) == o + e && Bare(s, tag, o + k) == Bare(v, tag, k) && s[o + k..o + e] == v[k..e]
    ensures SameStep(TagSteps(s, tag), o, TagSteps(v, tag), k)
  {}

  lemma BackSlice(u: string, c: char, v: string, k: nat, j: nat, s: string, o: nat)
    requires k <= j <= |v| && s == u + ([c] + v) && o == |u| + 1
    ensures o + |v| == |s| && s[o + k..o + j] == v[k..j]
  {
    Joint(u, c, v);
    assert s[o..] == v;
    SliceOfSlice(s, o, o + |v|, o + k, o + j);
  }

  lemma ParenIsCopied(u: string, c: char, v: string, tag: string, s: string)
    requires Paren(c) && Word(tag) && s == u + ([c] + v)
    ensures CastTag(s, tag, |u|) == [c] + CastTag(v, tag, 0)
  {
    Joint(u, c, v);
    FirstIsNot(s, tag, |u|);
    BackIsCast(u, c, v, tag);
    CastCopies(s, tag, |u|, |u| + 1, CastTag(v, tag, 0));
    assert s[|u|..|u| + 1] == [c];
  }

  /** No reference starts at a parenthesis. */
  lemma FirstIsNot(s: string, tag: string, i: nat)
    requires i < |s| && Paren(s[i]) && Word(tag)
    ensures RefEnd(s, i, tag) < 0
  {
    if At(s, tag, i) { InWord(s, tag, i, i); }
  }

  lemma FrontIsCast(u: string, c: char, v: string, tag: string)
    requires Paren(c) && Word(tag)
    ensures CastTag(u + ([c] + v), tag, 0) == CastTag(u, tag, 0) + ([c] + CastTag(v, tag, 0))
  {
    Joint(u, c, v);
    FrontSteps(u, c, v, tag);
    ParenIsCopied(u, c, v, tag, u + ([c] + v));
    StartIsCast(u + ([c] + v), u, tag, [c] + CastTag(v, tag, 0));
  }

  lemma StartIsCast(s: string, u: string, tag: string, rest: string)
    requires tag != "" && |u| <= |s| && SameSteps(TagSteps(s, tag), 0, TagSteps(u, tag)) && rest == CastTag(s, tag, |u|)
    ensures CastTag(s, tag, 0) == CastTag(u, tag, 0) + rest
  {
    TagStepsHold(s, tag);
    TagStepsHold(u, tag);
    SameCast(TagSteps(s, tag), 0, TagSteps(u, tag), 0, rest);
  }

  lemma FrontSteps(u: string, c: char, v: string, tag: string)
    requires Paren(c) && Word(tag)
    ensures SameSteps(TagSteps(u + ([c] + v), tag), 0, TagSteps(u, tag))
  {
    var s := u + ([c] + v);
    Joint(u, c, v);
    forall k | 0 <= k < |u| ensures SameStep(TagSteps(s, tag), 0, TagSteps(u, tag), k) {
      StepInFront(u, c, v, tag, k);
      assert s[k..StepEnd(u, tag, k)] == u[k..StepEnd(u, tag, k)];
    }
  }

  /** The cast of a tag goes on anew behind a parenthesis. */
  lemma CasterCuts(tag: string, u: string, c: char, v: string)
    requires Paren(c) && Word(tag)
    ensures CutAtParen(Caster(tag), u, c, v)
  {
    FrontIsCast(u, c, v, tag);
  }

  lemma {:induction false} CastTagGrows(s: string, tag: string, i: nat)
    requires i <= |s| && tag != ""
    ensures |CastTag(s, tag, i)| >= |s| - i
    decreases |s| - i
  {
    if i < |s| { CastTagGrows(s, tag, StepEnd(s, tag, i)); }
  }

  // ---- the same outside literals, and for a list of tags

  /** What is asked of the replacement of one tag. */
  ghost predicate Cuts(f: string -> string) {
    && f("") == "" && NoNewQuotes(f)
    && (forall u, c, v :: Paren(c) ==> CutAtParen(f, u, c, v))
    && (forall u {:trigger f(u)} :: |f(u)| >= |u|)
  }

  lemma CasterIsCutting(tag: string)
    requires Word(tag)
    ensures Cuts(Caster(tag))
  {
    CasterIsSafe(tag);
    forall u, c, v | Paren(c) ensures CutAtParen(Caster(tag), u, c, v) { CasterCuts(tag, u, c, v); }
    forall u ensures |Caster(tag)(u)| >= |u| { CastTagGrows(u, tag, 0); }
  }

  /** Text up to the next quote is replaced on its own. */
  lemma ReplacedStretch(t: string, s: string, f: string -> string)
    requires QUOTE !in t && (s == "" || s[0] == QUOTE) && f("") == ""
    ensures Replaced(t + s, f) == f(t) + Replaced(s, f)
  {
    if t == "" {
      assert t + s == s && f(t) + Replaced(s, f) == Replaced(s, f);
    } else {
      QuoteIn(t, s, 0);
      assert (t + s)[..|t|] == t && (t + s)[|t|..] == s;
    }
  }

  /** Where the first stretch of a text ends. */
  lemma FirstStretch(s: string) returns (t: string, r: string)
    ensures s == t + r && QUOTE !in t && (r == "" || r[0] == QUOTE) && (Closed(s) ==> Closed(r))
  {
    var e := Quote(s, 0);
    CutsPlain(s, e);
    t, r := s[..e], s[e..];
    if e == 0 { assert r == s; }
  }

  ghost predicate LiteralStays(r: string -> string, t: string, s: string) {
    Quoted(t) ==> r(t + s) == t + r(s)
  }

  ghost predicate StretchTurns(r: string -> string, f: string -> string, t: string, s: string) {
    QUOTE !in t && (s == "" || s[0] == QUOTE) ==> r(t + s) == f(t) + r(s)
  }

  ghost predicate OpenStays(r: string -> string, s: string) {
    s != "" && s[0] == QUOTE && Quote(s, 1) == |s| ==> r(s) == s
  }

  /** All that is used of replacing outside literals. */
  ghost predicate Outside(r: string -> string, f: string -> string) {
    && r("") == ""
    && (forall s :: OpenStays(r, s))
    && (forall t, s :: LiteralStays(r, t, s))
    && (forall t, s :: StretchTurns(r, f, t, s))
  }

  function Replacer(f: string -> string): string -> string {
    s => Replaced(s, f)
  }

  lemma ReplacerIsOutside(f: string -> string)
    requires f("") == ""
    ensures Outside(Replacer(f), f)
  {
    forall t, s ensures LiteralStays(Replacer(f), t, s) {
      if Quoted(t) { ReplacedLiteral(t, s, f); }
    }
    forall t, s ensures StretchTurns(Replacer(f), f, t, s) {
      if QUOTE !in t && (s == "" || s[0] == QUOTE) { ReplacedStretch(t, s, f); }
    }
  }

  /** A stretch without quotes, then a parenthesis, then anything. */
  lemma PlainCut(a: string, c: char, b: string, r: string -> string, f: string -> string)
    requires Cuts(f) && Outside(r, f) && Paren(c) && QUOTE !in a
    ensures CutAtParen(r, a, c, b)
  {
    var t, z := FirstStretch(b);
    var x := a + ([c] + t);
    assert StretchTurns(r, f, t, z) && StretchTurns(r, f, x, z) && CutAtParen(f, a, c, t);
    assert a + ([c] + b) == x + z;
    OnlyStretch(a, r, f);
    Regrouped(f(a), [c], f(t), r(z));
  }

  lemma OnlyStretch(a: string, r: string -> string, f: string -> string)
    requires Outside(r, f) && QUOTE !in a
    ensures r(a) == f(a)
  {
    assert StretchTurns(r, f, a, "");
    assert a + "" == a && f(a) + "" == f(a);
  }

  lemma Regrouped(a: string, b: string, c: string, d: string)
    ensures (a + (b + c)) + d == a + (b + (c + d))
  {}

  lemma LiteralCut(t: string, a: string, c: char, b: string, r: string -> string, f: string -> string)
    requires Outside(r, f) && Quoted(t) && CutAtParen(r, a, c, b)
    ensures CutAtParen(r, t + a, c, b)
  {
    assert LiteralStays(r, t, a) && LiteralStays(r, t, a + ([c] + b));
    InFront(t, a, [c] + b);
    InFront(t, r(a), [c] + r(b));
  }

  lemma InFront(t: string, a: string, b: string)
    ensures (t + a) + b == t + (a + b)
  {}

  lemma StretchCut(t: string, a: string, c: char, b: string, r: string -> string, f: string -> string)
    requires Outside(r, f) && QUOTE !in t && a != "" && a[0] == QUOTE && CutAtParen(r, a, c, b)
    ensures CutAtParen(r, t + a, c, b)
  {
    assert StretchTurns(r, f, t, a) && StretchTurns(r, f, t, a + ([c] + b));
    InFront(t, a, [c] + b);
    InFront(f(t), r(a), [c] + r(b));
  }

  /** Behind closed text and a parenthesis the replacement goes on anew. */
  lemma {:induction false} ReplacedCuts(a: string, c: char, b: string, r: string -> string, f: string -> string)
    requires Cuts(f) && Outside(r, f) && Paren(c) && Closed(a)
    ensures CutAtParen(r, a, c, b)
    decreases |a|, 0
  {
    if a != "" && a[0] == QUOTE {
      var e := Quote(a, 1);
      CutsLiteral(a, e);
      ReplacedCuts(a[e + 1..], c, b, r, f);
      LiteralCut(a[..e + 1], a[e + 1..], c, b, r, f);
      assert a == a[..e + 1] + a[e + 1..];
    } else {
      var t, z := FirstStretch(a);
      if z == "" {
        assert a == t;
        PlainCut(a, c, b, r, f);
      } else {
        ReplacedCuts(z, c, b, r, f);
        StretchCut(t, z, c, b, r, f);
      }
    }
  }

  ghost predicate AllCut(fs: seq<string -> string>) {
    forall k :: 0 <= k < |fs| ==> Cuts(fs[k])
  }

  lemma {:induction false} IdentifiersStayClosed(a: string, fs: seq<string -> string>)
    requires AllCut(fs) && Closed(a)
    ensures Closed(CastIdentifiers(a, fs))
  {
    LawsHold();
    forall k | 0 <= k < |fs| ensures NoNewQuotes(fs[k]) { assert Cuts(fs[k]); }
    CastIdentifiersKeep(Reader(), a, fs);
    assert Reader()(CastIdentifiers(a, fs)) == Reader()(a);
  }

  /** So does the cast of a list of tags. */
  lemma {:induction false} IdentifiersCut(a: string, c: char, b: string, fs: seq<string -> string>)
    requires AllCut(fs) && Paren(c) && Closed(a)
    ensures CastIdentifiers(a + ([c] + b), fs) == CastIdentifiers(a, fs) + ([c] + CastIdentifiers(b, fs))
  {
    if fs != [] {
      var n := |fs| - 1;
      IdentifiersCut(a, c, b, fs[..n]);
      IdentifiersStayClosed(a, fs[..n]);
      ReplacerIsOutside(fs[n]);
      ReplacedCuts(CastIdentifiers(a, fs[..n]), c, CastIdentifiers(b, fs[..n]), Replacer(fs[n]), fs[n]);
      assert CutAtParen(Replacer(fs[n]), CastIdentifiers(a, fs[..n]), c, CastIdentifiers(b, fs[..n]));
    }
  }

  lemma {:induction false} ReplacedGrows(s: string, f: string -> string)
    requires Cuts(f)
    ensures |Replaced(s, f)| >= |s|
    decreases |s|
  {
    if s == "" {
    } else if s[0] == QUOTE {
      if Quote(s, 1) < |s| { ReplacedGrows(s[Quote(s, 1) + 1..], f); }
    } else {
      ReplacedGrows(s[Quote(s, 0)..], f);
      assert |f(s[..Quote(s, 0)])| >= Quote(s, 0);
    }
  }

  lemma {:induction false} IdentifiersGrow(a: string, fs: seq<string -> string>)
    requires AllCut(fs)
    ensures |CastIdentifiers(a, fs)| >= |a|
  {
    if fs != [] {
      IdentifiersGrow(a, fs[..|fs| - 1]);
      ReplacedGrows(CastIdentifiers(a, fs[..|fs| - 1]), fs[|fs| - 1]);
    }
  }

  // ---- text already cast

  /** All that is used of the cast of an argument list. */
  ghost predicate Parted(cast: string -> string) {
    && (forall a {:trigger cast(a)} :: |cast(a)| >= |a|)
    && (forall a, c, b :: Paren(c) && Closed(a) ==> CutAtParen(cast, a, c, b))
  }

  lemma TagCastIsParted(tags: seq<string>)
    requires AllWords(tags)
    ensures Parted(TagCast(tags))
  {
    var fs := Casters(tags);
    forall k | 0 <= k < |fs| ensures Cuts(fs[k]) { CasterIsCutting(tags[k]); }
    forall a ensures |TagCast(tags)(a)| >= |a| { IdentifiersGrow(a, fs); }
    forall a, c, b | Paren(c) && Closed(a) ensures CutAtParen(TagCast(tags), a, c, b) { IdentifiersCut(a, c, b, fs); }
  }

  /** Where text cast already is parted by a parenthesis, either part is cast already. */
  lemma PartsAreCast(cast: string -> string, a: string, c: char, b: string)
    requires Parted(cast) && Paren(c) && Closed(a) && cast(a + ([c] + b)) == a + ([c] + b)
    ensures cast(a) == a && cast(b) == b
  {
    assert CutAtParen(cast, a, c, b);
    assert |cast(a)| >= |a| && |cast(b)| >= |b|;
    SameParts(cast(a), a, c, cast(b), b);
  }

  lemma SameParts(x: string, a: string, c: char, y: string, b: string)
    requires x + ([c] + y) == a + ([c] + b) && |x| >= |a| && |y| >= |b|
    ensures x == a && y == b
  {
    assert |x| == |a|;
    assert x == (x + ([c] + y))[..|x|] == a;
    assert y == (x + ([c] + y))[|x| + 1..] == b;
  }

  /** So the arguments of a call in it are cast already. */
  lemma ArgumentsAreCast(cast: string -> string, a: string, inside: string, rest: string, s: string)
    requires Parted(cast) && Closed(a) && Closed(inside)
    requires s == a + (['('] + (inside + ([')'] + rest))) && cast(s) == s
    ensures cast(inside) == inside
  {
    PartsAreCast(cast, a, '(', inside + ([')'] + rest));
    PartsAreCast(cast, inside, ')', rest);
  }

  /** A name in front of a parenthesis is closed text, where what stands before it is. */
  lemma NameIsClosed(read: string -> Reading, s: string, i: nat, fn: string)
    requires Laws(read) && i + |fn| <= |s| && s[i..i + |fn|] == fn && read(s[..i]).closed && QUOTE !in fn
    ensures read(s[..i + |fn|]).closed
  {
    assert s[..i + |fn|] == s[..i] + fn;
    ClosedConcat(read, s[..i], fn);
    PlainText(read, fn, "");
    assert fn + "" == fn;
  }

  lemma CallParts(s: string, i: nat, fn: string, end: nat)
    requires PieceOf(s, i, TextCall(fn, end))
    ensures s == s[..i + |fn|] + (['('] + (s[i + |fn| + 1..end] + ([')'] + s[end + 1..])))
    ensures s[i..i + |fn|] == fn
  {
    OpensThere(s, fn, i);
    HeadOf(s, fn, i);
    CutInFour(s, i + |fn|, end);
  }

  lemma HeadOf(s: string, fn: string, i: nat)
    requires At(s, fn + "(", i)
    ensures s[i + |fn|] == '(' && s[i..i + |fn|] == fn
  {
    var head := fn + "(";
    assert s[i + |fn|] == head[|fn|];
    forall k | 0 <= k < |fn| ensures s[i + k] == fn[k] { assert s[i + k] == head[k]; }
  }

  lemma CutInFour(s: string, open: nat, end: nat)
    requires open < end < |s| && s[open] == '(' && s[end] == ')'
    ensures s == s[..open] + (['('] + (s[open + 1..end] + ([')'] + s[end + 1..])))
  {}

  /** A call in text already cast: its arguments are cast already. */
  lemma CallIsCastAlready(read: string -> Reading, s: string, cast: string -> string, i: nat, fn: string, end: nat)
    requires Laws(read) && read == Reader() && Parted(cast) && cast(s) == s && i < |s| && read(s[..i]).closed
    requires PieceOf(s, i, TextCall(fn, end)) && MindsLiterals(s, i, TextCall(fn, end))
    requires AllContained(read(s[i..]).literals)
    ensures cast(s[i + |fn| + 1..end]) == s[i + |fn| + 1..end] && read(s[..end + 1]).closed
    ensures AllContained(read(s[i + |fn| + 1..end]).literals)
  {
    var inside := s[i + |fn| + 1..end];
    CallPiece(read, s, i, fn, end);
    InsideIsCast(read, s, cast, i, fn, end);
    ContainedParts(read(inside).literals, read(s[end + 1..]).literals);
    CallIsClosed(read, s, i, fn, end);
  }

  lemma InsideIsCast(read: string -> Reading, s: string, cast: string -> string, i: nat, fn: string, end: nat)
    requires Laws(read) && read == Reader() && Parted(cast) && cast(s) == s && QUOTE !in fn
    requires PieceOf(s, i, TextCall(fn, end)) && read(s[..i]).closed && read(s[i + |fn| + 1..end]).closed
    ensures cast(s[i + |fn| + 1..end]) == s[i + |fn| + 1..end]
  {
    CallParts(s, i, fn, end);
    NameIsClosed(read, s, i, fn);
    ArgumentsAreCast(cast, s[..i + |fn|], s[i + |fn| + 1..end], s[end + 1..], s);
  }

  lemma CallIsClosed(read: string -> Reading, s: string, i: nat, fn: string, end: nat)
    requires Laws(read) && PieceOf(s, i, TextCall(fn, end)) && QUOTE !in fn
    requires read(s[..i]).closed && read(s[i + |fn| + 1..end]).closed
    ensures read(s[..end + 1]).closed
  {
    var inside := s[i + |fn| + 1..end];
    CallIsThere(s, i, fn, end);
    assert s[..end + 1] == s[..i] + Call(fn, inside);
    ClosedConcat(read, s[..i], Call(fn, inside));
    CallReads(read, fn, inside, "");
    assert Call(fn, inside) + "" == Call(fn, inside);
    assert read("").closed;
  }

  lemma CopyIsClosed(read: string -> Reading, s: string, i: nat, j: nat)
    requires Laws(read) && read == Reader() && i < j <= |s| && read(s[..i]).closed && MindsLiterals(s, i, Copy(j))
    ensures j == |s| || read(s[..j]).closed
  {
    if j < |s| {
      assert s[..j] == s[..i] + s[i..j];
      ClosedConcat(read, s[..i], s[i..j]);
      if s[i] == QUOTE {
        QuoteFrom(s, i);
        SlicesFrom(s, i, j);
        CutsLiteral(s[i..], j - i - 1);
        assert QuotedLaw(read, s[i..j], "") && s[i..j] + "" == s[i..j];
      } else {
        assert PlainLaw(read, s[i], "") && s[i..j] == [s[i]] + "";
      }
    }
  }

  /** In text cast already the pass finds nothing to do. */
  lemma {:induction false} PassStays(read: string -> Reading, s: string, f: (string, nat) -> Piece,
                                     cast: string -> string, i: nat)
    requires Laws(read) && read == Reader() && Parted(cast) && KeepsParentheses(cast) && Splits(f) && AllMindLiterals(f)
    requires cast(s) == s && i <= |s| && (i == |s| || read(s[..i]).closed) && AllContained(read(s[i..]).literals)
    ensures CastTags(s, f, cast, i) == s[i..]
    decreases Count(s, '('), 1, |s| - i
  {
    if i < |s| {
      var p := f(s, i);
      assert PieceOf(s, i, p) && MindsLiterals(s, i, p);
      PieceStays(read, s, f, cast, i, p);
      PieceHasNone(read, s, i, p);
      PassStays(read, s, f, cast, PieceEnd(p));
      PieceGoesOn(s, f, cast, i, p);
    } else {
      assert s[i..] == "";
    }
  }

  lemma {:induction false} PieceStays(read: string -> Reading, s: string, f: (string, nat) -> Piece,
                                      cast: string -> string,
                                      i: nat, p: Piece)
    requires Laws(read) && read == Reader() && Parted(cast) && KeepsParentheses(cast) && Splits(f) && AllMindLiterals(f)
    requires cast(s) == s && i < |s| && read(s[..i]).closed && AllContained(read(s[i..]).literals)
    requires PieceOf(s, i, p) && MindsLiterals(s, i, p)
    ensures PieceEnd(p) <= |s| && CastPiece(s, f, cast, i, p) == s[i..PieceEnd(p)]
    ensures PieceEnd(p) == |s| || read(s[..PieceEnd(p)]).closed
    decreases Count(s, '('), 0, 1
  {
    match p
    case Copy(j) =>
      CopyIsClosed(read, s, i, j);
    case TextCall(fn, end) =>
      CallIsCastAlready(read, s, cast, i, fn, end);
      InsideStays(read, s, f, cast, i, fn, end, s[i + |fn| + 1..end]);
  }

  lemma {:induction false} InsideStays(read: string -> Reading, s: string, f: (string, nat) -> Piece,
                                       cast: string -> string,
                                       i: nat, fn: string, end: nat, inside: string)
    requires Laws(read) && read == Reader() && Parted(cast) && KeepsParentheses(cast) && Splits(f) && AllMindLiterals(f)
    requires PieceOf(s, i, TextCall(fn, end)) && inside == s[i + |fn| + 1..end]
    requires cast(inside) == inside && AllContained(read(inside).literals)
    ensures CastPiece(s, f, cast, i, TextCall(fn, end)) == s[i..end + 1]
    decreases Count(s, '('), 0, 0
  {
    ArgumentsShrink(s, cast, i, fn, end);
    assert inside[0..] == inside && inside[..0] == "";
    PassStays(read, inside, f, cast, 0);
    CallStays(s, f, cast, i, fn, end, inside);
  }

  lemma PieceGoesOn(s: string, f: (string, nat) -> Piece, cast: string -> string, i: nat, p: Piece)
    requires i < |s| && Splits(f) && KeepsParentheses(cast) && f(s, i) == p && PieceOf(s, i, p) && PieceEnd(p) <= |s|
    requires CastPiece(s, f, cast, i, p) == s[i..PieceEnd(p)] && CastTags(s, f, cast, PieceEnd(p)) == s[PieceEnd(p)..]
    ensures CastTags(s, f, cast, i) == s[i..]
  {
    PieceStep(s, f, cast, i, p);
    Spliced(s, i, PieceEnd(p), CastPiece(s, f, cast, i, p), CastTags(s, f, cast, PieceEnd(p)));
  }

  lemma Spliced(s: string, i: nat, k: nat, a: string, b: string)
    requires i <= k <= |s| && a == s[i..k] && b == s[k..]
    ensures a + b == s[i..]
  {}

  lemma CallStays(s: string, f: (string, nat) -> Piece, cast: string -> string, i: nat, fn: string, end: nat,
                  inside: string)
    requires Splits(f) && KeepsParentheses(cast) && PieceOf(s, i, TextCall(fn, end)) && inside == s[i + |fn| + 1..end]
    requires cast(inside) == inside && CastTags(inside, f, cast, 0) == inside
    ensures CastPiece(s, f, cast, i, TextCall(fn, end)) == s[i..end + 1]
  {
    CastCall(s, f, cast, i, fn, end, inside);
    CallIsThere(s, i, fn, end);
  }

  ghost predicate Once(cast: string -> string) {
    forall a {:trigger cast(cast(a))} :: cast(cast(a)) == cast(a)
  }

  /** The calls inside an argument list: once the list is cast, their own turn changes nothing. */
  lemma NestedOnce(args: string, cast: string -> string)
    requires Parted(cast) && KeepsParentheses(cast) && KeepsLiterals(Reader(), cast) && Once(cast)
    requires AllContained(Literals(args))
    ensures Splits(Splitter(FUNCTIONS)) && CastTags(cast(args), Splitter(FUNCTIONS), cast, 0) == cast(args)
  {
    LawsHold();
    SplitterSplits(FUNCTIONS);
    SplitterMinds(FUNCTIONS);
    assert cast(args)[0..] == cast(args) && cast(args)[..0] == "";
    assert Reader()(cast(args)) == Reader()(args);
    PassStays(Reader(), cast(args), Splitter(FUNCTIONS), cast, 0);
  }

  // ---- the pass made again

  /** A text function is called at i, and closes somewhere. */
  ghost predicate CallAt(s: string, i: nat, fn: string)
    requires i <= |s|
  {
    At(s, fn + "(", i) && Edge(s, i) && Walk(s, i + |fn| + 1, |s|, 0).None?
  }

  /** A parenthesis closes exactly when the walk behind it ends below where it began. */
  lemma ClosesIff(s: string, open: nat)
    requires open < |s|
    ensures Closing(s, open, open + 1) >= 0 <==> Walk(s, open + 1, |s|, 0).None?
  {
    if Walk(s, open + 1, |s|, 0).None? {
      var e := FirstUnmatched(s, open + 1, |s|);
      ClosesAt(s, open, open + 1, e);
    } else if Closing(s, open, open + 1) >= 0 {
      var e := Closing(s, open, open + 1);
      ClosingEnclosesBalanced(s, open, open + 1);
      WalkSlice(s, open + 1, e, 0);
      WalkSplit(s, open + 1, e + 1, |s|, 0);
    }
  }

  lemma CallOfIff(s: string, fn: string, i: nat)
    requires i <= |s|
    ensures CallOf(s, fn, i) >= 0 <==> CallAt(s, i, fn)
  {
    if At(s, fn + "(", i) { ClosesIff(s, i + |fn|); }
  }

  lemma NoneIff(s: string, i: nat)
    requires i <= |s|
    ensures TextFunctionAt(s, FUNCTIONS, i).None? <==> CallOf(s, "lpad", i) < 0 && CallOf(s, "concat", i) < 0
  {
    assert FUNCTIONS[1..] == ["concat"] && ["concat"][1..] == [];
    assert TextFunctionAt(s, [], i).None?;
  }

  /**
   Outside literals a character is copied exactly where no call of the two functions
   starts; no other is ever found.
  */
  ghost predicate CopiesIff(f: (string, nat) -> Piece, s: string, i: nat)
    requires i < |s|
  {
    && (s[i] != QUOTE ==> (f(s, i).Copy? <==> !CallAt(s, i, "lpad") && !CallAt(s, i, "concat")))
    && (f(s, i).TextCall? ==> Named(f(s, i).fn) && Edge(s, i))
  }

  ghost predicate Named(fn: string) {
    fn == "lpad" || fn == "concat"
  }

  /** A call is found with its end. */
  ghost predicate FindsCall(f: (string, nat) -> Piece, s: string, i: nat, fn: string, end: nat) {
    && i < |s| && Named(fn) && At(s, fn + "(", i) && Edge(s, i)
    && i + |fn| < end < |s| && s[end] == ')' && Walk(s, i + |fn| + 1, end, 0) == Some(0)
    ==> f(s, i) == TextCall(fn, end)
  }

  /** All that is used of cutting into pieces here. */
  ghost predicate Finds(f: (string, nat) -> Piece) {
    && (forall s: string, i: nat :: i < |s| ==> CopiesIff(f, s, i))
    && (forall s, i, fn, end :: FindsCall(f, s, i, fn, end))
  }

  lemma SplitterFinds()
    ensures Finds(Splitter(FUNCTIONS))
  {
    forall s: string, i: nat | i < |s| ensures CopiesIff(Splitter(FUNCTIONS), s, i) {
      NoneIff(s, i);
      CallOfIff(s, "lpad", i);
      CallOfIff(s, "concat", i);
    }
    forall s, i, fn, end ensures FindsCall(Splitter(FUNCTIONS), s, i, fn, end) {
      SplitterFindsCall(s, i, fn, end);
    }
  }

  lemma SplitterFindsCall(s: string, i: nat, fn: string, end: nat)
    ensures FindsCall(Splitter(FUNCTIONS), s, i, fn, end)
  {
    if i < |s| && Named(fn) && At(s, fn + "(", i) && Edge(s, i) && i + |fn| < end < |s| && s[end] == ')'
      && Walk(s, i + |fn| + 1, end, 0) == Some(0) {
      ClosesAt(s, i + |fn|, i + |fn| + 1, end);
      assert CallOf(s, fn, i) == end && s[i] == (fn + "(")[0];
      FoundByName(s, i, fn, end);
    }
  }

  lemma FoundByName(s: string, i: nat, fn: string, end: nat)
    requires i < |s| && Named(fn) && CallOf(s, fn, i) == end && s[i] == fn[0]
    ensures Splitter(FUNCTIONS)(s, i) == TextCall(fn, end)
  {
    assert FUNCTIONS[1..] == ["concat"];
    if fn == "concat" {
      assert ("lpad" + "(")[0] == 'l';
      assert CallOf(s, "lpad", i) == -1;
      assert TextFunctionAt(s, ["concat"], i) == Some(("concat", end));
    }
  }

  /** Where the text so far is x, and the pass goes on with what it made of q from i on. */
  ghost predicate Follows(q: string, i: nat, x: string) {
    i <= |q| && Edge(q, i) == Edge(x, |x|)
  }

  function Maker(q: string, f: (string, nat) -> Piece, cast: string -> string): nat -> string
    requires Splits(f) && KeepsParentheses(cast)
  {
    (i: nat) => if i <= |q| then CastTags(q, f, cast, i) else ""
  }

  ghost predicate CopyMade(q: string, f: (string, nat) -> Piece, out: nat -> string, i: nat)
    requires i < |q|
  {
    f(q, i).Copy? ==>
      && i < f(q, i).j <= |q| && out(i) == q[i..f(q, i).j] + out(f(q, i).j)
      && (q[i] != QUOTE ==> f(q, i).j == i + 1)
  }

  /** What is used of what the pass makes: pieces are copied. */
  ghost predicate Made(q: string, f: (string, nat) -> Piece, out: nat -> string) {
    out(|q|) == "" && forall i :: 0 <= i < |q| ==> CopyMade(q, f, out, i)
  }

  lemma MakerMakes(q: string, f: (string, nat) -> Piece, cast: string -> string)
    requires Splits(f) && AllMindLiterals(f) && KeepsParentheses(cast)
    ensures Made(q, f, Maker(q, f, cast))
  {
    forall i | 0 <= i < |q| ensures CopyMade(q, f, Maker(q, f, cast), i) {
      var p := f(q, i);
      assert PieceOf(q, i, p) && MindsLiterals(q, i, p);
      PieceStep(q, f, cast, i, p);
    }
  }

  lemma NamePlain(fn: string, k: nat)
    requires Named(fn) && k <= |fn|
    ensures (fn + "(")[k] != QUOTE && (k < |fn| ==> IdentByte((fn + "(")[k]))
  {}

  lemma InsideName(q: string, i: nat, fn: string, k: nat)
    requires Named(fn) && 0 < k <= |fn| && i + k < |q| && q[i..i + k] == (fn + "(")[..k]
    ensures !Edge(q, i + k)
  {
    assert q[i..i + k][k - 1] == (fn + "(")[k - 1];
    NamePlain(fn, k - 1);
  }

  /** No call starts at a quote, or within a name. */
  lemma NoCallInside(q: string, f: (string, nat) -> Piece, j: nat)
    requires j < |q| && Splits(f) && AllMindLiterals(f) && Finds(f) && (q[j] == QUOTE || !Edge(q, j))
    ensures f(q, j).Copy?
  {
    assert PieceOf(q, j, f(q, j)) && MindsLiterals(q, j, f(q, j)) && CopiesIff(f, q, j);
    if f(q, j).TextCall? { InWord(q, f(q, j).fn + "(", j, j); }
  }

  /** A copied piece that shows no quote is one character. */
  lemma CopiedPlain(q: string, f: (string, nat) -> Piece, out: nat -> string, j: nat, c: char)
    requires j <= |q| && Made(q, f, out) && out(j) != "" && out(j)[0] == c && c != QUOTE
    requires j < |q| ==> f(q, j).Copy?
    ensures j < |q| && q[j] == c && out(j) == [c] + out(j + 1)
  {
    assert CopyMade(q, f, out, j);
    var e := f(q, j).j;
    assert q[j..e][0] == q[j];
    assert out(j)[0] == q[j..e][0];
    assert q[j..j + 1] == [q[j]];
  }

  /** A function's name that stands in what the pass made, with its parenthesis, stood in the query. */
  lemma {:induction false} NameStoodThere(q: string, f: (string, nat) -> Piece, out: nat -> string, i: nat, fn: string,
                                          k: nat, j: nat)
    requires i < |q| && Splits(f) && AllMindLiterals(f) && Finds(f) && Made(q, f, out) && j == i + k
    requires Named(fn) && k <= |fn| + 1 && f(q, i).Copy? && At(out(i), fn + "(", 0)
    ensures j <= |q| && q[i..j] == (fn + "(")[..k] && out(i) == q[i..j] + out(j)
    decreases k
  {
    if k == 0 {
      assert out(i) == "" + out(i);
    } else {
      NameStoodThere(q, f, out, i, fn, k - 1, j - 1);
      NextStoodThere(q, f, out, i, fn, k - 1, j - 1);
    }
  }

  lemma NextStoodThere(q: string, f: (string, nat) -> Piece, out: nat -> string, i: nat, fn: string, k: nat, j: nat)
    requires i < |q| && Splits(f) && AllMindLiterals(f) && Finds(f) && Made(q, f, out) && j == i + k
    requires Named(fn) && k <= |fn| && f(q, i).Copy? && At(out(i), fn + "(", 0)
    requires j <= |q| && q[i..j] == (fn + "(")[..k] && out(i) == q[i..j] + out(j)
    ensures j < |q| && q[i..j + 1] == (fn + "(")[..k + 1] && out(i) == q[i..j + 1] + out(j + 1)
  {
    NextShows(out(i), q[i..j], out(j), fn, k);
    NamePlain(fn, k);
    if 0 < k && j < |q| {
      InsideName(q, i, fn, k);
      NoCallInside(q, f, j);
    }
    CopiedPlain(q, f, out, j, (fn + "(")[k]);
    NextJoins(q, i, j, out(i), out(j), out(j + 1), fn + "(");
  }

  lemma NextShows(s: string, t: string, rest: string, fn: string, k: nat)
    requires s == t + rest && |t| == k <= |fn| && At(s, fn + "(", 0)
    ensures rest != "" && rest[0] == (fn + "(")[k]
  {
    assert s[0 + k] == (fn + "(")[k];
  }

  lemma NextJoins(q: string, i: nat, j: nat, s: string, rest: string, more: string, name: string)
    requires i <= j < |q| && s == q[i..j] + rest && rest == [q[j]] + more
    requires j - i < |name| && q[i..j] == name[..j - i] && q[j] == name[j - i]
    ensures q[i..j + 1] == name[..j - i + 1] && s == q[i..j + 1] + more
  {
    assert q[i..j + 1] == q[i..j] + [q[j]];
  }

  /** The text made from k on nests as the query does from there. */
  ghost predicate Nests(q: string, out: nat -> string) {
    forall k :: 0 <= k <= |q| ==> WalksFrom(out(k), q, k, |q|)
  }

  lemma MakerNests(q: string, f: (string, nat) -> Piece, cast: string -> string)
    requires Splits(f) && KeepsParentheses(cast)
    ensures Nests(q, Maker(q, f, cast))
  {
    forall k | 0 <= k <= |q| ensures WalksFrom(Maker(q, f, cast)(k), q, k, |q|) {
      CastKeepsWalk(q, f, cast, k);
    }
  }

  lemma EdgeOf(x: string, t: string)
    ensures Edge(x + t, |x|) == Edge(x, |x|)
  {}

  /** Where the pass copied a character of the query, it finds no call when it comes again. */
  lemma NoNewCall(q: string, f: (string, nat) -> Piece, out: nat -> string, i: nat, x: string, fn: string)
    requires i < |q| && Splits(f) && AllMindLiterals(f) && Finds(f) && Made(q, f, out) && Nests(q, out)
    requires Named(fn) && f(q, i).Copy? && q[i] != QUOTE && Follows(q, i, x)
    ensures !CallAt(x + out(i), |x|, fn)
  {
    var s := x + out(i);
    EdgeOf(x, out(i));
    assert s[|x|..] == out(i);
    AtFrom(s, fn + "(", |x|);
    if At(s, fn + "(", |x|) && Edge(s, |x|) {
      var t, rest := ClosesNowhere(q, f, out, i, fn);
      WalksThere(s, x, t, rest, |x| + |fn| + 1);
    }
  }

  /** The name copied with its parenthesis, and a rest in which nothing closes that. */
  lemma ClosesNowhere(q: string, f: (string, nat) -> Piece, out: nat -> string, i: nat, fn: string) returns (t: string,
                      rest: string)
    requires i < |q| && Splits(f) && AllMindLiterals(f) && Finds(f) && Made(q, f, out) && Nests(q, out)
    requires Named(fn) && f(q, i).Copy? && q[i] != QUOTE && Edge(q, i) && At(out(i), fn + "(", 0)
    ensures out(i) == t + rest && |t| == |fn| + 1 && Walk(rest, 0, |rest|, 0).Some?
  {
    var j := i + |fn| + 1;
    NameStoodThere(q, f, out, i, fn, |fn| + 1, j);
    StoodOpen(q, f, i, fn, j);
    NestsAt(q, out, j);
    t, rest := q[i..j], out(j);
  }

  lemma WalksThere(s: string, x: string, t: string, rest: string, n: nat)
    requires s == x + (t + rest) && n == |x| + |t| && Walk(rest, 0, |rest|, 0).Some?
    ensures n <= |s| && Walk(s, n, |s|, 0).Some?
  {
    RestOf(s, x, t, rest, n);
    WalkOfRest(s, n, rest);
  }

  lemma NestsAt(q: string, out: nat -> string, j: nat)
    requires j <= |q| && Nests(q, out) && Walk(q, j, |q|, 0).Some?
    ensures Walk(out(j), 0, |out(j)|, 0).Some?
  {
    assert WalksFrom(out(j), q, j, |q|);
  }

  lemma StoodOpen(q: string, f: (string, nat) -> Piece, i: nat, fn: string, j: nat)
    requires i < |q| && Finds(f) && Named(fn) && f(q, i).Copy? && q[i] != QUOTE && Edge(q, i)
    requires j == i + |fn| + 1 <= |q| && q[i..j] == (fn + "(")[..|fn| + 1]
    ensures Walk(q, j, |q|, 0).Some?
  {
    StandsThere(q, fn + "(", i);
    assert CopiesIff(f, q, i) && !CallAt(q, i, fn);
  }

  lemma RestOf(s: string, x: string, t: string, rest: string, n: nat)
    requires s == x + (t + rest) && n == |x| + |t|
    ensures n <= |s| && s[n..|s|] == rest
  {}

  lemma WalkOfRest(s: string, n: nat, rest: string)
    requires n <= |s| && s[n..|s|] == rest
    ensures Walk(s, n, |s|, 0) == Walk(rest, 0, |rest|, 0)
  {
    WalkSlice(s, n, |s|, 0);
  }

  lemma StandsThere(q: string, word: string, i: nat)
    requires i + |word| <= |q| && q[i..i + |word|] == word[..|word|]
    ensures At(q, word, i)
  {
    forall k | 0 <= k < |word| ensures q[i + k] == word[k] { assert q[i..i + |word|][k] == q[i + k]; }
  }

  lemma CharAgain(q: string, f: (string, nat) -> Piece, out: nat -> string, i: nat, x: string)
    requires i < |q| && Splits(f) && AllMindLiterals(f) && Finds(f) && Made(q, f, out) && Nests(q, out)
    requires f(q, i).Copy? && q[i] != QUOTE && Follows(q, i, x)
    ensures |x| < |x + out(i)| && f(x + out(i), |x|) == Copy(|x| + 1)
  {
    var s := x + out(i);
    assert CopyMade(q, f, out, i);
    assert q[i..i + 1] == [q[i]] && s[|x|] == q[i];
    NoNewCall(q, f, out, i, x, "lpad");
    NoNewCall(q, f, out, i, x, "concat");
    assert CopiesIff(f, s, |x|);
    assert PieceOf(s, |x|, f(s, |x|)) && MindsLiterals(s, |x|, f(s, |x|));
  }

  /** A literal copied is found again, with the same end. */
  lemma QuoteAgain(q: string, i: nat, j: nat, x: string, rest: string)
    requires i < |q| && q[i] == QUOTE && j == Min(Quote(q, i + 1) + 1, |q|) && (j == |q| ==> rest == "")
    ensures var s := x + (q[i..j] + rest);
            |x| < |s| && s[|x|] == QUOTE && Min(Quote(s, |x| + 1) + 1, |s|) == |x| + (j - i)
  {
    var s := x + (q[i..j] + rest);
    var e := Quote(q, i + 1);
    forall k | |x| <= k < |x| + (j - i)
      ensures s[k] == q[i + (k - |x|)]
    {
      assert q[i..j][k - |x|] == q[i + (k - |x|)];
    }
    forall k | i < k < e ensures q[k] != QUOTE { NoQuoteBefore(q, i + 1, k); }
    QuoteIs(s, |x| + 1, |x| + (e - i));
  }

  lemma LiteralAgain(q: string, f: (string, nat) -> Piece, out: nat -> string, i: nat, x: string)
    requires i < |q| && Splits(f) && AllMindLiterals(f) && Finds(f) && Made(q, f, out) && q[i] == QUOTE
    ensures f(q, i).Copy? && |x| < |x + out(i)| && f(x + out(i), |x|) == Copy(|x| + (f(q, i).j - i))
  {
    NoCallInside(q, f, i);
    var j := f(q, i).j;
    assert MindsLiterals(q, i, f(q, i)) && CopyMade(q, f, out, i);
    QuoteAgain(q, i, j, x, out(j));
    var s := x + out(i);
    NoCallInside(s, f, |x|);
    assert MindsLiterals(s, |x|, f(s, |x|));
  }

  /** A call is found again, with its arguments cast. */
  lemma CallAgain(q: string, f: (string, nat) -> Piece, i: nat, fn: string, end: nat, x: string, args: string,
                  rest: string)
    requires i < |q| && Finds(f) && Follows(q, i, x) && f(q, i) == TextCall(fn, end) && Named(fn) && Balanced(args)
    requires Edge(q, i)
    ensures var s := x + (Call(fn, args) + rest);
            |x| < |s| && f(s, |x|) == TextCall(fn, |x| + |fn| + 1 + |args|)
            && s[|x| + |fn| + 1..|x| + |fn| + 1 + |args|] == args
  {
    var s := x + (Call(fn, args) + rest);
    var end' := |x| + |fn| + 1 + |args|;
    EdgeOf(x, Call(fn, args) + rest);
    CallLies(x, fn, args, rest);
    WalkSlice(s, |x| + |fn| + 1, end', 0);
    assert FindsCall(f, s, |x|, fn, end');
  }

  lemma CallLies(x: string, fn: string, args: string, rest: string)
    ensures var s := x + (Call(fn, args) + rest);
            && At(s, fn + "(", |x|) && |x| + |fn| + 1 + |args| < |s|
            && s[|x| + |fn| + 1..|x| + |fn| + 1 + |args|] == args && s[|x| + |fn| + 1 + |args|] == ')'
  {
    var s, h := x + (Call(fn, args) + rest), fn + "(";
    assert s == (x + h) + (args + (")" + rest));
    forall k | 0 <= k < |h| ensures s[|x| + k] == h[k] { assert (x + h)[|x| + k] == h[k]; }
  }

  // ---- once only

  /** What the pass makes of the arguments of a call. */
  function Worker(f: (string, nat) -> Piece, cast: string -> string): string -> string
    requires Splits(f) && KeepsParentheses(cast)
  {
    (args: string) => CastTags(cast(args), f, cast, 0)
  }

  ghost predicate CallMade(q: string, f: (string, nat) -> Piece, work: string -> string, out: nat -> string, i: nat)
    requires i < |q|
  {
    match f(q, i)
    case Copy(_) => true
    case TextCall(fn, end) =>
      i + |fn| < end < |q| && out(i) == Call(fn, work(q[i + |fn| + 1..end])) + out(end + 1)
  }

  /** And calls are made of their arguments. */
  ghost predicate CallsMade(q: string, f: (string, nat) -> Piece, work: string -> string, out: nat -> string) {
    forall i :: 0 <= i < |q| ==> CallMade(q, f, work, out, i)
  }

  lemma MakerMakesCalls(q: string, f: (string, nat) -> Piece, cast: string -> string)
    requires Splits(f) && KeepsParentheses(cast)
    ensures CallsMade(q, f, Worker(f, cast), Maker(q, f, cast))
  {
    forall i | 0 <= i < |q| ensures CallMade(q, f, Worker(f, cast), Maker(q, f, cast), i) {
      assert PieceOf(q, i, f(q, i));
      if f(q, i).TextCall? { CallIsMade(q, f, cast, i, f(q, i).fn, f(q, i).end); }
    }
  }

  lemma CallIsMade(q: string, f: (string, nat) -> Piece, cast: string -> string, i: nat, fn: string, end: nat)
    requires i < |q| && Splits(f) && KeepsParentheses(cast) && f(q, i) == TextCall(fn, end)
    requires PieceOf(q, i, TextCall(fn, end))
    ensures CastTags(q, f, cast, i)
         == Call(fn, CastTags(cast(q[i + |fn| + 1..end]), f, cast, 0)) + CastTags(q, f, cast, end + 1)
  {
    PieceStep(q, f, cast, i, TextCall(fn, end));
    CastCall(q, f, cast, i, fn, end, cast(q[i + |fn| + 1..end]));
  }

  /** Arguments whose literals are contained: what is made of them is made once, and stays balanced. */
  ghost predicate WorksOnce(work: string -> string, args: string) {
    AllContained(Literals(args)) && Balanced(args) ==> work(work(args)) == work(args) && Balanced(work(args))
  }

  ghost predicate AllOnce(work: string -> string) {
    forall args {:trigger work(args)} :: WorksOnce(work, args)
  }

  lemma WorkerWorksOnce(cast: string -> string)
    requires Parted(cast) && KeepsParentheses(cast) && KeepsLiterals(Reader(), cast) && Once(cast)
    ensures Splits(Splitter(FUNCTIONS)) && AllOnce(Worker(Splitter(FUNCTIONS), cast))
  {
    SplitterSplits(FUNCTIONS);
    forall args ensures WorksOnce(Worker(Splitter(FUNCTIONS), cast), args) {
      if AllContained(Literals(args)) && Balanced(args) {
        NestedOnce(args, cast);
        assert Alike(cast(args), args);
      }
    }
  }

  /** A piece copied stands in the text made, and is one piece of it. */
  lemma CopyStands(q: string, f: (string, nat) -> Piece, out: nat -> string, i: nat, j: nat, x: string, s: string)
    requires i < |q| && Splits(f) && AllMindLiterals(f) && Finds(f) && Made(q, f, out) && Nests(q, out)
    requires f(q, i) == Copy(j) && Follows(q, i, x) && s == x + out(i)
    ensures i < j <= |q| && |x| + (j - i) <= |s| && f(s, |x|) == Copy(|x| + (j - i)) && s[|x|..|x| + (j - i)] == q[i..j]
    ensures |x| < |s| && Follows(q, j, x + q[i..j])
  {
    assert CopyMade(q, f, out, i);
    CopyAgain(q, f, out, i, x);
    SliceAfter(x, q[i..j], out(j));
    AfterPiece(q, i, j, x, q[i..j]);
  }

  lemma CopyAgain(q: string, f: (string, nat) -> Piece, out: nat -> string, i: nat, x: string)
    requires i < |q| && Splits(f) && AllMindLiterals(f) && Finds(f) && Made(q, f, out) && Nests(q, out)
    requires f(q, i).Copy? && Follows(q, i, x)
    ensures |x| < |x + out(i)| && f(x + out(i), |x|) == Copy(|x| + (f(q, i).j - i))
  {
    assert CopyMade(q, f, out, i);
    if q[i] == QUOTE { LiteralAgain(q, f, out, i, x); } else { CharAgain(q, f, out, i, x); }
  }

  lemma SliceAfter(x: string, t: string, rest: string)
    ensures var s := x + (t + rest); |x| + |t| <= |s| && s[|x|..|x| + |t|] == t
  {}

  lemma AfterPiece(q: string, i: nat, j: nat, x: string, t: string)
    requires i < j <= |q| && t != "" && t[|t| - 1] == q[j - 1]
    ensures Follows(q, j, x + t)
  {
    assert (x + t)[|x + t| - 1] == t[|t| - 1];
  }

  /** So does a call, with its arguments made. */
  lemma CallStands(q: string, f: (string, nat) -> Piece, i: nat, fn: string, end: nat, x: string, args: string,
                   rest: string, s: string)
    requires i < |q| && Splits(f) && Finds(f) && Follows(q, i, x) && f(q, i) == TextCall(fn, end) && Balanced(args)
    requires s == x + (Call(fn, args) + rest)
    ensures var e := |x| + |fn| + 1 + |args|;
            e < |s| && f(s, |x|) == TextCall(fn, e) && s[|x| + |fn| + 1..e] == args
    ensures end < |q| && Follows(q, end + 1, x + Call(fn, args)) && |x + Call(fn, args)| == |x| + |fn| + 2 + |args|
  {
    assert CopiesIff(f, q, i) && PieceOf(q, i, f(q, i));
    CallAgain(q, f, i, fn, end, x, args, rest);
    CallLies(x, fn, args, rest);
    assert Call(fn, args) == (fn + ("(" + args)) + ")";
    AfterPiece(q, i, end + 1, x, Call(fn, args));
  }

  lemma InsideIsContained(read: string -> Reading, q: string, i: nat, fn: string, end: nat)
    requires Laws(read) && i < |q| && AllContained(read(q[i..]).literals)
    requires PieceOf(q, i, TextCall(fn, end)) && MindsLiterals(q, i, TextCall(fn, end))
    ensures AllContained(read(q[i + |fn| + 1..end]).literals) && Balanced(q[i + |fn| + 1..end])
  {
    CallPiece(read, q, i, fn, end);
    ContainedParts(read(q[i + |fn| + 1..end]).literals, read(q[end + 1..]).literals);
  }

  /** One piece further, in q and in what was made of it. */
  ghost predicate Onward(q: string, s: string, out: nat -> string, again: nat -> string, i: nat, x: string, j: nat,
                         t: string) {
    && i < j && Follows(q, j, x + t) && s == (x + t) + out(j)
    && out(i) == t + out(j) && again(|x|) == t + again(|x + t|)
  }

  lemma CopyOnward(q: string, s: string, f: (string, nat) -> Piece, out: nat -> string, again: nat -> string,
                   i: nat, x: string, j: nat)
    requires i < |q| && Splits(f) && AllMindLiterals(f) && Finds(f) && Made(q, f, out) && Nests(q, out)
    requires Made(s, f, again)
    requires f(q, i) == Copy(j) && Follows(q, i, x) && s == x + out(i)
    ensures j <= |q| && Onward(q, s, out, again, i, x, j, q[i..j])
  {
    CopyStands(q, f, out, i, j, x, s);
    assert CopyMade(q, f, out, i) && CopyMade(s, f, again, |x|);
    InFront(x, q[i..j], out(j));
  }

  lemma CallOnward(q: string, s: string, f: (string, nat) -> Piece, work: string -> string, out: nat -> string,
                   again: nat -> string, i: nat, x: string, fn: string, end: nat, args: string)
    requires i < |q| && Splits(f) && Finds(f) && CallsMade(q, f, work, out) && CallsMade(s, f, work, again)
    requires f(q, i) == TextCall(fn, end) && Follows(q, i, x) && s == x + out(i)
    requires out(i) == Call(fn, args) + out(end + 1) && work(args) == args && Balanced(args)
    ensures Onward(q, s, out, again, i, x, end + 1, Call(fn, args))
  {
    CallStands(q, f, i, fn, end, x, args, out(end + 1), s);
    assert CallMade(s, f, work, again, |x|);
    InFront(x, Call(fn, args), out(end + 1));
  }

  lemma NextPiece(read: string -> Reading, q: string, s: string, f: (string, nat) -> Piece, work: string -> string,
                  out: nat -> string, again: nat -> string, i: nat, x: string)
    returns (j: nat, t: string)
    requires Laws(read) && read == Reader() && Splits(f) && AllMindLiterals(f) && Finds(f) && AllOnce(work)
    requires Made(q, f, out) && CallsMade(q, f, work, out) && Nests(q, out)
    requires Made(s, f, again) && CallsMade(s, f, work, again)
    requires i < |q| && Follows(q, i, x) && AllContained(read(q[i..]).literals) && s == x + out(i)
    ensures j <= |q| && Onward(q, s, out, again, i, x, j, t) && AllContained(read(q[j..]).literals)
  {
    var p := f(q, i);
    assert PieceOf(q, i, p) && MindsLiterals(q, i, p);
    PieceHasNone(read, q, i, p);
    j := PieceEnd(p);
    match p
    case Copy(j') =>
      t := q[i..j];
      CopyOnward(q, s, f, out, again, i, x, j);
    case TextCall(fn, end) =>
      var args := ArgumentsOnce(read, q, f, work, out, i, fn, end);
      t := Call(fn, args);
      CallOnward(q, s, f, work, out, again, i, x, fn, end, args);
  }

  lemma ArgumentsOnce(read: string -> Reading, q: string, f: (string, nat) -> Piece, work: string -> string,
                      out: nat -> string,
                      i: nat, fn: string, end: nat)
    returns (args: string)
    requires Laws(read) && read == Reader() && AllOnce(work) && CallsMade(q, f, work, out)
    requires i < |q| && AllContained(read(q[i..]).literals) && f(q, i) == TextCall(fn, end)
    requires PieceOf(q, i, TextCall(fn, end)) && MindsLiterals(q, i, TextCall(fn, end))
    ensures out(i) == Call(fn, args) + out(end + 1) && work(args) == args && Balanced(args)
  {
    args := work(q[i + |fn| + 1..end]);
    InsideIsContained(read, q, i, fn, end);
    assert WorksOnce(work, q[i + |fn| + 1..end]) && CallMade(q, f, work, out, i);
  }

  /** s is what the pass made of q; what it makes of s, from where it stands behind x. */
  lemma {:induction false} MadeAgain(read: string -> Reading, q: string, s: string, f: (string, nat) -> Piece,
                                     work: string -> string,
                                     out: nat -> string, again: nat -> string, i: nat, x: string)
    requires Laws(read) && read == Reader() && Splits(f) && AllMindLiterals(f) && Finds(f) && AllOnce(work)
    requires Made(q, f, out) && CallsMade(q, f, work, out) && Nests(q, out)
    requires Made(s, f, again) && CallsMade(s, f, work, again)
    requires Follows(q, i, x) && AllContained(read(q[i..]).literals) && s == x + out(i)
    ensures again(|x|) == out(i)
    decreases |q| - i
  {
    if i == |q| {
      assert s == x;
    } else {
      var j, t := NextPiece(read, q, s, f, work, out, again, i, x);
      MadeAgain(read, q, s, f, work, out, again, j, x + t);
    }
  }

  /**
   The whole pass made twice is the pass made once, for a query whose literals are
   contained and a cast that is made once.
  */
  lemma PassTwice(q: string, cast: string -> string)
    requires Parted(cast) && KeepsParentheses(cast) && KeepsLiterals(Reader(), cast) && Once(cast)
    requires AllContained(Literals(q))
    ensures Splits(Splitter(FUNCTIONS))
    ensures var out := CastTags(q, Splitter(FUNCTIONS), cast, 0); CastTags(out, Splitter(FUNCTIONS), cast, 0) == out
  {
    WorkerWorksOnce(cast);
    MadeTwice(q, Splitter(FUNCTIONS), cast, CastTags(q, Splitter(FUNCTIONS), cast, 0));
  }

  lemma MadeTwice(q: string, f: (string, nat) -> Piece, cast: string -> string, s: string)
    requires f == Splitter(FUNCTIONS) && Splits(f) && KeepsParentheses(cast) && AllOnce(Worker(f, cast))
    requires AllContained(Literals(q)) && s == CastTags(q, f, cast, 0)
    ensures CastTags(s, f, cast, 0) == s
  {
    LawsHold();
    SplitterMinds(FUNCTIONS);
    SplitterFinds();
    var out, again := Maker(q, f, cast), Maker(s, f, cast);
    MakerMakes(q, f, cast);
    MakerMakesCalls(q, f, cast);
    MakerNests(q, f, cast);
    MakerMakes(s, f, cast);
    MakerMakesCalls(s, f, cast);
    assert q[0..] == q && s == "" + out(0);
    MadeAgain(Reader(), q, s, f, Worker(f, cast), out, again, 0, "");
  }
}

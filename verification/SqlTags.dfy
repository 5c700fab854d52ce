/**
 The cast of one tag (castIdentifiers in internal/dashboards/postgres.go): every
 reference to the tag, with its alias if it has one, is given the suffix ::text
 unless it carries it already.
*/
module SqlTags {
  import opened SqlText
  import opened SqlLiterals

  const TEXT: string := "::text"

  predicate IdentStart(c: char) {
    c == '_' || 'a' <= c <= 'z' || 'A' <= c <= 'Z'
  }

  /** A name of letters, digits and underscores. */
  ghost predicate Word(tag: string) {
    tag != "" && forall k :: 0 <= k < |tag| ==> IdentByte(tag[k])
  }

  /** Where the run of identifier characters from i on ends. */
  function RunEnd(s: string, i: nat): (r: nat)
    requires i <= |s|
    ensures i <= r <= |s|
    decreases |s| - i
  {
    if i == |s| || !IdentByte(s[i]) then i else RunEnd(s, i + 1)
  }

  /** After an alias and its dot, when one starts at i; or i. */
  function AliasEnd(s: string, i: nat): (a: nat)
    requires i <= |s|
    ensures i <= a <= |s|
  {
    if i < |s| && IdentStart(s[i]) && RunEnd(s, i) < |s| && s[RunEnd(s, i)] == '.' then RunEnd(s, i) + 1 else i
  }

  /** Where the tag ends that stands at i as a word of its own, or -1. */
  function BareEnd(s: string, i: nat, tag: string): (e: int)
    requires i <= |s|
    ensures e >= 0 ==> e == i + |tag| <= |s|
  {
    if At(s, tag, i) && (i == 0 || !IdentByte(s[i - 1])) && (i + |tag| == |s| || !IdentByte(s[i + |tag|]))
    then i + |tag|
    else -1
  }

  /** Where the reference to the tag ends that starts at i, with or without an alias; or -1. */
  function RefEnd(s: string, i: nat, tag: string): (e: int)
    requires i <= |s|
    ensures e >= 0 ==> i + |tag| <= e <= |s|
  {
    if AliasEnd(s, i) > i && BareEnd(s, AliasEnd(s, i), tag) >= 0 then BareEnd(s, AliasEnd(s, i), tag)
    else BareEnd(s, i, tag)
  }

  /** Up to where the next step copies: one character, or a reference with the suffix it carries. */
  function StepEnd(s: string, tag: string, i: nat): (j: nat)
    requires i < |s| && tag != ""
    ensures i < j <= |s|
  {
    var e := RefEnd(s, i, tag);
    if e < 0 then i + 1 else if At(s, TEXT, e) then e + |TEXT| else e
  }

  /** Whether a reference starts at i that does not carry the suffix yet. */
  predicate Bare(s: string, tag: string, i: nat)
    requires i < |s|
  {
    RefEnd(s, i, tag) >= 0 && !At(s, TEXT, RefEnd(s, i, tag))
  }

  /** The text from i on, each reference to the tag cast once. */
  function CastTag(s: string, tag: string, i: nat): string
    requires i <= |s| && tag != ""
    decreases |s| - i
  {
    if i == |s| then ""
    else
      var j := StepEnd(s, tag, i);
      s[i..j] + ((if Bare(s, tag, i) then TEXT else "") + CastTag(s, tag, j))
  }

  function Caster(tag: string): string -> string
    requires tag != ""
  {
    s => CastTag(s, tag, 0)
  }

  // ---- no parenthesis and no quote

  lemma TextIsPlain()
    ensures Alike(TEXT, "")
  {
    CountNone(TEXT, '(');
    forall d: nat ensures Walk(TEXT, 0, |TEXT|, d) == Walk("", 0, 0, d) {
      PlainIsFlat(TEXT, 0, |TEXT|, d);
    }
  }

  lemma AlikeStep(s: string, i: nat, j: nat, suffix: string, r: string)
    requires i <= j <= |s| && Alike(suffix, "") && Alike(r, s[j..])
    ensures Alike(s[i..j] + (suffix + r), s[i..])
  {
    AlikeConcat(suffix, "", r, s[j..]);
    assert "" + s[j..] == s[j..];
    AlikeConcat(s[i..j], s[i..j], suffix + r, s[j..]);
    assert s[i..] == s[i..j] + s[j..];
  }

  lemma {:induction false} CastTagAlike(s: string, tag: string, i: nat)
    requires i <= |s| && tag != ""
    ensures Alike(CastTag(s, tag, i), s[i..])
    decreases |s| - i
  {
    if i < |s| {
      var j := StepEnd(s, tag, i);
      TextIsPlain();
      CastTagAlike(s, tag, j);
      AlikeStep(s, i, j, if Bare(s, tag, i) then TEXT else "", CastTag(s, tag, j));
    }
  }

  lemma {:induction false} CastTagPlain(s: string, tag: string, i: nat)
    requires i <= |s| && tag != "" && QUOTE !in s
    ensures QUOTE !in CastTag(s, tag, i)
    decreases |s| - i
  {
    if i < |s| { CastTagPlain(s, tag, StepEnd(s, tag, i)); }
  }

  /** Casting a tag touches no parenthesis and brings in no quote, as the passes around it ask of a cast. */
  lemma CasterIsSafe(tag: string)
    requires tag != ""
    ensures KeepsParentheses(Caster(tag)) && NoNewQuotes(Caster(tag))
  {
    forall a ensures Alike(Caster(tag)(a), a) {
      CastTagAlike(a, tag, 0);
      assert a[0..] == a;
    }
    forall a | QUOTE !in a ensures QUOTE !in Caster(tag)(a) {
      CastTagPlain(a, tag, 0);
    }
  }

  // ---- once only

  /** How many characters stand before the first suffix put in from i on. */
  function Before(s: string, tag: string, i: nat): nat
    requires i <= |s| && tag != ""
    decreases |s| - i
  {
    if i == |s| then 0
    else
      var j := StepEnd(s, tag, i);
      j - i + if Bare(s, tag, i) then 0 else Before(s, tag, j)
  }

  /**
   r is s from i on for n characters, and then ends with it, or goes on with a suffix
   after a reference to the tag.
  */
  ghost predicate Agrees(s: string, i: nat, r: string, n: nat, tag: string) {
    && i + n <= |s| && n <= |r|
    && (forall k :: 0 <= k < n ==> r[k] == s[i + k])
    && (if i + n == |s| && |r| == n then true
        else |tag| <= n && n < |r| && r[n] == ':' && BareEnd(s, i + n - |tag|, tag) == i + n)
  }

  lemma AgreesAfter(s: string, i: nat, j: nat, r: string, n: nat, tag: string, t: string, m: nat)
    requires i <= j <= |s| && Agrees(s, j, r, n, tag) && t == s[i..j] + r && m == j - i + n
    ensures Agrees(s, i, t, m, tag)
  {
    forall k | 0 <= k < m ensures t[k] == s[i + k] {
      if k >= j - i { assert t[k] == r[k - (j - i)]; }
    }
  }

  lemma BareAgrees(s: string, tag: string, i: nat)
    requires i < |s| && Word(tag) && Bare(s, tag, i)
    ensures Agrees(s, i, CastTag(s, tag, i), Before(s, tag, i), tag)
  {
    var j := StepEnd(s, tag, i);
    RefEndsTag(s, i, tag);
    SuffixAgrees(s, i, j, CastTag(s, tag, j), tag, CastTag(s, tag, i));
  }

  lemma CopyAgrees(s: string, tag: string, i: nat, j: nat, r: string, n: nat)
    requires i < |s| && Word(tag) && !Bare(s, tag, i) && j == StepEnd(s, tag, i)
    requires r == CastTag(s, tag, j) && n == Before(s, tag, j) && Agrees(s, j, r, n, tag)
    ensures Agrees(s, i, CastTag(s, tag, i), Before(s, tag, i), tag)
  {
    CastCopies(s, tag, i, j, r);
    AgreesAfter(s, i, j, r, n, tag, CastTag(s, tag, i), Before(s, tag, i));
  }

  lemma CastCopies(s: string, tag: string, i: nat, j: nat, r: string)
    requires i < |s| && tag != "" && !Bare(s, tag, i) && j == StepEnd(s, tag, i) && r == CastTag(s, tag, j)
    ensures CastTag(s, tag, i) == s[i..j] + r
  {
    assert "" + r == r;
  }

  lemma {:induction false} BeforeAgrees(s: string, tag: string, i: nat)
    requires i <= |s| && Word(tag)
    ensures Agrees(s, i, CastTag(s, tag, i), Before(s, tag, i), tag)
    decreases |s| - i
  {
    if i < |s| {
      var j := StepEnd(s, tag, i);
      if Bare(s, tag, i) {
        BareAgrees(s, tag, i);
      } else {
        BeforeAgrees(s, tag, j);
        CopyAgrees(s, tag, i, j, CastTag(s, tag, j), Before(s, tag, j));
      }
    }
  }

  lemma SuffixAgrees(s: string, i: nat, e: nat, r: string, tag: string, t: string)
    requires i + |tag| <= e <= |s| && BareEnd(s, e - |tag|, tag) == e && t == s[i..e] + (TEXT + r)
    ensures Agrees(s, i, t, e - i, tag)
  {
    assert t[e - i] == TEXT[0];
  }

  lemma RefEndsTag(s: string, i: nat, tag: string)
    requires i <= |s| && RefEnd(s, i, tag) >= 0
    ensures var e := RefEnd(s, i, tag); i + |tag| <= e && BareEnd(s, e - |tag|, tag) == e
  {}

  /** A word may start at i. */
  predicate Edge(s: string, i: nat)
    requires i <= |s|
  {
    i == 0 || !IdentByte(s[i - 1])
  }

  /** No identifier character follows. */
  predicate Stops(s: string, i: nat)
    requires i <= |s|
  {
    i == |s| || !IdentByte(s[i])
  }

  ghost predicate SameFor(s: string, i: nat, out: string, j: nat, n: nat)
    requires i + n <= |s| && j + n <= |out|
  {
    forall p :: i <= p < i + n ==> s[p] == out[j + (p - i)]
  }

  /** No name goes on with this character, and no alias ends with it. */
  predicate Seam(c: char) {
    !IdentByte(c) && c != '.'
  }

  /**
   out from j on is s from i on for n characters; there both end, or out goes on with a
   seam where a word ends in s.
  */
  ghost predicate Aligned(s: string, i: nat, out: string, j: nat, n: nat) {
    && i + n <= |s| && j + n <= |out|
    && SameFor(s, i, out, j, n)
    && Stops(s, i + n)
    && (j + n == |out| || Seam(out[j + n]))
  }

  lemma AgreesIsAligned(s: string, i: nat, out: string, j: nat, n: nat, tag: string)
    requires j <= |out| && Agrees(s, i, out[j..], n, tag)
    ensures Aligned(s, i, out, j, n)
  {
    forall p | i <= p < i + n ensures s[p] == out[j + (p - i)] {
      assert out[j..][p - i] == s[i + (p - i)];
    }
    if n < |out[j..]| { assert out[j..][n] == out[j + n]; }
  }

  lemma {:induction false} RunSame(s: string, i: nat, out: string, j: nat, n: nat)
    requires Aligned(s, i, out, j, n)
    ensures RunEnd(s, i) <= i + n && RunEnd(out, j) == j + (RunEnd(s, i) - i)
    decreases n
  {
    if n > 0 {
      assert s[i] == out[j];
      if IdentByte(s[i]) {
        RunSame(s, i + 1, out, j + 1, n - 1);
      }
    }
  }

  lemma AliasSame(s: string, i: nat, out: string, j: nat, n: nat)
    requires Aligned(s, i, out, j, n)
    ensures AliasEnd(s, i) <= i + n ==> AliasEnd(out, j) == j + (AliasEnd(s, i) - i)
    ensures AliasEnd(s, i) > i + n ==> AliasEnd(out, j) == j
  {
    RunSame(s, i, out, j, n);
    var x := RunEnd(s, i) - i;
    if x < n { assert s[i + x] == out[j + x]; }
    if n > 0 { assert s[i] == out[j]; }
  }

  /** A tag that stands alone in either text, k characters on, stands so in the other. */
  lemma BareSame(s: string, i: nat, out: string, j: nat, n: nat, k: nat, tag: string)
    requires Aligned(s, i, out, j, n) && Word(tag) && k <= n && Edge(s, i + k) == Edge(out, j + k)
    requires BareEnd(s, i + k, tag) >= 0 ==> k + |tag| <= n
    ensures BareEnd(out, j + k, tag) == if BareEnd(s, i + k, tag) < 0 then -1 else j + k + |tag|
  {
    if BareEnd(s, i + k, tag) >= 0 {
      BareForth(s, i, out, j, n, k, tag);
    } else if BareEnd(out, j + k, tag) >= 0 {
      BareBack(s, i, out, j, n, k, tag);
    }
  }

  lemma InsideTag(s: string, i: nat, tag: string, p: nat)
    requires At(s, tag, i) && Word(tag) && i <= p < i + |tag|
    ensures IdentByte(s[p])
  {
    assert s[i + (p - i)] == tag[p - i];
  }

  lemma BareForth(s: string, i: nat, out: string, j: nat, n: nat, k: nat, tag: string)
    requires Aligned(s, i, out, j, n) && Word(tag) && k <= n && Edge(s, i + k) == Edge(out, j + k)
    requires BareEnd(s, i + k, tag) >= 0 && k + |tag| <= n
    ensures BareEnd(out, j + k, tag) >= 0
  {
    forall m | 0 <= m < |tag| ensures out[j + k + m] == tag[m] {
      assert s[i + k + m] == out[j + (k + m)];
      assert s[i + k + m] == tag[m];
    }
    if k + |tag| < n { assert s[i + k + |tag|] == out[j + (k + |tag|)]; }
  }

  lemma BareBack(s: string, i: nat, out: string, j: nat, n: nat, k: nat, tag: string)
    requires Aligned(s, i, out, j, n) && Word(tag) && k <= n && Edge(s, i + k) == Edge(out, j + k)
    requires BareEnd(out, j + k, tag) >= 0
    ensures k + |tag| <= n && BareEnd(s, i + k, tag) >= 0
  {
    if n < k + |tag| { InsideTag(out, j + k, tag, j + n); }
    forall m | 0 <= m < |tag| ensures s[i + k + m] == tag[m] {
      assert s[i + k + m] == out[j + (k + m)];
      assert out[j + k + m] == tag[m];
    }
    if k + |tag| < n { assert s[i + k + |tag|] == out[j + (k + |tag|)]; }
  }

  lemma RefSame(s: string, i: nat, out: string, j: nat, n: nat, tag: string)
    requires Aligned(s, i, out, j, n) && Word(tag) && Edge(s, i) == Edge(out, j)
    requires RefEnd(s, i, tag) >= 0 ==> RefEnd(s, i, tag) <= i + n
    ensures RefEnd(out, j, tag) == if RefEnd(s, i, tag) < 0 then -1 else j + (RefEnd(s, i, tag) - i)
  {
    AliasSame(s, i, out, j, n);
    var a := AliasEnd(s, i) - i;
    if 0 < a <= n {
      assert s[i + (a - 1)] == out[j + (a - 1)];
      BareSame(s, i, out, j, n, a, tag);
    }
    if !(0 < a <= n && BareEnd(s, i + a, tag) >= 0) {
      BareSame(s, i, out, j, n, 0, tag);
    }
  }

  lemma BeforeReaches(s: string, tag: string, i: nat)
    requires i < |s| && tag != "" && RefEnd(s, i, tag) >= 0
    ensures RefEnd(s, i, tag) <= i + Before(s, tag, i)
  {}

  /** A reference in the text cast starts where one did in the text, and is as long. */
  lemma RefAgain(s: string, i: nat, out: string, j: nat, tag: string)
    requires i < |s| && j <= |out| && Word(tag) && out[j..] == CastTag(s, tag, i) && Edge(s, i) == Edge(out, j)
    ensures RefEnd(out, j, tag) == if RefEnd(s, i, tag) < 0 then -1 else j + (RefEnd(s, i, tag) - i)
  {
    BeforeAgrees(s, tag, i);
    AgreesIsAligned(s, i, out, j, Before(s, tag, i), tag);
    if RefEnd(s, i, tag) >= 0 { BeforeReaches(s, tag, i); }
    RefSame(s, i, out, j, Before(s, tag, i), tag);
  }

  /** Where the cast goes on in the text already cast: the same piece, and now its suffix with it. */
  function StepAgain(s: string, tag: string, i: nat, j: nat): (k: nat)
    requires i < |s| && tag != ""
    ensures j < k
  {
    j + (StepEnd(s, tag, i) - i) + if Bare(s, tag, i) then |TEXT| else 0
  }

  lemma StepIsCopied(s: string, i: nat, out: string, j: nat, tag: string)
    requires i < |s| && j <= |out| && Word(tag) && out[j..] == CastTag(s, tag, i)
    ensures var k := StepAgain(s, tag, i, j);
            && k <= |out|
            && out[j..k] == s[i..StepEnd(s, tag, i)] + (if Bare(s, tag, i) then TEXT else "")
            && out[k..] == CastTag(s, tag, StepEnd(s, tag, i))
  {
    var piece := s[i..StepEnd(s, tag, i)] + (if Bare(s, tag, i) then TEXT else "");
    var rest := CastTag(s, tag, StepEnd(s, tag, i));
    assert out[j..] == piece + rest;
    CutAt(out, j, piece, rest);
  }

  lemma CutAt(out: string, j: nat, piece: string, rest: string)
    requires j <= |out| && out[j..] == piece + rest
    ensures j + |piece| <= |out| && out[j..j + |piece|] == piece && out[j + |piece|..] == rest
  {
    assert out[j..j + |piece|] == out[j..][..|piece|];
    assert out[j + |piece|..] == out[j..][|piece|..];
  }

  lemma AtSuffix(out: string, j: nat, k: nat, piece: string)
    requires j <= k <= |out| && out[j..k] == piece + TEXT
    ensures At(out, TEXT, j + |piece|)
  {
    forall m | 0 <= m < |TEXT| ensures out[j + |piece| + m] == TEXT[m] {
      assert out[j..k][|piece| + m] == TEXT[m];
    }
  }

  /** Every reference in the text cast carries the suffix. */
  lemma SuffixFollows(s: string, i: nat, out: string, j: nat, tag: string)
    requires i < |s| && j <= |out| && Word(tag) && out[j..] == CastTag(s, tag, i) && RefEnd(s, i, tag) >= 0
    ensures At(out, TEXT, j + (RefEnd(s, i, tag) - i))
    ensures StepAgain(s, tag, i, j) == j + (RefEnd(s, i, tag) - i) + |TEXT|
  {
    StepIsCopied(s, i, out, j, tag);
    var e := RefEnd(s, i, tag);
    if At(s, TEXT, e) { SuffixIsThere(s, i, e); }
    AtSuffix(out, j, StepAgain(s, tag, i, j), s[i..e]);
  }

  /** The step over a piece already cast copies all of it and puts in nothing. */
  lemma StepAddsNothing(s: string, i: nat, out: string, j: nat, tag: string)
    requires i < |s| && j < |out| && Word(tag) && out[j..] == CastTag(s, tag, i) && Edge(s, i) == Edge(out, j)
    ensures StepEnd(out, tag, j) == StepAgain(s, tag, i, j) && !Bare(out, tag, j)
  {
    RefAgain(s, i, out, j, tag);
    if RefEnd(s, i, tag) >= 0 { SuffixFollows(s, i, out, j, tag); }
  }

  lemma SuffixIsThere(s: string, i: nat, e: nat)
    requires i <= e <= |s| && At(s, TEXT, e)
    ensures s[i..e + |TEXT|] == s[i..e] + TEXT
  {}

  lemma BareEdge(s: string, tag: string, i: nat)
    requires i < |s| && Word(tag) && Bare(s, tag, i)
    ensures !Edge(s, StepEnd(s, tag, i))
  {
    RefEndsTag(s, i, tag);
    var e := RefEnd(s, i, tag);
    InsideTag(s, e - |tag|, tag, e - 1);
  }

  /** The last character of a piece copied, with a suffix or without. */
  lemma LastOfPiece(out: string, j: nat, k: nat, piece: string, suffix: string)
    requires j < k <= |out| && piece != "" && out[j..k] == piece + suffix
    ensures out[k - 1] == if suffix == "" then piece[|piece| - 1] else suffix[|suffix| - 1]
  {
    assert out[k - 1] == out[j..k][k - 1 - j];
  }

  /** After a piece a word may start in both texts or in neither. */
  lemma EdgeAgain(s: string, i: nat, out: string, j: nat, tag: string)
    requires i < |s| && j < |out| && Word(tag) && out[j..] == CastTag(s, tag, i)
    ensures var k := StepAgain(s, tag, i, j); k <= |out| && Edge(s, StepEnd(s, tag, i)) == Edge(out, k)
  {
    StepIsCopied(s, i, out, j, tag);
    LastOfPiece(out, j, StepAgain(s, tag, i, j), s[i..StepEnd(s, tag, i)], if Bare(s, tag, i) then TEXT else "");
    if Bare(s, tag, i) { BareEdge(s, tag, i); }
  }

  lemma CopyOnly(out: string, tag: string, j: nat, k: nat)
    requires j < |out| && tag != "" && k == StepEnd(out, tag, j) && !Bare(out, tag, j)
    requires CastTag(out, tag, k) == out[k..]
    ensures CastTag(out, tag, j) == out[j..]
  {
    assert out[j..] == out[j..k] + ("" + out[k..]);
  }

  lemma {:induction false} CastAgain(s: string, i: nat, out: string, j: nat, tag: string)
    requires i <= |s| && j <= |out| && Word(tag) && out[j..] == CastTag(s, tag, i) && Edge(s, i) == Edge(out, j)
    ensures CastTag(out, tag, j) == out[j..]
    decreases |s| - i
  {
    if i < |s| {
      StepIsCopied(s, i, out, j, tag);
      StepAddsNothing(s, i, out, j, tag);
      EdgeAgain(s, i, out, j, tag);
      var k := StepAgain(s, tag, i, j);
      CastAgain(s, StepEnd(s, tag, i), out, k, tag);
      CopyOnly(out, tag, j, k);
    } else {
      assert j == |out|;
    }
  }

  /** No reference is cast twice: casting a text that was cast changes nothing. */
  lemma CastOnce(s: string, tag: string)
    requires Word(tag)
    ensures CastTag(CastTag(s, tag, 0), tag, 0) == CastTag(s, tag, 0)
  {
    var out := CastTag(s, tag, 0);
    assert out[0..] == out;
    CastAgain(s, 0, out, 0, tag);
  }

  /** So too outside literals. */
  lemma {:induction false} ReplacedOnce(s: string, f: string -> string)
    requires NoNewQuotes(f) && forall t {:trigger f(t)} :: f(f(t)) == f(t)
    ensures Replaced(Replaced(s, f), f) == Replaced(s, f)
    decreases |s|
  {
    if s == "" {
    } else if s[0] == QUOTE {
      var e := Quote(s, 1);
      if e < |s| {
        ReplacedOnce(s[e + 1..], f);
        CutsLiteral(s, e);
        ReplacedLiteral(s[..e + 1], Replaced(s[e + 1..], f), f);
      }
    } else {
      var e := Quote(s, 0);
      CutsPlain(s, e);
      ReplacedOnce(s[e..], f);
      ReplacedStartsAlike(s[e..], f);
      ReplacedPlain(f(s[..e]), Replaced(s[e..], f), f);
    }
  }

  lemma ReplacedLiteral(t: string, s: string, f: string -> string)
    requires Quoted(t)
    ensures Replaced(t + s, f) == t + Replaced(s, f)
  {
    var n := |t| - 1;
    var a, b := t[..n], t[n..] + s;
    assert t + s == a + b && b[0] == QUOTE;
    QuoteIn(a, b, 1);
    assert (t + s)[..n + 1] == t && (t + s)[n + 1..] == s;
  }

  lemma ReplacedPlain(t: string, s: string, f: string -> string)
    requires QUOTE !in t && f(t) == t && (s == "" || s[0] == QUOTE)
    ensures Replaced(t + s, f) == t + Replaced(s, f)
  {
    if t == "" {
      assert t + s == s;
    } else {
      QuoteIn(t, s, 0);
      assert (t + s)[..|t|] == t && (t + s)[|t|..] == s;
    }
  }

  /** Casting a tag in an argument list a second time changes nothing, inside literals or out. */
  lemma TagCastOnce(args: string, tag: string)
    requires Word(tag)
    ensures CastIdentifiers(CastIdentifiers(args, [Caster(tag)]), [Caster(tag)]) == CastIdentifiers(args, [Caster(tag)])
  {
    forall t ensures Caster(tag)(Caster(tag)(t)) == Caster(tag)(t) { CastOnce(t, tag); }
    CasterIsSafe(tag);
    OneTag(args, Caster(tag));
    OneTag(Replaced(args, Caster(tag)), Caster(tag));
    ReplacedOnce(args, Caster(tag));
  }

  lemma OneTag(args: string, f: string -> string)
    ensures CastIdentifiers(args, [f]) == Replaced(args, f)
  {
    assert [f][..0] == [];
  }
}

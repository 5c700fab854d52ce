/**
 The cast pass as a whole (internal/dashboards/postgres.go), for any list of
 tags, and the literals it can reach: exactly those that close a parenthesis
 they did not open.
*/
module SqlReach {
  import opened Words
  import opened SqlPasses
  import opened SqlText
  import opened SqlLiterals
  import opened SqlCasts
  import opened SqlTags

  /** The functions that take a dimension as text. */
  const FUNCTIONS: seq<string> := ["lpad", "concat"]

  ghost predicate AllWords(tags: seq<string>) {
    forall k :: 0 <= k < |tags| ==> Word(tags[k])
  }

  ghost function Casters(tags: seq<string>): (fs: seq<string -> string>)
    requires AllWords(tags)
    ensures |fs| == |tags| && forall k :: 0 <= k < |fs| ==> fs[k] == Caster(tags[k])
  {
    if tags == [] then [] else Casters(tags[..|tags| - 1]) + [Caster(tags[|tags| - 1])]
  }

  /** The tags of an argument list cast one after another. */
  ghost function TagCast(tags: seq<string>): string -> string
    requires AllWords(tags)
  {
    args => CastIdentifiers(args, Casters(tags))
  }

  lemma TagCastIsSafe(tags: seq<string>)
    requires AllWords(tags)
    ensures KeepsParentheses(TagCast(tags)) && KeepsLiterals(Reader(), TagCast(tags)) && Splits(Splitter(FUNCTIONS))
  {
    LawsHold();
    SplitterSplits(FUNCTIONS);
    forall k | 0 <= k < |tags| ensures KeepsParentheses(Caster(tags[k])) && NoNewQuotes(Caster(tags[k])) {
      CasterIsSafe(tags[k]);
    }
    forall a ensures Alike(TagCast(tags)(a), a) { CastIdentifiersAlike(a, Casters(tags)); }
    forall a ensures Reader()(TagCast(tags)(a)) == Reader()(a) { CastIdentifiersKeep(Reader(), a, Casters(tags)); }
  }

  /** The pass over a query; without tags the query is returned at once. */
  ghost function Pass(q: string, tags: seq<string>): string
    requires AllWords(tags)
  {
    if tags == [] then q
    else
      TagCastIsSafe(tags);
      CastTags(q, Splitter(FUNCTIONS), TagCast(tags), 0)
  }

  /** A query in which no literal closes a parenthesis it did not open keeps its literals. */
  lemma PassLeavesLiterals(q: string, tags: seq<string>)
    requires AllWords(tags) && AllContained(Literals(q))
    ensures Literals(Pass(q, tags)) == Literals(q)
  {
    if tags != [] {
      TagCastIsSafe(tags);
      assert QUOTE !in "lpad" && QUOTE !in "concat";
      CastLeavesLiterals(q, FUNCTIONS, TagCast(tags));
    }
  }

  // ---- text the pass copies

  /** Text without quotes in which the tag does not stand. */
  ghost predicate Idle(s: string, tag: string) {
    QUOTE !in s && forall k :: 0 <= k <= |s| ==> !At(s, tag, k)
  }

  lemma SliceAt(s: string, word: string, i: nat, j: nat, k: nat)
    requires i <= j <= |s|
    ensures At(s[i..j], word, k) ==> At(s, word, i + k)
  {
    if At(s[i..j], word, k) {
      forall m | 0 <= m < |word| ensures s[i + k + m] == word[m] {
        assert s[i..j][k + m] == word[m];
      }
    }
  }

  /** What stands where a word stands is in the word. */
  lemma InWord(q: string, word: string, i: nat, m: nat)
    requires At(q, word, i)
    ensures i <= m < i + |word| ==> q[m] in word
  {
    if i <= m < i + |word| { assert q[i + (m - i)] == word[m - i]; }
  }

  lemma NotAt(s: string, word: string, k: nat)
    requires word != "" && k < |s| && s[k] != word[0]
    ensures !At(s, word, k)
  {
    assert k + 0 == k;
  }

  lemma IdleSlice(s: string, tag: string, i: nat, j: nat)
    requires Idle(s, tag) && i <= j <= |s|
    ensures Idle(s[i..j], tag)
  {
    forall k | 0 <= k <= j - i ensures !At(s[i..j], tag, k) {
      SliceAt(s, tag, i, j, k);
    }
  }

  lemma NoReference(s: string, tag: string, i: nat)
    requires Idle(s, tag) && i < |s|
    ensures RefEnd(s, i, tag) < 0
  {}

  /** Where no reference starts, text is copied. */
  lemma {:induction false} CopiedUpTo(s: string, tag: string, i: nat, k: nat)
    requires i <= k <= |s| && tag != "" && forall j :: i <= j < k ==> RefEnd(s, j, tag) < 0
    ensures CastTag(s, tag, i) == s[i..k] + CastTag(s, tag, k)
    decreases k - i
  {
    if i < k {
      CopiedUpTo(s, tag, i + 1, k);
      CastCopies(s, tag, i, i + 1, CastTag(s, tag, i + 1));
      Pasted(s, i, i + 1, k, CastTag(s, tag, k));
    } else {
      assert s[i..k] == "";
    }
  }

  lemma IdleTag(s: string, tag: string, i: nat)
    requires Idle(s, tag) && tag != "" && i <= |s|
    ensures CastTag(s, tag, i) == s[i..]
  {
    forall j | i <= j < |s| ensures RefEnd(s, j, tag) < 0 { NoReference(s, tag, j); }
    CopiedUpTo(s, tag, i, |s|);
    assert s[i..|s|] + "" == s[i..];
  }

  lemma NoAlias(s: string, i: nat)
    requires i <= |s| && '.' !in s
    ensures AliasEnd(s, i) == i
  {}

  lemma TagItself(tag: string)
    requires Word(tag)
    ensures CastTag(tag, tag, 0) == tag + TEXT
  {
    assert '.' !in tag;
    NoAlias(tag, 0);
    assert RefEnd(tag, 0, tag) == |tag|;
    assert tag[0..|tag|] + (TEXT + "") == tag + TEXT;
  }

  /** A cast that leaves such text as it is. */
  ghost predicate IdleFor(cast: string -> string, tag: string) {
    forall s {:trigger cast(s)} :: Idle(s, tag) ==> cast(s) == s
  }

  lemma ReplacedWhole(s: string, f: string -> string)
    requires QUOTE !in s && s != ""
    ensures Replaced(s, f) == f(s)
  {
    QuoteIn(s, "", 0);
    assert s + "" == s && s[..|s|] == s && s[|s|..] == "";
    assert f(s) + "" == f(s);
  }

  lemma CastIsIdle(tag: string)
    requires Word(tag)
    ensures AllWords([tag]) && IdleFor(TagCast([tag]), tag)
  {
    forall s | Idle(s, tag) ensures TagCast([tag])(s) == s {
      assert Casters([tag]) == [Caster(tag)];
      OneTag(s, Caster(tag));
      if s != "" {
        ReplacedWhole(s, Caster(tag));
        IdleTag(s, tag, 0);
      }
    }
  }

  /** Idle text is copied, calls and all. */
  lemma {:induction false} IdleCopied(s: string, f: (string, nat) -> Piece, cast: string -> string, tag: string, i: nat)
    requires Idle(s, tag) && i <= |s| && Splits(f) && KeepsParentheses(cast) && IdleFor(cast, tag)
    ensures CastTags(s, f, cast, i) == s[i..]
    decreases Count(s, '('), 1, |s| - i
  {
    if i < |s| {
      var p := f(s, i);
      assert PieceOf(s, i, p);
      PieceStep(s, f, cast, i, p);
      IdleCopied(s, f, cast, tag, PieceEnd(p));
      IdlePiece(s, f, cast, tag, i, p);
      assert s[i..] == s[i..PieceEnd(p)] + s[PieceEnd(p)..];
    } else {
      assert s[i..] == "";
    }
  }

  /** A call whose arguments are idle, anywhere in a query. */
  lemma {:induction false} IdleCall(q: string, f: (string, nat) -> Piece, cast: string -> string, tag: string, i: nat,
                                    fn: string, end: nat)
    requires Splits(f) && KeepsParentheses(cast) && IdleFor(cast, tag) && PieceOf(q, i, TextCall(fn, end))
    requires Idle(q[i + |fn| + 1..end], tag)
    ensures CastPiece(q, f, cast, i, TextCall(fn, end)) == q[i..end + 1]
    decreases Count(q, '('), 0, 0
  {
    var inside := q[i + |fn| + 1..end];
    ArgumentsShrink(q, cast, i, fn, end);
    assert inside[0..] == inside;
    IdleCopied(inside, f, cast, tag, 0);
    CallIsThere(q, i, fn, end);
    CastCall(q, f, cast, i, fn, end, inside);
  }

  lemma CastCall(q: string, f: (string, nat) -> Piece, cast: string -> string, i: nat, fn: string, end: nat,
                 args: string)
    requires Splits(f) && KeepsParentheses(cast) && PieceOf(q, i, TextCall(fn, end))
    requires cast(q[i + |fn| + 1..end]) == args
    ensures CastPiece(q, f, cast, i, TextCall(fn, end)) == Call(fn, CastTags(args, f, cast, 0))
  {}

  lemma CallIsThere(q: string, i: nat, fn: string, end: nat)
    requires PieceOf(q, i, TextCall(fn, end))
    ensures q[i..end + 1] == Call(fn, q[i + |fn| + 1..end])
  {
    CutInThree(q, i, i + |fn|, end);
    assert q[i..i + |fn| + 1] == fn + "(";
    CallText(fn, q[i + |fn| + 1..end]);
  }

  lemma {:induction false} IdlePiece(s: string, f: (string, nat) -> Piece, cast: string -> string, tag: string, i: nat,
                                     p: Piece)
    requires Idle(s, tag) && i < |s| && Splits(f) && KeepsParentheses(cast) && IdleFor(cast, tag) && PieceOf(s, i, p)
    ensures CastPiece(s, f, cast, i, p) == s[i..PieceEnd(p)]
    decreases Count(s, '('), 0, 1
  {
    match p
    case Copy(j) =>
    case TextCall(fn, end) =>
      OpensThere(s, fn, i);
      IdleSlice(s, tag, i + |fn| + 1, end);
      IdleCall(s, f, cast, tag, i, fn, end);
  }

  /** Text without an opening parenthesis holds no call, and is copied. */
  lemma {:induction false} NoCallIsCopied(s: string, f: (string, nat) -> Piece, cast: string -> string, i: nat)
    requires '(' !in s && i <= |s| && Splits(f) && KeepsParentheses(cast)
    ensures CastTags(s, f, cast, i) == s[i..]
    decreases |s| - i
  {
    if i < |s| {
      var p := f(s, i);
      NoCallHere(s, i, p);
      NoCallIsCopied(s, f, cast, p.j);
      PieceStep(s, f, cast, i, p);
      assert s[i..] == s[i..p.j] + s[p.j..];
    }
  }

  lemma NoCallHere(s: string, i: nat, p: Piece)
    requires '(' !in s && PieceOf(s, i, p)
    ensures p.Copy?
  {
    if p.TextCall? { OpensThere(s, p.fn, i); }
  }

  // ---- where a call closes

  /** The first parenthesis from lo on that closes nothing opened there, where there is one. */
  lemma {:induction false} FirstUnmatched(s: string, lo: nat, n: nat) returns (e: nat)
    requires lo <= n <= |s| && Walk(s, lo, n, 0).None?
    ensures lo <= e < n && s[e] == ')' && Walk(s, lo, e, 0) == Some(0)
  {
    if Walk(s, lo, n - 1, 0).None? {
      e := FirstUnmatched(s, lo, n - 1);
    } else {
      e := n - 1;
    }
  }

  /** A parenthesis closes where what it encloses is balanced. */
  lemma {:induction false} ClosesAt(s: string, open: nat, i: nat, e: nat)
    requires open < i <= e < |s| && s[e] == ')' && Walk(s, open + 1, e, 0) == Some(0)
    ensures Closing(s, open, i) == e
    decreases e - i
  {
    if i < e {
      if s[i] == ')' && Walk(s, open + 1, i, 0) == Some(0) {
        WalkSplit(s, open + 1, i + 1, e, 0);
      }
      ClosesAt(s, open, i + 1, e);
    }
  }

  /** From m to n nothing closes what stood open before, so a call that starts before m closes before it or past n. */
  lemma ClosesBefore(q: string, open: nat, end: nat, m: nat, n: nat)
    requires open < m <= n <= |q| && open < end < n && q[end] == ')'
    requires Walk(q, open + 1, end, 0) == Some(0) && Walk(q, m, n, 0).Some?
    ensures end < m
  {
    if m <= end {
      WalkSplit(q, open + 1, m, end, 0);
      var x := Walk(q, open + 1, m, 0).value;
      WalkSplit(q, m, end + 1, n, 0);
      WalkSplit(q, m, end, end + 1, 0);
      WalkLift(q, m, end, 0, x);
    }
  }

  /** A call's head that starts before a quote ends before it. */
  lemma HeadBefore(q: string, fn: string, i: nat, m: nat)
    requires i < m < |q| && q[m] == QUOTE && At(q, fn + "(", i) && QUOTE !in fn
    ensures i + |fn| < m
  {
    InWord(q, fn + "(", i, m);
  }

  /**
   Idle text in the middle of a query is copied up to the quote at m, when nothing from
   there on closes what stood open.
  */
  lemma {:induction false} RegionCopied(q: string, f: (string, nat) -> Piece, cast: string -> string, tag: string,
                                        b: nat, i: nat, m: nat)
    requires b <= i <= m < |q| && q[m] == QUOTE && Idle(q[b..m], tag) && Walk(q, m, |q|, 0).Some?
    requires Splits(f) && AllMindLiterals(f) && KeepsParentheses(cast) && IdleFor(cast, tag)
    ensures CastTags(q, f, cast, i) == q[i..m] + CastTags(q, f, cast, m)
    decreases m - i
  {
    if i == m {
      assert q[i..m] + CastTags(q, f, cast, m) == CastTags(q, f, cast, m);
    } else {
      var p := f(q, i);
      assert PieceOf(q, i, p) && MindsLiterals(q, i, p);
      assert q[b..m][i - b] == q[i];
      RegionPiece(q, f, cast, tag, b, i, m, |q|, p);
      PieceStep(q, f, cast, i, p);
      RegionCopied(q, f, cast, tag, b, PieceEnd(p), m);
      Pasted(q, i, PieceEnd(p), m, CastTags(q, f, cast, m));
    }
  }

  lemma Pasted(q: string, i: nat, j: nat, m: nat, rest: string)
    requires i <= j <= m <= |q|
    ensures q[i..j] + (q[j..m] + rest) == q[i..m] + rest
  {}

  lemma SliceOfSlice(q: string, b: nat, m: nat, x: nat, y: nat)
    requires b <= x <= y <= m <= |q|
    ensures q[b..m][x - b..y - b] == q[x..y]
  {
    forall k | 0 <= k < y - x ensures q[b..m][x - b..y - b][k] == q[x..y][k] {
      assert q[b..m][x - b + k] == q[x + k];
    }
  }

  lemma RegionInside(q: string, tag: string, b: nat, i: nat, m: nat, n: nat, fn: string, end: nat)
    requires b <= i < m < n <= |q| && end < n && q[m] == QUOTE && Idle(q[b..m], tag) && Walk(q, m, n, 0).Some?
    requires PieceOf(q, i, TextCall(fn, end)) && MindsLiterals(q, i, TextCall(fn, end))
    ensures end < m && Idle(q[i + |fn| + 1..end], tag)
  {
    HeadBefore(q, fn, i, m);
    WalkSlice(q, i + |fn| + 1, end, 0);
    ClosesBefore(q, i + |fn|, end, m, n);
    IdleSlice(q[b..m], tag, i + |fn| + 1 - b, end - b);
    SliceOfSlice(q, b, m, i + |fn| + 1, end);
  }

  lemma RegionPiece(q: string, f: (string, nat) -> Piece, cast: string -> string, tag: string, b: nat, i: nat,
                    m: nat, n: nat, p: Piece)
    requires b <= i < m < n <= |q| && q[i] != QUOTE && q[m] == QUOTE && Idle(q[b..m], tag) && Walk(q, m, n, 0).Some?
    requires p.TextCall? ==> p.end < n
    requires Splits(f) && KeepsParentheses(cast) && IdleFor(cast, tag) && PieceOf(q, i, p) && MindsLiterals(q, i, p)
    ensures PieceEnd(p) <= m && CastPiece(q, f, cast, i, p) == q[i..PieceEnd(p)]
  {
    match p
    case Copy(j) =>
    case TextCall(fn, end) =>
      RegionInside(q, tag, b, i, m, n, fn, end);
      IdleCall(q, f, cast, tag, i, fn, end);
  }
}

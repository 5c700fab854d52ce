/**
 Which parts of a query the casts of the tags look into (pgCastTags in
 internal/dashboards/postgres.go): the arguments of the two text functions, and
 nothing else.
*/
module SqlCalls {
  import opened Words
  import opened SqlText
  import opened SqlLiterals
  import opened SqlCasts
  import opened SqlTags
  import opened SqlReach
  import opened SqlWritten
  import opened SqlArrays

  // ---- what stands before a word's end makes no difference

  function Moved(n: nat, p: Piece): Piece {
    match p
    case Copy(j) => Copy(n + j)
    case TextCall(fn, end) => TextCall(fn, n + end)
  }

  /** No word goes on at i of s when s follows x. */
  predicate Apart(x: string, i: nat) {
    i == 0 ==> WordEnds(x)
  }

  ghost predicate CallsAhead(f: (string, nat) -> Piece) {
    forall x: string, s: string, i: nat :: i < |s| && Apart(x, i) ==> f(x + s, |x| + i) == Moved(|x|, f(s, i))
  }

  lemma CallShifts(q: string, x: string, s: string, fn: string, i: nat, j: nat)
    requires Rest(q, x, s) && Place(q, x, s, i, j) && Apart(x, i)
    ensures CallOf(q, fn, j) == if CallOf(s, fn, i) < 0 then -1 else |x| + CallOf(s, fn, i)
  {
    AtShifts(q, x, s, fn + "(", i, j);
    if i > 0 { RestAt(q, x, s, i - 1, j - 1); } else if x != "" { assert q[j - 1] == x[|x| - 1]; }
    if At(s, fn + "(", i) { ClosingShifts(q, x, s, i + |fn|, i + |fn| + 1, j + |fn|, j + |fn| + 1); }
  }

  lemma {:induction false} TextFunctionShifts(q: string, x: string, s: string, fns: seq<string>, i: nat, j: nat)
    requires Rest(q, x, s) && Place(q, x, s, i, j) && Apart(x, i)
    ensures var c, d := TextFunctionAt(s, fns, i), TextFunctionAt(q, fns, j);
            d == if c.None? then None else Some((c.value.0, |x| + c.value.1))
    decreases |fns|
  {
    if fns != [] {
      CallShifts(q, x, s, fns[0], i, j);
      TextFunctionShifts(q, x, s, fns[1..], i, j);
    }
  }

  lemma PieceShifts(q: string, x: string, s: string, fns: seq<string>, i: nat, j: nat)
    requires Rest(q, x, s) && Place(q, x, s, i, j) && Apart(x, i) && i < |s| && j < |q|
    ensures PieceAt(q, fns, j) == Moved(|x|, PieceAt(s, fns, i))
  {
    RestAt(q, x, s, i, j);
    QuoteShift(x, s, i + 1);
    TextFunctionShifts(q, x, s, fns, i, j);
  }

  lemma SplitterLooksAhead(fns: seq<string>)
    ensures Splits(Splitter(fns)) && CallsAhead(Splitter(fns))
  {
    SplitterSplits(fns);
    var f := Splitter(fns);
    forall x: string, s: string, i: nat | i < |s| && Apart(x, i) ensures f(x + s, |x| + i) == Moved(|x|, f(s, i)) {
      PieceShifts(x + s, x, s, fns, i, |x| + i);
    }
  }

  // ---- so the rest of a query is cast as if it stood alone

  lemma PieceMoves(q: string, x: string, s: string, f: (string, nat) -> Piece, cast: string -> string,
                   i: nat, j: nat, p: Piece, r: Piece)
    requires Rest(q, x, s) && Place(q, x, s, i, j) && Splits(f) && KeepsParentheses(cast) && i < |s|
    requires r == Moved(|x|, p) && PieceOf(s, i, p) && PieceOf(q, j, r)
    ensures CastPiece(q, f, cast, j, r) == CastPiece(s, f, cast, i, p)
  {
    match p
    case Copy(k) => RestSlice(q, x, s, i, k, j, r.j);
    case TextCall(fn, end) =>
      var a, b := i + |fn| + 1, j + |fn| + 1;
      RestSlice(q, x, s, a, end, b, r.end);
      CastCall(q, f, cast, j, fn, r.end, cast(s[a..end]));
      CastCall(s, f, cast, i, fn, end, cast(s[a..end]));
  }

  /** What the pass makes of q from j on is what it makes of s from i on. */
  ghost predicate SameCast(q: string, s: string, f: (string, nat) -> Piece, cast: string -> string, i: nat, j: nat)
    requires Splits(f) && KeepsParentheses(cast)
  {
    i <= |s| && j <= |q| && CastTags(q, f, cast, j) == CastTags(s, f, cast, i)
  }

  lemma SameStep(q: string, s: string, f: (string, nat) -> Piece, cast: string -> string, i: nat, j: nat,
                 p: Piece, r: Piece)
    requires Splits(f) && KeepsParentheses(cast) && i < |s| && j < |q| && f(s, i) == p && f(q, j) == r
    requires PieceOf(s, i, p) && PieceOf(q, j, r) && CastPiece(q, f, cast, j, r) == CastPiece(s, f, cast, i, p)
    requires SameCast(q, s, f, cast, PieceEnd(p), PieceEnd(r))
    ensures SameCast(q, s, f, cast, i, j)
  {
    PieceStep(s, f, cast, i, p);
    PieceStep(q, f, cast, j, r);
  }

  lemma SamePiece(q: string, x: string, s: string, f: (string, nat) -> Piece, i: nat, j: nat)
    requires Rest(q, x, s) && Place(q, x, s, i, j) && i < |s| && Apart(x, i) && CallsAhead(f)
    ensures f(q, j) == Moved(|x|, f(s, i))
  {}

  lemma {:induction false} CastMoves(q: string, x: string, s: string, f: (string, nat) -> Piece,
                                     cast: string -> string, i: nat, j: nat)
    requires Rest(q, x, s) && Place(q, x, s, i, j)
    requires Splits(f) && CallsAhead(f) && KeepsParentheses(cast) && Apart(x, i)
    ensures SameCast(q, s, f, cast, i, j)
    decreases |s| - i
  {
    if i < |s| {
      var p, r := f(s, i), f(q, j);
      assert PieceOf(s, i, p) && PieceOf(q, j, r);
      SamePiece(q, x, s, f, i, j);
      PieceMoves(q, x, s, f, cast, i, j, p, r);
      CastMoves(q, x, s, f, cast, PieceEnd(p), PieceEnd(r));
      SameStep(q, s, f, cast, i, j, p, r);
    }
  }

  // ---- the pass

  /** A text function is called at k, by a word of its own, and the call closes. */
  ghost predicate TextCalled(q: string, k: nat) {
    exists fn, end: nat :: (fn == "lpad" || fn == "concat") && CalledAt(q, fn, k, end)
  }

  ghost predicate CalledAt(q: string, fn: string, k: nat, end: nat) {
    && At(q, fn + "(", k) && (k > 0 ==> !IdentByte(q[k - 1]))
    && k + |fn| < end < |q| && q[end] == ')' && Balanced(q[k + |fn| + 1..end])
  }

  lemma CalledIff(q: string, fn: string, k: nat)
    requires k <= |q|
    ensures CallOf(q, fn, k) >= 0 <==> exists end: nat :: CalledAt(q, fn, k, end)
    ensures CallOf(q, fn, k) >= 0 ==> CalledAt(q, fn, k, CallOf(q, fn, k))
  {
    if CallOf(q, fn, k) >= 0 {
      ClosingEnclosesBalanced(q, k + |fn|, k + |fn| + 1);
      assert CalledAt(q, fn, k, CallOf(q, fn, k));
    }
    if end: nat :| CalledAt(q, fn, k, end) {
      CallCloses(q, k + |fn|, q[k + |fn| + 1..end]);
    }
  }

  lemma CalledEnd(q: string, fn: string, k: nat, end: nat)
    requires k <= |q| && CalledAt(q, fn, k, end)
    ensures CallOf(q, fn, k) == end
  {
    CallCloses(q, k + |fn|, q[k + |fn| + 1..end]);
  }

  lemma FunctionAt(q: string, k: nat)
    requires k <= |q|
    ensures TextFunctionAt(q, FUNCTIONS, k)
         == if CallOf(q, "lpad", k) >= 0 then Some(("lpad", CallOf(q, "lpad", k)))
            else if CallOf(q, "concat", k) >= 0 then Some(("concat", CallOf(q, "concat", k)))
            else None
  {
    assert FUNCTIONS[1..] == ["concat"];
    assert ["concat"][1..] == [];
  }

  lemma NotCalled(q: string, k: nat)
    requires k <= |q| && !TextCalled(q, k)
    ensures TextFunctionAt(q, FUNCTIONS, k).None?
  {
    FunctionAt(q, k);
    CalledIff(q, "lpad", k);
    CalledIff(q, "concat", k);
  }

  lemma IsCalled(q: string, fn: string, k: nat, end: nat)
    requires k <= |q| && (fn == "lpad" || fn == "concat") && CalledAt(q, fn, k, end)
    ensures TextFunctionAt(q, FUNCTIONS, k) == Some((fn, end))
  {
    FunctionAt(q, k);
    CalledEnd(q, fn, k, end);
    if fn == "concat" {
      assert q[k + 0] == (fn + "(")[0] == 'c';
      assert ("lpad" + "(")[0] == 'l';
    }
  }

  /** Up to n the query holds no quote and no such call. */
  ghost predicate Nothing(q: string, n: nat) {
    forall k :: 0 <= k < n ==> k < |q| && q[k] != QUOTE && !TextCalled(q, k)
  }

  ghost predicate Copies(f: (string, nat) -> Piece, q: string, n: nat) {
    forall k :: 0 <= k < n ==> f(q, k) == Copy(k + 1)
  }

  lemma {:induction false} CopiedTo(q: string, f: (string, nat) -> Piece, cast: string -> string, i: nat, n: nat)
    requires i <= n <= |q| && Copies(f, q, n) && Splits(f) && KeepsParentheses(cast)
    ensures CastTags(q, f, cast, i) == q[i..n] + CastTags(q, f, cast, n)
    decreases n - i
  {
    var rest := CastTags(q, f, cast, n);
    if i < n {
      PieceStep(q, f, cast, i, Copy(i + 1));
      CopiedTo(q, f, cast, i + 1, n);
      Pasted(q, i, i + 1, n, rest);
    } else {
      assert q[i..n] + rest == rest;
    }
  }

  lemma NothingCopies(q: string, n: nat)
    requires n <= |q| && Nothing(q, n)
    ensures Copies(Splitter(FUNCTIONS), q, n)
  {
    forall k | 0 <= k < n ensures Splitter(FUNCTIONS)(q, k) == Copy(k + 1) {
      NotCalled(q, k);
    }
  }

  // ---- what becomes of a query, from its first call or literal on

  /** A query without literals and such calls stays as it is. */
  lemma NothingStays(q: string, tags: seq<string>)
    requires AllWords(tags) && Nothing(q, |q|)
    ensures Pass(q, tags) == q
  {
    if tags != [] {
      TagCastIsSafe(tags);
      NothingCopies(q, |q|);
      CopiedTo(q, Splitter(FUNCTIONS), TagCast(tags), 0, |q|);
      assert q[0..|q|] + "" == q;
    }
  }

  lemma PieceIsMade(q: string, x: string, post: string, f: (string, nat) -> Piece, cast: string -> string,
                    n: nat, p: Piece, made: string)
    requires Splits(f) && KeepsParentheses(cast) && n < |q| && Copies(f, q, n)
    requires f(q, n) == p && PieceOf(q, n, p) && CastPiece(q, f, cast, n, p) == made
    requires SameCast(q, post, f, cast, 0, PieceEnd(p))
    ensures CastTags(q, f, cast, 0) == q[0..n] + (made + CastTags(post, f, cast, 0))
  {
    CopiedTo(q, f, cast, 0, n);
    PieceStep(q, f, cast, n, p);
  }

  lemma PassByPiece(q: string, x: string, post: string, n: nat, tags: seq<string>, p: Piece, made: string)
    requires AllWords(tags) && tags != [] && Rest(q, x, post) && n < |x| && WordEnds(x) && n < |q|
    requires Nothing(q, n) && Splitter(FUNCTIONS)(q, n) == p && PieceEnd(p) == |x|
    requires PieceOf(q, n, p) && KeepsParentheses(TagCast(tags)) && Splits(Splitter(FUNCTIONS))
    requires CastPiece(q, Splitter(FUNCTIONS), TagCast(tags), n, p) == made
    ensures Pass(q, tags) == q[..n] + (made + Pass(post, tags))
  {
    var f, cast := Splitter(FUNCTIONS), TagCast(tags);
    TagCastIsSafe(tags);
    SplitterLooksAhead(FUNCTIONS);
    NothingCopies(q, n);
    CastMoves(q, x, post, f, cast, 0, PieceEnd(p));
    PieceIsMade(q, x, post, f, cast, n, p, made);
    assert q[0..n] == q[..n];
  }

  lemma CallPieceIs(q: string, n: nat, fn: string, end: nat, args: string, tags: seq<string>)
    requires AllWords(tags) && tags != [] && (fn == "lpad" || fn == "concat")
    requires n < |q| && q[n] != QUOTE && CalledAt(q, fn, n, end) && q[n + |fn| + 1..end] == args
    ensures Splitter(FUNCTIONS)(q, n) == TextCall(fn, end) && PieceOf(q, n, TextCall(fn, end))
    ensures KeepsParentheses(TagCast(tags)) && Splits(Splitter(FUNCTIONS))
    ensures CastPiece(q, Splitter(FUNCTIONS), TagCast(tags), n, TextCall(fn, end))
         == Call(fn, Pass(TagCast(tags)(args), tags))
  {
    TagCastIsSafe(tags);
    IsCalled(q, fn, n, end);
    CastCall(q, Splitter(FUNCTIONS), TagCast(tags), n, fn, end, TagCast(tags)(args));
  }

  /**
   The first call of a text function, with no literal before it: its arguments are cast and then looked into
   themselves, and what follows the call is cast as if it stood alone.
  */
  lemma CallIsCast(pre: string, fn: string, args: string, post: string, tags: seq<string>)
    requires AllWords(tags) && tags != [] && (fn == "lpad" || fn == "concat")
    requires WordEnds(pre) && Balanced(args) && Nothing(pre + (fn + "(" + args + ")") + post, |pre|)
    ensures Pass(pre + (fn + "(" + args + ")") + post, tags)
         == pre + (fn + "(" + Pass(TagCast(tags)(args), tags) + ")" + Pass(post, tags))
  {
    CallReady(pre, fn, args, post);
    CallIsMade(pre + (fn + "(" + args + ")") + post, pre + (fn + "(" + args + ")"), pre, post, fn, args, tags);
    CallAgain(fn, Pass(TagCast(tags)(args), tags), Pass(post, tags));
  }

  /** x is pre and a call of fn with these arguments, and q is x and post. */
  ghost predicate Ready(q: string, x: string, pre: string, post: string, fn: string, args: string) {
    && Rest(q, x, post) && |x| == |pre| + |fn| + |args| + 2 && WordEnds(x)
    && |pre| < |q| && q[..|pre|] == pre && q[|pre|] != QUOTE
    && CalledAt(q, fn, |pre|, |pre| + |fn| + 1 + |args|)
    && q[|pre| + |fn| + 1..|pre| + |fn| + 1 + |args|] == args
  }

  lemma CallReady(pre: string, fn: string, args: string, post: string)
    requires (fn == "lpad" || fn == "concat") && WordEnds(pre) && Balanced(args)
    ensures Ready(pre + (fn + "(" + args + ")") + post, pre + (fn + "(" + args + ")"), pre, post, fn, args)
  {
    CallHere(pre, fn, args, post);
    LastEnds(pre, fn + "(" + args, ')');
  }

  lemma CallIsMade(q: string, x: string, pre: string, post: string, fn: string, args: string, tags: seq<string>)
    requires AllWords(tags) && tags != [] && (fn == "lpad" || fn == "concat")
    requires Ready(q, x, pre, post, fn, args) && Nothing(q, |pre|)
    ensures Pass(q, tags) == pre + (Call(fn, Pass(TagCast(tags)(args), tags)) + Pass(post, tags))
  {
    var n, end := |pre|, |pre| + |fn| + 1 + |args|;
    CallPieceIs(q, n, fn, end, args, tags);
    PassByPiece(q, x, post, n, tags, TextCall(fn, end), Call(fn, Pass(TagCast(tags)(args), tags)));
  }

  lemma LastEnds(pre: string, t: string, c: char)
    requires !IdentByte(c)
    ensures WordEnds(pre + (t + [c])) && |pre + (t + [c])| == |pre| + |t| + 1
  {}

  lemma CallAgain(fn: string, out: string, rest: string)
    ensures Call(fn, out) + rest == fn + "(" + out + ")" + rest
  {}

  lemma CallHere(pre: string, fn: string, args: string, post: string)
    requires WordEnds(pre) && Balanced(args)
    ensures var q, end := pre + (fn + "(" + args + ")") + post, |pre| + |fn| + 1 + |args|;
            && CalledAt(q, fn, |pre|, end) && q[..|pre|] == pre && q[|pre| + |fn| + 1..end] == args
            && |pre| < |q| && (fn != "" && QUOTE !in fn ==> q[|pre|] != QUOTE)
  {
    CallStands(pre, fn + "(", args, post);
    assert pre + (fn + "(" + args + ")") + post == pre + (fn + "(") + args + ")" + post;
  }

  /** A literal with no call and no literal before it is copied. */
  lemma LiteralIsCopied(pre: string, t: string, post: string, tags: seq<string>)
    requires AllWords(tags) && tags != [] && QUOTE !in t && Nothing(pre + ("'" + t + "'") + post, |pre|)
    ensures Pass(pre + ("'" + t + "'") + post, tags) == pre + ("'" + t + "'" + Pass(post, tags))
  {
    var x := pre + ("'" + t + "'");
    TagCastIsSafe(tags);
    LiteralStands(pre, t, post);
    LiteralEnds(x + post, |pre| + 1, |pre| + 1 + |t|, t);
    LastEnds(pre, "'" + t, QUOTE);
    PassByPiece(x + post, x, post, |pre|, tags, Copy(|x|), "'" + t + "'");
  }

  lemma LiteralStands(pre: string, t: string, post: string)
    ensures var q, n := pre + ("'" + t + "'") + post, |pre| + 1 + |t|;
            && n < |q| && q[|pre|] == QUOTE && q[n] == QUOTE && q[|pre| + 1..n] == t
            && q[|pre|..n + 1] == "'" + t + "'" && q[..|pre|] == pre
  {}

  lemma NoQuoteIn(q: string, i: nat, n: nat, t: string)
    requires i <= n <= |q| && q[i..n] == t && QUOTE !in t
    ensures forall k :: i <= k < n ==> q[k] != QUOTE
  {
    forall k | i <= k < n ensures q[k] != QUOTE { assert q[k] == t[k - i]; }
  }

  lemma LiteralEnds(q: string, i: nat, n: nat, t: string)
    requires i <= n < |q| && q[n] == QUOTE && q[i..n] == t && QUOTE !in t
    ensures Quote(q, i) == n
  {
    NoQuoteIn(q, i, n, t);
    QuoteIs(q, i, n);
  }

  /** And a quote that none follows copies all the rest. */
  lemma OpenLiteralIsCopied(pre: string, t: string, tags: seq<string>)
    requires AllWords(tags) && QUOTE !in t && Nothing(pre + ("'" + t), |pre|)
    ensures Pass(pre + ("'" + t), tags) == pre + ("'" + t)
  {
    if tags != [] {
      var q := pre + ("'" + t);
      TagCastIsSafe(tags);
      NothingCopies(q, |pre|);
      CopiedTo(q, Splitter(FUNCTIONS), TagCast(tags), 0, |pre|);
      OpenHere(q, pre, t);
      PieceStep(q, Splitter(FUNCTIONS), TagCast(tags), |pre|, Copy(|q|));
      assert q[0..|pre|] + (q[|pre|..|q|] + "") == q;
    }
  }

  lemma OpenHere(q: string, pre: string, t: string)
    requires QUOTE !in t && q == pre + ("'" + t)
    ensures |pre| < |q| && q[|pre|] == QUOTE && Quote(q, |pre| + 1) == |q|
  {
    forall k | |pre| + 1 <= k < |q| ensures q[k] != QUOTE { assert q[k] == t[k - |pre| - 1]; }
    QuoteIs(q, |pre| + 1, |q|);
  }

  // ---- the tags of an argument list

  /** Up to the first quote the text is replaced, a literal is kept, and so is what an open quote begins. */
  lemma StretchIsReplaced(t: string, s: string, f: string -> string)
    requires QUOTE !in t
    ensures t != "" && (s == "" || s[0] == QUOTE) ==> Replaced(t + s, f) == f(t) + Replaced(s, f)
    ensures Replaced("'" + t + "'" + s, f) == "'" + t + "'" + Replaced(s, f)
    ensures Replaced("'" + t, f) == "'" + t
  {
    if t != "" && (s == "" || s[0] == QUOTE) {
      QuoteIn(t, s, 0);
      assert (t + s)[..|t|] == t && (t + s)[|t|..] == s;
    }
    LiteralQuoted(t);
    ReplacedLiteral("'" + t + "'", s, f);
    OpenHere("'" + t, "", t);
  }

  lemma LiteralQuoted(t: string)
    requires QUOTE !in t
    ensures Quoted("'" + t + "'")
  {
    var q := "'" + t + "'";
    forall k | 1 <= k < |q| - 1 ensures q[k] != QUOTE { assert q[k] == t[k - 1]; }
  }

  /** The tags are cast one after another, each in the text the ones before it made. */
  lemma TagsInTurn(tags: seq<string>, tag: string, args: string)
    requires AllWords(tags) && Word(tag)
    ensures AllWords(tags + [tag])
    ensures TagCast(tags + [tag])(args) == Replaced(TagCast(tags)(args), s => CastTag(s, tag, 0))
    ensures TagCast([])(args) == args
  {
    var more := tags + [tag];
    assert more[..|tags|] == tags;
    assert Casters(more)[..|tags|] == Casters(tags);
    assert Casters(more)[|tags|] == Caster(tag);
  }
}

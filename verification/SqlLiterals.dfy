/**
 Rewriting around quoted literals (internal/dashboards/postgres.go): a
 replacement that leaves literals alone, and the casts inside lpad and concat
 calls, which are rewritten from the inside out.
*/
module SqlLiterals {
  import opened Words
  import opened SqlPasses
  import opened SqlText

  const QUOTE: char := '\''

  /** The first quote from i on, or the end. */
  function Quote(s: string, i: nat): (r: nat)
    requires i <= |s|
    ensures i <= r <= |s|
    ensures r < |s| ==> s[r] == QUOTE
    decreases |s| - i
  {
    if i == |s| || s[i] == QUOTE then i else Quote(s, i + 1)
  }

  lemma {:induction false} NoQuoteBefore(s: string, i: nat, k: nat)
    requires i <= |s| && i <= k < Quote(s, i)
    ensures s[k] != QUOTE
    decreases |s| - i
  {
    if i < k { NoQuoteBefore(s, i + 1, k); }
  }

  lemma {:induction false} QuoteIs(q: string, i: nat, e: nat)
    requires i <= e <= |q| && (e < |q| ==> q[e] == QUOTE) && forall k :: i <= k < e ==> q[k] != QUOTE
    ensures Quote(q, i) == e
    decreases e - i
  {
    if i < e { QuoteIs(q, i + 1, e); }
  }

  /** The first quote of a text followed by another. */
  lemma {:induction false} QuoteIn(a: string, b: string, i: nat)
    requires i <= |a| && forall k :: i <= k < |a| ==> a[k] != QUOTE
    ensures Quote(a + b, i) == |a| + Quote(b, 0)
    decreases |a| - i
  {
    if i < |a| {
      assert (a + b)[i] == a[i];
      QuoteIn(a, b, i + 1);
    } else {
      QuoteShift(a, b, 0);
    }
  }

  lemma {:induction false} QuoteShift(a: string, b: string, j: nat)
    requires j <= |b|
    ensures Quote(a + b, |a| + j) == |a| + Quote(b, j)
    decreases |b| - j
  {
    if j < |b| {
      assert (a + b)[|a| + j] == b[j];
      QuoteShift(a, b, j + 1);
    }
  }

  /** s with f applied to every stretch outside quotes; an unclosed quote runs to the end. */
  function Replaced(s: string, f: string -> string): string
    decreases |s|
  {
    if s == "" then ""
    else if s[0] == QUOTE then
      var e := Quote(s, 1);
      if e == |s| then s else s[..e + 1] + Replaced(s[e + 1..], f)
    else f(s[..Quote(s, 0)]) + Replaced(s[Quote(s, 0)..], f)
  }

  /** The quoted literals, in order. */
  function Literals(s: string): seq<string>
    decreases |s|
  {
    if s == "" then []
    else if s[0] == QUOTE then
      var e := Quote(s, 1);
      if e == |s| then [s] else [s[..e + 1]] + Literals(s[e + 1..])
    else Literals(s[Quote(s, 0)..])
  }

  /** f brings no quote into a text without one. */
  ghost predicate NoNewQuotes(f: string -> string) {
    forall t :: QUOTE !in t ==> QUOTE !in f(t)
  }

  /** A whole literal. */
  ghost predicate Quoted(t: string) {
    |t| >= 2 && t[0] == QUOTE && t[|t| - 1] == QUOTE && forall k :: 0 < k < |t| - 1 ==> t[k] != QUOTE
  }

  lemma LiteralFirst(t: string, s: string)
    requires Quoted(t)
    ensures Literals(t + s) == [t] + Literals(s)
  {
    var n := |t| - 1;
    var a, b := t[..n], t[n..] + s;
    assert t + s == a + b && b[0] == QUOTE;
    QuoteIn(a, b, 1);
    assert (t + s)[..n + 1] == t && (t + s)[n + 1..] == s;
  }

  lemma PlainFirst(t: string, s: string)
    requires QUOTE !in t && (s == "" || s[0] == QUOTE)
    ensures Literals(t + s) == Literals(s)
  {
    if t == "" {
      assert t + s == s;
    } else {
      QuoteIn(t, s, 0);
      assert (t + s)[|t|..] == s;
    }
  }

  lemma ReplacedStartsAlike(s: string, f: string -> string)
    requires s == "" || s[0] == QUOTE
    ensures Replaced(s, f) == "" || Replaced(s, f)[0] == QUOTE
  {}

  lemma CutsLiteral(s: string, e: nat)
    requires s != "" && s[0] == QUOTE && e == Quote(s, 1) < |s|
    ensures Quoted(s[..e + 1])
  {
    forall k | 0 < k < e ensures s[k] != QUOTE {
      NoQuoteBefore(s, 1, k);
    }
  }

  lemma CutsPlain(s: string, e: nat)
    requires e == Quote(s, 0)
    ensures QUOTE !in s[..e] && (s[e..] == "" || s[e..][0] == QUOTE)
  {
    forall k | 0 <= k < e ensures s[k] != QUOTE {
      NoQuoteBefore(s, 0, k);
    }
  }

  /** The literals come through untouched, all of them and in order. */
  lemma {:induction false} LiteralsUntouched(s: string, f: string -> string)
    requires NoNewQuotes(f)
    ensures Literals(Replaced(s, f)) == Literals(s)
    decreases |s|
  {
    if s == "" {
    } else if s[0] == QUOTE {
      var e := Quote(s, 1);
      if e < |s| {
        CutsLiteral(s, e);
        LiteralsUntouched(s[e + 1..], f);
        LiteralFirst(s[..e + 1], Replaced(s[e + 1..], f));
      }
    } else {
      var e := Quote(s, 0);
      CutsPlain(s, e);
      LiteralsUntouched(s[e..], f);
      ReplacedStartsAlike(s[e..], f);
      PlainFirst(f(s[..e]), Replaced(s[e..], f));
    }
  }

  method ReplaceOutsideLiterals(s: string, f: string -> string) returns (out: string)
    ensures out == Replaced(s, f)
  {
    out := "";
    var rest := s;
    while rest != ""
      invariant out + Replaced(rest, f) == Replaced(s, f)
      decreases |rest|
    {
      var part, next := Stretch(rest, f);
      Regroup(out, part, Replaced(rest[next..], f));
      out, rest := out + part, rest[next..];
    }
  }

  /** The first literal as it is, or what stands before it rewritten. */
  method Stretch(s: string, f: string -> string) returns (part: string, next: nat)
    requires s != ""
    ensures 0 < next <= |s| && part + Replaced(s[next..], f) == Replaced(s, f)
  {
    if s[0] == QUOTE {
      next := Quote(s, 1);
      if next < |s| { next := next + 1; }
      part := s[..next];
    } else {
      next := Quote(s, 0);
      part := f(s[..next]);
    }
    assert next == |s| ==> part + "" == part && s[..|s|] == s;
  }

  // ---- casts inside text functions

  /** A call of fn that starts at i as a word of its own: where it closes. */
  function CallOf(q: string, fn: string, i: nat): (end: int)
    requires i <= |q|
    ensures end >= 0 ==> At(q, fn + "(", i) && i + |fn| < end < |q|
  {
    if !At(q, fn + "(", i) || (i > 0 && IdentByte(q[i - 1])) then -1
    else Closing(q, i + |fn|, i + |fn| + 1)
  }

  /** The text function that is called at i: the first of fns that is. */
  function TextFunctionAt(q: string, fns: seq<string>, i: nat): (r: Option<(string, nat)>)
    requires i <= |q|
    ensures r.Some? ==> r.value.1 < |q| && CallOf(q, r.value.0, i) == r.value.1 && r.value.0 in fns
    decreases |fns|
  {
    if fns == [] then None
    else if CallOf(q, fns[0], i) >= 0 then Some((fns[0], CallOf(q, fns[0], i)))
    else TextFunctionAt(q, fns[1..], i)
  }

  /** Two texts with the same parentheses, as far as nesting goes. */
  ghost predicate Alike(a: string, b: string) {
    Count(a, '(') == Count(b, '(') && forall d: nat :: Walk(a, 0, |a|, d) == Walk(b, 0, |b|, d)
  }

  /** A cast that touches no parenthesis. */
  ghost predicate KeepsParentheses(cast: string -> string) {
    forall a {:trigger cast(a)} :: Alike(cast(a), a)
  }

  lemma AlikeConcat(a: string, b: string, c: string, e: string)
    requires Alike(a, b) && Alike(c, e)
    ensures Alike(a + c, b + e)
  {
    CountConcat(a, c, '(');
    CountConcat(b, e, '(');
    forall d: nat ensures Walk(a + c, 0, |a + c|, d) == Walk(b + e, 0, |b + e|, d) {
      WalkConcat(a, c, d);
      WalkConcat(b, e, d);
    }
  }

  /** Replacing outside literals touches no parenthesis when the replacement does not. */
  lemma {:induction false} ReplacedAlike(s: string, f: string -> string)
    requires KeepsParentheses(f)
    ensures Alike(Replaced(s, f), s)
    decreases |s|
  {
    if s == "" {
    } else if s[0] == QUOTE {
      var e := Quote(s, 1);
      if e < |s| {
        ReplacedAlike(s[e + 1..], f);
        AlikeConcat(s[..e + 1], s[..e + 1], Replaced(s[e + 1..], f), s[e + 1..]);
        assert s[..e + 1] + s[e + 1..] == s;
      }
    } else {
      var e := Quote(s, 0);
      ReplacedAlike(s[e..], f);
      assert Alike(f(s[..e]), s[..e]);
      AlikeConcat(f(s[..e]), s[..e], Replaced(s[e..], f), s[e..]);
      assert s[..e] + s[e..] == s;
    }
  }

  /** One replacement after the other, one for each tag. */
  function CastIdentifiers(args: string, fs: seq<string -> string>): string {
    if fs == [] then args else Replaced(CastIdentifiers(args, fs[..|fs| - 1]), fs[|fs| - 1])
  }

  lemma AlikeChain(a: string, b: string, c: string)
    requires Alike(a, b) && Alike(b, c)
    ensures Alike(a, c)
  {}

  lemma {:induction false} CastIdentifiersAlike(args: string, fs: seq<string -> string>)
    requires forall k :: 0 <= k < |fs| ==> KeepsParentheses(fs[k])
    ensures Alike(CastIdentifiers(args, fs), args)
  {
    if fs != [] {
      var n := |fs| - 1;
      CastIdentifiersAlike(args, fs[..n]);
      ReplacedAlike(CastIdentifiers(args, fs[..n]), fs[n]);
      AlikeChain(CastIdentifiers(args, fs), CastIdentifiers(args, fs[..n]), args);
    }
  }

  /** So casting the tags of an argument list is a cast that touches no parenthesis. */
  lemma TagCastKeepsParentheses(fs: seq<string -> string>)
    requires forall k :: 0 <= k < |fs| ==> KeepsParentheses(fs[k])
    ensures KeepsParentheses(args => CastIdentifiers(args, fs))
  {
    forall a ensures Alike(CastIdentifiers(a, fs), a) {
      CastIdentifiersAlike(a, fs);
    }
  }

  lemma FewerInside(q: string, open: nat, end: nat)
    requires open < end < |q| && q[open] == '('
    ensures Count(q[open + 1..end], '(') < Count(q, '(')
  {
    CountSlice(q, open + 1, end, '(');
    CountSplit(q, 0, open, |q|, '(');
    CountSplit(q, open, open + 1, |q|, '(');
    CountSplit(q, open + 1, end, |q|, '(');
    assert CountIn(q, open, open, '(') == 0;
  }

  /** What stands at i: text to copy as it is up to j, or a call of a text function. */
  datatype Piece = Copy(j: nat) | TextCall(fn: string, end: nat)

  ghost predicate PieceOf(q: string, i: nat, p: Piece) {
    match p
    case Copy(j) => i < j <= |q|
    case TextCall(fn, end) => At(q, fn + "(", i) && i + |fn| < end < |q| && q[end] == ')'
  }

  ghost predicate Splits(f: (string, nat) -> Piece) {
    forall q: string, i: nat :: i < |q| ==> PieceOf(q, i, f(q, i))
  }

  function PieceEnd(p: Piece): nat {
    match p
    case Copy(j) => j
    case TextCall(_, end) => end + 1
  }

  /** The casts from i on, piece by piece. */
  function CastTags(q: string, f: (string, nat) -> Piece, cast: string -> string, i: nat): string
    requires i <= |q| && Splits(f) && KeepsParentheses(cast)
    decreases Count(q, '('), 1, |q| - i
  {
    if i == |q| then ""
    else
      var p := f(q, i);
      assert PieceOf(q, i, p);
      CastPiece(q, f, cast, i, p) + CastTags(q, f, cast, PieceEnd(p))
  }

  /** A piece is copied, or is a call whose arguments are cast and then looked into themselves. */
  function CastPiece(q: string, f: (string, nat) -> Piece, cast: string -> string, i: nat, p: Piece): string
    requires Splits(f) && KeepsParentheses(cast) && PieceOf(q, i, p)
    decreases Count(q, '('), 0, 0
  {
    match p
    case Copy(j) => q[i..j]
    case TextCall(fn, end) =>
      ArgumentsShrink(q, cast, i, fn, end);
      Call(fn, CastTags(cast(q[i + |fn| + 1..end]), f, cast, 0))
  }

  /** A literal, or a character that starts no call, is copied. */
  function PieceAt(q: string, fns: seq<string>, i: nat): Piece
    requires i < |q|
  {
    if q[i] == QUOTE then Copy(Min(Quote(q, i + 1) + 1, |q|))
    else
      var c := TextFunctionAt(q, fns, i);
      if c.None? then Copy(i + 1) else TextCall(c.value.0, c.value.1)
  }

  function Splitter(fns: seq<string>): (string, nat) -> Piece {
    (q: string, i: nat) => if i < |q| then PieceAt(q, fns, i) else Copy(i)
  }

  lemma SplitterSplits(fns: seq<string>)
    ensures Splits(Splitter(fns))
  {
    forall q: string, i: nat | i < |q| ensures PieceOf(q, i, Splitter(fns)(q, i)) {
      var c := TextFunctionAt(q, fns, i);
      if c.Some? { ClosingEnclosesBalanced(q, i + |c.value.0|, i + |c.value.0| + 1); }
    }
  }

  lemma CallWalk(fn: string, a: string, b: string, d: nat)
    requires forall e: nat :: Walk(a, 0, |a|, e) == Walk(b, 0, |b|, e)
    ensures Walk(Call(fn, a), 0, |Call(fn, a)|, d) == Walk(Call(fn, b), 0, |Call(fn, b)|, d)
  {
    WalkConcat(fn, "(" + (a + ")"), d);
    WalkConcat(fn, "(" + (b + ")"), d);
    var e := Walk(fn, 0, |fn|, d);
    if e.Some? {
      WalkConcat("(", a + ")", e.value);
      WalkConcat("(", b + ")", e.value);
      Open(e.value);
      WalkConcat(a, ")", e.value + 1);
      WalkConcat(b, ")", e.value + 1);
    }
  }

  /** Casting changes no depth: the query walks as before, from every place on. */
  lemma {:induction false} CastKeepsWalk(q: string, f: (string, nat) -> Piece, cast: string -> string, i: nat)
    requires i <= |q| && Splits(f) && KeepsParentheses(cast)
    ensures WalksFrom(CastTags(q, f, cast, i), q, i, |q|)
    decreases Count(q, '('), 1, |q| - i
  {
    if i < |q| {
      var p := f(q, i);
      assert PieceOf(q, i, p);
      CastPieceWalk(q, f, cast, i, p);
      CastKeepsWalk(q, f, cast, PieceEnd(p));
      Together(q, i, PieceEnd(p), CastPiece(q, f, cast, i, p), CastTags(q, f, cast, PieceEnd(p)));
    }
  }

  /** s walks, from any depth, as q does from i to j. */
  ghost predicate WalksFrom(s: string, q: string, i: nat, j: nat)
    requires j <= |q|
  {
    forall d: nat :: Walk(s, 0, |s|, d) == Walk(q, i, j, d)
  }

  lemma Together(q: string, i: nat, j: nat, a: string, b: string)
    requires i <= j <= |q| && WalksFrom(a, q, i, j) && WalksFrom(b, q, j, |q|)
    ensures WalksFrom(a + b, q, i, |q|)
  {
    forall d: nat ensures Walk(a + b, 0, |a + b|, d) == Walk(q, i, |q|, d) {
      WalkConcat(a, b, d);
      WalkSplit(q, i, j, |q|, d);
    }
  }

  lemma {:induction false} CastPieceWalk(q: string, f: (string, nat) -> Piece, cast: string -> string, i: nat, p: Piece)
    requires Splits(f) && KeepsParentheses(cast) && PieceOf(q, i, p)
    ensures PieceEnd(p) <= |q| && WalksFrom(CastPiece(q, f, cast, i, p), q, i, PieceEnd(p))
    decreases Count(q, '('), 0, 0
  {
    match p
    case Copy(j) =>
      SliceWalks(q, i, j);
    case TextCall(fn, end) =>
      var inside := q[i + |fn| + 1..end];
      ArgumentsShrink(q, cast, i, fn, end);
      assert Alike(cast(inside), inside);
      CastKeepsWalk(cast(inside), f, cast, 0);
      CallWalks(q, i, fn, end, cast(inside), CastTags(cast(inside), f, cast, 0));
  }

  lemma SliceWalks(q: string, i: nat, j: nat)
    requires i <= j <= |q|
    ensures WalksFrom(q[i..j], q, i, j)
  {
    forall d: nat ensures Walk(q[i..j], 0, j - i, d) == Walk(q, i, j, d) {
      WalkSlice(q, i, j, d);
    }
  }

  lemma CallWalks(q: string, i: nat, fn: string, end: nat, args: string, out: string)
    requires PieceOf(q, i, TextCall(fn, end)) && Alike(args, q[i + |fn| + 1..end]) && WalksFrom(out, args, 0, |args|)
    ensures WalksFrom(Call(fn, out), q, i, end + 1)
  {
    var inside := q[i + |fn| + 1..end];
    forall d: nat ensures Walk(Call(fn, out), 0, |Call(fn, out)|, d) == Walk(q, i, end + 1, d) {
      CallWalk(fn, out, inside, d);
      WholeCall(q, fn, i, end, d);
    }
  }

  /** Casting ends on every query, and neither mends nor breaks its balance. */
  lemma CastKeepsBalance(q: string, fns: seq<string>, cast: string -> string)
    requires KeepsParentheses(cast)
    ensures Splits(Splitter(fns)) && (Balanced(q) <==> Balanced(CastTags(q, Splitter(fns), cast, 0)))
  {
    SplitterSplits(fns);
    CastKeepsWalk(q, Splitter(fns), cast, 0);
  }

  /** The loop over one text: pieces are appended from left to right. */
  method CastAll(q: string, f: (string, nat) -> Piece, cast: string -> string) returns (out: string)
    requires Splits(f) && KeepsParentheses(cast)
    ensures out == CastTags(q, f, cast, 0)
    decreases Count(q, '('), 1
  {
    out := "";
    var i: nat := 0;
    while i < |q|
      invariant i <= |q| && out + CastTags(q, f, cast, i) == CastTags(q, f, cast, 0)
    {
      var p := f(q, i);
      assert PieceOf(q, i, p);
      var part := CastOne(q, f, cast, i, p);
      Regroup(out, part, CastTags(q, f, cast, PieceEnd(p)));
      out, i := out + part, PieceEnd(p);
    }
  }

  lemma Regroup(a: string, b: string, c: string)
    ensures a + (b + c) == (a + b) + c
  {}

  /** One piece: copied, or a call with its arguments cast in their turn. */
  method CastOne(q: string, f: (string, nat) -> Piece, cast: string -> string, i: nat, p: Piece) returns (part: string)
    requires Splits(f) && KeepsParentheses(cast) && PieceOf(q, i, p)
    ensures part == CastPiece(q, f, cast, i, p)
    decreases Count(q, '('), 0
  {
    match p
    case Copy(j) =>
      part := q[i..j];
    case TextCall(fn, end) =>
      ArgumentsShrink(q, cast, i, fn, end);
      var args := CastAll(cast(q[i + |fn| + 1..end]), f, cast);
      part := Call(fn, args);
  }

  /** A call's arguments, cast, hold fewer calls than the query. */
  lemma ArgumentsShrink(q: string, cast: string -> string, i: nat, fn: string, end: nat)
    requires PieceOf(q, i, TextCall(fn, end)) && KeepsParentheses(cast)
    ensures Count(cast(q[i + |fn| + 1..end]), '(') < Count(q, '(')
  {
    OpensThere(q, fn, i);
    FewerInside(q, i + |fn|, end);
    assert Alike(cast(q[i + |fn| + 1..end]), q[i + |fn| + 1..end]);
  }

  lemma WholeCall(q: string, fn: string, i: nat, end: nat, d: nat)
    requires At(q, fn + "(", i) && i + |fn| < end < |q| && q[end] == ')'
    ensures var c := Call(fn, q[i + |fn| + 1..end]); Walk(c, 0, |c|, d) == Walk(q, i, end + 1, d)
  {
    var open := i + |fn|;
    CutInThree(q, i, open, end);
    assert q[i..open + 1] == fn + "(";
    CallText(fn, q[open + 1..end]);
    WalkSlice(q, i, end + 1, d);
  }

  lemma CutInThree(q: string, i: nat, open: nat, end: nat)
    requires i <= open < end < |q| && q[end] == ')'
    ensures q[i..end + 1] == q[i..open + 1] + q[open + 1..end] + ")"
  {}
}

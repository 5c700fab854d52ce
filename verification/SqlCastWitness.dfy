/**
 The literals that the cast pass reaches (internal/dashboards/postgres.go). A
 parenthesis that a literal closes and did not open closes the call around it,
 and the text after it is read as if quotes stood the other way round; so a call
 in the next literal is taken for one. No other literal can do this.
*/
module SqlCastWitness {
  import opened Words
  import opened SqlPasses
  import opened SqlText
  import opened SqlLiterals
  import opened SqlCasts
  import opened SqlTags
  import opened SqlReach

  /** What follows the first literal's text: its closing quote, and x in a call of lpad in a literal of its own. */
  function Tail(x: string): string {
    "', 'lpad(" + (x + ")'")
  }

  /** A call of concat on a literal and such a tail. */
  function ReachText(a: string, x: string): string {
    "concat('" + (a + (Tail(x) + ")"))
  }

  /** Neither a parenthesis nor a quote. */
  predicate Flat(x: string) {
    Plain(x) && QUOTE !in x
  }

  // ---- a literal and a call, as the pass finds them

  /** A literal from i to j, or up to the end. */
  lemma LiteralAt(q: string, i: nat, j: nat)
    requires i < j <= |q| && q[i] == QUOTE && (forall k :: i < k < j - 1 ==> q[k] != QUOTE)
    requires if j == |q| && (j == i + 1 || q[j - 1] != QUOTE) then true else i + 1 < j && q[j - 1] == QUOTE
    ensures Splitter(FUNCTIONS)(q, i) == Copy(j)
  {
    if i + 1 < j && q[j - 1] == QUOTE {
      QuoteIs(q, i + 1, j - 1);
    } else {
      QuoteIs(q, i + 1, j);
    }
  }

  /** A call of lpad at i. */
  lemma CalledAt(q: string, i: nat, end: nat)
    requires 0 < i < |q| && At(q, "lpad" + "(", i) && !IdentByte(q[i - 1]) && q[i] != QUOTE
    requires end < |q| && q[end] == ')' && i + 5 <= end && Walk(q, i + 5, end, 0) == Some(0)
    ensures Splitter(FUNCTIONS)(q, i) == TextCall("lpad", end)
  {
    ClosesAt(q, i + 4, i + 5, end);
    assert CallOf(q, "lpad", i) == end;
  }

  /** A call of concat at the start. */
  lemma CalledFirst(q: string, end: nat)
    requires At(q, "concat" + "(", 0) && q[0] != 'l' && q[0] != QUOTE && |q| > 7 && Closing(q, 6, 7) == end
    ensures Splitter(FUNCTIONS)(q, 0) == TextCall("concat", end)
  {
    assert ("lpad" + "(")[0] == 'l';
    assert CallOf(q, "lpad", 0) == -1;
    assert CallOf(q, "concat", 0) == end;
    assert FUNCTIONS[1..] == ["concat"];
    assert TextFunctionAt(q, ["concat"], 0) == Some(("concat", end));
  }

  // ---- the tail

  lemma ThreeParts(h: string, a: string, t: string)
    ensures var q := h + (a + t);
            && |q| == |h| + |a| + |t|
            && q[..|h|] == h && q[|h|..|h| + |a|] == a && q[|h| + |a|..] == t
            && forall k :: 0 <= k < |t| ==> q[|h| + |a| + k] == t[k]
  {}

  lemma TailParts(x: string)
    ensures var t := Tail(x);
            && |t| == |x| + 11
            && t[0] == QUOTE && t[1] == ',' && t[2] == ' ' && t[3] == QUOTE && t[8] == '('
            && t[9 + |x|] == ')' && t[10 + |x|] == QUOTE
  {
    var h := "', 'lpad(";
    ThreeParts(h, x, ")'");
    assert Tail(x)[..9] == h;
    assert h[0] == QUOTE && h[1] == ',' && h[2] == ' ' && h[3] == QUOTE && h[8] == '(';
    assert ")'"[0] == ')' && ")'"[1] == QUOTE;
  }

  lemma TailSlices(x: string)
    ensures var t := Tail(x);
            && |t| == |x| + 11
            && t[..4] == "', '" && t[4..9] == "lpad" + "(" && t[9..9 + |x|] == x && t[10 + |x|..] == "'"
  {
    var h := "', 'lpad(";
    ThreeParts(h, x, ")'");
    SlicesOfPrefix(Tail(x), h, 4);
    assert h[..4] == "', '" && h[4..9] == "lpad" + "(";
    assert Tail(x)[9 + |x|..] == ")'";
    assert Tail(x)[10 + |x|..] == Tail(x)[9 + |x|..][1..];
  }

  lemma SlicesOfPrefix(t: string, h: string, k: nat)
    requires k <= |h| <= |t| && t[..|h|] == h
    ensures t[..k] == h[..k] && t[k..|h|] == h[k..]
  {
    assert t[..k] == t[..|h|][..k] && t[k..|h|] == t[..|h|][k..];
  }

  lemma TailWalks(x: string)
    requires Flat(x)
    ensures Walk(Tail(x), 0, |Tail(x)|, 0) == Some(0)
  {
    OpeningWalks();
    WalkConcat("', 'lpad(", x + ")'", 0);
    WalkConcat(x, ")'", 1);
    PlainIsFlat(x, 0, |x|, 1);
    ClosingWalks();
  }

  lemma OpeningWalks()
    ensures Walk("', 'lpad(", 0, 9, 0) == Some(1)
  {
    var plain := "', 'lpad";
    assert "', 'lpad(" == plain + "(";
    WalkConcat(plain, "(", 0);
    PlainIsFlat(plain, 0, |plain|, 0);
    Open(0);
  }

  lemma ClosingWalks()
    ensures Walk(")'", 0, 2, 1) == Some(0)
  {
    assert ")'" == ")" + "'";
    WalkConcat(")", "'", 1);
    Close(1);
    PlainIsFlat("'", 0, 1, 0);
  }

  /** Such a tail stands in q from m to n, and no quote after it. */
  ghost predicate TailAt(q: string, m: nat, x: string, n: nat) {
    && Flat(x) && m + |x| + 11 == n <= |q| && q[m..n] == Tail(x)
    && forall k :: n <= k < |q| ==> q[k] != QUOTE
  }

  lemma TailChars(q: string, m: nat, x: string, n: nat)
    requires TailAt(q, m, x, n)
    ensures q[m] == QUOTE && q[m + 1] == ',' && q[m + 2] == ' ' && q[m + 3] == QUOTE && q[m + 8] == '('
    ensures q[m + 9 + |x|] == ')' && q[m + 10 + |x|] == QUOTE
  {
    TailParts(x);
    var t := q[m..n];
    assert q[m] == t[0] && q[m + 1] == t[1] && q[m + 2] == t[2] && q[m + 3] == t[3] && q[m + 8] == t[8];
    assert q[m + 9 + |x|] == t[9 + |x|] && q[m + 10 + |x|] == t[10 + |x|];
  }

  lemma TailCuts(q: string, m: nat, x: string, n: nat)
    requires TailAt(q, m, x, n)
    ensures q[m..m + 4] == "', '" && q[m + 4..m + 9] == "lpad" + "(" && q[m + 9..m + 9 + |x|] == x
  {
    TailSlices(x);
    TailParts(x);
    SliceOfSlice(q, m, n, m, m + 4);
    SliceOfSlice(q, m, n, m + 4, m + 9);
    SliceOfSlice(q, m, n, m + 9, m + 9 + |x|);
  }

  lemma TailCall(q: string, m: nat, x: string, n: nat)
    requires TailAt(q, m, x, n)
    ensures Splitter(FUNCTIONS)(q, m + 4) == TextCall("lpad", m + 9 + |x|)
  {
    TailChars(q, m, x, n);
    TailCuts(q, m, x, n);
    var head := "lpad" + "(";
    forall k | 0 <= k < |head| ensures q[m + 4 + k] == head[k] {
      assert q[m + 4..m + 9][k] == head[k];
    }
    assert head[0] == 'l';
    WalkSlice(q, m + 9, m + 9 + |x|, 0);
    PlainIsFlat(x, 0, |x|, 0);
    CalledAt(q, m + 4, m + 9 + |x|);
  }

  /** The three pieces of the tail. */
  ghost predicate TailPieces(f: (string, nat) -> Piece, q: string, m: nat, x: string) {
    f(q, m) == Copy(m + 4) && f(q, m + 4) == TextCall("lpad", m + 9 + |x|) && f(q, m + 10 + |x|) == Copy(|q|)
  }

  ghost predicate ReadsTails(f: (string, nat) -> Piece) {
    forall q: string, m: nat, x: string, n: nat {:trigger TailAt(q, m, x, n)} ::
      TailAt(q, m, x, n) ==> TailPieces(f, q, m, x)
  }

  lemma SplitterReadsTails()
    ensures ReadsTails(Splitter(FUNCTIONS))
  {
    forall q: string, m: nat, x: string, n: nat | TailAt(q, m, x, n) ensures TailPieces(Splitter(FUNCTIONS), q, m, x) {
      TailChars(q, m, x, n);
      LiteralAt(q, m, m + 4);
      TailCall(q, m, x, n);
      LiteralAt(q, n - 1, |q|);
    }
  }

  lemma CallIsCast(q: string, f: (string, nat) -> Piece, cast: string -> string, i: nat, fn: string, end: nat,
                   out: string)
    requires i < |q| && Splits(f) && KeepsParentheses(cast) && f(q, i) == TextCall(fn, end)
    requires PieceOf(q, i, TextCall(fn, end)) && cast(q[i + |fn| + 1..end]) == out && '(' !in out
    ensures CastTags(q, f, cast, i) == Call(fn, out) + CastTags(q, f, cast, end + 1)
  {
    PieceStep(q, f, cast, i, TextCall(fn, end));
    CastCall(q, f, cast, i, fn, end, out);
    NoCallIsCopied(out, f, cast, 0);
    assert out[0..] == out;
  }

  lemma CopyStep(q: string, f: (string, nat) -> Piece, cast: string -> string, i: nat, j: nat)
    requires i < j <= |q| && Splits(f) && KeepsParentheses(cast) && f(q, i) == Copy(j)
    ensures CastTags(q, f, cast, i) == q[i..j] + CastTags(q, f, cast, j)
    ensures j == |q| ==> CastTags(q, f, cast, i) == q[i..]
  {
    PieceStep(q, f, cast, i, Copy(j));
    if j == |q| { assert q[i..] + "" == q[i..]; }
  }

  lemma Assembled(y: string, rest: string)
    ensures "', '" + (Call("lpad", y) + ("'" + rest)) == Tail(y) + rest
  {
    assert "', '" + ("lpad" + "(") == "', 'lpad(";
    assert ")" + ("'" + rest) == ")'" + rest;
    assert "', '" + (Call("lpad", y) + ("'" + rest)) == ("', '" + ("lpad" + "(")) + (y + (")" + ("'" + rest)));
  }

  lemma LastQuote(q: string, m: nat, x: string, n: nat)
    requires TailAt(q, m, x, n)
    ensures q[n - 1..] == "'" + q[n..]
  {
    TailChars(q, m, x, n);
  }

  /** The pass over the tail: what stands in the call is cast. */
  lemma TailIsCast(q: string, f: (string, nat) -> Piece, cast: string -> string, m: nat, x: string, y: string, n: nat)
    requires TailAt(q, m, x, n) && ReadsTails(f) && Splits(f) && KeepsParentheses(cast) && cast(x) == y && '(' !in y
    ensures CastTags(q, f, cast, m) == Tail(y) + q[n..]
  {
    assert TailPieces(f, q, m, x);
    TailStarts(q, f, cast, m, x, n);
    TailCallIsCast(q, f, cast, m, x, y, n);
    TailEnds(q, f, cast, m, x, n);
    Assembled(y, q[n..]);
  }

  lemma TailStarts(q: string, f: (string, nat) -> Piece, cast: string -> string, m: nat, x: string, n: nat)
    requires TailAt(q, m, x, n) && Splits(f) && KeepsParentheses(cast) && f(q, m) == Copy(m + 4)
    ensures CastTags(q, f, cast, m) == "', '" + CastTags(q, f, cast, m + 4)
  {
    TailCuts(q, m, x, n);
    CopyStep(q, f, cast, m, m + 4);
  }

  lemma TailEnds(q: string, f: (string, nat) -> Piece, cast: string -> string, m: nat, x: string, n: nat)
    requires TailAt(q, m, x, n) && Splits(f) && KeepsParentheses(cast) && f(q, m + 10 + |x|) == Copy(|q|)
    ensures CastTags(q, f, cast, m + 10 + |x|) == "'" + q[n..]
  {
    CopyStep(q, f, cast, m + 10 + |x|, |q|);
    LastQuote(q, m, x, n);
  }

  lemma TailCallIsCast(q: string, f: (string, nat) -> Piece, cast: string -> string, m: nat, x: string, y: string,
                       n: nat)
    requires TailAt(q, m, x, n) && TailPieces(f, q, m, x) && Splits(f) && KeepsParentheses(cast) && cast(x) == y
    requires '(' !in y
    ensures CastTags(q, f, cast, m + 4) == Call("lpad", y) + CastTags(q, f, cast, m + 10 + |x|)
  {
    TailCuts(q, m, x, n);
    assert PieceOf(q, m + 4, f(q, m + 4));
    CallIsCast(q, f, cast, m + 4, "lpad", m + 9 + |x|, y);
  }

  // ---- the text before the tail

  /** What the cast of the tag does to idle text, to the tag and to the tail; y is the tag cast. */
  ghost predicate Turns(cast: string -> string, tag: string, y: string) {
    && IdleFor(cast, tag)
    && cast(tag) == y && cast(y) == y
    && (forall u {:trigger cast("'" + u)} :: QUOTE !in u ==> cast("'" + u) == "'" + u)
    && (forall r {:trigger cast(r + Tail(tag))} :: Idle(r, tag) ==> cast(r + Tail(tag)) == r + Tail(y))
  }

  lemma TailFollows(r: string, x: string)
    requires Flat(x)
    ensures TailAt(r + Tail(x), |r|, x, |r + Tail(x)|) && Walk(r + Tail(x), |r|, |r + Tail(x)|, 0) == Some(0)
  {
    var s := r + Tail(x);
    TailParts(x);
    TailWalks(x);
    assert s[|r|..|s|] == Tail(x);
    WalkSlice(s, |r|, |s|, 0);
  }

  /** Arguments that end with the tail, already cast, stay as they are. */
  lemma ArgumentsStay(r: string, f: (string, nat) -> Piece, cast: string -> string, tag: string, y: string)
    requires Idle(r, tag) && Flat(y) && ReadsTails(f) && Splits(f) && AllMindLiterals(f)
    requires KeepsParentheses(cast) && IdleFor(cast, tag) && cast(y) == y
    ensures CastTags(r + Tail(y), f, cast, 0) == r + Tail(y)
  {
    var s := r + Tail(y);
    TailFollows(r, y);
    TailChars(s, |r|, y, |s|);
    assert s[0..|r|] == r;
    RegionCopied(s, f, cast, tag, 0, 0, |r|);
    TailIsCast(s, f, cast, |r|, y, y, |s|);
    assert s[|s|..] == "" && Tail(y) + "" == Tail(y);
  }

  /** A call that closes only after the tail. */
  lemma CallAround(q: string, f: (string, nat) -> Piece, cast: string -> string, tag: string, y: string,
                   b: nat, i: nat, m: nat, n: nat, fn: string)
    requires b <= i < m < n && n + 1 == |q| && q[n] == ')' && TailAt(q, m, tag, n) && Idle(q[b..m], tag) && Flat(y)
    requires ReadsTails(f) && Splits(f) && AllMindLiterals(f) && KeepsParentheses(cast) && Turns(cast, tag, y)
    requires f(q, i) == TextCall(fn, n) && PieceOf(q, i, TextCall(fn, n)) && QUOTE !in fn
    ensures CastTags(q, f, cast, i) == q[i..m] + (Tail(y) + ")")
  {
    var r := AroundText(q, tag, b, i, m, n, fn);
    AroundTurns(q, f, cast, tag, y, i, n, fn, r);
    CallAroundText(q[i..m], fn, r, Tail(y));
  }

  lemma AroundText(q: string, tag: string, b: nat, i: nat, m: nat, n: nat, fn: string) returns (r: string)
    requires b <= i < m < n <= |q| && TailAt(q, m, tag, n) && Idle(q[b..m], tag) && At(q, fn + "(", i) && QUOTE !in fn
    ensures i + |fn| < m && Idle(r, tag) && q[i..m] == (fn + "(") + r && q[i + |fn| + 1..n] == r + Tail(tag)
  {
    TailChars(q, m, tag, n);
    HeadBefore(q, fn, i, m);
    AroundInside(q, tag, b, i + |fn| + 1, m, n);
    HeadOf(q, fn, i, m);
    r := q[i + |fn| + 1..m];
  }

  lemma AroundTurns(q: string, f: (string, nat) -> Piece, cast: string -> string, tag: string, y: string,
                    i: nat, n: nat, fn: string, r: string)
    requires i < |q| && n + 1 == |q| && f(q, i) == TextCall(fn, n) && PieceOf(q, i, TextCall(fn, n))
    requires q[i + |fn| + 1..n] == r + Tail(tag) && Idle(r, tag) && Flat(y)
    requires ReadsTails(f) && Splits(f) && AllMindLiterals(f) && KeepsParentheses(cast) && Turns(cast, tag, y)
    ensures CastTags(q, f, cast, i) == Call(fn, r + Tail(y)) + ""
  {
    ArgumentsTurn(r, f, cast, tag, y);
    AroundCast(q, f, cast, i, n, fn, r + Tail(y), r + Tail(y));
  }

  lemma ArgumentsTurn(r: string, f: (string, nat) -> Piece, cast: string -> string, tag: string, y: string)
    requires Idle(r, tag) && Flat(y) && ReadsTails(f) && Splits(f) && AllMindLiterals(f)
    requires KeepsParentheses(cast) && Turns(cast, tag, y)
    ensures cast(r + Tail(tag)) == r + Tail(y) && CastTags(r + Tail(y), f, cast, 0) == r + Tail(y)
  {
    ArgumentsStay(r, f, cast, tag, y);
  }

  lemma AroundInside(q: string, tag: string, b: nat, x: nat, m: nat, n: nat)
    requires b <= x <= m < n <= |q| && TailAt(q, m, tag, n) && Idle(q[b..m], tag)
    ensures q[x..n] == q[x..m] + Tail(tag) && Idle(q[x..m], tag)
  {
    IdleSlice(q[b..m], tag, x - b, m - b);
    SliceOfSlice(q, b, m, x, m);
    assert q[x..n] == q[x..m] + q[m..n];
  }

  lemma AroundCast(q: string, f: (string, nat) -> Piece, cast: string -> string, i: nat, n: nat, fn: string,
                   out: string, args: string)
    requires i < |q| && n + 1 == |q| && Splits(f) && KeepsParentheses(cast) && f(q, i) == TextCall(fn, n)
    requires PieceOf(q, i, TextCall(fn, n)) && cast(q[i + |fn| + 1..n]) == args && CastTags(args, f, cast, 0) == out
    ensures CastTags(q, f, cast, i) == Call(fn, out) + ""
  {
    PieceStep(q, f, cast, i, TextCall(fn, n));
    CastCall(q, f, cast, i, fn, n, args);
  }

  lemma HeadOf(q: string, fn: string, i: nat, m: nat)
    requires At(q, fn + "(", i) && i + |fn| < m <= |q|
    ensures q[i..m] == (fn + "(") + q[i + |fn| + 1..m]
  {
    assert q[i..i + |fn| + 1] == fn + "(";
    assert q[i..m] == q[i..i + |fn| + 1] + q[i + |fn| + 1..m];
  }

  lemma CallAroundText(h: string, fn: string, r: string, t: string)
    requires h == (fn + "(") + r
    ensures Call(fn, r + t) + "" == h + (t + ")")
  {}

  /** Idle text before the tail, wherever its calls close. */
  lemma {:induction false} RegionReached(q: string, f: (string, nat) -> Piece, cast: string -> string, tag: string,
                                         y: string,
                                         b: nat, i: nat, m: nat, n: nat)
    requires b <= i <= m < n && n + 1 == |q| && q[n] == ')' && TailAt(q, m, tag, n) && Idle(q[b..m], tag) && Flat(y)
    requires Walk(q, m, n, 0) == Some(0)
    requires ReadsTails(f) && Splits(f) && AllMindLiterals(f) && KeepsParentheses(cast) && Turns(cast, tag, y)
    ensures CastTags(q, f, cast, i) == q[i..m] + (Tail(y) + ")")
    decreases m - i
  {
    if i == m {
      TailIsCast(q, f, cast, m, tag, y, n);
      assert q[n..] == ")" && q[i..m] + (Tail(y) + ")") == Tail(y) + ")";
    } else {
      var p := f(q, i);
      assert PieceOf(q, i, p) && MindsLiterals(q, i, p);
      TailChars(q, m, tag, n);
      assert q[b..m][i - b] == q[i];
      if p.TextCall? && p.end == n {
        CallAround(q, f, cast, tag, y, b, i, m, n, p.fn);
      } else {
        RegionPiece(q, f, cast, tag, b, i, m, n, p);
        PieceStep(q, f, cast, i, p);
        RegionReached(q, f, cast, tag, y, b, PieceEnd(p), m, n);
        Pasted(q, i, PieceEnd(p), m, Tail(y) + ")");
      }
    }
  }

  // ---- the cast of one tag

  /** A call of lpad. */
  function Lpad(x: string): string {
    "lpad(" + (x + ")")
  }

  lemma LpadParts(x: string)
    ensures var s := Lpad(x);
            && |s| == |x| + 6 && s[..5] == "lpad(" && s[5..5 + |x|] == x && s[5 + |x|..] == ")"
            && s[4] == '(' && s[5 + |x|] == ')'
  {
    ThreeParts("lpad(", x, ")");
    assert "lpad("[4] == '(' && Lpad(x)[..5][4] == Lpad(x)[4];
  }

  lemma NoDot(tag: string)
    requires Word(tag)
    ensures '.' !in Lpad(tag)
  {
    assert '.' !in "lpad(" && '.' !in tag && '.' !in ")";
  }

  /** No reference starts in the name. */
  lemma NoneInName(tag: string, j: nat)
    requires Word(tag) && Idle("lpad(", tag) && j < 5
    ensures RefEnd(Lpad(tag), j, tag) < 0
  {
    var s := Lpad(tag);
    LpadParts(tag);
    NoDot(tag);
    NoAlias(s, j);
    NotInName(s, tag, j);
  }

  lemma NotInName(s: string, tag: string, j: nat)
    requires |s| > 5 && s[..5] == "lpad(" && s[4] == '(' && Word(tag) && !At("lpad(", tag, j) && j < 5
    ensures !At(s, tag, j)
  {
    if j + |tag| <= 5 {
      AtPrefix(s, "lpad(", tag, j);
    } else if At(s, tag, j) {
      InWord(s, tag, j, 4);
    }
  }

  lemma AtPrefix(s: string, h: string, word: string, j: nat)
    requires |h| <= |s| && s[..|h|] == h && j + |word| <= |h|
    ensures At(s, word, j) ==> At(h, word, j)
  {
    if At(s, word, j) {
      forall m | 0 <= m < |word| ensures h[j + m] == word[m] {
        assert s[..|h|][j + m] == s[j + m];
      }
    }
  }

  /** The argument is a reference, without a suffix. */
  lemma ArgumentIsBare(tag: string)
    requires Word(tag)
    ensures RefEnd(Lpad(tag), 5, tag) == 5 + |tag| && !At(Lpad(tag), TEXT, 5 + |tag|)
  {
    var s := Lpad(tag);
    LpadParts(tag);
    NoDot(tag);
    NoAlias(s, 5);
    forall m | 0 <= m < |tag| ensures s[5 + m] == tag[m] {
      assert s[5..5 + |tag|][m] == tag[m];
    }
    NotAt(s, TEXT, 5 + |tag|);
  }

  lemma NoneAtEnd(tag: string)
    requires Word(tag)
    ensures CastTag(Lpad(tag), tag, 5 + |tag|) == ")"
  {
    var s, e := Lpad(tag), 5 + |tag|;
    LpadParts(tag);
    NoDot(tag);
    NoAlias(s, e);
    NotAt(s, tag, e);
    LastIsCopied(s, tag, e);
  }

  lemma LastIsCopied(s: string, tag: string, e: nat)
    requires e + 1 == |s| && tag != "" && RefEnd(s, e, tag) < 0
    ensures CastTag(s, tag, e) == s[e..]
  {
    CopiedUpTo(s, tag, e, |s|);
    assert s[e..|s|] + "" == s[e..];
  }

  lemma CallIsCastOnce(tag: string)
    requires Word(tag) && Idle("lpad(", tag)
    ensures CastTag(Lpad(tag), tag, 0) == Lpad(tag + TEXT)
  {
    var s := Lpad(tag);
    LpadParts(tag);
    forall j | 0 <= j < 5 ensures RefEnd(s, j, tag) < 0 { NoneInName(tag, j); }
    CopiedUpTo(s, tag, 0, 5);
    ArgumentIsBare(tag);
    NoneAtEnd(tag);
    assert CastTag(s, tag, 5) == s[5..5 + |tag|] + (TEXT + ")");
    assert s[0..5] == "lpad(";
    assert "lpad(" + (tag + (TEXT + ")")) == Lpad(tag + TEXT);
  }

  /** Text before a quote is replaced on its own. */
  lemma ReplacedBefore(t: string, s: string, f: string -> string)
    requires QUOTE !in t && s != "" && s[0] == QUOTE && f("") == ""
    ensures Replaced(t + s, f) == f(t) + Replaced(s, f)
  {
    if t == "" {
      assert t + s == s && f(t) + Replaced(s, f) == Replaced(s, f);
    } else {
      QuoteIn(t, s, 0);
      assert (t + s)[..|t|] == t && (t + s)[|t|..] == s;
    }
  }

  lemma OpenLiteral(u: string, f: string -> string)
    requires QUOTE !in u
    ensures Replaced("'" + u, f) == "'" + u
  {
    QuoteIn("'" + u, "", 1);
    assert ("'" + u) + "" == "'" + u;
  }

  lemma TailSplits(r: string, x: string)
    ensures r + Tail(x) == r + ("', '" + (Lpad(x) + "'"))
  {
    assert "', 'lpad(" == "', '" + "lpad(" && ")'" == ")" + "'";
  }

  /**
   Idle text and the tail: the argument in the second literal is cast, because the quotes
   are read the other way round.
  */
  lemma TailReplaced(r: string, tag: string, f: string -> string)
    requires Word(tag) && QUOTE !in r && f(r) == r && f("") == "" && f(Lpad(tag)) == Lpad(tag + TEXT)
    ensures Replaced(r + Tail(tag), f) == r + Tail(tag + TEXT)
  {
    TailSplits(r, tag);
    TailSplits(r, tag + TEXT);
    assert QUOTE !in "lpad(" && QUOTE !in ")" && QUOTE !in tag;
    assert QUOTE !in Lpad(tag);
    ReplacedBefore(r, "', '" + (Lpad(tag) + "'"), f);
    assert Quoted("', '");
    ReplacedLiteral("', '", Lpad(tag) + "'", f);
    ReplacedBefore(Lpad(tag), "'", f);
    OpenLiteral("", f);
    assert "'" + "" == "'";
  }

  lemma TagTurns(tag: string)
    requires Word(tag) && Idle("lpad(", tag)
    ensures AllWords([tag]) && Turns(TagCast([tag]), tag, tag + TEXT)
  {
    CastIsIdle(tag);
    OneTagTurns(tag, TagCast([tag]), Caster(tag));
  }

  lemma OneTagTurns(tag: string, cast: string -> string, f: string -> string)
    requires Word(tag) && Idle("lpad(", tag) && IdleFor(cast, tag) && f == Caster(tag)
    requires AllWords([tag]) && cast == TagCast([tag])
    ensures Turns(cast, tag, tag + TEXT)
  {
    assert Casters([tag]) == [f];
    forall s ensures cast(s) == Replaced(s, f) { OneTag(s, f); }
    ReplacedWhole(tag, f);
    TagItself(tag);
    TagCastOnce(tag, tag);
    forall u | QUOTE !in u ensures cast("'" + u) == "'" + u { OpenLiteral(u, f); }
    CallIsCastOnce(tag);
    forall r | Idle(r, tag) ensures cast(r + Tail(tag)) == r + Tail(tag + TEXT) {
      IdleTag(r, tag, 0);
      TailReplaced(r, tag, f);
    }
  }

  // ---- the whole query

  /** Its parts, and where the tail stands in it. */
  lemma ReachParts(a: string, x: string)
    requires Flat(x)
    ensures var q, m, n := ReachText(a, x), 8 + |a|, 19 + |a| + |x|;
            && n + 1 == |q| && q[..8] == "concat('" && q[8..m] == a && q[n] == ')'
            && TailAt(q, m, x, n) && Walk(q, m, n, 0) == Some(0)
  {
    ThreeParts("concat('", a, Tail(x) + ")");
    TailParts(x);
    TailStands(ReachText(a, x), 8 + |a|, x);
  }

  lemma TailStands(q: string, m: nat, x: string)
    requires Flat(x) && m <= |q| && q[m..] == Tail(x) + ")"
    ensures var n := m + |x| + 11; n + 1 == |q| && q[n] == ')' && TailAt(q, m, x, n) && Walk(q, m, n, 0) == Some(0)
  {
    TailParts(x);
    EndsWithTail(q, m, Tail(x));
    TailWalks(x);
    WalkSlice(q, m, m + |x| + 11, 0);
  }

  lemma EndsWithTail(q: string, m: nat, t: string)
    requires m <= |q| && q[m..] == t + ")"
    ensures |q| == m + |t| + 1 && q[m..m + |t|] == t && q[m + |t|] == ')'
  {
    assert q[m..m + |t|] == q[m..][..|t|];
    assert q[m + |t|] == q[m..][|t|];
  }

  lemma ReachHead(a: string, x: string)
    ensures var q := ReachText(a, x);
            |q| > 8 && At(q, "concat" + "(", 0) && q[6] == '(' && q[7] == QUOTE && q[0] != 'l' && q[0] != QUOTE
  {
    var q, h := ReachText(a, x), "concat('";
    ThreeParts(h, a, Tail(x) + ")");
    assert h == ("concat" + "(") + "'";
    forall k | 0 <= k < 8 ensures q[k] == h[k] { assert q[..8][k] == q[k]; }
  }

  /** The call closes at the first parenthesis in the literal that closes nothing there. */
  lemma FirstPiece(a: string, x: string, p: nat)
    requires Flat(x) && QUOTE !in a && p < |a| && a[p] == ')' && Walk(a, 0, p, 0) == Some(0)
    ensures Splitter(FUNCTIONS)(ReachText(a, x), 0) == TextCall("concat", 8 + p)
    ensures ReachText(a, x)[7..8 + p] == "'" + a[..p]
  {
    var q := ReachText(a, x);
    ReachHead(a, x);
    ReachParts(a, x);
    FirstInside(q, a, p);
    ClosesAt(q, 6, 7, 8 + p);
    CalledFirst(q, 8 + p);
  }

  lemma FirstInside(q: string, a: string, p: nat)
    requires 8 + |a| <= |q| && q[7] == QUOTE && q[8..8 + |a|] == a && p < |a|
    requires a[p] == ')' && Walk(a, 0, p, 0) == Some(0)
    ensures q[7..8 + p] == "'" + a[..p] && q[8 + p] == ')' && Walk(q, 7, 8 + p, 0) == Some(0)
  {
    assert q[7..8 + p] == [q[7]] + q[8..8 + |a|][..p];
    assert q[8 + p] == q[8..8 + |a|][p];
    WalkSlice(q, 7, 8 + p, 0);
    WalkConcat("'", a[..p], 0);
    PlainIsFlat("'", 0, 1, 0);
    WalkSlice(a, 0, p, 0);
    assert a[0..p] == a[..p];
  }

  /** An open literal is one piece. */
  lemma OpenIsCopied(u: string, f: (string, nat) -> Piece, cast: string -> string)
    requires QUOTE !in u && Splits(f) && AllMindLiterals(f) && KeepsParentheses(cast)
    requires f("'" + u, 0).Copy?
    ensures CastTags("'" + u, f, cast, 0) == "'" + u
  {
    var s := "'" + u;
    var p := f(s, 0);
    assert PieceOf(s, 0, p) && MindsLiterals(s, 0, p);
    QuoteIs(s, 1, |s|);
    CopyStep(s, f, cast, 0, |s|);
    assert s[0..] == s;
  }

  lemma FirstCast(q: string, f: (string, nat) -> Piece, cast: string -> string, u: string, end: nat)
    requires Splits(f) && AllMindLiterals(f) && KeepsParentheses(cast) && |q| > 0
    requires f(q, 0) == TextCall("concat", end) && PieceOf(q, 0, TextCall("concat", end)) && q[7..end] == "'" + u
    requires QUOTE !in u && cast("'" + u) == "'" + u && f("'" + u, 0) == Copy(|u| + 1)
    ensures CastTags(q, f, cast, 0) == Call("concat", "'" + u) + CastTags(q, f, cast, end + 1)
  {
    PieceStep(q, f, cast, 0, TextCall("concat", end));
    CastCall(q, f, cast, 0, "concat", end, "'" + u);
    OpenIsCopied(u, f, cast);
  }

  lemma Whole(a: string, p: nat, t: string)
    requires p < |a| && a[p] == ')'
    ensures Call("concat", "'" + a[..p]) + (a[p + 1..] + t) == "concat('" + (a + t)
  {
    assert "concat(" + "'" == "concat('";
    assert a == a[..p] + (")" + a[p + 1..]);
    assert Call("concat", "'" + a[..p]) == ("concat(" + "'") + (a[..p] + ")");
  }

  /** The pass on it casts the tag in the second literal. */
  lemma TagIsReached(a: string, tag: string, p: nat)
    requires QUOTE !in a && p < |a| && a[p] == ')' && Walk(a, 0, p, 0) == Some(0)
    requires Word(tag) && Idle(a, tag) && Idle("lpad(", tag)
    ensures AllWords([tag]) && Pass(ReachText(a, tag), [tag]) == ReachText(a, tag + TEXT)
  {
    TagTurns(tag);
    PassIs(ReachText(a, tag), tag);
    SplitterMinds(FUNCTIONS);
    SplitterReadsTails();
    FirstPieces(a, tag, p);
    FirstCloses(a, tag, p);
    WordIsFlat(tag);
    ReachedBy(a, Splitter(FUNCTIONS), TagCast([tag]), tag, tag + TEXT, p);
  }

  lemma WordIsFlat(tag: string)
    requires Word(tag)
    ensures Flat(tag) && Flat(tag + TEXT)
  {}

  lemma FirstPieces(a: string, tag: string, p: nat)
    requires Word(tag) && QUOTE !in a && p < |a| && a[p] == ')' && Walk(a, 0, p, 0) == Some(0)
    ensures Splitter(FUNCTIONS)(ReachText(a, tag), 0) == TextCall("concat", 8 + p)
    ensures ReachText(a, tag)[7..8 + p] == "'" + a[..p] && Splitter(FUNCTIONS)("'" + a[..p], 0) == Copy(p + 1)
  {
    WordIsFlat(tag);
    FirstPiece(a, tag, p);
    LiteralAt("'" + a[..p], 0, p + 1);
  }

  lemma PassIs(q: string, tag: string)
    requires AllWords([tag])
    ensures Splits(Splitter(FUNCTIONS)) && KeepsParentheses(TagCast([tag]))
    ensures Pass(q, [tag]) == CastTags(q, Splitter(FUNCTIONS), TagCast([tag]), 0)
  {
    TagCastIsSafe([tag]);
  }

  lemma FirstCloses(a: string, tag: string, p: nat)
    requires p < |a|
    ensures |ReachText(a, tag)| > 8 + p
  {
    ThreeParts("concat('", a, Tail(tag) + ")");
  }

  lemma ReachedBy(a: string, f: (string, nat) -> Piece, cast: string -> string, tag: string, y: string, p: nat)
    requires QUOTE !in a && p < |a| && a[p] == ')' && Idle(a, tag) && Flat(tag) && Flat(y)
    requires ReadsTails(f) && Splits(f) && AllMindLiterals(f) && KeepsParentheses(cast) && Turns(cast, tag, y)
    requires f(ReachText(a, tag), 0) == TextCall("concat", 8 + p) && f("'" + a[..p], 0) == Copy(p + 1)
    requires |ReachText(a, tag)| > 8 + p && ReachText(a, tag)[7..8 + p] == "'" + a[..p]
    ensures CastTags(ReachText(a, tag), f, cast, 0) == ReachText(a, y)
  {
    FirstReached(ReachText(a, tag), f, cast, tag, y, a[..p], 8 + p);
    RestReached(a, f, cast, tag, y, p);
    Whole(a, p, Tail(y) + ")");
  }

  lemma RestReached(a: string, f: (string, nat) -> Piece, cast: string -> string, tag: string, y: string, p: nat)
    requires p < |a| && Idle(a, tag) && Flat(tag) && Flat(y) && |ReachText(a, tag)| > 8 + p
    requires ReadsTails(f) && Splits(f) && AllMindLiterals(f) && KeepsParentheses(cast) && Turns(cast, tag, y)
    ensures CastTags(ReachText(a, tag), f, cast, 9 + p) == a[p + 1..] + (Tail(y) + ")")
  {
    var q := ReachText(a, tag);
    ReachParts(a, tag);
    RestOfA(a, tag, q, p);
    RegionReached(q, f, cast, tag, y, 9 + p, 9 + p, 8 + |a|, 19 + |a| + |tag|);
  }

  lemma FirstReached(q: string, f: (string, nat) -> Piece, cast: string -> string, tag: string, y: string, u: string,
                     end: nat)
    requires QUOTE !in u && Splits(f) && AllMindLiterals(f) && KeepsParentheses(cast) && Turns(cast, tag, y)
    requires f(q, 0) == TextCall("concat", end) && f("'" + u, 0) == Copy(|u| + 1)
    requires 7 <= end < |q| && q[7..end] == "'" + u
    ensures CastTags(q, f, cast, 0) == Call("concat", "'" + u) + CastTags(q, f, cast, end + 1)
  {
    assert PieceOf(q, 0, f(q, 0));
    FirstCast(q, f, cast, u, end);
  }

  lemma RestOfA(a: string, tag: string, q: string, p: nat)
    requires p < |a| && Idle(a, tag) && 8 + |a| <= |q| && q[8..8 + |a|] == a
    ensures q[9 + p..8 + |a|] == a[p + 1..] && Idle(q[9 + p..8 + |a|], tag)
  {
    IdleSlice(a, tag, p + 1, |a|);
    SliceOfSlice(q, 8, 8 + |a|, 9 + p, 8 + |a|);
  }

  // ---- its literals

  lemma ReachIsTwoQuoted(a: string, x: string)
    ensures ReachText(a, x) == "concat(" + ("'" + a + "'" + (", " + ("'" + Lpad(x) + "'" + ")")))
  {
    TailSplits("", x);
    assert "concat('" == "concat(" + "'" && "', '" == "'" + (", " + "'");
  }

  lemma TheirLiterals(read: string -> Reading, a: string, x: string)
    requires Laws(read) && QUOTE !in a && QUOTE !in x
    ensures read(ReachText(a, x)).literals == ["'" + a + "'", "'" + Lpad(x) + "'"]
  {
    var b := Lpad(x);
    ReachIsTwoQuoted(a, x);
    PlainText(read, "concat(", "'" + a + "'" + (", " + ("'" + b + "'" + ")")));
    assert QuotedLaw(read, "'" + a + "'", ", " + ("'" + b + "'" + ")"));
    PlainText(read, ", ", "'" + b + "'" + ")");
    assert QuotedLaw(read, "'" + b + "'", ")");
    PlainText(read, ")", "");
    assert ")" + "" == ")";
  }

  lemma ReachLiterals(a: string, x: string)
    requires QUOTE !in a && QUOTE !in x
    ensures Literals(ReachText(a, x)) == ["'" + a + "'", "'" + Lpad(x) + "'"]
  {
    LawsHold();
    TheirLiterals(Reader(), a, x);
  }

  /** Casting the tag cpu in this query changes its second literal. */
  lemma LiteralIsReached()
    ensures AllWords(["cpu"])
    ensures Pass("concat(')', 'lpad(cpu)')", ["cpu"]) == "concat(')', 'lpad(cpu::text)')"
    ensures Literals("concat(')', 'lpad(cpu)')") == ["')'", "'lpad(cpu)'"]
    ensures Literals("concat(')', 'lpad(cpu::text)')") == ["')'", "'lpad(cpu::text)'"]
  {
    ShownText();
    assert Idle(")", "cpu");
    NoCpu();
    assert Walk(")", 0, 0, 0) == Some(0);
    TagIsReached(")", "cpu", 0);
    ReachLiterals(")", "cpu");
    ReachLiterals(")", "cpu::text");
  }

  lemma NoCpu()
    ensures Idle("lpad(", "cpu")
  {
    forall k | 0 <= k <= |"lpad("| ensures !At("lpad(", "cpu", k) {
      if k < |"lpad("| { NotAt("lpad(", "cpu", k); }
    }
  }

  lemma ShownText()
    ensures ReachText(")", "cpu") == "concat(')', 'lpad(cpu)')"
            && ReachText(")", "cpu::text") == "concat(')', 'lpad(cpu::text)')"
    ensures "cpu" + TEXT == "cpu::text" && "'" + ")" + "'" == "')'"
    ensures "'" + Lpad("cpu") + "'" == "'lpad(cpu)'" && "'" + Lpad("cpu::text") + "'" == "'lpad(cpu::text)'"
  {
    assert Tail("cpu") == "', 'lpad(cpu)'" && Tail("cpu::text") == "', 'lpad(cpu::text)'";
  }

  // ---- exactly which literals

  /** The literal t is harmless: in every query whose other literals are contained, no cast changes any literal. */
  ghost predicate Harmless(t: string) {
    forall q: string, tags: seq<string> ::
      AllWords(tags) && (forall k :: 0 <= k < |Literals(q)| ==> Literals(q)[k] == t || Contained(Literals(q)[k]))
      ==> Literals(Pass(q, tags)) == Literals(q)
  }

  function Cs(n: nat): (s: string)
    ensures |s| == n && forall k :: 0 <= k < n ==> s[k] == 'c'
  {
    if n == 0 then "" else Cs(n - 1) + "c"
  }

  /** A tag that stands nowhere in a. */
  lemma LongTag(a: string) returns (tag: string)
    requires QUOTE !in a
    ensures Word(tag) && Idle(a, tag) && Idle("lpad(", tag)
  {
    tag := Cs(|a| + 6);
    assert QUOTE !in "lpad(";
  }

  lemma LpadIsContained(x: string)
    requires Flat(x)
    ensures Contained("'" + Lpad(x) + "'")
  {
    assert "'" + Lpad(x) + "'" == "'" + (Call("lpad", x) + "'") by { assert "lpad(" == "lpad" + "("; }
    CallIsBalanced("lpad", x) by { PlainIsBalanced(x); }
    PlainIsBalanced("'");
    BalancedConcat(Call("lpad", x), "'");
    BalancedConcat("'", Call("lpad", x) + "'");
  }

  lemma InnerWalk(t: string, a: string)
    requires t == "'" + a + "'"
    ensures Contained(a) ==> Contained(t)
  {
    WalkConcat("'" + a, "'", 0);
    WalkConcat("'", a, 0);
    PlainIsFlat("'", 0, 1, 0);
    if Contained(a) { PlainIsFlat("'", 0, 1, Walk(a, 0, |a|, 0).value); }
  }

  /** A literal that closes a parenthesis it did not open makes the pass change a literal of some query. */
  lemma ReachesALiteral(t: string) returns (q: string, tag: string)
    requires Quoted(t) && !Contained(t)
    ensures AllWords([tag]) && Literals(Pass(q, [tag])) != Literals(q)
    ensures forall k :: 0 <= k < |Literals(q)| ==> Literals(q)[k] == t || Contained(Literals(q)[k])
  {
    var a := t[1..|t| - 1];
    assert t == "'" + a + "'";
    InnerWalk(t, a);
    var p := FirstUnmatched(a, 0, |a|);
    tag := LongTag(a);
    q := ReachText(a, tag);
    TagIsReached(a, tag, p);
    WordIsFlat(tag);
    OtherLiteral(a, tag);
  }

  lemma OtherLiteral(a: string, tag: string)
    requires QUOTE !in a && Flat(tag) && Flat(tag + TEXT)
    ensures Literals(ReachText(a, tag + TEXT)) != Literals(ReachText(a, tag))
    ensures forall k :: 0 <= k < |Literals(ReachText(a, tag))| ==>
                          Literals(ReachText(a, tag))[k] == "'" + a + "'" || Contained(Literals(ReachText(a, tag))[k])
  {
    ReachLiterals(a, tag);
    ReachLiterals(a, tag + TEXT);
    assert |"'" + Lpad(tag) + "'"| != |"'" + Lpad(tag + TEXT) + "'"|;
    LpadIsContained(tag);
  }

  /** The literals that do no harm are exactly those that close no parenthesis they did not open. */
  lemma HarmlessIff(t: string)
    requires Quoted(t)
    ensures Harmless(t) <==> Contained(t)
  {
    if Contained(t) {
      forall q: string, tags: seq<string> |
        AllWords(tags) && (forall k :: 0 <= k < |Literals(q)| ==> Literals(q)[k] == t || Contained(Literals(q)[k]))
        ensures Literals(Pass(q, tags)) == Literals(q)
      {
        PassLeavesLiterals(q, tags);
      }
    } else {
      var q, tag := ReachesALiteral(t);
    }
  }

  /** So the label of the kernel's share, whose parentheses close, does no harm. */
  lemma KernelLabelIsHarmless()
    ensures Harmless("' softirq+system (kernel)'")
  {
    var t, h, e := "' softirq+system (kernel)'", "' softirq+system ", Call("", "kernel") + "'";
    assert t == h + e;
    PlainIsBalanced(h);
    PlainIsBalanced("kernel");
    PlainIsBalanced("'");
    CallIsBalanced("", "kernel");
    BalancedConcat(Call("", "kernel"), "'");
    BalancedConcat(h, e);
    HarmlessIff(t);
  }
}

/**
 The ordered aggregates (internal/dashboards/postgres.go): last_value and
 first_value calls with an ORDER BY inside become array aggregates, unless they
 are window functions. The pass is proved to end, to keep the balance, and never
 to touch again what it has gone past.
*/
/** A pass over a query that puts texts in the place of calls, one move after the other. */
module SqlMoves {
  import opened SqlText

  /** What the pass does next: nothing more, go on from at, or put a form between what is before a call and after it. */
  datatype Move = Stop | Skip(at: nat) | Put(pre: string, form: string, post: string)

  /** Every move gets nearer to the end of the query. */
  ghost predicate GoesOn(q: string, at: nat, m: Move) {
    && at <= |q|
    && (m.Skip? ==> at < m.at <= |q|)
    && (m.Put? ==> at <= |m.pre| && |m.pre| + |m.post| < |q| && m.pre <= q)
  }

  /** What takes the place of a call neither mends nor breaks the balance. */
  ghost predicate KeepsBalance(q: string, m: Move) {
    m.Put? ==> (Balanced(q) <==> Balanced(m.pre + (m.form + m.post)))
  }

  ghost predicate Advances(f: (string, nat) -> Move) {
    forall q: string, at: nat :: at <= |q| ==> GoesOn(q, at, f(q, at))
  }

  ghost predicate Neutral(f: (string, nat) -> Move) {
    forall q: string, at: nat :: at <= |q| ==> KeepsBalance(q, f(q, at))
  }

  /** All the moves from at on. What was put in place is stepped over; a call left alone is looked into. */
  function Run(f: (string, nat) -> Move, q: string, at: nat): string
    requires at <= |q| && Advances(f)
    decreases |q| - at
  {
    var m := f(q, at);
    assert GoesOn(q, at, m);
    if m.Stop? then q
    else if m.Skip? then Run(f, q, m.at)
    else Run(f, m.pre + (m.form + m.post), |m.pre| + |m.form|)
  }

  /** A pass of such moves ends, and neither mends nor breaks the balance of a query. */
  lemma {:induction false} RunKeepsBalance(f: (string, nat) -> Move, q: string, at: nat)
    requires at <= |q| && Advances(f) && Neutral(f)
    ensures Balanced(q) <==> Balanced(Run(f, q, at))
    decreases |q| - at
  {
    var m := f(q, at);
    assert GoesOn(q, at, m) && KeepsBalance(q, m);
    if m.Skip? {
      RunKeepsBalance(f, q, m.at);
    } else if m.Put? {
      RunKeepsBalance(f, m.pre + (m.form + m.post), |m.pre| + |m.form|);
    }
  }

  /** What lies before at stays as it is, whatever the rest turns into. */
  lemma {:induction false} RunKeepsWhatItPassed(f: (string, nat) -> Move, q: string, at: nat)
    requires at <= |q| && Advances(f)
    ensures at <= |Run(f, q, at)| && Run(f, q, at)[..at] == q[..at]
    decreases |q| - at
  {
    var m := f(q, at);
    assert GoesOn(q, at, m);
    if m.Skip? {
      RunKeepsWhatItPassed(f, q, m.at);
      Shorter(Run(f, q, m.at), q, m.at, at);
    } else if m.Put? {
      var next := m.pre + (m.form + m.post);
      RunKeepsWhatItPassed(f, next, |m.pre| + |m.form|);
      Shorter(Run(f, next, |m.pre| + |m.form|), next, |m.pre| + |m.form|, at);
      assert next[..at] == m.pre[..at] == q[..at];
    }
  }

  lemma Shorter(s: string, t: string, n: nat, k: nat)
    requires k <= n <= |s| && n <= |t| && s[..n] == t[..n]
    ensures s[..k] == t[..k]
  {
    assert s[..k] == s[..n][..k];
  }

  method RunAll(f: (string, nat) -> Move, query: string) returns (q: string)
    requires Advances(f)
    ensures q == Run(f, query, 0)
  {
    q := query;
    var at: nat := 0;
    while true
      invariant at <= |q| && Run(f, q, at) == Run(f, query, 0)
      decreases |q| - at
    {
      var m := f(q, at);
      assert GoesOn(q, at, m);
      match m
      case Stop => return;
      case Skip(n) => at := n;
      case Put(pre, form, post) =>
        q := pre + (form + post);
        at := |pre| + |form|;
    }
  }
}

module SqlOrdered {
  import opened Words
  import opened SqlMoves
  import opened SqlPasses
  import opened SqlText

  /** The words of the rewrite. */
  datatype Dialect = Dialect(last: string, first: string, orderBy: string, over: string,
                             agg: string, descending: string, index: string)

  const ARRAY_FORM := Dialect("last_value", "first_value", " ORDER BY ", "OVER", "array_agg", " DESC", "[1]")

  ghost predicate NoParentheses(w: Dialect) {
    Plain(w.last) && Plain(w.first) && Plain(w.orderBy) && Plain(w.agg) && Plain(w.descending) && Plain(w.index)
  }

  /** The aggregate's name that starts at i as a word of its own and opens a call; the search began at base. */
  function NameAt(q: string, w: Dialect, base: nat, i: nat): Option<string>
    requires base <= i <= |q|
  {
    if base < i && IdentByte(q[i - 1]) then None
    else if At(q, w.last + "(", i) then Some(w.last)
    else if At(q, w.first + "(", i) then Some(w.first)
    else None
  }

  function FindName(q: string, w: Dialect, base: nat, i: nat): (r: int)
    requires base <= i <= |q|
    ensures r == -1 || (i <= r <= |q| && NameAt(q, w, base, r).Some?)
    decreases |q| - i
  {
    if NameAt(q, w, base, i).Some? then i else if i == |q| then -1 else FindName(q, w, base, i + 1)
  }

  function SkipBlanks(q: string, i: nat): (r: nat)
    requires i <= |q|
    ensures i <= r <= |q|
    decreases |q| - i
  {
    if i < |q| && q[i] == ' ' then SkipBlanks(q, i + 1) else i
  }

  /** The array form of an ordered aggregate. */
  function ArrayForm(w: Dialect, fn: string, expr: string, order: string): string {
    var direction := if fn == w.last then w.descending else "";
    Call("", Call(w.agg, Trim(expr) + (w.orderBy + (Trim(order) + direction)))) + w.index
  }

  /** The call of fn from start to end. */
  function MoveFor(q: string, w: Dialect, fn: string, start: nat, end: nat): Move
    requires start + |fn| < end < |q|
  {
    var args := q[start + |fn| + 1..end];
    var cut := IndexOf(args, w.orderBy, 0);
    if cut < 0 || At(q, w.over, SkipBlanks(q, end + 1)) then Skip(start + |fn| + 1)
    else Put(q[..start], ArrayForm(w, fn, args[0..cut], args[cut + |w.orderBy|..|args|]), q[end + 1..])
  }

  /** The call of fn from start on, if it closes. */
  function MoveOfCall(q: string, w: Dialect, fn: string, start: nat): Move
    requires start + |fn| < |q|
  {
    var end := Closing(q, start + |fn|, start + |fn| + 1);
    if end < 0 then Stop else MoveFor(q, w, fn, start, end)
  }

  function MoveAt(q: string, w: Dialect, at: nat): Move
    requires at <= |q|
  {
    var start := FindName(q, w, at, at);
    if start < 0 then Stop else MoveOfCall(q, w, NameAt(q, w, at, start).value, start)
  }

  lemma MoveGoesOn(q: string, w: Dialect, at: nat)
    requires at <= |q|
    ensures GoesOn(q, at, MoveAt(q, w, at))
  {}

  /** The pass: one move after the other. */
  function Mover(w: Dialect): (string, nat) -> Move {
    (q: string, at: nat) => if at <= |q| then MoveAt(q, w, at) else Stop
  }

  // ---- balance

  /** The arguments, trimmed and put together again, walk as they did. */
  lemma RejoinedWalk(args: string, expr: string, word: string, order: string, tail: string)
    requires args == expr + (word + order) && Plain(word) && Plain(tail)
    ensures Balanced(args) <==> Balanced(Trim(expr) + (word + (Trim(order) + tail)))
  {
    PlainIsBalanced(word);
    PlainIsBalanced(tail);
    JoinedWalk(expr, word, order, "");
    assert order + "" == order;
    JoinedWalk(Trim(expr), word, Trim(order), tail);
    TrimKeepsWalk(expr, 0);
    var d := Walk(expr, 0, |expr|, 0);
    if d.Some? { TrimKeepsWalk(order, d.value); }
  }

  lemma JoinedWalk(a: string, word: string, b: string, tail: string)
    requires Balanced(word) && Balanced(tail)
    ensures var s := a + (word + (b + tail)); Walk(s, 0, |s|, 0) == Then(Walk(a, 0, |a|, 0), b)
  {
    var d := Walk(a, 0, |a|, 0);
    WalkConcat(a, word + (b + tail), 0);
    if d.Some? {
      WalkConcat(word, b + tail, d.value);
      BalancedIsNeutral(word, d);
      WalkConcat(b, tail, d.value);
      BalancedIsNeutral(tail, Walk(b, 0, |b|, d.value));
    }
  }

  lemma ArrayFormIsBalanced(w: Dialect, fn: string, args: string, expr: string, order: string)
    requires NoParentheses(w) && Balanced(args) && args == expr + (w.orderBy + order)
    ensures Balanced(ArrayForm(w, fn, expr, order))
  {
    var direction := if fn == w.last then w.descending else "";
    var inner := Trim(expr) + (w.orderBy + (Trim(order) + direction));
    RejoinedWalk(args, expr, w.orderBy, order, direction);
    CallIsBalanced(w.agg, inner);
    CallIsBalanced("", Call(w.agg, inner));
    PlainIsBalanced(w.index);
    BalancedConcat(Call("", Call(w.agg, inner)), w.index);
  }

  /** Cut at a word, the text is what stands before it, the word, and what follows. */
  lemma CutAt(s: string, word: string, cut: nat)
    requires At(s, word, cut)
    ensures s == s[0..cut] + (word + s[cut + |word|..|s|])
  {}

  lemma FormIsBalanced(w: Dialect, fn: string, args: string, cut: nat)
    requires NoParentheses(w) && Balanced(args) && At(args, w.orderBy, cut)
    ensures Balanced(ArrayForm(w, fn, args[0..cut], args[cut + |w.orderBy|..|args|]))
  {
    var expr, order := args[0..cut], args[cut + |w.orderBy|..|args|];
    CutAt(args, w.orderBy, cut);
    ArrayFormIsBalanced(w, fn, args, expr, order);
  }

  lemma PutInPlace(q: string, fn: string, start: nat, end: nat, form: string)
    requires At(q, fn + "(", start) && start + |fn| < end < |q| && q[end] == ')' && Plain(fn)
    requires Balanced(q[start + |fn| + 1..end]) && Balanced(form)
    ensures Balanced(q) <==> Balanced(q[..start] + (form + q[end + 1..]))
  {
    var args := q[start + |fn| + 1..end];
    Pieces(q, fn, start, end);
    CallIsBalanced(fn, args);
    SwapKeepsBalance(q[..start], Call(fn, args), form, q[end + 1..]);
  }

  lemma MoveForKeepsBalance(q: string, w: Dialect, fn: string, start: nat, end: nat)
    requires NoParentheses(w) && Plain(fn)
    requires At(q, fn + "(", start) && start + |fn| < end < |q| && q[end] == ')' && Balanced(q[start + |fn| + 1..end])
    ensures KeepsBalance(q, MoveFor(q, w, fn, start, end))
  {
    var m := MoveFor(q, w, fn, start, end);
    if m.Put? {
      var args := q[start + |fn| + 1..end];
      FormIsBalanced(w, fn, args, IndexOf(args, w.orderBy, 0));
      PutInPlace(q, fn, start, end, m.form);
    }
  }

  lemma MoveKeepsBalance(q: string, w: Dialect, at: nat)
    requires at <= |q| && NoParentheses(w)
    ensures KeepsBalance(q, MoveAt(q, w, at))
  {
    var start := FindName(q, w, at, at);
    if start >= 0 {
      var fn := NameAt(q, w, at, start).value;
      var end := Closing(q, start + |fn|, start + |fn| + 1);
      if end >= 0 {
        ClosingEnclosesBalanced(q, start + |fn|, start + |fn| + 1);
        MoveForKeepsBalance(q, w, fn, start, end);
      }
    }
  }

  lemma MoverIsSound(w: Dialect)
    ensures Advances(Mover(w))
    ensures NoParentheses(w) ==> Neutral(Mover(w))
  {
    forall q: string, at: nat | at <= |q| ensures GoesOn(q, at, Mover(w)(q, at)) {
      MoveGoesOn(q, w, at);
    }
    if NoParentheses(w) {
      forall q: string, at: nat | at <= |q| ensures KeepsBalance(q, Mover(w)(q, at)) {
        MoveKeepsBalance(q, w, at);
      }
    }
  }

  /** What the pass makes of a query. */
  function OrderedPass(q: string): string {
    MoverIsSound(ARRAY_FORM);
    Run(Mover(ARRAY_FORM), q, 0)
  }

  /** The pass over the ordered aggregates. */
  method PgRewriteOrderedAggregates(query: string) returns (q: string)
    ensures q == OrderedPass(query)
  {
    MoverIsSound(ARRAY_FORM);
    q := RunAll(Mover(ARRAY_FORM), query);
  }

  lemma LastFits()
    ensures Plain("last_value") && Plain("first_value")
  {}

  lemma OrderByFits()
    ensures Plain(" ORDER BY ") && Plain("array_agg")
  {}

  lemma DescendingFits()
    ensures Plain(" DESC") && Plain("[1]")
  {}

  /** The words the pass is applied with have no parentheses, so the pass keeps the balance of every query. */
  lemma OrderedAggregatesKeepBalance(q: string)
    ensures Balanced(q) <==> Balanced(OrderedPass(q))
  {
    LastFits();
    OrderByFits();
    DescendingFits();
    MoverIsSound(ARRAY_FORM);
    RunKeepsBalance(Mover(ARRAY_FORM), q, 0);
  }
}

/**
 What the rewrite of ordered aggregates writes, and where (internal/dashboards/postgres.go).
 The pass goes on behind what it has written, so the text after a call is
 rewritten as if it stood alone.
*/
module SqlArrays {
  import opened Words
  import opened SqlMoves
  import opened SqlOrdered
  import opened SqlText
  import opened SqlWritten

  // ---- a pass that looks ahead alone

  function Shifted(x: string, m: Move): Move {
    match m
    case Stop => Stop
    case Skip(at) => Skip(|x| + at)
    case Put(pre, form, post) => Put(x + pre, form, post)
  }

  /** What stands before the place a move starts from makes no difference to it. */
  ghost predicate Ahead(f: (string, nat) -> Move) {
    forall x: string, s: string, at: nat :: at <= |s| ==> f(x + s, |x| + at) == Shifted(x, f(s, at))
  }

  lemma {:induction false} RunShifts(f: (string, nat) -> Move, x: string, s: string, at: nat)
    requires Advances(f) && Ahead(f) && at <= |s|
    ensures Run(f, x + s, |x| + at) == x + Run(f, s, at)
    decreases |s| - at
  {
    var m := f(s, at);
    assert GoesOn(s, at, m);
    assert f(x + s, |x| + at) == Shifted(x, m);
    if m.Skip? {
      RunShifts(f, x, s, m.at);
    } else if m.Put? {
      RunShifts(f, x, m.pre + (m.form + m.post), |m.pre| + |m.form|);
      assert (x + m.pre) + (m.form + m.post) == x + (m.pre + (m.form + m.post));
    }
  }

  /** So the pass leaves what it has gone past, and makes of the rest what it would make of it alone. */
  lemma RunSplits(f: (string, nat) -> Move, x: string, s: string)
    requires Advances(f) && Ahead(f)
    ensures Run(f, x + s, |x|) == x + Run(f, s, 0)
  {
    RunShifts(f, x, s, 0);
  }

  // ---- the pass looks ahead alone

  /** q is s behind x. */
  ghost predicate Rest(q: string, x: string, s: string) {
    q == x + s
  }

  /** Place j of q is place i of s. */
  ghost predicate Place(q: string, x: string, s: string, i: nat, j: nat) {
    i <= |s| && j <= |q| && j == |x| + i
  }

  lemma RestAt(q: string, x: string, s: string, i: nat, j: nat)
    requires Rest(q, x, s) && Place(q, x, s, i, j)
    ensures |q| == |x| + |s| && q[j..] == s[i..] && (i < |s| ==> q[j] == s[i])
  {}

  lemma RestSlice(q: string, x: string, s: string, i: nat, k: nat, j: nat, l: nat)
    requires Rest(q, x, s) && Place(q, x, s, i, j) && Place(q, x, s, k, l) && i <= k
    ensures q[j..l] == s[i..k]
  {}

  lemma RestBegin(q: string, x: string, s: string, i: nat, j: nat)
    requires Rest(q, x, s) && Place(q, x, s, i, j)
    ensures q[..j] == x + s[..i]
  {}

  lemma SameWord(q: string, i: nat, s: string, k: nat, word: string)
    requires i + |word| <= |q| && k + |word| <= |s| && q[i..i + |word|] == s[k..k + |word|]
    ensures At(q, word, i) <==> At(s, word, k)
  {
    var a, b := q[i..i + |word|], s[k..k + |word|];
    assert forall j :: 0 <= j < |word| ==> a[j] == q[i + j];
    assert forall j :: 0 <= j < |word| ==> b[j] == s[k + j];
  }

  lemma AtShifts(q: string, x: string, s: string, word: string, i: nat, j: nat)
    requires Rest(q, x, s) && Place(q, x, s, i, j)
    ensures At(q, word, j) <==> At(s, word, i)
  {
    if i + |word| <= |s| {
      RestSlice(q, x, s, i, i + |word|, j, j + |word|);
      SameWord(q, j, s, i, word);
    }
  }

  lemma NameShifts(q: string, x: string, s: string, w: Dialect, base: nat, i: nat, base': nat, j: nat)
    requires Rest(q, x, s) && Place(q, x, s, i, j) && Place(q, x, s, base, base') && base <= i
    ensures NameAt(q, w, base', j) == NameAt(s, w, base, i)
  {
    AtShifts(q, x, s, w.last + "(", i, j);
    AtShifts(q, x, s, w.first + "(", i, j);
    if i > 0 { RestAt(q, x, s, i - 1, j - 1); }
  }

  lemma {:induction false} FindShifts(q: string, x: string, s: string, w: Dialect,
                                      base: nat, i: nat, base': nat, j: nat)
    requires Rest(q, x, s) && Place(q, x, s, i, j) && Place(q, x, s, base, base') && base <= i
    ensures FindName(q, w, base', j) == if FindName(s, w, base, i) < 0 then -1 else |x| + FindName(s, w, base, i)
    decreases |s| - i
  {
    NameShifts(q, x, s, w, base, i, base', j);
    if i < |s| { FindShifts(q, x, s, w, base, i + 1, base', j + 1); }
  }

  lemma {:induction false} ClosingShifts(q: string, x: string, s: string, open: nat, i: nat, open': nat, j: nat)
    requires Rest(q, x, s) && open < i && open' == |x| + open && Place(q, x, s, i, j)
    ensures Closing(q, open', j) == if Closing(s, open, i) < 0 then -1 else |x| + Closing(s, open, i)
    decreases |s| - i
  {
    RestAt(q, x, s, i, j);
    if i < |s| {
      RestSlice(q, x, s, open + 1, i, open' + 1, j);
      WalkSame(q, open' + 1, s, open + 1, i - open - 1, 0);
      ClosingShifts(q, x, s, open, i + 1, open', j + 1);
    }
  }

  lemma {:induction false} BlanksShift(q: string, x: string, s: string, i: nat, j: nat)
    requires Rest(q, x, s) && Place(q, x, s, i, j)
    ensures SkipBlanks(q, j) == |x| + SkipBlanks(s, i)
    decreases |s| - i
  {
    RestAt(q, x, s, i, j);
    if i < |s| { BlanksShift(q, x, s, i + 1, j + 1); }
  }

  lemma OverShifts(q: string, x: string, s: string, over: string, i: nat, j: nat)
    requires Rest(q, x, s) && Place(q, x, s, i, j)
    ensures At(q, over, SkipBlanks(q, j)) == At(s, over, SkipBlanks(s, i))
  {
    BlanksShift(q, x, s, i, j);
    AtShifts(q, x, s, over, SkipBlanks(s, i), SkipBlanks(q, j));
  }

  /** The move at a call, by what stands before it, in it and behind it. */
  function MoveOf(w: Dialect, fn: string, open: nat, pre: string, args: string, post: string, over: bool): Move {
    var cut := IndexOf(args, w.orderBy, 0);
    if cut < 0 || over then Skip(open + 1)
    else Put(pre, ArrayForm(w, fn, args[0..cut], args[cut + |w.orderBy|..|args|]), post)
  }

  lemma MoveForIs(q: string, w: Dialect, fn: string, start: nat, end: nat, args: string)
    requires start + |fn| < end < |q| && q[start + |fn| + 1..end] == args
    ensures MoveFor(q, w, fn, start, end)
         == MoveOf(w, fn, start + |fn|, q[..start], args, q[end + 1..], At(q, w.over, SkipBlanks(q, end + 1)))
  {}

  lemma MoveOfShifts(x: string, w: Dialect, fn: string, open: nat, pre: string, args: string, post: string, over: bool)
    ensures MoveOf(w, fn, |x| + open, x + pre, args, post, over)
         == Shifted(x, MoveOf(w, fn, open, pre, args, post, over))
  {}

  /** Two calls that close, with the same around them but for x. */
  ghost predicate SameCall(q: string, x: string, s: string, w: Dialect, n: nat, start: nat, end: nat, i: nat, j: nat) {
    && start + n < end < |s| && i + n < j < |q| && i == |x| + start
    && q[..i] == x + s[..start] && q[i + n + 1..j] == s[start + n + 1..end] && q[j + 1..] == s[end + 1..]
    && At(q, w.over, SkipBlanks(q, j + 1)) == At(s, w.over, SkipBlanks(s, end + 1))
  }

  lemma CallIsSame(q: string, x: string, s: string, w: Dialect, n: nat, start: nat, end: nat, i: nat, j: nat)
    requires Rest(q, x, s) && start + n < end < |s| && i == |x| + start && j == |x| + end
    ensures SameCall(q, x, s, w, n, start, end, i, j)
  {
    OverShifts(q, x, s, w.over, end + 1, j + 1);
    SlicesAreSame(q, x, s, n, start, end, i, j);
  }

  lemma SlicesAreSame(q: string, x: string, s: string, n: nat, start: nat, end: nat, i: nat, j: nat)
    requires Rest(q, x, s) && start + n < end < |s| && i == |x| + start && j == |x| + end
    ensures j < |q| && q[..i] == x + s[..start]
    ensures q[i + n + 1..j] == s[start + n + 1..end] && q[j + 1..] == s[end + 1..]
  {
    RestBegin(q, x, s, start, i);
    RestAt(q, x, s, end + 1, j + 1);
    RestSlice(q, x, s, start + n + 1, end, i + n + 1, j);
  }

  lemma SameMove(q: string, x: string, s: string, w: Dialect, fn: string, start: nat, end: nat, i: nat, j: nat)
    requires SameCall(q, x, s, w, |fn|, start, end, i, j)
    ensures MoveFor(q, w, fn, i, j) == Shifted(x, MoveFor(s, w, fn, start, end))
  {
    var args, over := s[start + |fn| + 1..end], At(s, w.over, SkipBlanks(s, end + 1));
    MoveForIs(s, w, fn, start, end, args);
    MoveForIs(q, w, fn, i, j, args);
    MoveOfShifts(x, w, fn, start + |fn|, s[..start], args, s[end + 1..], over);
  }

  /** The calls of fn at start and at i both close, around the same, or neither does. */
  ghost predicate BothClose(q: string, x: string, s: string, w: Dialect, n: nat, start: nat, i: nat)
    requires start + n < |s| && i + n < |q|
  {
    var end, j := Closing(s, start + n, start + n + 1), Closing(q, i + n, i + n + 1);
    if end < 0 then j < 0 else j >= 0 && SameCall(q, x, s, w, n, start, end, i, j)
  }

  lemma CallsClose(q: string, x: string, s: string, w: Dialect, n: nat, start: nat, i: nat)
    requires Rest(q, x, s) && start + n < |s| && i == |x| + start
    ensures i + n < |q| && BothClose(q, x, s, w, n, start, i)
  {
    var open, open' := start + n, i + n;
    ClosingShifts(q, x, s, open, open + 1, open', open' + 1);
    CloseAround(q, x, s, w, n, start, i, Closing(s, open, open + 1), Closing(q, open', open' + 1));
  }

  lemma CloseAround(q: string, x: string, s: string, w: Dialect, n: nat, start: nat, i: nat, end: int, j: int)
    requires Rest(q, x, s) && i == |x| + start && j == if end < 0 then -1 else |x| + end
    requires end >= 0 ==> start + n < end < |s|
    ensures if end < 0 then j < 0 else j >= 0 && SameCall(q, x, s, w, n, start, end, i, j)
  {
    if end >= 0 { CallIsSame(q, x, s, w, n, start, end, i, j); }
  }

  lemma CallShifts(q: string, x: string, s: string, w: Dialect, fn: string, start: nat, i: nat)
    requires start + |fn| < |s| && i + |fn| < |q| && BothClose(q, x, s, w, |fn|, start, i)
    ensures MoveOfCall(q, w, fn, i) == Shifted(x, MoveOfCall(s, w, fn, start))
  {
    var end := Closing(s, start + |fn|, start + |fn| + 1);
    if end >= 0 { SameMove(q, x, s, w, fn, start, end, i, Closing(q, i + |fn|, i + |fn| + 1)); }
  }

  lemma NameOpens(q: string, w: Dialect, base: nat, i: nat, fn: string)
    requires base <= i <= |q| && NameAt(q, w, base, i) == Some(fn)
    ensures At(q, fn + "(", i) && i + |fn| < |q|
  {}

  lemma MoveShifts(q: string, x: string, s: string, w: Dialect, at: nat, at': nat)
    requires Rest(q, x, s) && Place(q, x, s, at, at')
    ensures MoveAt(q, w, at') == Shifted(x, MoveAt(s, w, at))
  {
    FindShifts(q, x, s, w, at, at, at', at');
    var start := FindName(s, w, at, at);
    if start >= 0 {
      var fn, i := NameAt(s, w, at, start).value, FindName(q, w, at', at');
      NameShifts(q, x, s, w, at, start, at', i);
      NameOpens(s, w, at, start, fn);
      CallsClose(q, x, s, w, |fn|, start, i);
      CallShifts(q, x, s, w, fn, start, i);
    }
  }

  lemma MoverShifts(w: Dialect, x: string, s: string, at: nat)
    requires at <= |s|
    ensures Mover(w)(x + s, |x| + at) == Shifted(x, Mover(w)(s, at))
  {
    MoveShifts(x + s, x, s, w, at, |x| + at);
  }

  lemma MoverLooksAhead(w: Dialect)
    ensures Advances(Mover(w)) && Ahead(Mover(w))
  {
    MoverIsSound(w);
    var f := Mover(w);
    forall x: string, s: string, at: nat | at <= |s| ensures f(x + s, |x| + at) == Shifted(x, f(s, at)) {
      MoverShifts(w, x, s, at);
    }
  }

  // ---- the calls the pass finds

  /** One of the two functions is called at k, by a word of its own. */
  ghost predicate Calls(q: string, k: nat) {
    && (At(q, "last_value(", k) || At(q, "first_value(", k))
    && (k > 0 ==> !IdentByte(q[k - 1]))
  }

  ghost predicate NoneEarlier(q: string, n: nat) {
    forall k :: 0 <= k < n ==> !Calls(q, k)
  }

  /** OVER follows, with nothing but blanks before it. */
  ghost predicate OverFollows(post: string) {
    exists n :: 0 <= n <= |post| && At(post, "OVER", n) && forall k :: 0 <= k < n ==> post[k] == ' '
  }

  lemma OrderedWords()
    ensures "last_value" + "(" == "last_value(" && "first_value" + "(" == "first_value("
  {}

  lemma NameIff(q: string, k: nat)
    requires k <= |q|
    ensures NameAt(q, ARRAY_FORM, 0, k).Some? <==> Calls(q, k)
  {
    OrderedWords();
  }

  lemma {:induction false} FindIs(q: string, i: nat, n: nat)
    requires i <= n <= |q| && NameAt(q, ARRAY_FORM, 0, n).Some? && NoneEarlier(q, n)
    ensures FindName(q, ARRAY_FORM, 0, i) == n
    decreases n - i
  {
    NameIff(q, i);
    if i < n { FindIs(q, i + 1, n); }
  }

  lemma {:induction false} FindsNone(q: string, i: nat)
    requires i <= |q| && forall k :: 0 <= k <= |q| ==> !Calls(q, k)
    ensures FindName(q, ARRAY_FORM, 0, i) == -1
    decreases |q| - i
  {
    NameIff(q, i);
    if i < |q| { FindsNone(q, i + 1); }
  }

  lemma {:induction false} BlanksEnd(q: string, i: nat, n: nat)
    requires i <= n <= |q| && (forall k :: i <= k < n ==> q[k] == ' ') && (n < |q| ==> q[n] != ' ')
    ensures SkipBlanks(q, i) == n
    decreases n - i
  {
    if i < n { BlanksEnd(q, i + 1, n); }
  }

  lemma {:induction false} BlanksAreSkipped(q: string, i: nat)
    requires i <= |q|
    ensures forall k :: i <= k < SkipBlanks(q, i) ==> q[k] == ' '
    decreases |q| - i
  {
    if i < |q| && q[i] == ' ' { BlanksAreSkipped(q, i + 1); }
  }

  lemma OverIff(post: string)
    ensures At(post, "OVER", SkipBlanks(post, 0)) <==> OverFollows(post)
  {
    BlanksAreSkipped(post, 0);
    if OverFollows(post) {
      var n :| 0 <= n <= |post| && At(post, "OVER", n) && forall k :: 0 <= k < n ==> post[k] == ' ';
      assert post[n] == "OVER"[0];
      BlanksEnd(post, 0, n);
    }
  }

  lemma OverBehind(q: string, i: nat, post: string)
    requires i <= |q| && q[i..] == post
    ensures At(q, "OVER", SkipBlanks(q, i)) <==> OverFollows(post)
  {
    assert q == q[..i] + post;
    OverShifts(q, q[..i], post, "OVER", 0, i);
    OverIff(post);
  }

  // ---- what is written

  /** A call of fn found first, and what its argument list and what follows it are. */
  ghost predicate FoundCall(q: string, fn: string, start: nat, args: string, end: nat) {
    && start + |fn| < end < |q|
    && FindName(q, ARRAY_FORM, 0, 0) == start && NameAt(q, ARRAY_FORM, 0, start) == Some(fn)
    && Closing(q, start + |fn|, start + |fn| + 1) == end
    && q[start + |fn| + 1..end] == args
  }

  lemma NameIs(q: string, k: nat, fn: string)
    requires k <= |q| && (fn == "last_value" || fn == "first_value")
    requires At(q, fn + "(", k) && (k > 0 ==> !IdentByte(q[k - 1]))
    ensures NameAt(q, ARRAY_FORM, 0, k) == Some(fn)
  {
    if fn == "first_value" {
      assert q[k + 0] == (fn + "(")[0] == 'f';
      assert (ARRAY_FORM.last + "(")[0] == 'l';
    }
  }

  lemma CallIsThere(q: string, pre: string, fn: string, args: string, end: nat)
    requires At(q, fn + "(", |pre|) && q[..|pre|] == pre && (pre != "" ==> !IdentByte(pre[|pre| - 1]))
    requires fn == "last_value" || fn == "first_value"
    requires NoneEarlier(q, |pre|)
    requires end == |pre| + |fn| + 1 + |args| && end < |q| && q[end] == ')' && q[|pre| + |fn| + 1..end] == args
    requires Balanced(args)
    ensures FoundCall(q, fn, |pre|, args, end)
  {
    if pre != "" { assert q[|pre| - 1] == pre[|pre| - 1]; }
    NameIs(q, |pre|, fn);
    FindIs(q, 0, |pre|);
    CallCloses(q, |pre| + |fn|, args);
  }

  lemma FoundMove(q: string, fn: string, start: nat, args: string, end: nat)
    requires FoundCall(q, fn, start, args, end)
    ensures MoveAt(q, ARRAY_FORM, 0)
         == MoveOf(ARRAY_FORM, fn, start + |fn|, q[..start], args, q[end + 1..], OverFollows(q[end + 1..]))
  {
    OverBehind(q, end + 1, q[end + 1..]);
    MoveForIs(q, ARRAY_FORM, fn, start, end, args);
  }

  /** Where ORDER BY first stands in the arguments. */
  ghost predicate FirstOrderBy(a: string, args: string) {
    At(args, " ORDER BY ", |a|) && forall k :: 0 <= k < |a| ==> !At(args, " ORDER BY ", k)
  }

  lemma PutMove(fn: string, open: nat, pre: string, a: string, b: string, post: string)
    requires FirstOrderBy(a, a + " ORDER BY " + b)
    ensures MoveOf(ARRAY_FORM, fn, open, pre, a + " ORDER BY " + b, post, false)
         == Put(pre, ArrayForm(ARRAY_FORM, fn, a, b), post)
  {
    var args := a + " ORDER BY " + b;
    IndexIs(args, " ORDER BY ", 0, |a|);
    assert args[0..|a|] == a && args[|a| + |" ORDER BY "|..|args|] == b;
  }

  lemma RunPuts(f: (string, nat) -> Move, q: string, pre: string, form: string, post: string)
    requires Advances(f) && Ahead(f) && f(q, 0) == Put(pre, form, post)
    ensures Run(f, q, 0) == pre + form + Run(f, post, 0)
  {
    RunSplits(f, pre + form, post);
    assert pre + (form + post) == (pre + form) + post;
  }

  lemma RunSkips(f: (string, nat) -> Move, q: string, x: string, s: string)
    requires Advances(f) && Ahead(f) && f(q, 0) == Skip(|x|) && q == x + s
    ensures Run(f, q, 0) == x + Run(f, s, 0)
  {
    RunSplits(f, x, s);
  }

  lemma PassPuts(q: string, pre: string, form: string, post: string)
    requires MoveAt(q, ARRAY_FORM, 0) == Put(pre, form, post)
    ensures OrderedPass(q) == pre + form + OrderedPass(post)
  {
    MoverLooksAhead(ARRAY_FORM);
    RunPuts(Mover(ARRAY_FORM), q, pre, form, post);
  }

  lemma PassSkips(q: string, x: string, s: string)
    requires MoveAt(q, ARRAY_FORM, 0) == Skip(|x|) && q == x + s
    ensures OrderedPass(q) == x + OrderedPass(s)
  {
    MoverLooksAhead(ARRAY_FORM);
    RunSkips(Mover(ARRAY_FORM), q, x, s);
  }

  lemma CallWritten(q: string, pre: string, fn: string, a: string, b: string, post: string, end: nat)
    requires FoundCall(q, fn, |pre|, a + " ORDER BY " + b, end) && q[..|pre|] == pre && q[end + 1..] == post
    requires FirstOrderBy(a, a + " ORDER BY " + b) && !OverFollows(post)
    ensures OrderedPass(q) == pre + ArrayForm(ARRAY_FORM, fn, a, b) + OrderedPass(post)
  {
    FoundMove(q, fn, |pre|, a + " ORDER BY " + b, end);
    PutMove(fn, |pre| + |fn|, pre, a, b, post);
    PassPuts(q, pre, ArrayForm(ARRAY_FORM, fn, a, b), post);
  }

  /** Before text that ends in no letter, digit or underscore a word can start. */
  predicate WordEnds(pre: string) {
    pre != "" ==> !IdentByte(pre[|pre| - 1])
  }

  lemma OrderedIsWritten(pre: string, fn: string, a: string, b: string, post: string)
    requires fn == "last_value" || fn == "first_value"
    requires WordEnds(pre) && Balanced(a + " ORDER BY " + b) && FirstOrderBy(a, a + " ORDER BY " + b)
    requires !OverFollows(post) && NoneEarlier(pre + (fn + "(") + (a + " ORDER BY " + b) + ")" + post, |pre|)
    ensures OrderedPass(pre + (fn + "(") + (a + " ORDER BY " + b) + ")" + post)
         == pre + ArrayForm(ARRAY_FORM, fn, a, b) + OrderedPass(post)
  {
    var args := a + " ORDER BY " + b;
    var q, end := pre + (fn + "(") + args + ")" + post, |pre| + |fn| + 1 + |args|;
    CallStands(pre, fn + "(", args, post);
    CallIsThere(q, pre, fn, args, end);
    CallWritten(q, pre, fn, a, b, post, end);
  }

  lemma FormWritten(agg: string, expr: string, orderBy: string, order: string, direction: string, index: string)
    ensures Call("", Call(agg, expr + (orderBy + (order + direction)))) + index
         == ("(" + (agg + "(")) + expr + orderBy + order + (direction + ("))" + index))
  {}

  lemma FormWords()
    ensures "(" + ("array_agg" + "(") == "(array_agg("
    ensures " DESC" + ("))" + "[1]") == " DESC))[1]" && "" + ("))" + "[1]") == "))[1]"
  {}

  lemma Regroups(pre: string, head: string, a: string, orderBy: string, b: string, post: string)
    ensures pre + head + (a + orderBy + b) + ")" + post == pre + head + a + orderBy + b + ")" + post
  {}

  lemma FormAround(pre: string, head: string, a: string, orderBy: string, b: string, tail: string, post: string)
    ensures pre + (head + a + orderBy + b + tail) + post == pre + head + a + orderBy + b + tail + post
  {}

  /**
   The first call found, when it is last_value with an ORDER BY among its arguments and OVER does not
   follow it: an array sorted downwards takes its place, and the pass goes on with what follows.
  */
  lemma LastIsWritten(pre: string, a: string, b: string, post: string)
    requires WordEnds(pre) && Balanced(a + " ORDER BY " + b) && FirstOrderBy(a, a + " ORDER BY " + b)
    requires !OverFollows(post) && NoneEarlier(pre + "last_value(" + a + " ORDER BY " + b + ")" + post, |pre|)
    ensures OrderedPass(pre + "last_value(" + a + " ORDER BY " + b + ")" + post)
         == pre + "(array_agg(" + Trim(a) + " ORDER BY " + Trim(b) + " DESC))[1]" + OrderedPass(post)
  {
    OrderedWords();
    FormWords();
    Regroups(pre, "last_value(", a, " ORDER BY ", b, post);
    OrderedIsWritten(pre, "last_value", a, b, post);
    FormWritten("array_agg", Trim(a), " ORDER BY ", Trim(b), " DESC", "[1]");
    FormAround(pre, "(array_agg(", Trim(a), " ORDER BY ", Trim(b), " DESC))[1]", OrderedPass(post));
  }

  /** And when it is first_value: one sorted upwards. */
  lemma FirstIsWritten(pre: string, a: string, b: string, post: string)
    requires WordEnds(pre) && Balanced(a + " ORDER BY " + b) && FirstOrderBy(a, a + " ORDER BY " + b)
    requires !OverFollows(post) && NoneEarlier(pre + "first_value(" + a + " ORDER BY " + b + ")" + post, |pre|)
    ensures OrderedPass(pre + "first_value(" + a + " ORDER BY " + b + ")" + post)
         == pre + "(array_agg(" + Trim(a) + " ORDER BY " + Trim(b) + "))[1]" + OrderedPass(post)
  {
    OrderedWords();
    FormWords();
    Regroups(pre, "first_value(", a, " ORDER BY ", b, post);
    OrderedIsWritten(pre, "first_value", a, b, post);
    FormWritten("array_agg", Trim(a), " ORDER BY ", Trim(b), "", "[1]");
    FormAround(pre, "(array_agg(", Trim(a), " ORDER BY ", Trim(b), "))[1]", OrderedPass(post));
  }

  // ---- what is left alone

  lemma SkipMove(q: string, fn: string, start: nat, args: string, end: nat)
    requires FoundCall(q, fn, start, args, end)
    requires OverFollows(q[end + 1..]) || forall k :: 0 <= k <= |args| ==> !At(args, " ORDER BY ", k)
    ensures MoveAt(q, ARRAY_FORM, 0) == Skip(start + |fn| + 1)
  {
    FoundMove(q, fn, start, args, end);
  }

  lemma Behind(pre: string, head: string, args: string, post: string)
    ensures pre + head + args + ")" + post == (pre + head) + (args + ")" + post)
  {}

  /**
   The first call found, when it has no ORDER BY or OVER follows it, stays, and the pass goes on right
   behind the parenthesis it opens: with its arguments.
  */
  lemma WindowIsLeft(pre: string, fn: string, args: string, post: string)
    requires fn == "last_value" || fn == "first_value"
    requires WordEnds(pre) && Balanced(args) && NoneEarlier(pre + (fn + "(") + args + ")" + post, |pre|)
    requires OverFollows(post) || forall k :: 0 <= k <= |args| ==> !At(args, " ORDER BY ", k)
    ensures OrderedPass(pre + (fn + "(") + args + ")" + post) == pre + (fn + "(") + OrderedPass(args + ")" + post)
  {
    var q, end := pre + (fn + "(") + args + ")" + post, |pre| + |fn| + 1 + |args|;
    CallStands(pre, fn + "(", args, post);
    CallIsThere(q, pre, fn, args, end);
    SkipMove(q, fn, |pre|, args, end);
    Behind(pre, fn + "(", args, post);
    PassSkips(q, pre + (fn + "("), args + ")" + post);
  }

  /** A query without such a call stays as it is, */
  lemma NoneIsLeft(q: string)
    requires forall k :: 0 <= k <= |q| ==> !Calls(q, k)
    ensures OrderedPass(q) == q
  {
    FindsNone(q, 0);
  }

  /** and so does one in which the first call found never closes. */
  lemma OpenIsLeft(pre: string, fn: string, rest: string)
    requires fn == "last_value" || fn == "first_value"
    requires WordEnds(pre) && NoneEarlier(pre + (fn + "(") + rest, |pre|)
    requires forall e :: 0 <= e < |rest| && rest[e] == ')' ==> !Balanced(rest[..e])
    ensures OrderedPass(pre + (fn + "(") + rest) == pre + (fn + "(") + rest
  {
    Opens(pre, fn + "(", rest);
    StaysOpen(pre + (fn + "(") + rest, pre, fn, rest);
  }

  lemma StaysOpen(q: string, pre: string, fn: string, rest: string)
    requires fn == "last_value" || fn == "first_value"
    requires At(q, fn + "(", |pre|) && pre <= q && WordEnds(pre) && NoneEarlier(q, |pre|)
    requires q[|pre| + |fn| + 1..] == rest
    requires forall e :: 0 <= e < |rest| && rest[e] == ')' ==> !Balanced(rest[..e])
    ensures OrderedPass(q) == q
  {
    NameIs(q, |pre|, fn);
    FindIs(q, 0, |pre|);
    NothingCloses(q, |pre| + |fn|, rest);
  }
}

/**
 The hand-written passes that turn one SQL dialect into another
 (internal/dashboards/postgres.go). Parentheses are followed by a walk over the
 text; the passes are proved to end, and to leave a balanced query balanced and
 an unbalanced one unbalanced.
*/
module SqlText {
  import opened Words

  /** The nesting depth after s[lo..hi], starting at depth d; None when a parenthesis closes nothing. */
  function Walk(s: string, lo: nat, hi: nat, d: nat): Option<nat>
    requires hi <= |s|
  {
    if hi <= lo then Some(d)
    else
      var before := Walk(s, lo, hi - 1, d);
      if before.None? then None
      else if s[hi - 1] == '(' then Some(before.value + 1)
      else if s[hi - 1] == ')' then (if before.value == 0 then None else Some(before.value - 1))
      else before
  }

  predicate Balanced(s: string) {
    Walk(s, 0, |s|, 0) == Some(0)
  }

  predicate Plain(s: string) {
    '(' !in s && ')' !in s
  }

  /** A walk goes on from where a walk ended. */
  function Then(d: Option<nat>, s: string): Option<nat> {
    if d.None? then None else Walk(s, 0, |s|, d.value)
  }

  lemma {:induction false} WalkSplit(s: string, a: nat, b: nat, c: nat, d: nat)
    requires a <= b <= c <= |s|
    ensures var e := Walk(s, a, b, d); Walk(s, a, c, d) == if e.None? then None else Walk(s, b, c, e.value)
  {
    if b < c { WalkSplit(s, a, b, c - 1, d); }
  }

  /** The walk depends on the characters walked over alone. */
  lemma {:induction false} WalkSame(s: string, a: nat, t: string, b: nat, k: nat, d: nat)
    requires a + k <= |s| && b + k <= |t| && s[a..a + k] == t[b..b + k]
    ensures Walk(s, a, a + k, d) == Walk(t, b, b + k, d)
  {
    if k > 0 {
      assert s[a..a + k][..k - 1] == s[a..a + k - 1] && t[b..b + k][..k - 1] == t[b..b + k - 1];
      assert s[a + k - 1] == s[a..a + k][k - 1] == t[b + k - 1];
      WalkSame(s, a, t, b, k - 1, d);
    }
  }

  lemma WalkSlice(s: string, i: nat, j: nat, d: nat)
    requires i <= j <= |s|
    ensures Walk(s[i..j], 0, j - i, d) == Walk(s, i, j, d)
  {
    assert s[i..i + (j - i)] == s[i..j][0..j - i];
    WalkSame(s, i, s[i..j], 0, j - i, d);
  }

  lemma WalkConcat(a: string, b: string, d: nat)
    ensures Walk(a + b, 0, |a + b|, d) == Then(Walk(a, 0, |a|, d), b)
  {
    var s := a + b;
    WalkSplit(s, 0, |a|, |s|, d);
    assert s[0..|a|] == a[0..|a|] && s[|a|..|a| + |b|] == b[0..|b|];
    WalkSame(s, 0, a, 0, |a|, d);
    if Walk(a, 0, |a|, d).Some? { WalkSame(s, |a|, b, 0, |b|, Walk(a, 0, |a|, d).value); }
  }

  lemma {:induction false} WalkLift(s: string, lo: nat, hi: nat, d: nat, e: nat)
    requires hi <= |s| && Walk(s, lo, hi, d).Some?
    ensures Walk(s, lo, hi, d + e) == Some(Walk(s, lo, hi, d).value + e)
  {
    if lo < hi { WalkLift(s, lo, hi - 1, d, e); }
  }

  /** Balanced text leaves the depth where it was. */
  lemma BalancedIsNeutral(m: string, d: Option<nat>)
    requires Balanced(m)
    ensures Then(d, m) == d
  {
    if d.Some? { WalkLift(m, 0, |m|, 0, d.value); }
  }

  lemma {:induction false} PlainIsFlat(s: string, lo: nat, hi: nat, d: nat)
    requires hi <= |s| && forall k :: lo <= k < hi ==> s[k] != '(' && s[k] != ')'
    ensures Walk(s, lo, hi, d) == Some(d)
  {
    if lo < hi { PlainIsFlat(s, lo, hi - 1, d); }
  }

  lemma PlainIsBalanced(s: string)
    requires Plain(s)
    ensures Balanced(s)
  {
    PlainIsFlat(s, 0, |s|, 0);
  }

  lemma BalancedConcat(a: string, b: string)
    requires Balanced(a) && Balanced(b)
    ensures Balanced(a + b)
  {
    WalkConcat(a, b, 0);
  }

  /** A call: a name and a balanced argument list in parentheses. */
  function Call(name: string, args: string): string {
    name + ("(" + (args + ")"))
  }

  lemma CallIsBalanced(name: string, args: string)
    requires Plain(name) && Balanced(args)
    ensures Balanced(Call(name, args))
  {
    PlainIsBalanced(name);
    WalkConcat(name, "(" + (args + ")"), 0);
    WalkConcat("(", args + ")", 0);
    Open(0);
    WalkConcat(args, ")", 1);
    BalancedIsNeutral(args, Some(1));
    Close(1);
  }

  lemma Open(d: nat)
    ensures Walk("(", 0, 1, d) == Some(d + 1)
  {}

  lemma Close(d: nat)
    requires d > 0
    ensures Walk(")", 0, 1, d) == Some(d - 1)
  {}

  /** Replacing balanced text by balanced text, anywhere, neither mends nor breaks the balance. */
  lemma SwapKeepsBalance(a: string, m: string, n: string, b: string)
    requires Balanced(m) && Balanced(n)
    ensures Balanced(a + (m + b)) <==> Balanced(a + (n + b))
  {
    SwapWalk(a, m, b);
    SwapWalk(a, n, b);
  }

  lemma SwapWalk(a: string, m: string, b: string)
    requires Balanced(m)
    ensures Walk(a + (m + b), 0, |a + (m + b)|, 0) == Then(Walk(a, 0, |a|, 0), b)
  {
    var d := Walk(a, 0, |a|, 0);
    WalkConcat(a, m + b, 0);
    if d.Some? {
      WalkConcat(m, b, d.value);
      BalancedIsNeutral(m, d);
    }
  }

  // ---- blanks

  predicate Space(c: char) {
    c == ' ' || '\t' <= c <= '\r'
  }

  /** Where the text starts, and where it ends. */
  function TextStart(s: string, i: nat): (r: nat)
    requires i <= |s|
    ensures i <= r <= |s|
    decreases |s| - i
  {
    if i < |s| && Space(s[i]) then TextStart(s, i + 1) else i
  }

  function TextEnd(s: string, lo: nat, hi: nat): (r: nat)
    requires lo <= hi <= |s|
    ensures lo <= r <= hi
    decreases hi
  {
    if lo < hi && Space(s[hi - 1]) then TextEnd(s, lo, hi - 1) else hi
  }

  function Trim(s: string): string {
    s[TextStart(s, 0)..TextEnd(s, TextStart(s, 0), |s|)]
  }

  lemma {:induction false} StartSkips(s: string, i: nat, d: nat)
    requires i <= |s|
    ensures Walk(s, i, TextStart(s, i), d) == Some(d)
    decreases |s| - i
  {
    if i < |s| && Space(s[i]) {
      StartSkips(s, i + 1, d);
      WalkSplit(s, i, i + 1, TextStart(s, i + 1), d);
      assert Walk(s, i, i, d) == Some(d);
    }
  }

  lemma {:induction false} EndSkips(s: string, lo: nat, hi: nat, d: nat)
    requires lo <= hi <= |s|
    ensures Walk(s, TextEnd(s, lo, hi), hi, d) == Some(d)
    decreases hi
  {
    if lo < hi && Space(s[hi - 1]) { EndSkips(s, lo, hi - 1, d); }
  }

  /** Blanks around a text do not count. */
  lemma TrimKeepsWalk(s: string, d: nat)
    ensures Walk(Trim(s), 0, |Trim(s)|, d) == Walk(s, 0, |s|, d)
  {
    var i := TextStart(s, 0);
    var j := TextEnd(s, i, |s|);
    StartSkips(s, 0, d);
    WalkSplit(s, 0, i, |s|, d);
    WalkSplit(s, i, j, |s|, d);
    assert s[i..i + (j - i)] == Trim(s)[0..j - i];
    WalkSame(s, i, Trim(s), 0, j - i, d);
    var e := Walk(s, i, j, d);
    if e.Some? { EndSkips(s, i, |s|, e.value); }
  }

  // ---- matching parentheses

  /** The first place from i on where the parenthesis open closes, or -1. */
  function Closing(s: string, open: nat, i: nat): (r: int)
    requires open < i <= |s|
    ensures r == -1 || i <= r < |s|
    decreases |s| - i
  {
    if i == |s| then -1
    else if s[i] == ')' && Walk(s, open + 1, i, 0) == Some(0) then i
    else Closing(s, open, i + 1)
  }

  /** What a closing parenthesis encloses is balanced. */
  lemma {:induction false} ClosingEnclosesBalanced(s: string, open: nat, i: nat)
    requires open < i <= |s| && Closing(s, open, i) >= 0
    ensures var e := Closing(s, open, i); s[e] == ')' && Balanced(s[open + 1..e])
    decreases |s| - i
  {
    var e := Closing(s, open, i);
    if e == i {
      assert s[open + 1..open + 1 + (e - open - 1)] == s[open + 1..e][0..e - open - 1];
      WalkSame(s, open + 1, s[open + 1..e], 0, e - open - 1, 0);
    } else {
      ClosingEnclosesBalanced(s, open, i + 1);
    }
  }

  /** In a balanced text every parenthesis that opens closes. */
  lemma OpenedCloses(s: string, open: nat)
    requires Balanced(s) && open < |s| && s[open] == '('
    ensures Closing(s, open, open + 1) >= 0
  {
    WalkSplit(s, 0, open, |s|, 0);
    var d := Walk(s, 0, open, 0).value;
    WalkSplit(s, open, open + 1, |s|, d);
    assert Walk(s, open, open, d) == Some(d);
    var k := CloseSomewhere(s, open + 1, |s|, d);
    BalancedClosesBy(s, open, open + 1, k, d);
  }

  /** Going from depth d + 1 to 0 passes d. */
  lemma {:induction false} CloseSomewhere(s: string, lo: nat, hi: nat, d: nat) returns (k: nat)
    requires lo <= hi <= |s| && Walk(s, lo, hi, d + 1).Some? && Walk(s, lo, hi, d + 1).value <= d
    ensures lo <= k <= hi && Walk(s, lo, k, d + 1) == Some(d)
  {
    if Walk(s, lo, hi, d + 1) == Some(d) {
      k := hi;
    } else {
      k := CloseSomewhere(s, lo, hi - 1, d);
    }
  }

  lemma {:induction false} BalancedClosesBy(s: string, open: nat, i: nat, k: nat, d: nat)
    requires open < i <= k <= |s| && Walk(s, open + 1, i, 0).Some? && Walk(s, open + 1, k, d + 1) == Some(d)
    ensures Closing(s, open, i) >= 0
    decreases k - i
  {
    var here := Walk(s, open + 1, i, 0).value;
    if i == k {
      WalkLift(s, open + 1, i, 0, d + 1);
    } else {
      WalkSplit(s, open + 1, i + 1, k, d + 1);
      if !(s[i] == ')' && here == 0) { BalancedClosesBy(s, open, i + 1, k, d); }
    }
  }

  // ---- commas

  /** Opening minus closing parentheses before n. */
  function Depth(s: string, n: nat): int
    requires n <= |s|
  {
    if n == 0 then 0
    else Depth(s, n - 1) + if s[n - 1] == '(' then 1 else if s[n - 1] == ')' then -1 else 0
  }

  /** The last comma before n outside all parentheses, or -1. */
  function LastComma(s: string, n: nat): (r: int)
    requires n <= |s|
    ensures -1 <= r < n
    ensures r >= 0 ==> s[r] == ',' && Depth(s, r) == 0
  {
    if n == 0 then -1
    else if s[n - 1] == ',' && Depth(s, n - 1) == 0 then n - 1
    else LastComma(s, n - 1)
  }

  lemma {:induction false} WalkIsDepth(s: string, n: nat)
    requires n <= |s| && Walk(s, 0, n, 0).Some?
    ensures Walk(s, 0, n, 0).value == Depth(s, n)
  {
    if n > 0 { WalkIsDepth(s, n - 1); }
  }

  lemma {:induction false} BalancedPart(s: string, lo: nat, hi: nat)
    requires lo <= hi <= |s| && Walk(s, lo, hi, 0) == Some(0)
    ensures Balanced(s[lo..hi])
  {
    WalkSlice(s, lo, hi, 0);
  }

  /** A comma outside all parentheses splits a balanced list into two balanced halves. */
  lemma CommaSplitsBalanced(s: string, at: nat)
    requires Balanced(s) && at < |s| && s[at] == ',' && Depth(s, at) == 0
    ensures Balanced(s[0..at]) && Balanced(s[at + 1..|s|])
  {
    WalkSplit(s, 0, at, |s|, 0);
    WalkIsDepth(s, at);
    WalkSplit(s, at, at + 1, |s|, 0);
    assert Walk(s, at, at, 0) == Some(0);
    BalancedPart(s, 0, at);
    BalancedPart(s, at + 1, |s|);
  }

  /** Past the last such comma there is none. */
  lemma {:induction false} NoCommaAfterLast(s: string, n: nat, k: nat)
    requires n <= |s| && LastComma(s, n) < k < n
    ensures !(s[k] == ',' && Depth(s, k) == 0)
    decreases n
  {
    if k < n - 1 { NoCommaAfterLast(s, n - 1, k); }
  }

  // ---- finding a word

  /** A letter, a digit or an underscore, of ASCII. */
  predicate IdentByte(c: char) {
    c == '_' || 'a' <= c <= 'z' || 'A' <= c <= 'Z' || '0' <= c <= '9'
  }

  predicate At(q: string, word: string, k: nat) {
    k + |word| <= |q| && forall j :: 0 <= j < |word| ==> q[k + j] == word[j]
  }

  /** The first place from i on where the word stands, or -1. */
  function IndexOf(q: string, word: string, i: nat): (r: int)
    requires i <= |q|
    ensures r == -1 || (i <= r && At(q, word, r))
    decreases |q| - i
  {
    if At(q, word, i) then i else if i == |q| then -1 else IndexOf(q, word, i + 1)
  }

  /** The word stands nowhere before the place found, and nowhere at all when none is. */
  lemma {:induction false} IndexOfIsFirst(q: string, word: string, i: nat, k: nat)
    requires i <= k <= |q| && (IndexOf(q, word, i) == -1 || k < IndexOf(q, word, i))
    ensures !At(q, word, k)
    decreases |q| - i
  {
    if i < k { IndexOfIsFirst(q, word, i + 1, k); }
  }

  /** How often a character occurs in s[lo..hi]. */
  function CountIn(s: string, lo: nat, hi: nat, c: char): nat
    requires hi <= |s|
  {
    if hi <= lo then 0 else CountIn(s, lo, hi - 1, c) + if s[hi - 1] == c then 1 else 0
  }

  function Count(s: string, c: char): nat {
    CountIn(s, 0, |s|, c)
  }

  lemma {:induction false} CountSplit(s: string, a: nat, b: nat, d: nat, c: char)
    requires a <= b <= d <= |s|
    ensures CountIn(s, a, d, c) == CountIn(s, a, b, c) + CountIn(s, b, d, c)
  {
    if b < d { CountSplit(s, a, b, d - 1, c); }
  }

  lemma {:induction false} CountSame(s: string, a: nat, t: string, b: nat, k: nat, c: char)
    requires a + k <= |s| && b + k <= |t| && s[a..a + k] == t[b..b + k]
    ensures CountIn(s, a, a + k, c) == CountIn(t, b, b + k, c)
  {
    if k > 0 {
      assert s[a..a + k][..k - 1] == s[a..a + k - 1] && t[b..b + k][..k - 1] == t[b..b + k - 1];
      assert s[a + k - 1] == s[a..a + k][k - 1] == t[b + k - 1];
      CountSame(s, a, t, b, k - 1, c);
    }
  }

  lemma CountConcat(a: string, b: string, c: char)
    ensures Count(a + b, c) == Count(a, c) + Count(b, c)
  {
    var s := a + b;
    CountSplit(s, 0, |a|, |s|, c);
    assert s[0..|a|] == a[0..|a|] && s[|a|..|a| + |b|] == b[0..|b|];
    CountSame(s, 0, a, 0, |a|, c);
    CountSame(s, |a|, b, 0, |b|, c);
  }

  lemma CountSlice(s: string, i: nat, j: nat, c: char)
    requires i <= j <= |s|
    ensures Count(s[i..j], c) == CountIn(s, i, j, c)
  {
    assert s[i..i + (j - i)] == s[i..j][0..j - i];
    CountSame(s, i, s[i..j], 0, j - i, c);
  }

  lemma {:induction false} NoneCounted(s: string, lo: nat, hi: nat, c: char)
    requires hi <= |s| && forall k :: lo <= k < hi ==> s[k] != c
    ensures CountIn(s, lo, hi, c) == 0
  {
    if lo < hi { NoneCounted(s, lo, hi - 1, c); }
  }

  lemma CountNone(s: string, c: char)
    ensures c in s <==> Count(s, c) > 0
  {
    if c in s {
      var k :| 0 <= k < |s| && s[k] == c;
      CountSplit(s, 0, k + 1, |s|, c);
    } else {
      NoneCounted(s, 0, |s|, c);
    }
  }

  lemma {:induction false} StartIsBlank(s: string, i: nat)
    requires i <= |s|
    ensures forall k :: i <= k < TextStart(s, i) ==> Space(s[k])
    decreases |s| - i
  {
    if i < |s| && Space(s[i]) { StartIsBlank(s, i + 1); }
  }

  lemma {:induction false} EndIsBlank(s: string, lo: nat, hi: nat)
    requires lo <= hi <= |s|
    ensures forall k :: TextEnd(s, lo, hi) <= k < hi ==> Space(s[k])
    decreases hi
  {
    if lo < hi && Space(s[hi - 1]) { EndIsBlank(s, lo, hi - 1); }
  }

  /** Trimming takes no character but blanks. */
  lemma TrimKeepsCount(s: string, c: char)
    requires !Space(c)
    ensures Count(Trim(s), c) == Count(s, c)
  {
    var i := TextStart(s, 0);
    var j := TextEnd(s, i, |s|);
    StartIsBlank(s, 0);
    EndIsBlank(s, i, |s|);
    CountSplit(s, 0, i, |s|, c);
    CountSplit(s, i, j, |s|, c);
    NoneCounted(s, 0, i, c);
    NoneCounted(s, j, |s|, c);
    CountSlice(s, i, j, c);
  }
}

module SqlPasses {
  import opened Words
  import opened SqlText

  // ---- percentiles

  /** The words of a rewrite: the name looked for, and the three pieces of what takes its place. */
  datatype Idiom = Idiom(from: string, fn: string, within: string, order: string)

  const PERCENTILE := Idiom("approx_percentile_cont", "percentile_cont", " WITHIN GROUP ", "ORDER BY ")

  /** No parenthesis in the words, and an x in the name looked for alone. */
  ghost predicate Fit(w: Idiom) {
    && Plain(w.from) && Plain(w.fn) && Plain(w.within) && Plain(w.order)
    && 'x' in w.from && 'x' !in w.fn && 'x' !in w.within && 'x' !in w.order
  }

  /** The ordered-set aggregate: fraction p of expr. */
  function Aggregate(w: Idiom, p: string, expr: string): string {
    Call(w.fn, p) + Call(w.within, w.order + expr)
  }

  /** A call to rewrite: what stands before it, its arguments, what follows, and the comma before the last argument. */
  datatype Site = Site(pre: string, args: string, post: string, comma: nat)

  ghost predicate SiteOf(q: string, name: string, t: Site) {
    && q == t.pre + (Call(name, t.args) + t.post)
    && Balanced(t.args)
    && t.comma < |t.args| && LastComma(t.args, |t.args|) == t.comma
  }

  /** Where the first call of name starts and where it closes; None when there is none, or it does not close. */
  function FirstCall(q: string, name: string): (c: Option<(nat, nat)>)
    ensures c.Some? ==> c.value.0 + |name| < c.value.1 < |q|
  {
    var at := IndexOf(q, name + "(", 0);
    if at < 0 then None
    else
      var end := Closing(q, at + |name|, at + |name| + 1);
      if end < 0 then None else Some((at, end))
  }

  function SiteAt(q: string, open: nat, at: nat, end: nat): Option<Site>
    requires at <= open < end < |q|
  {
    var args := q[open + 1..end];
    var comma := LastComma(args, |args|);
    if comma < 0 then None else Some(Site(q[..at], args, q[end + 1..], comma))
  }

  /** The first call of name, unless it has no comma outside parentheses. */
  function FirstSite(q: string, name: string): (t: Option<Site>) {
    var c := FirstCall(q, name);
    if c.None? then None else SiteAt(q, c.value.0 + |name|, c.value.0, c.value.1)
  }

  /** The query with the call at t rewritten. */
  function Rewritten(w: Idiom, t: Site): string
    requires t.comma < |t.args|
  {
    t.pre + (Aggregate(w, Trim(t.args[t.comma + 1..|t.args|]), Trim(t.args[0..t.comma])) + t.post)
  }

  lemma OpensThere(q: string, name: string, at: nat)
    requires At(q, name + "(", at)
    ensures q[at + |name|] == '('
  {
    assert (name + "(")[|name|] == '(';
  }

  /** Text from at on, cut after the name and at end. */
  lemma Pieces(q: string, name: string, at: nat, end: nat)
    requires At(q, name + "(", at) && at + |name| < end < |q| && q[end] == ')'
    ensures q == q[..at] + (Call(name, q[at + |name| + 1..end]) + q[end + 1..])
  {
    var open, head := at + |name|, name + "(";
    assert q[at..open + 1] == head;
    CutInFive(q, at, open, end);
    CallText(name, q[open + 1..end]);
  }

  lemma CutInFive(q: string, at: nat, open: nat, end: nat)
    requires at <= open < end < |q| && q[end] == ')'
    ensures q == q[..at] + (q[at..open + 1] + q[open + 1..end] + ")" + q[end + 1..])
  {}

  lemma CallText(name: string, args: string)
    ensures name + "(" + args + ")" == Call(name, args)
  {}

  /** What a call found encloses. */
  lemma FirstCallCloses(q: string, name: string)
    requires FirstCall(q, name).Some?
    ensures var (at, end) := FirstCall(q, name).value;
            At(q, name + "(", at) && q[end] == ')' && Balanced(q[at + |name| + 1..end])
  {
    var (at, end) := FirstCall(q, name).value;
    ClosingEnclosesBalanced(q, at + |name|, at + |name| + 1);
  }

  lemma SiteAtIsSite(q: string, name: string, at: nat, end: nat)
    requires At(q, name + "(", at) && at + |name| < end < |q| && q[end] == ')'
    requires Balanced(q[at + |name| + 1..end]) && SiteAt(q, at + |name|, at, end).Some?
    ensures SiteOf(q, name, SiteAt(q, at + |name|, at, end).value)
  {
    Pieces(q, name, at, end);
  }

  /** The first call found is one to rewrite. */
  lemma FirstSiteIsSite(q: string, name: string)
    requires FirstSite(q, name).Some?
    ensures SiteOf(q, name, FirstSite(q, name).value)
  {
    FirstCallCloses(q, name);
    SiteAtIsSite(q, name, FirstCall(q, name).value.0, FirstCall(q, name).value.1);
  }

  lemma AggregateIsBalanced(w: Idiom, p: string, expr: string)
    requires Fit(w) && Balanced(p) && Balanced(expr)
    ensures Balanced(Aggregate(w, p, expr))
  {
    PlainIsBalanced(w.order);
    BalancedConcat(w.order, expr);
    CallIsBalanced(w.fn, p);
    CallIsBalanced(w.within, w.order + expr);
    BalancedConcat(Call(w.fn, p), Call(w.within, w.order + expr));
  }

  lemma TrimKeepsBalance(s: string)
    ensures Balanced(s) <==> Balanced(Trim(s))
  {
    TrimKeepsWalk(s, 0);
  }

  /** Around a call, an aggregate of its arguments balances like the call. */
  lemma AggregateForCall(a: string, w: Idiom, args: string, p: string, expr: string, b: string)
    requires Fit(w) && Balanced(args) && Balanced(p) && Balanced(expr)
    ensures Balanced(a + (Call(w.from, args) + b)) <==> Balanced(a + (Aggregate(w, Trim(p), Trim(expr)) + b))
  {
    TrimKeepsBalance(p);
    TrimKeepsBalance(expr);
    AggregateIsBalanced(w, Trim(p), Trim(expr));
    CallIsBalanced(w.from, args);
    SwapKeepsBalance(a, Call(w.from, args), Aggregate(w, Trim(p), Trim(expr)), b);
  }

  /** One step neither mends nor breaks the balance. */
  lemma StepKeepsBalance(q: string, w: Idiom, t: Site)
    requires SiteOf(q, w.from, t) && Fit(w)
    ensures Balanced(q) <==> Balanced(Rewritten(w, t))
  {
    CommaSplitsBalanced(t.args, t.comma);
    AggregateForCall(t.pre, w, t.args, t.args[t.comma + 1..|t.args|], t.args[0..t.comma], t.post);
  }

  lemma CountCall(name: string, args: string, c: char)
    requires c != '(' && c != ')'
    ensures Count(Call(name, args), c) == Count(name, c) + Count(args, c)
  {
    CountConcat(args, ")", c);
    CountConcat("(", args + ")", c);
    CountConcat(name, "(" + (args + ")"), c);
    CountNone("(", c);
    CountNone(")", c);
  }

  lemma CountAggregate(w: Idiom, p: string, expr: string)
    requires Fit(w)
    ensures Count(Aggregate(w, p, expr), 'x') == Count(p, 'x') + Count(expr, 'x')
  {
    CountNone(w.fn, 'x');
    CountNone(w.within, 'x');
    CountNone(w.order, 'x');
    CountCall(w.fn, p, 'x');
    CountCall(w.within, w.order + expr, 'x');
    CountConcat(w.order, expr, 'x');
    CountConcat(Call(w.fn, p), Call(w.within, w.order + expr), 'x');
  }

  lemma CountArguments(args: string, comma: nat)
    requires comma < |args| && args[comma] == ','
    ensures Count(Trim(args[comma + 1..|args|]), 'x') + Count(Trim(args[0..comma]), 'x') == Count(args, 'x')
  {
    TrimKeepsCount(args[comma + 1..|args|], 'x');
    TrimKeepsCount(args[0..comma], 'x');
    CountSlice(args, 0, comma, 'x');
    CountSlice(args, comma + 1, |args|, 'x');
    CountSplit(args, 0, comma, |args|, 'x');
    CountSplit(args, comma, comma + 1, |args|, 'x');
    assert CountIn(args, comma, comma, 'x') == 0;
  }

  lemma CountAround(a: string, m: string, b: string, c: char)
    ensures Count(a + (m + b), c) == Count(a, c) + Count(m, c) + Count(b, c)
  {
    CountConcat(m, b, c);
    CountConcat(a, m + b, c);
  }

  /** Why the pass ends although it makes the text longer: every step takes the x of the name out and puts none in. */
  lemma StepLosesX(q: string, w: Idiom, t: Site)
    requires SiteOf(q, w.from, t) && Fit(w)
    ensures Count(Rewritten(w, t), 'x') < Count(q, 'x')
  {
    var p, expr := Trim(t.args[t.comma + 1..|t.args|]), Trim(t.args[0..t.comma]);
    CountArguments(t.args, t.comma);
    CountAggregate(w, p, expr);
    CountCall(w.from, t.args, 'x');
    CountNone(w.from, 'x');
    CountAround(t.pre, Call(w.from, t.args), t.post, 'x');
    CountAround(t.pre, Aggregate(w, p, expr), t.post, 'x');
  }

  /** All the steps, from the first call on. */
  function Percentiles(q: string, w: Idiom): string
    requires Fit(w)
    decreases Count(q, 'x')
  {
    var t := FirstSite(q, w.from);
    if t.None? then q
    else
      FirstSiteIsSite(q, w.from);
      StepLosesX(q, w, t.value);
      Percentiles(Rewritten(w, t.value), w)
  }

  /** The pass neither mends nor breaks the balance of a query, and leaves no step to take. */
  lemma {:induction false} PercentilesKeepBalance(q: string, w: Idiom)
    requires Fit(w)
    ensures Balanced(q) <==> Balanced(Percentiles(q, w))
    ensures FirstSite(Percentiles(q, w), w.from).None?
    decreases Count(q, 'x')
  {
    var t := FirstSite(q, w.from);
    if t.Some? {
      FirstSiteIsSite(q, w.from);
      StepLosesX(q, w, t.value);
      StepKeepsBalance(q, w, t.value);
      PercentilesKeepBalance(Rewritten(w, t.value), w);
    }
  }

  lemma BalancedCallCloses(q: string, name: string)
    requires Balanced(q) && IndexOf(q, name + "(", 0) >= 0
    ensures FirstCall(q, name).Some?
  {
    var at := IndexOf(q, name + "(", 0);
    OpensThere(q, name, at);
    OpenedCloses(q, at + |name|);
  }

  /** A call that closes around a balanced list with no comma outside parentheses: a single argument. */
  ghost predicate SingleArgument(q: string, name: string) {
    FirstCall(q, name).Some? && var (at, end) := FirstCall(q, name).value;
                                var args := q[at + |name| + 1..end];
                                Balanced(args) && LastComma(args, |args|) < 0
  }

  /** The name does not stand open anywhere before the first call. */
  ghost predicate NoneBefore(q: string, name: string, n: nat) {
    forall k :: 0 <= k < n && k <= |q| ==> !At(q, name + "(", k)
  }

  lemma FirstCallIsFirst(q: string, name: string)
    ensures FirstCall(q, name).Some? ==> NoneBefore(q, name, FirstCall(q, name).value.0)
  {
    if FirstCall(q, name).Some? {
      forall k | 0 <= k < FirstCall(q, name).value.0 ensures !At(q, name + "(", k) {
        IndexOfIsFirst(q, name + "(", 0, k);
      }
    }
  }

  lemma NoSiteLeft(q: string, name: string, k: nat)
    requires Balanced(q) && FirstSite(q, name).None? && k <= |q| && At(q, name + "(", k)
    ensures SingleArgument(q, name)
    ensures FirstCall(q, name).value.0 <= k && NoneBefore(q, name, FirstCall(q, name).value.0)
  {
    if IndexOf(q, name + "(", 0) < 0 { IndexOfIsFirst(q, name + "(", 0, k); }
    BalancedCallCloses(q, name);
    FirstCallCloses(q, name);
    FirstCallIsFirst(q, name);
  }

  /** After the pass, if the name is called anywhere in a balanced query, the first such call has a single argument. */
  lemma PercentilesAreGone(q: string, w: Idiom, k: nat)
    requires Fit(w) && Balanced(q)
    requires k <= |Percentiles(q, w)| && At(Percentiles(q, w), w.from + "(", k)
    ensures var r := Percentiles(q, w);
            SingleArgument(r, w.from) && NoneBefore(r, w.from, FirstCall(r, w.from).value.0)
  {
    PercentilesKeepBalance(q, w);
    NoSiteLeft(Percentiles(q, w), w.from, k);
  }

  lemma NameFits()
    ensures Plain("approx_percentile_cont") && 'x' in "approx_percentile_cont"
  {}

  lemma FnFits()
    ensures Plain("percentile_cont") && 'x' !in "percentile_cont"
  {}

  lemma WithinFits()
    ensures Plain(" WITHIN GROUP ") && 'x' !in " WITHIN GROUP "
  {}

  lemma OrderFits()
    ensures Plain("ORDER BY ") && 'x' !in "ORDER BY "
  {}

  /** The words of the percentile rewrite are such words. */
  lemma PercentileFits()
    ensures Fit(PERCENTILE)
  {
    NameFits();
    FnFits();
    WithinFits();
    OrderFits();
  }

  // ---- the passes themselves

  /** The index of the parenthesis that closes the one at open. */
  method MatchParen(s: string, open: nat) returns (end: int)
    requires open < |s| && s[open] == '('
    ensures end == Closing(s, open, open + 1)
  {
    var depth, i := 1, open + 1;
    while i < |s|
      invariant open < i <= |s| && depth >= 1
      invariant Walk(s, open + 1, i, 0) == Some(depth - 1)
      invariant Closing(s, open, open + 1) == Closing(s, open, i)
    {
      if s[i] == '(' {
        depth := depth + 1;
      } else if s[i] == ')' {
        depth := depth - 1;
        if depth == 0 { return i; }
      }
      i := i + 1;
    }
    return -1;
  }

  method LastTopLevelComma(s: string) returns (at: int)
    ensures at == LastComma(s, |s|)
  {
    var depth := 0;
    at := -1;
    for i := 0 to |s|
      invariant depth == Depth(s, i) && at == LastComma(s, i)
    {
      if s[i] == '(' {
        depth := depth + 1;
      } else if s[i] == ')' {
        depth := depth - 1;
      } else if s[i] == ',' && depth == 0 {
        at := i;
      }
    }
  }

  /** The percentile pass. */
  method PgRewritePercentiles(query: string) returns (q: string)
    ensures Fit(PERCENTILE) && q == Percentiles(query, PERCENTILE)
  {
    PercentileFits();
    q := RewriteAll(query, PERCENTILE);
  }

  /** The first call to rewrite. */
  method FindSite(q: string, name: string) returns (t: Option<Site>)
    ensures t == FirstSite(q, name)
  {
    var at := IndexOf(q, name + "(", 0);
    if at < 0 { return None; }
    var open := at + |name|;
    OpensThere(q, name, at);
    var end := MatchParen(q, open);
    if end < 0 { return None; }
    t := SplitCall(q, open, at, end);
  }

  method SplitCall(q: string, open: nat, at: nat, end: nat) returns (t: Option<Site>)
    requires at <= open < end < |q|
    ensures t == SiteAt(q, open, at, end)
  {
    var args := q[open + 1..end];
    var comma := LastTopLevelComma(args);
    if comma < 0 { return None; }
    return Some(Site(q[..at], args, q[end + 1..], comma));
  }

  method RewriteAll(query: string, w: Idiom) returns (q: string)
    requires Fit(w)
    ensures q == Percentiles(query, w)
  {
    q := query;
    while true
      invariant Percentiles(q, w) == Percentiles(query, w)
      decreases Count(q, 'x')
    {
      var t := FindSite(q, w.from);
      if t.None? { return; }
      FirstSiteIsSite(q, w.from);
      StepLosesX(q, w, t.value);
      q := Rewritten(w, t.value);
    }
  }
}

/**
 What the percentile rewrite writes, and where (internal/dashboards/postgres.go):
 the text of the query before and after a step, written out.
*/
module SqlWritten {
  import opened Words
  import opened SqlPasses
  import opened SqlText

  // ---- blanks

  ghost predicate Blank(s: string) {
    forall k :: 0 <= k < |s| ==> Space(s[k])
  }

  /** t is s without the blanks around it. */
  ghost predicate Trims(s: string, t: string) {
    && (t != "" ==> !Space(t[0]) && !Space(t[|t| - 1]))
    && exists l, r :: Blank(l) && Blank(r) && s == l + t + r
  }

  lemma {:induction false} StartIs(s: string, i: nat, n: nat)
    requires i <= n <= |s| && (forall k :: i <= k < n ==> Space(s[k])) && (n < |s| ==> !Space(s[n]))
    ensures TextStart(s, i) == n
    decreases n - i
  {
    if i < n { StartIs(s, i + 1, n); }
  }

  lemma {:induction false} EndIs(s: string, lo: nat, n: nat, hi: nat)
    requires lo <= n <= hi <= |s| && (forall k :: n <= k < hi ==> Space(s[k])) && (lo < n ==> !Space(s[n - 1]))
    ensures TextEnd(s, lo, hi) == n
    decreases hi
  {
    if n < hi { EndIs(s, lo, n, hi - 1); }
  }

  lemma {:induction false} StartsWithText(s: string, i: nat)
    requires i <= |s|
    ensures TextStart(s, i) < |s| ==> !Space(s[TextStart(s, i)])
    decreases |s| - i
  {
    if i < |s| && Space(s[i]) { StartsWithText(s, i + 1); }
  }

  lemma {:induction false} EndsWithText(s: string, lo: nat, hi: nat)
    requires lo <= hi <= |s|
    ensures lo < TextEnd(s, lo, hi) ==> !Space(s[TextEnd(s, lo, hi) - 1])
    decreases hi
  {
    if lo < hi && Space(s[hi - 1]) { EndsWithText(s, lo, hi - 1); }
  }

  lemma InThree(s: string, i: nat, j: nat)
    requires i <= j <= |s|
    ensures s == s[..i] + s[i..j] + s[j..]
  {}

  lemma TrimIsPart(s: string)
    ensures exists l, r :: Blank(l) && Blank(r) && s == l + Trim(s) + r
  {
    var i := TextStart(s, 0);
    var j := TextEnd(s, i, |s|);
    StartIsBlank(s, 0);
    EndIsBlank(s, i, |s|);
    InThree(s, i, j);
    var l, r := s[..i], s[j..];
    assert Blank(l) && Blank(r);
  }

  lemma TrimTrims(s: string)
    ensures Trims(s, Trim(s))
  {
    var i := TextStart(s, 0);
    StartsWithText(s, 0);
    EndsWithText(s, i, |s|);
    TrimIsPart(s);
  }

  lemma TrimsIsTrim(l: string, t: string, r: string)
    requires Blank(l) && Blank(r) && (t != "" ==> !Space(t[0]) && !Space(t[|t| - 1]))
    ensures Trim(l + t + r) == t
  {
    var s := l + t + r;
    if t == "" {
      StartIs(s, 0, |s|);
    } else {
      assert s[|l|] == t[0] && s[|l| + |t| - 1] == t[|t| - 1];
      StartIs(s, 0, |l|);
      EndIs(s, |l|, |l| + |t|, |s|);
      assert s[|l|..|l| + |t|] == t;
    }
  }

  /** Trimming takes all the blanks around a text, and nothing else. */
  lemma TrimIff(s: string, t: string)
    ensures t == Trim(s) <==> Trims(s, t)
  {
    TrimTrims(s);
    if Trims(s, t) {
      var l, r :| Blank(l) && Blank(r) && s == l + t + r;
      TrimsIsTrim(l, t, r);
    }
  }

  // ---- the call that is found

  lemma {:induction false} IndexIs(q: string, word: string, i: nat, n: nat)
    requires i <= n <= |q| && At(q, word, n) && forall k :: i <= k < n ==> !At(q, word, k)
    ensures IndexOf(q, word, i) == n
    decreases n - i
  {
    if i < n { IndexIs(q, word, i + 1, n); }
  }

  /** Nothing closes the parenthesis within balanced text. */
  lemma NotYetClosed(s: string, open: nat, k: nat, end: nat)
    requires open < k < end <= |s| && Walk(s, open + 1, end, 0) == Some(0)
    ensures !(s[k] == ')' && Walk(s, open + 1, k, 0) == Some(0))
  {
    WalkSplit(s, open + 1, k + 1, end, 0);
  }

  lemma {:induction false} ClosesAt(s: string, open: nat, i: nat, end: nat)
    requires open < i <= end < |s| && s[end] == ')' && Walk(s, open + 1, end, 0) == Some(0)
    ensures Closing(s, open, i) == end
    decreases end - i
  {
    if i < end {
      NotYetClosed(s, open, i, end);
      ClosesAt(s, open, i + 1, end);
    }
  }

  lemma CallCloses(q: string, open: nat, args: string)
    requires open + 1 + |args| < |q| && q[open + 1..open + 1 + |args|] == args && q[open + 1 + |args|] == ')'
    requires Balanced(args)
    ensures Closing(q, open, open + 1) == open + 1 + |args|
  {
    WalkSlice(q, open + 1, open + 1 + |args|, 0);
    ClosesAt(q, open, open + 1, open + 1 + |args|);
  }

  /** What stands where around a call. */
  lemma CallStands(pre: string, head: string, args: string, post: string)
    ensures var q, at := pre + head + args + ")" + post, |pre| + |head|;
            && At(q, head, |pre|)
            && at + |args| < |q| && q[at + |args|] == ')'
            && q[..|pre|] == pre
            && q[at..at + |args|] == args
            && q[at + |args| + 1..] == post
  {
    var q := pre + head + args + ")" + post;
    forall j | 0 <= j < |head| ensures q[|pre| + j] == head[j] {}
  }

  // ---- percentiles

  lemma {:induction false} DepthOfBegin(s: string, t: string, n: nat)
    requires n <= |s| && n <= |t| && s[..n] == t[..n]
    ensures Depth(s, n) == Depth(t, n)
  {
    if n > 0 {
      assert s[n - 1] == s[..n][n - 1] == t[n - 1];
      assert s[..n - 1] == s[..n][..n - 1] == t[..n - 1];
      DepthOfBegin(s, t, n - 1);
    }
  }

  lemma {:induction false} DepthGoesOn(s: string, b: string, n: nat, k: nat)
    requires n + k <= |s| && k <= |b| && s[n..n + k] == b[..k]
    ensures Depth(s, n + k) == Depth(s, n) + Depth(b, k)
  {
    if k > 0 {
      assert s[n + k - 1] == s[n..n + k][k - 1] == b[k - 1];
      assert s[n..n + k - 1] == s[n..n + k][..k - 1] == b[..k - 1];
      DepthGoesOn(s, b, n, k - 1);
    }
  }

  lemma {:induction false} CommaIs(s: string, at: nat, n: nat)
    requires at < n <= |s| && s[at] == ',' && Depth(s, at) == 0
    requires forall k :: at < k < n ==> !(s[k] == ',' && Depth(s, k) == 0)
    ensures LastComma(s, n) == at
  {
    if at < n - 1 { CommaIs(s, at, n - 1); }
  }

  /** No comma outside all parentheses. */
  ghost predicate Single(b: string) {
    forall k :: 0 <= k < |b| && b[k] == ',' ==> Depth(b, k) != 0
  }

  lemma LastCommaBetween(a: string, b: string)
    requires Balanced(a) && Single(b)
    ensures var s := a + "," + b; LastComma(s, |s|) == |a|
  {
    var s, n := a + "," + b, |a| + 1;
    WalkIsDepth(a, |a|);
    assert s[..|a|] == a[..|a|];
    DepthOfBegin(s, a, |a|);
    assert s[|a|] == ',';
    assert Depth(s, n) == 0;
    forall k | |a| < k < |s| ensures !(s[k] == ',' && Depth(s, k) == 0) {
      assert s[k] == b[k - n];
      assert s[n..n + (k - n)] == b[..k - n];
      DepthGoesOn(s, b, n, k - n);
    }
    CommaIs(s, |a|, |s|);
  }

  lemma ArgumentsBalanced(a: string, b: string)
    requires Balanced(a) && Balanced(b)
    ensures Balanced(a + "," + b)
  {
    PlainIsBalanced(",");
    BalancedConcat(a, ",");
    BalancedConcat(a + ",", b);
  }

  lemma CallIsFound(q: string, name: string, at: nat, args: string)
    requires At(q, name + "(", at) && NoneBefore(q, name, at) && Balanced(args)
    requires var open := at + |name|;
             open + 1 + |args| < |q| && q[open + 1..open + 1 + |args|] == args && q[open + 1 + |args|] == ')'
    ensures FirstCall(q, name) == Some((at, at + |name| + 1 + |args|))
  {
    IndexIs(q, name + "(", 0, at);
    CallCloses(q, at + |name|, args);
  }

  lemma FirstCallIs(pre: string, name: string, args: string, post: string)
    requires Balanced(args) && NoneBefore(pre + (name + "(") + args + ")" + post, name, |pre|)
    ensures FirstCall(pre + (name + "(") + args + ")" + post, name) == Some((|pre|, |pre| + |name| + 1 + |args|))
  {
    CallStands(pre, name + "(", args, post);
    CallIsFound(pre + (name + "(") + args + ")" + post, name, |pre|, args);
  }

  lemma SiteFound(q: string, open: nat, at: nat, end: nat, args: string, comma: nat)
    requires at <= open < end < |q| && q[open + 1..end] == args && LastComma(args, |args|) == comma
    ensures SiteAt(q, open, at, end) == Some(Site(q[..at], args, q[end + 1..], comma))
  {}

  lemma FirstSiteFrom(q: string, name: string, at: nat, end: nat, t: Option<Site>)
    requires FirstCall(q, name) == Some((at, end)) && SiteAt(q, at + |name|, at, end) == t
    ensures FirstSite(q, name) == t
  {}

  lemma SiteFrom(q: string, name: string, at: nat, end: nat, args: string, comma: nat)
    requires at + |name| < end < |q| && q[at + |name| + 1..end] == args
    requires FirstCall(q, name) == Some((at, end)) && LastComma(args, |args|) == comma
    ensures FirstSite(q, name) == Some(Site(q[..at], args, q[end + 1..], comma))
  {
    var t := Some(Site(q[..at], args, q[end + 1..], comma));
    SiteFound(q, at + |name|, at, end, args, comma);
    FirstSiteFrom(q, name, at, end, t);
  }

  lemma SiteIs(pre: string, name: string, a: string, b: string, post: string)
    requires Balanced(a) && Balanced(b) && Single(b)
    requires NoneBefore(pre + (name + "(") + (a + "," + b) + ")" + post, name, |pre|)
    ensures FirstSite(pre + (name + "(") + (a + "," + b) + ")" + post, name)
         == Some(Site(pre, a + "," + b, post, |a|))
  {
    var args := a + "," + b;
    ArgumentsBalanced(a, b);
    LastCommaBetween(a, b);
    FirstCallIs(pre, name, args, post);
    CallStands(pre, name + "(", args, post);
    var end := |pre| + |name| + 1 + |args|;
    SiteFrom(pre + (name + "(") + args + ")" + post, name, |pre|, end, args, |a|);
  }

  lemma Halves(a: string, b: string)
    ensures var s := a + "," + b; s[0..|a|] == a && s[|a| + 1..|s|] == b
  {}

  lemma StepIs(pre: string, w: Idiom, a: string, b: string, post: string)
    requires Fit(w) && Balanced(a) && Balanced(b) && Single(b)
    requires NoneBefore(pre + (w.from + "(") + (a + "," + b) + ")" + post, w.from, |pre|)
    ensures Percentiles(pre + (w.from + "(") + (a + "," + b) + ")" + post, w)
         == Percentiles(pre + (Aggregate(w, Trim(b), Trim(a)) + post), w)
  {
    SiteIs(pre, w.from, a, b, post);
    Halves(a, b);
  }

  lemma Written(fn: string, within: string, order: string, p: string, expr: string)
    ensures Call(fn, p) + Call(within, order + expr) == (fn + "(") + p + (")" + (within + ("(" + order))) + expr + ")"
  {}

  lemma PercentileWords()
    ensures "approx_percentile_cont" + "(" == "approx_percentile_cont("
    ensures "percentile_cont" + "(" == "percentile_cont("
    ensures ")" + (" WITHIN GROUP " + ("(" + "ORDER BY ")) == ") WITHIN GROUP (ORDER BY "
  {}

  lemma CallRegroups(pre: string, head: string, a: string, b: string, post: string)
    ensures pre + head + (a + "," + b) + ")" + post == pre + head + a + "," + b + ")" + post
  {}

  lemma FormRegroups(pre: string, fn: string, p: string, within: string, expr: string, post: string)
    ensures pre + ((fn + p + within + expr + ")") + post) == pre + fn + p + within + expr + ")" + post
  {}

  /**
   One step of the percentile pass: the fraction, which is the last argument, goes
   into the call, and the expression before it behind ORDER BY. The pass goes on
   with the text so written.
  */
  lemma PercentileIsWritten(pre: string, a: string, b: string, post: string)
    requires Balanced(a) && Balanced(b) && Single(b)
    requires NoneBefore(pre + "approx_percentile_cont(" + a + "," + b + ")" + post, "approx_percentile_cont", |pre|)
    ensures Fit(PERCENTILE)
    ensures Percentiles(pre + "approx_percentile_cont(" + a + "," + b + ")" + post, PERCENTILE)
         == Percentiles(
              pre + "percentile_cont(" + Trim(b) + ") WITHIN GROUP (ORDER BY " + Trim(a) + ")" + post, PERCENTILE)
  {
    PercentileFits();
    PercentileWords();
    CallRegroups(pre, "approx_percentile_cont(", a, b, post);
    StepIs(pre, PERCENTILE, a, b, post);
    Written("percentile_cont", " WITHIN GROUP ", "ORDER BY ", Trim(b), Trim(a));
    FormRegroups(pre, "percentile_cont(", Trim(b), ") WITHIN GROUP (ORDER BY ", Trim(a), post);
  }

  lemma NoSiteFound(pre: string, name: string, args: string, post: string)
    requires Balanced(args) && Single(args) && NoneBefore(pre + (name + "(") + args + ")" + post, name, |pre|)
    ensures FirstSite(pre + (name + "(") + args + ")" + post, name).None?
  {
    var open := |pre| + |name|;
    FirstCallIs(pre, name, args, post);
    CallStands(pre, name + "(", args, post);
    assert LastComma(args, |args|) < 0;
    FirstSiteFrom(pre + (name + "(") + args + ")" + post, name, |pre|, open + 1 + |args|, None);
  }

  /** The pass ends at a first call that has a single argument, with the text as it then is. */
  lemma SingleIsLeft(pre: string, a: string, post: string)
    requires Balanced(a) && Single(a)
    requires NoneBefore(pre + "approx_percentile_cont(" + a + ")" + post, "approx_percentile_cont", |pre|)
    ensures Fit(PERCENTILE)
    ensures var q := pre + "approx_percentile_cont(" + a + ")" + post; Percentiles(q, PERCENTILE) == q
  {
    PercentileFits();
    PercentileWords();
    NoSiteFound(pre, "approx_percentile_cont", a, post);
  }

  /** So it does where the name is called nowhere, or the first call of it never closes. */
  lemma NoCallIsLeft(q: string)
    requires forall k :: 0 <= k <= |q| ==> !At(q, "approx_percentile_cont(", k)
    ensures Fit(PERCENTILE) && Percentiles(q, PERCENTILE) == q
  {
    PercentileFits();
    PercentileWords();
    NotFound(q, "approx_percentile_cont");
  }

  lemma NotFound(q: string, name: string)
    requires forall k :: 0 <= k <= |q| ==> !At(q, name + "(", k)
    ensures FirstSite(q, name).None?
  {}

  lemma OpenCallIsLeft(pre: string, rest: string)
    requires NoneBefore(pre + "approx_percentile_cont(" + rest, "approx_percentile_cont", |pre|)
    requires forall e :: 0 <= e < |rest| && rest[e] == ')' ==> !Balanced(rest[..e])
    ensures Fit(PERCENTILE)
    ensures var q := pre + "approx_percentile_cont(" + rest; Percentiles(q, PERCENTILE) == q
  {
    PercentileFits();
    PercentileWords();
    NeverCloses(pre, "approx_percentile_cont", rest);
  }

  lemma NothingCloses(q: string, open: nat, rest: string)
    requires open < |q| && q[open + 1..] == rest
    requires forall e :: 0 <= e < |rest| && rest[e] == ')' ==> !Balanced(rest[..e])
    ensures Closing(q, open, open + 1) < 0
  {
    var end := Closing(q, open, open + 1);
    if end >= 0 {
      ClosingEnclosesBalanced(q, open, open + 1);
      Within(q, open + 1, end, rest);
    }
  }

  lemma Within(q: string, i: nat, j: nat, rest: string)
    requires i <= j < |q| && q[i..] == rest
    ensures q[j] == rest[j - i] && q[i..j] == rest[..j - i]
  {}

  lemma Opens(pre: string, head: string, rest: string)
    ensures var q := pre + head + rest; At(q, head, |pre|) && q[|pre| + |head|..] == rest
  {
    var q := pre + head + rest;
    forall j | 0 <= j < |head| ensures q[|pre| + j] == head[j] {}
  }

  lemma NeverClosesAt(q: string, name: string, at: nat, rest: string)
    requires At(q, name + "(", at) && NoneBefore(q, name, at) && q[at + |name| + 1..] == rest
    requires forall e :: 0 <= e < |rest| && rest[e] == ')' ==> !Balanced(rest[..e])
    ensures FirstCall(q, name).None?
  {
    IndexIs(q, name + "(", 0, at);
    NothingCloses(q, at + |name|, rest);
    NoFirst(q, name, at);
  }

  lemma NeverCloses(pre: string, name: string, rest: string)
    requires NoneBefore(pre + (name + "(") + rest, name, |pre|)
    requires forall e :: 0 <= e < |rest| && rest[e] == ')' ==> !Balanced(rest[..e])
    ensures FirstCall(pre + (name + "(") + rest, name).None?
  {
    Opens(pre, name + "(", rest);
    NeverClosesAt(pre + (name + "(") + rest, name, |pre|, rest);
  }

  lemma NoFirst(q: string, name: string, at: nat)
    requires IndexOf(q, name + "(", 0) == at && Closing(q, at + |name|, at + |name| + 1) < 0
    ensures FirstCall(q, name).None?
  {}
}

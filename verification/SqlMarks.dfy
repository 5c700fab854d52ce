/**
 What casting writes, and where (pgCastTags and castIdentifiers in
 internal/dashboards/postgres.go): which references to a tag are given the
 suffix, and which calls of a query are looked into.
*/
module SqlMarks {
  import opened SqlText
  import opened SqlLiterals
  import opened SqlTags

  /** The text from i on, with the suffix behind each of the places in marks. */
  function Marked(s: string, marks: set<nat>, i: nat): string
    requires i <= |s|
    decreases |s| - i
  {
    if i == |s| then "" else [s[i]] + ((if i + 1 in marks then "::text" else "") + Marked(s, marks, i + 1))
  }

  /** The tag stands at k as a word of its own. */
  ghost predicate Stands(s: string, tag: string, k: nat) {
    && At(s, tag, k)
    && (k > 0 ==> !IdentByte(s[k - 1]))
    && (k + |tag| < |s| ==> !IdentByte(s[k + |tag|]))
  }

  /** Where suffixes are put in from i on. */
  function Marks(s: string, tag: string, i: nat): set<nat>
    requires i <= |s| && tag != ""
    decreases |s| - i
  {
    if i == |s| then {}
    else (if Bare(s, tag, i) then {StepEnd(s, tag, i)} else {}) + Marks(s, tag, StepEnd(s, tag, i))
  }

  lemma {:induction false} MarksAhead(s: string, tag: string, i: nat)
    requires i <= |s| && tag != ""
    ensures forall e :: e in Marks(s, tag, i) ==> i < e <= |s|
    decreases |s| - i
  {
    if i < |s| { MarksAhead(s, tag, StepEnd(s, tag, i)); }
  }

  ghost predicate AgreePast(m: set<nat>, n: set<nat>, i: nat) {
    forall e :: i < e ==> (e in m <==> e in n)
  }

  lemma {:induction false} SameMarks(s: string, m: set<nat>, n: set<nat>, i: nat)
    requires i <= |s| && AgreePast(m, n, i)
    ensures Marked(s, m, i) == Marked(s, n, i)
    decreases |s| - i
  {
    if i < |s| { SameMarks(s, m, n, i + 1); }
  }

  lemma {:induction false} MarkedCopies(s: string, marks: set<nat>, i: nat, j: nat)
    requires i < j <= |s| && forall e :: i < e < j ==> e !in marks
    ensures Marked(s, marks, i) == s[i..j] + ((if j in marks then "::text" else "") + Marked(s, marks, j))
    decreases j - i
  {
    var rest := (if j in marks then "::text" else "") + Marked(s, marks, j);
    if i + 1 < j {
      MarkedCopies(s, marks, i + 1, j);
      Prepend(s, i, j, rest);
    } else {
      assert s[i..j] == [s[i]];
    }
  }

  lemma Prepend(s: string, i: nat, j: nat, rest: string)
    requires i + 1 < j <= |s|
    ensures [s[i]] + ("" + (s[i + 1..j] + rest)) == s[i..j] + rest
  {}

  lemma {:induction false} CastIsMarked(s: string, tag: string, i: nat)
    requires i <= |s| && tag != ""
    ensures CastTag(s, tag, i) == Marked(s, Marks(s, tag, i), i)
    decreases |s| - i
  {
    if i < |s| {
      var j := StepEnd(s, tag, i);
      CastIsMarked(s, tag, j);
      MarksAhead(s, tag, j);
      MarkedCopies(s, Marks(s, tag, i), i, j);
      SameMarks(s, Marks(s, tag, i), Marks(s, tag, j), j);
    }
  }

  /** Every suffix stands behind a word that is the tag and has none yet. */
  lemma {:induction false} MarksAreReferences(s: string, tag: string, i: nat)
    requires i <= |s| && tag != ""
    ensures forall e :: e in Marks(s, tag, i) ==> |tag| <= e && Stands(s, tag, e - |tag|) && !At(s, "::text", e)
    decreases |s| - i
  {
    if i < |s| { MarksAreReferences(s, tag, StepEnd(s, tag, i)); }
  }

  lemma {:induction false} RunIsIdent(s: string, i: nat, k: nat)
    requires i <= k <= |s| && k < RunEnd(s, i)
    ensures IdentByte(s[k])
    decreases |s| - i
  {
    if i < k { RunIsIdent(s, i + 1, k); }
  }

  /** The tag is the alias of itself: a dot and the tag follow it. */
  ghost predicate AliasOfItself(s: string, tag: string, k: nat) {
    At(s, ".", k + |tag|) && Stands(s, tag, k + |tag| + 1)
  }

  /** Within an alias the tag stands only when it is all of it. */
  lemma StandsInAlias(s: string, tag: string, i: nat, k: nat)
    requires i < |s| && Word(tag) && AliasEnd(s, i) > i && BareEnd(s, AliasEnd(s, i), tag) >= 0
    requires i <= k < AliasEnd(s, i) && Stands(s, tag, k)
    ensures AliasOfItself(s, tag, k)
  {
    var r := RunEnd(s, i);
    assert s[k] == tag[0];
    if k < r {
      if i < k { RunIsIdent(s, i, k - 1); }
      assert k == i;
      if r < k + |tag| {
        InsideTag(s, k, tag, r);
      } else if k + |tag| < r {
        RunIsIdent(s, i, k + |tag|);
      }
      assert k + |tag| == r;
    }
  }

  /** Within a word the tag stands only at its start. */
  lemma StandsInTag(s: string, tag: string, a: nat, k: nat)
    requires Word(tag) && At(s, tag, a) && a <= k < a + |tag| && Stands(s, tag, k)
    ensures k == a
  {
    if a < k { InsideTag(s, a, tag, k - 1); }
  }

  lemma InsideSuffix(s: string, e: nat, p: nat)
    requires At(s, TEXT, e) && e + 2 <= p < e + 6
    ensures IdentByte(s[p])
  {
    assert s[e + (p - e)] == TEXT[p - e];
  }

  /** Within a suffix it stands not at all, unless it starts like it. */
  lemma StandsInSuffix(s: string, tag: string, e: nat, k: nat)
    requires Word(tag) && !At(tag, "text", 0) && At(s, TEXT, e) && e <= k < e + 6
    ensures !Stands(s, tag, k)
  {
    if Stands(s, tag, k) {
      assert s[k] == tag[0] && s[k] == TEXT[k - e];
      if k == e + 2 {
        SuffixLetters(s, tag, e);
      } else if k > e + 2 {
        InsideSuffix(s, e, k - 1);
      }
    }
  }

  lemma SuffixLetters(s: string, tag: string, e: nat)
    requires Word(tag) && At(s, TEXT, e) && Stands(s, tag, e + 2)
    ensures At(tag, "text", 0)
  {
    if |tag| < 4 {
      InsideSuffix(s, e, e + 2 + |tag|);
    } else {
      forall j | 0 <= j < 4 ensures tag[0 + j] == "text"[j] {
        assert s[e + 2 + j] == tag[j] && s[e + (2 + j)] == TEXT[2 + j];
      }
    }
  }

  /** A word that is the tag, has no suffix and is not its own alias ends where a suffix is put in. */
  ghost predicate Wants(s: string, tag: string, k: nat) {
    Stands(s, tag, k) && !At(s, "::text", k + |tag|) && !AliasOfItself(s, tag, k)
  }

  lemma StepMarks(s: string, tag: string, i: nat, k: nat)
    requires i < |s| && Word(tag) && !At(tag, "text", 0) && Wants(s, tag, k) && i <= k < StepEnd(s, tag, i)
    ensures Bare(s, tag, i) && StepEnd(s, tag, i) == k + |tag|
  {
    var e := RefEnd(s, i, tag);
    if e >= 0 {
      var a := e - |tag|;
      if k < a {
        StandsInAlias(s, tag, i, k);
      } else if k < e {
        StandsInTag(s, tag, a, k);
      } else {
        StandsInSuffix(s, tag, e, k);
      }
    }
  }

  lemma {:induction false} EveryReferenceIsMarked(s: string, tag: string, i: nat, k: nat)
    requires i <= k <= |s| && Word(tag) && !At(tag, "text", 0) && Wants(s, tag, k)
    ensures k + |tag| in Marks(s, tag, i)
    decreases |s| - i
  {
    assert s[k] == tag[0];
    if StepEnd(s, tag, i) <= k {
      EveryReferenceIsMarked(s, tag, StepEnd(s, tag, i), k);
    } else {
      StepMarks(s, tag, i, k);
    }
  }

  /** The first of a dotted pair of the tag: with no dot before it, it is the alias of the second. */
  ghost predicate Leads(s: string, tag: string, k: nat) {
    Stands(s, tag, k) && AliasOfItself(s, tag, k) && (k > 0 ==> s[k - 1] != '.')
  }

  lemma {:induction false} RunReaches(s: string, i: nat, r: nat)
    requires i <= r <= |s| && (forall p :: i <= p < r ==> IdentByte(s[p])) && (r < |s| ==> !IdentByte(s[r]))
    ensures RunEnd(s, i) == r
    decreases r - i
  {
    if i < r { RunReaches(s, i + 1, r); }
  }

  /** The reference that starts at it ends with the second. */
  lemma LeadsToSecond(s: string, tag: string, k: nat)
    requires Word(tag) && IdentStart(tag[0]) && Leads(s, tag, k)
    ensures k < |s| && RefEnd(s, k, tag) == k + |tag| + 1 + |tag|
  {
    var r := k + |tag|;
    assert s[r + 0] == "."[0];
    assert s[k + 0] == tag[0];
    forall p | k <= p < r ensures IdentByte(s[p]) { InsideTag(s, k, tag, p); }
    RunReaches(s, k, r);
    assert AliasEnd(s, k) == r + 1;
  }

  lemma StepMeetsLead(s: string, tag: string, i: nat, k: nat)
    requires i < |s| && Word(tag) && !At(tag, "text", 0) && Leads(s, tag, k) && i <= k < StepEnd(s, tag, i)
    ensures i == k
  {
    var e := RefEnd(s, i, tag);
    if e >= 0 {
      var a := e - |tag|;
      if k < a {
        AliasStart(s, tag, i, k);
      } else if k < e {
        StandsInTag(s, tag, a, k);
        if i < a { DotBefore(s, i); }
      } else {
        StandsInSuffix(s, tag, e, k);
      }
    }
  }

  lemma DotBefore(s: string, i: nat)
    requires i < |s| && AliasEnd(s, i) > i
    ensures s[AliasEnd(s, i) - 1] == '.'
  {}

  lemma AliasStart(s: string, tag: string, i: nat, k: nat)
    requires i < |s| && Word(tag) && AliasEnd(s, i) > i && i <= k < AliasEnd(s, i) && Stands(s, tag, k)
    ensures k == i
  {
    assert s[k + 0] == tag[0];
    if i < k { RunIsIdent(s, i, k - 1); }
  }

  lemma {:induction false} LeadIsUnmarked(s: string, tag: string, i: nat, k: nat)
    requires i <= k && Word(tag) && IdentStart(tag[0]) && !At(tag, "text", 0) && Leads(s, tag, k)
    ensures i <= |s| && k + |tag| !in Marks(s, tag, i)
    decreases |s| - i
  {
    LeadsToSecond(s, tag, k);
    var j := StepEnd(s, tag, i);
    if j <= k {
      LeadIsUnmarked(s, tag, j, k);
    } else {
      StepMeetsLead(s, tag, i, k);
      MarksAhead(s, tag, j);
    }
  }

  /**
   Casting a tag puts suffixes into the text and does nothing else. Each stands behind a word that is the tag and has
   no suffix yet. Of a tag that does not start like the suffix every such word gets one, but for those that are an
   alias of the tag itself; and of a dotted pair of such a tag, with no dot before it, the first gets none.
  */
  lemma CastMarks(s: string, tag: string) returns (marks: set<nat>)
    requires Word(tag)
    ensures CastTag(s, tag, 0) == Marked(s, marks, 0)
    ensures forall e :: e in marks ==> |tag| <= e && Stands(s, tag, e - |tag|) && !At(s, "::text", e)
    ensures !At(tag, "text", 0) ==> forall k: nat :: Wants(s, tag, k) ==> k + |tag| in marks
    ensures !At(tag, "text", 0) && IdentStart(tag[0]) ==> forall k: nat :: Leads(s, tag, k) ==> k + |tag| !in marks
  {
    marks := Marks(s, tag, 0);
    CastIsMarked(s, tag, 0);
    MarksAreReferences(s, tag, 0);
    if !At(tag, "text", 0) {
      forall k: nat | Wants(s, tag, k) ensures k + |tag| in marks {
        EveryReferenceIsMarked(s, tag, 0, k);
      }
      if IdentStart(tag[0]) {
        forall k: nat | Leads(s, tag, k) ensures k + |tag| !in marks {
          LeadIsUnmarked(s, tag, 0, k);
        }
      }
    }
  }
}

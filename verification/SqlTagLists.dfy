/**
 Several tags cast one after another (castIdentifiers in
 internal/dashboards/postgres.go): when what one tag's cast puts in makes no
 other's find something new, so that a list, and the whole pass, is cast once.
*/
module SqlTagLists {
  import opened SqlPasses
  import opened SqlText
  import opened SqlLiterals
  import opened SqlCasts
  import opened SqlTags
  import opened SqlReach
  import opened SqlOnce

  /** Nothing but digits from i on. */
  ghost predicate Digits(tag: string, i: nat) {
    forall k :: i <= k < |tag| ==> !IdentStart(tag[k])
  }

  /**
   A name of digits alone, or of the letters text and digits: an alias starts with a
   letter or an underscore, and the letters text may have been read as a suffix.
  */
  ghost predicate Digital(tag: string) {
    Digits(tag, 0) || (|tag| >= 4 && tag[..4] == "text" && Digits(tag, 4))
  }

  /** The tag b may be cast once a has been: no suffix of b's makes a find something new. */
  ghost predicate Safe(a: string, b: string) {
    a != "text" && (a != "" && IdentStart(a[0]) ==> !Digital(b))
  }

  // ---- text cast already

  ghost predicate Settled(s: string, tag: string, i: nat)
    requires tag != ""
  {
    i <= |s| && CastTag(s, tag, i) == s[i..]
  }

  lemma SettledForth(s: string, tag: string, i: nat)
    requires tag != "" && i < |s| && Settled(s, tag, i)
    ensures !Bare(s, tag, i) && Settled(s, tag, StepEnd(s, tag, i))
  {
    var j := StepEnd(s, tag, i);
    CastTagGrows(s, tag, j);
    StepForth(s, i, j, if Bare(s, tag, i) then TEXT else "", CastTag(s, tag, j));
  }

  lemma StepForth(s: string, i: nat, j: nat, suffix: string, rest: string)
    requires i <= j <= |s| && s[i..j] + (suffix + rest) == s[i..] && |rest| >= |s| - j
    ensures suffix == "" && rest == s[j..]
  {
    var all := s[i..j] + (suffix + rest);
    assert |all| == j - i + |suffix| + |rest|;
    assert suffix == "" && "" + rest == rest;
    assert rest == all[j - i..] == s[i..][j - i..] == s[j..];
  }

  lemma SettledBack(s: string, tag: string, i: nat, k: nat)
    requires tag != "" && i < |s| && !Bare(s, tag, i) && k == StepEnd(s, tag, i) && Settled(s, tag, k)
    ensures Settled(s, tag, i)
  {
    CopyOnly(s, tag, i, k);
  }

  lemma SettledOver(s: string, tag: string, i: nat, k: nat)
    requires tag != "" && i <= k && Settled(s, tag, k) && forall j :: i <= j < k ==> RefEnd(s, j, tag) < 0
    ensures Settled(s, tag, i)
  {
    CopiedUpTo(s, tag, i, k);
    Spliced(s, i, k, s[i..k], s[k..]);
  }

  /** Where nothing refers to the tag, settled text stays so with more in front. */
  ghost predicate OverLaw(s: string, tag: string, done: nat -> bool, i: nat, k: nat)
    requires tag != ""
  {
    i <= k <= |s| && done(k) && (forall j :: i <= j < k ==> RefEnd(s, j, tag) < 0) ==> done(i)
  }

  /** So it does with a reference in front that carries its suffix. */
  ghost predicate RefLaw(s: string, tag: string, done: nat -> bool, i: nat, r: nat)
    requires tag != ""
  {
    i < |s| && RefEnd(s, i, tag) == r && At(s, TEXT, r) && done(r + 6) ==> done(i)
  }

  /** All that is used of being settled from a place on. */
  ghost predicate DoneLaws(s: string, tag: string, done: nat -> bool)
    requires tag != ""
  {
    && done(|s|)
    && (forall i: nat, k: nat :: OverLaw(s, tag, done, i, k))
    && (forall i: nat, r: nat :: RefLaw(s, tag, done, i, r))
  }

  ghost function Done(s: string, tag: string): nat -> bool
    requires tag != ""
  {
    (i: nat) => Settled(s, tag, i)
  }

  lemma DoneHolds(s: string, tag: string)
    requires tag != ""
    ensures DoneLaws(s, tag, Done(s, tag))
  {
    assert CastTag(s, tag, |s|) == "" == s[|s|..];
    forall i: nat, k: nat ensures OverLaw(s, tag, Done(s, tag), i, k) {
      OverHolds(s, tag, i, k);
    }
    forall i: nat, r: nat ensures RefLaw(s, tag, Done(s, tag), i, r) {
      RefHolds(s, tag, i, r);
    }
  }

  lemma OverHolds(s: string, tag: string, i: nat, k: nat)
    requires tag != ""
    ensures OverLaw(s, tag, Done(s, tag), i, k)
  {
    if i <= k <= |s| && Settled(s, tag, k) && (forall j :: i <= j < k ==> RefEnd(s, j, tag) < 0) {
      SettledOver(s, tag, i, k);
    }
  }

  lemma RefHolds(s: string, tag: string, i: nat, r: nat)
    requires tag != ""
    ensures RefLaw(s, tag, Done(s, tag), i, r)
  {
    if i < |s| && RefEnd(s, i, tag) == r && At(s, TEXT, r) && Settled(s, tag, r + 6) { RefBack(s, tag, i, r); }
  }

  lemma RefBack(s: string, tag: string, i: nat, r: nat)
    requires tag != "" && i < |s| && RefEnd(s, i, tag) == r && At(s, TEXT, r) && Settled(s, tag, r + 6)
    ensures Settled(s, tag, i)
  {
    SettledBack(s, tag, i, r + 6);
  }

  // ---- text with suffixes put in

  /** The text from i on, with a suffix put in wherever a mark stands behind i. */
  function Put(t: string, mark: nat -> bool, i: nat): string
    requires i <= |t|
    decreases |t| - i
  {
    if i == |t| then "" else t[i..i + 1] + ((if mark(i + 1) then TEXT else "") + Put(t, mark, i + 1))
  }

  /** The first mark behind i, or the end. */
  function NextMark(t: string, mark: nat -> bool, i: nat): (k: nat)
    requires i <= |t|
    ensures i <= k <= |t| && (i < |t| ==> i < k)
    decreases |t| - i
  {
    if i == |t| then i else if mark(i + 1) then i + 1 else NextMark(t, mark, i + 1)
  }

  lemma {:induction false} NoMarkBefore(t: string, mark: nat -> bool, i: nat, k: nat)
    requires i <= |t| && i < k < NextMark(t, mark, i)
    ensures !mark(k)
    decreases |t| - i
  {
    if i + 1 < k { NoMarkBefore(t, mark, i + 1, k); }
  }

  /** Up to there the text is copied. */
  lemma {:induction false} PutCopies(t: string, mark: nat -> bool, i: nat, e: nat)
    requires i <= e <= |t| && forall k :: i < k <= e ==> !mark(k)
    ensures Put(t, mark, i) == t[i..e] + Put(t, mark, e)
    decreases e - i
  {
    if i < e {
      PutCopies(t, mark, i + 1, e);
      Pasted(t, i, i + 1, e, Put(t, mark, e));
    } else {
      assert t[i..e] == "";
    }
  }

  lemma PutMark(t: string, mark: nat -> bool, i: nat, e: nat)
    requires i < e <= |t| && mark(e) && forall k :: i < k < e ==> !mark(k)
    ensures Put(t, mark, i) == t[i..e] + (TEXT + Put(t, mark, e))
  {
    PutCopies(t, mark, i, e - 1);
    Pasted(t, i, e - 1, e, TEXT + Put(t, mark, e));
  }

  /** Where marks stand: behind the tag as a word of its own, without a suffix. */
  ghost predicate MarkAt(t: string, tag: string, k: nat) {
    |tag| <= k <= |t| && BareEnd(t, k - |tag|, tag) == k && !At(t, TEXT, k)
  }

  ghost predicate Marks(t: string, mark: nat -> bool, tag: string) {
    forall k {:trigger mark(k)} :: mark(k) ==> MarkAt(t, tag, k)
  }

  /** Behind a mark the word has ended, before it the word has not. */
  lemma MarkStops(t: string, tag: string, k: nat)
    requires Word(tag) && MarkAt(t, tag, k)
    ensures 0 < k && Stops(t, k) && IdentByte(t[k - 1]) && t[k - 1] == tag[|tag| - 1]
  {
    InsideTag(t, k - |tag|, tag, k - 1);
    assert t[k - |tag| + (|tag| - 1)] == tag[|tag| - 1];
  }

  lemma PutStart(t: string, mark: nat -> bool, out: string, i: nat, j: nat, n: nat)
    requires i <= |t| && j <= |out| && out[j..] == Put(t, mark, i) && i + n == NextMark(t, mark, i)
    ensures j + n <= |out| && SameFor(t, i, out, j, n)
    ensures if n > 0 && mark(i + n) then j + n < |out| && out[j + n] == ':' else i + n == |t| && j + n == |out|
  {
    var e := i + n;
    forall k | i < k < e ensures !mark(k) { NoMarkBefore(t, mark, i, k); }
    if n > 0 && mark(e) {
      PutMark(t, mark, i, e);
      StartsSame(t, i, e, out, j, TEXT + Put(t, mark, e));
      assert (TEXT + Put(t, mark, e))[0] == ':';
    } else if n > 0 {
      LastUnmarked(t, mark, i);
      PutCopies(t, mark, i, e);
      StartsSame(t, i, e, out, j, "");
    }
  }

  lemma {:induction false} LastUnmarked(t: string, mark: nat -> bool, i: nat)
    requires i < |t| && !mark(NextMark(t, mark, i))
    ensures NextMark(t, mark, i) == |t|
    decreases |t| - i
  {
    if i + 1 < |t| && !mark(i + 1) { LastUnmarked(t, mark, i + 1); }
  }

  lemma StartsSame(t: string, i: nat, e: nat, out: string, j: nat, rest: string)
    requires i <= e <= |t| && j <= |out| && out[j..] == t[i..e] + rest
    ensures j + (e - i) <= |out| && SameFor(t, i, out, j, e - i)
    ensures out[j + (e - i)..] == rest && (rest != "" ==> out[j + (e - i)] == rest[0])
  {
    CutAt(out, j, t[i..e], rest);
    forall p | i <= p < i + (e - i) ensures t[p] == out[j + (p - i)] {
      assert out[j..j + |t[i..e]|][p - i] == t[i..e][p - i];
    }
  }

  // ---- reading on in both

  /** out from j on is t from i on with the suffixes put in, and a word may start there in both or in neither. */
  ghost predicate Carried(t: string, mark: nat -> bool, out: string, i: nat, j: nat) {
    i <= |t| && j <= |out| && out[j..] == Put(t, mark, i) && Edge(t, i) == Edge(out, j)
  }

  lemma CarriedAligned(t: string, mark: nat -> bool, tag: string, out: string, i: nat, j: nat, n: nat)
    requires Carried(t, mark, out, i, j) && Word(tag) && Marks(t, mark, tag) && i + n == NextMark(t, mark, i)
    ensures Aligned(t, i, out, j, n)
  {
    PutStart(t, mark, out, i, j, n);
    if n > 0 && mark(i + n) { MarkStops(t, tag, i + n); }
  }

  lemma CarriedOn(t: string, mark: nat -> bool, out: string, i: nat, j: nat, e: nat)
    requires Carried(t, mark, out, i, j) && i < e <= |t| && forall k :: i < k <= e ==> !mark(k)
    ensures Carried(t, mark, out, e, j + (e - i)) && SameFor(t, i, out, j, e - i)
  {
    PutCopies(t, mark, i, e);
    StartsSame(t, i, e, out, j, Put(t, mark, e));
    assert t[e - 1] == out[j + (e - 1 - i)];
  }

  /** Over a mark: the suffix stands there. */
  lemma CarriedOver(t: string, mark: nat -> bool, tag: string, out: string, i: nat, j: nat, e: nat, g: nat)
    requires Carried(t, mark, out, i, j) && Word(tag) && Marks(t, mark, tag)
    requires i < e <= |t| && mark(e) && (forall k :: i < k < e ==> !mark(k)) && g == j + (e - i) + |TEXT|
    ensures Carried(t, mark, out, e, g) && SameFor(t, i, out, j, e - i) && out[g - |TEXT|..g] == TEXT
  {
    PutMark(t, mark, i, e);
    StartsSame(t, i, e, out, j, TEXT + Put(t, mark, e));
    CutAt(out, g - |TEXT|, TEXT, Put(t, mark, e));
    MarkStops(t, tag, e);
    assert out[g - 1] == out[g - |TEXT|..g][5];
  }

  /** The text from i on stands there, with a suffix before it if a mark stands at i. */
  ghost predicate Held(t: string, mark: nat -> bool, out: string, i: nat, h: nat) {
    if mark(i) then h + 6 <= |out| && out[h..h + 6] == TEXT && Carried(t, mark, out, i, h + 6)
    else Carried(t, mark, out, i, h)
  }

  lemma CarriedTo(t: string, mark: nat -> bool, tag: string, out: string, i: nat, j: nat, e: nat)
    requires Carried(t, mark, out, i, j) && Word(tag) && Marks(t, mark, tag)
    requires i < e <= |t| && forall k :: i < k < e ==> !mark(k)
    ensures Held(t, mark, out, e, j + (e - i)) && SameFor(t, i, out, j, e - i)
  {
    if mark(e) {
      CarriedOver(t, mark, tag, out, i, j, e, j + (e - i) + 6);
    } else {
      CarriedOn(t, mark, out, i, j, e);
    }
  }

  /** Nothing refers to a tag where the suffix was put in, unless the tag follows behind a dot. */
  lemma NoRefInText(out: string, tag: string, r: nat)
    requires r + |TEXT| <= |out| && out[r..r + |TEXT|] == TEXT && Stops(out, r + |TEXT|) && Word(tag) && tag != "text"
    requires !(r + 6 < |out| && out[r + 6] == '.' && BareEnd(out, r + 7, tag) >= 0)
    ensures forall k :: r <= k < r + 6 ==> RefEnd(out, k, tag) < 0
  {
    TextChars(out, r);
    forall k | r <= k < r + 6 ensures RefEnd(out, k, tag) < 0 {
      if k < r + 2 {
        NotAt(out, tag, k);
      } else {
        TextRun(out, r, k);
        NotInText(out, tag, r, k);
      }
    }
  }

  lemma TextChars(out: string, r: nat)
    requires r + 6 <= |out| && out[r..r + 6] == TEXT
    ensures out[r] == ':' && out[r + 1] == ':' && out[r + 2..r + 6] == "text"
    ensures out[r + 2] == 't' && out[r + 3] == 'e' && out[r + 4] == 'x' && out[r + 5] == 't'
  {
    var w := out[r..r + 6];
    assert w[0] == out[r] && w[1] == out[r + 1] && w[2] == out[r + 2];
    assert w[3] == out[r + 3] && w[4] == out[r + 4] && w[5] == out[r + 5];
  }

  lemma TextRun(out: string, r: nat, k: nat)
    requires r + 6 <= |out| && r + 2 <= k < r + 6 && Stops(out, r + 6)
    requires out[r + 2] == 't' && out[r + 3] == 'e' && out[r + 4] == 'x' && out[r + 5] == 't'
    ensures RunEnd(out, k) == r + 6
  {
    assert RunEnd(out, r + 6) == r + 6;
    assert RunEnd(out, r + 5) == r + 6;
    assert RunEnd(out, r + 4) == r + 6;
    assert RunEnd(out, r + 3) == r + 6;
    assert RunEnd(out, r + 2) == r + 6;
  }

  /** A word of its own that starts there is the word text. */
  lemma NotInText(out: string, tag: string, r: nat, k: nat)
    requires r + 6 <= |out| && r + 2 <= k < r + 6 && Stops(out, r + 6) && Word(tag) && tag != "text"
    requires out[r + 1] == ':' && out[r + 2..r + 6] == "text"
    requires out[r + 2] == 't' && out[r + 3] == 'e' && out[r + 4] == 'x' && out[r + 5] == 't'
    ensures BareEnd(out, k, tag) < 0
  {
    if k == r + 2 && At(out, tag, k) {
      if |tag| > 4 {
        InWord(out, tag, k, r + 6);
      } else if |tag| == 4 {
        WordThere(out, tag, k);
      }
    }
  }

  lemma WordThere(s: string, word: string, k: nat)
    requires At(s, word, k)
    ensures s[k..k + |word|] == word
  {}

  // ---- where no reference starts

  /** Where none starts in the text, none starts with the suffixes put in. */
  lemma NoneThere(t: string, mark: nat -> bool, tag: string, out: string, i: nat, j: nat, a: string)
    requires Carried(t, mark, out, i, j) && Word(tag) && Marks(t, mark, tag) && Word(a) && RefEnd(t, i, a) < 0
    ensures RefEnd(out, j, a) < 0
  {
    var n := NextMark(t, mark, i) - i;
    CarriedAligned(t, mark, tag, out, i, j, n);
    RefSame(t, i, out, j, n, a);
  }

  /** The first character that follows is the text's own. */
  lemma FirstCarried(t: string, mark: nat -> bool, out: string, i: nat, j: nat)
    requires Carried(t, mark, out, i, j)
    ensures i < |t| <==> j < |out|
    ensures i < |t| ==> out[j] == t[i]
  {
    if i < |t| {
      var rest := (if mark(i + 1) then TEXT else "") + Put(t, mark, i + 1);
      assert out[j..] == t[i..i + 1] + rest;
      assert out[j..][0] == t[i];
    }
  }

  /** A tag that stands alone with the suffixes put in stood alone before. */
  lemma BareThere(t: string, mark: nat -> bool, tag: string, out: string, i: nat, j: nat, a: string)
    requires Carried(t, mark, out, i, j) && Word(tag) && Marks(t, mark, tag) && Word(a) && BareEnd(out, j, a) >= 0
    ensures BareEnd(t, i, a) >= 0
  {
    var n := NextMark(t, mark, i) - i;
    CarriedAligned(t, mark, tag, out, i, j, n);
    BareBack(t, i, out, j, n, 0, a);
  }

  lemma DotCarried(t: string, mark: nat -> bool, tag: string, out: string, i: nat, j: nat)
    requires Carried(t, mark, out, i, j) && Word(tag) && Marks(t, mark, tag) && j < |out| && out[j] == '.'
    ensures i < |t| && t[i] == '.' && Carried(t, mark, out, i + 1, j + 1)
  {
    FirstCarried(t, mark, out, i, j);
    if mark(i + 1) { MarkStops(t, tag, i + 1); }
    CarriedOn(t, mark, out, i, j, i + 1);
  }

  lemma DoneOver(s: string, tag: string, done: nat -> bool, i: nat, k: nat)
    requires tag != "" && DoneLaws(s, tag, done) && i <= k <= |s| && forall j :: i <= j < k ==> RefEnd(s, j, tag) < 0
    ensures done(k) ==> done(i)
  {
    assert OverLaw(s, tag, done, i, k);
  }

  lemma DoneRef(s: string, tag: string, done: nat -> bool, i: nat, r: nat)
    requires tag != "" && DoneLaws(s, tag, done) && i < |s| && RefEnd(s, i, tag) == r && At(s, TEXT, r)
    ensures done(r + 6) ==> done(i)
  {
    assert RefLaw(s, tag, done, i, r);
  }

  lemma SuffixEnds(t: string, mark: nat -> bool, tag: string, out: string, i: nat, j: nat)
    requires Word(tag) && Marks(t, mark, tag) && mark(i) && Carried(t, mark, out, i, j)
    ensures Stops(out, j)
  {
    MarkStops(t, tag, i);
    FirstCarried(t, mark, out, i, j);
  }

  // ---- where a reference starts

  /** A reference with its suffix: a is where the tag starts in it, behind an alias or at once. */
  ghost predicate Suffixed(t: string, i: nat, tag: string, a: nat) {
    && i <= a && a + |tag| + |TEXT| <= |t|
    && RefEnd(t, i, tag) == a + |tag| && BareEnd(t, a, tag) == a + |tag| && At(t, TEXT, a + |tag|)
    && (a == i || a == AliasEnd(t, i))
  }

  lemma SettledRef(t: string, i: nat, tag: string)
    requires tag != "" && i < |t| && Settled(t, tag, i) && RefEnd(t, i, tag) >= 0
    ensures Suffixed(t, i, tag, RefEnd(t, i, tag) - |tag|) && Settled(t, tag, RefEnd(t, i, tag) + |TEXT|)
  {
    SettledForth(t, tag, i);
    RefEndsTag(t, i, tag);
  }

  lemma {:induction false} RunIsIdent(s: string, i: nat, k: nat)
    requires i <= k && i <= |s| && k < RunEnd(s, i)
    ensures IdentByte(s[k])
    decreases k - i
  {
    if i < k { RunIsIdent(s, i + 1, k); }
  }

  lemma SuffixStands(t: string, r: nat)
    requires At(t, TEXT, r)
    ensures t[r] == ':' && t[r + 1] == ':' && t[r + 2] == 't' && t[r + 3] == 'e' && t[r + 4] == 'x' && t[r + 5] == 't'
    ensures t[r..r + 6] == TEXT && t[r + 2..r + 6] == "text"
  {
    forall k | 0 <= k < 6 ensures t[r + k] == TEXT[k] {}
    assert t[r..r + 6] == TEXT;
    assert t[r + 2..r + 6] == TEXT[2..];
    assert TEXT[2..] == "text" && TEXT[0] == ':' && TEXT[1] == ':';
    assert TEXT[2] == 't' && TEXT[3] == 'e' && TEXT[4] == 'x' && TEXT[5] == 't';
  }

  /** No mark stands within the suffix. */
  lemma NoMarkInSuffix(t: string, tag: string, r: nat, k: nat)
    requires Word(tag) && At(t, TEXT, r) && r <= k < r + 6
    ensures !MarkAt(t, tag, k)
  {
    SuffixStands(t, r);
    if r < k { NoMarkWhere(t, tag, k); }
  }

  /** Nor within a word, nor behind a character that is in none. */
  lemma NoMarkWhere(t: string, tag: string, k: nat)
    requires Word(tag) && 0 < k <= |t| && (!IdentByte(t[k - 1]) || (k < |t| && IdentByte(t[k])))
    ensures !MarkAt(t, tag, k)
  {
    if MarkAt(t, tag, k) { MarkStops(t, tag, k); }
  }

  /** Two words of their own that end at one place are one. */
  lemma SameWord(t: string, a: string, b: string, k: nat)
    requires Word(a) && Word(b) && |a| <= k <= |t| && |b| <= k && BareEnd(t, k - |a|, a) == k
    requires BareEnd(t, k - |b|, b) == k
    ensures a == b
  {
    if |a| < |b| {
      InsideTag(t, k - |b|, b, k - |a| - 1);
    } else if |b| < |a| {
      InsideTag(t, k - |a|, a, k - |b| - 1);
    } else {
      WordThere(t, a, k - |a|);
      WordThere(t, b, k - |b|);
    }
  }

  /** In a reference with its suffix a mark can stand behind the alias alone, and at the end. */
  lemma NoMarkInRef(t: string, tag: string, i: nat, a: string, p: nat, k: nat)
    requires Word(tag) && Word(a) && Suffixed(t, i, a, p) && i < k < p + |a| + 6 && !(p > i && k == p - 1)
    ensures !MarkAt(t, tag, k)
  {
    if p + |a| <= k {
      NoMarkInSuffix(t, tag, p + |a|, k);
    } else if p < k {
      InsideTag(t, p, a, k);
      NoMarkWhere(t, tag, k);
    } else {
      if k < p { RunIsIdent(t, i, k); }
      NoMarkWhere(t, tag, k);
    }
  }

  lemma NoOtherMark(t: string, mark: nat -> bool, tag: string, i: nat, a: string, p: nat)
    requires Word(tag) && Marks(t, mark, tag) && Word(a) && Suffixed(t, i, a, p)
    ensures forall k :: i < k < p + |a| + 6 && !(p > i && k == p - 1) ==> !mark(k)
  {
    forall k | i < k < p + |a| + 6 && !(p > i && k == p - 1) ensures !mark(k) {
      NoMarkInRef(t, tag, i, a, p, k);
    }
  }

  /** With a mark behind the alias, at d: the suffix stands there, and the rest follows at g. */
  lemma MarkedCarried(t: string, mark: nat -> bool, tag: string, out: string, i: nat, j: nat, a: string, p: nat, e: nat,
                      d: nat, g: nat)
    requires Word(tag) && Marks(t, mark, tag) && Word(a) && Suffixed(t, i, a, p) && Carried(t, mark, out, i, j)
    requires e == p + |a| + 6 && d + 1 == p && i < p && mark(d) && g == j + (d - i) + 6
    ensures i < d && Carried(t, mark, out, d, g) && out[g - 6..g] == TEXT && Held(t, mark, out, e, g + (e - d))
    ensures SameFor(t, i, out, j, d - i)
  {
    NoOtherMark(t, mark, tag, i, a, p);
    AliasMarked(t, i, p, a);
    CarriedOver(t, mark, tag, out, i, j, d, g);
    CarriedTo(t, mark, tag, out, d, g, e);
  }

  /** An alias has a letter or an underscore at its start, and its dot before the tag. */
  lemma AliasMarked(t: string, i: nat, p: nat, a: string)
    requires i < p && a != "" && Suffixed(t, i, a, p)
    ensures i + 1 < p && RunEnd(t, i) == p - 1 && t[p - 1] == '.' && IdentStart(t[i])
  {
    assert RunEnd(t, i) > i;
  }

  /** Without a mark in it, the reference stands there as it was. */
  lemma PlainRefStays(t: string, mark: nat -> bool, tag: string, out: string, i: nat, j: nat, a: string, p: nat,
                      e: nat, g: nat)
    requires Word(tag) && Marks(t, mark, tag) && Word(a) && Suffixed(t, i, a, p) && Carried(t, mark, out, i, j)
    requires e == p + |a| + 6 && g == j + (e - i) && !(i < p && mark(p - 1))
    ensures i < e && Held(t, mark, out, e, g) && RefEnd(out, j, a) == g - 6 && At(out, TEXT, g - 6)
  {
    NoOtherMark(t, mark, tag, i, a, p);
    CarriedTo(t, mark, tag, out, i, j, e);
    FarMark(t, mark, i, e);
    PlainRef(t, mark, tag, out, i, j, a, p, NextMark(t, mark, i) - i);
  }

  lemma PlainRef(t: string, mark: nat -> bool, tag: string, out: string, i: nat, j: nat, a: string, p: nat, n: nat)
    requires Word(tag) && Marks(t, mark, tag) && Word(a) && Suffixed(t, i, a, p) && Carried(t, mark, out, i, j)
    requires i + n == NextMark(t, mark, i) && p + |a| + 6 <= i + n
    ensures j < |out| && RefEnd(out, j, a) == j + (p + |a| - i) && At(out, TEXT, j + (p + |a| - i))
  {
    CarriedAligned(t, mark, tag, out, i, j, n);
    RefSame(t, i, out, j, n, a);
    SameSuffix(t, i, out, j, n, p + |a|);
  }

  lemma {:induction false} FarMark(t: string, mark: nat -> bool, i: nat, e: nat)
    requires i <= e <= |t| && forall k :: i < k < e ==> !mark(k)
    ensures e <= NextMark(t, mark, i)
    decreases e - i
  {
    if i + 1 < e { FarMark(t, mark, i + 1, e); }
  }

  lemma SameSuffix(t: string, i: nat, out: string, j: nat, n: nat, r: nat)
    requires i + n <= |t| && j + n <= |out| && SameFor(t, i, out, j, n) && i <= r && r + 6 <= i + n && At(t, TEXT, r)
    ensures At(out, TEXT, j + (r - i))
  {
    forall m | 0 <= m < |TEXT| ensures out[j + (r - i) + m] == TEXT[m] {
      assert t[r + m] == out[j + (r + m - i)];
    }
  }

  // ---- a mark behind the alias

  /** The alias with a suffix behind it is one no more, and no reference starts in it. */
  lemma NoneInAlias(t: string, tag: string, out: string, i: nat, j: nat, d: nat, a: string, k: nat, q: nat)
    requires Word(tag) && Word(a) && a != tag && MarkAt(t, tag, d) && i <= k < d && RunEnd(t, i) == d
    requires q == j + (k - i)
    requires j + (d - i) < |out| && SameFor(t, i, out, j, d - i) && out[j + (d - i)] == ':'
    requires Edge(t, i) == Edge(out, j)
    ensures RefEnd(out, q, a) < 0
  {
    MarkStops(t, tag, d);
    AliasAligned(t, i, out, j, d, k, q);
    AliasSame(t, k, out, q, d - k);
    RunTail(t, i, k);
    if BareEnd(out, q, a) >= 0 {
      BareBack(t, k, out, q, d - k, 0, a);
      NoneEndsThere(t, tag, d, a, k);
    }
  }

  lemma NoneEndsThere(t: string, tag: string, d: nat, a: string, k: nat)
    requires Word(tag) && Word(a) && a != tag && MarkAt(t, tag, d) && k < d && RunEnd(t, k) == d
    ensures BareEnd(t, k, a) < 0
  {
    if BareEnd(t, k, a) >= 0 {
      EndsRun(t, k, a, d);
      SameWord(t, a, tag, d);
    }
  }

  lemma {:induction false} RunTail(s: string, i: nat, k: nat)
    requires i <= k <= |s| && k <= RunEnd(s, i)
    ensures RunEnd(s, k) == RunEnd(s, i)
    decreases k - i
  {
    if i < k { RunTail(s, i + 1, k); }
  }

  lemma AliasAligned(t: string, i: nat, out: string, j: nat, d: nat, k: nat, q: nat)
    requires i <= k < d <= |t| && RunEnd(t, i) == d && Stops(t, d) && q == j + (k - i)
    requires j + (d - i) < |out| && SameFor(t, i, out, j, d - i) && out[j + (d - i)] == ':'
    requires Edge(t, i) == Edge(out, j)
    ensures Aligned(t, k, out, q, d - k) && Edge(t, k) == Edge(out, q)
  {
    forall m | k <= m < d ensures t[m] == out[q + (m - k)] {
      assert t[m] == out[j + (m - i)];
    }
    if i < k { assert t[k - 1] == out[j + (k - 1 - i)]; }
  }

  /** A word of its own ends where the run does. */
  lemma EndsRun(t: string, k: nat, a: string, d: nat)
    requires Word(a) && k < d <= |t| && RunEnd(t, k) == d && BareEnd(t, k, a) >= 0
    ensures k + |a| == d
  {
    if k + |a| < d {
      RunIsIdent(t, k, k + |a|);
    } else if d < k + |a| {
      InsideTag(t, k, a, d);
      RunStops(t, k);
    }
  }

  lemma {:induction false} RunStops(s: string, i: nat)
    requires i <= |s|
    ensures Stops(s, RunEnd(s, i))
    decreases |s| - i
  {
    if i < |s| && IdentByte(s[i]) { RunStops(s, i + 1); }
  }

  /** The suffix, with a dot and the tag behind it, is an alias for the tag. */
  lemma TextIsAlias(out: string, g: nat, a: string)
    requires 6 <= g < |out| && out[g - 6..g] == TEXT && out[g] == '.' && BareEnd(out, g + 1, a) >= 0
    ensures RefEnd(out, g - 4, a) == g + 1 + |a|
  {
    TextChars(out, g - 6);
    TextRun(out, g - 6, g - 4);
  }

  /** The tag at p with its suffix, behind a dot at p - 1: both stand there too. */
  lemma TagBehind(t: string, mark: nat -> bool, tag: string, out: string, a: string, p: nat, d: nat, g: nat)
    requires Word(tag) && Marks(t, mark, tag) && Word(a) && Carried(t, mark, out, d, g) && d + 1 == p
    requires p + |a| + 6 <= |t| && BareEnd(t, p, a) == p + |a| && At(t, TEXT, p + |a|)
    requires t[d] == '.' && forall k :: d < k < p + |a| + 6 ==> !mark(k)
    ensures g < |out| && out[g] == '.' && BareEnd(out, g + 1, a) >= 0 && At(out, TEXT, g + 1 + |a|)
  {
    var n := NextMark(t, mark, d) - d;
    FarMark(t, mark, d, p + |a| + 6);
    CarriedAligned(t, mark, tag, out, d, g, n);
    assert t[d] == out[g + (d - d)];
    BareForth(t, d, out, g, n, 1, a);
    SameSuffix(t, d, out, g, n, p + |a|);
  }

  /** With a mark behind the alias, the suffix put in there is the alias now. */
  lemma MarkedRefStays(t: string, mark: nat -> bool, tag: string, out: string, i: nat, j: nat, a: string, p: nat,
                       e: nat, d: nat, g: nat)
    requires Word(tag) && Marks(t, mark, tag) && Word(a) && a != tag && Suffixed(t, i, a, p)
    requires Carried(t, mark, out, i, j)
    requires e == p + |a| + 6 && i < p && d + 1 == p && mark(d) && g == j + (d - i) + 6
    ensures Held(t, mark, out, e, g + (e - d)) && j <= g - 4 && forall q :: j <= q < g - 4 ==> RefEnd(out, q, a) < 0
    ensures RefEnd(out, g - 4, a) == g + 1 + |a| && At(out, TEXT, g + 1 + |a|)
  {
    MarkedCarried(t, mark, tag, out, i, j, a, p, e, d, g);
    TextAliasStands(t, mark, tag, out, i, a, p, d, g);
    AliasMarked(t, i, p, a);
    NoneUpToText(t, tag, out, i, j, d, a, g);
  }

  lemma TextAliasStands(t: string, mark: nat -> bool, tag: string, out: string, i: nat, a: string, p: nat, d: nat,
                        g: nat)
    requires Word(tag) && Marks(t, mark, tag) && Word(a) && Suffixed(t, i, a, p) && Carried(t, mark, out, d, g)
    requires i < p && d + 1 == p && 6 <= g && out[g - 6..g] == TEXT
    ensures g < |out| && RefEnd(out, g - 4, a) == g + 1 + |a| && At(out, TEXT, g + 1 + |a|)
    ensures out[g - 6] == ':' && out[g - 5] == ':'
  {
    AliasMarked(t, i, p, a);
    NoOtherMark(t, mark, tag, i, a, p);
    TagBehind(t, mark, tag, out, a, p, d, g);
    TextIsAlias(out, g, a);
    TextChars(out, g - 6);
  }

  lemma NoneUpToText(t: string, tag: string, out: string, i: nat, j: nat, d: nat, a: string, g: nat)
    requires Word(tag) && Word(a) && a != tag && MarkAt(t, tag, d) && i < d && RunEnd(t, i) == d
    requires g == j + (d - i) + 6 <= |out|
    requires SameFor(t, i, out, j, d - i) && out[g - 6] == ':' && out[g - 5] == ':' && Edge(t, i) == Edge(out, j)
    ensures forall q :: j <= q < g - 4 ==> RefEnd(out, q, a) < 0
  {
    forall q | j <= q < g - 4 ensures RefEnd(out, q, a) < 0 {
      if q < g - 6 { NoneInAlias(t, tag, out, i, j, d, a, i + (q - j), q); } else { NotAt(out, a, q); }
    }
  }

  /** What being settled means for the next step. */
  ghost predicate SureAt(t: string, a: string, sure: nat -> bool, i: nat)
    requires a != ""
  {
    i < |t| && sure(i) ==>
      if RefEnd(t, i, a) < 0 then sure(i + 1)
      else RefEnd(t, i, a) >= |a| && Suffixed(t, i, a, RefEnd(t, i, a) - |a|) && sure(RefEnd(t, i, a) + 6)
  }

  ghost predicate Sure(t: string, a: string, sure: nat -> bool)
    requires a != ""
  {
    forall i: nat :: SureAt(t, a, sure, i)
  }

  lemma DoneIsSure(t: string, a: string)
    requires a != ""
    ensures Sure(t, a, Done(t, a))
  {
    forall i: nat ensures SureAt(t, a, Done(t, a), i) {
      if i < |t| && Settled(t, a, i) {
        SettledForth(t, a, i);
        if RefEnd(t, i, a) >= 0 { SettledRef(t, i, a); }
      }
    }
  }

  // ---- behind a suffix put in

  /** Where a reading starts: at a word's start, or within one behind the suffix of a reference. */
  ghost predicate EntryAt(t: string, e: nat) {
    e <= |t| && (Edge(t, e) || (4 <= e && Edge(t, e - 4) && t[e - 4..e] == "text"))
  }

  /** From there on no reference started. */
  ghost predicate Entered(t: string, a: string, e: nat, i: nat) {
    e <= i <= |t| && EntryAt(t, e) && forall p :: e <= p < i ==> RefEnd(t, p, a) < 0
  }

  /** A word of its own was read from its start, or from behind the letters text. */
  lemma EntryInWord(t: string, tag: string, k: nat, e: nat)
    requires Word(tag) && MarkAt(t, tag, k) && EntryAt(t, e) && e <= k
    ensures e <= k - |tag| || (e == k - |tag| + 4 && |tag| >= 4 && tag[..4] == "text")
  {
    var b := k - |tag|;
    if b < e {
      InsideTag(t, b, tag, e - 1);
      TextIdent(t, e);
      if b < e - 4 { InsideTag(t, b, tag, e - 5); }
      WordThere(t, tag, b);
      assert tag[..4] == t[b..k][..4] == t[b..b + 4];
    }
  }

  lemma TextIdent(t: string, e: nat)
    requires 4 <= e <= |t| && t[e - 4..e] == "text"
    ensures forall k :: e - 4 <= k < e ==> IdentByte(t[k])
  {
    var w := t[e - 4..e];
    assert w[0] == t[e - 4] && w[1] == t[e - 3] && w[2] == t[e - 2] && w[3] == t[e - 1];
  }

  /** So a name that is not digital was read as an alias, and the tag behind it was found. */
  lemma NoTagBehindDot(t: string, tag: string, a: string, k: nat, e: nat)
    requires Word(tag) && !Digital(tag) && Word(a) && MarkAt(t, tag, k) && Entered(t, a, e, k) && k < |t| && t[k] == '.'
    ensures BareEnd(t, k + 1, a) < 0
  {
    EntryInWord(t, tag, k, e);
    var b := k - |tag|;
    var from := if e <= b then 0 else 4;
    assert !Digits(tag, from);
    var q :| from <= q < |tag| && IdentStart(tag[q]);
    assert t[b + q] == tag[q];
    RunTo(t, tag, b, k, b + q);
    assert RefEnd(t, b + q, a) < 0;
  }

  lemma {:induction false} RunTo(t: string, tag: string, b: nat, k: nat, i: nat)
    requires Word(tag) && At(t, tag, b) && k == b + |tag| < |t| && b <= i <= k && !IdentByte(t[k])
    ensures RunEnd(t, i) == k
    decreases k - i
  {
    if i < k {
      InsideTag(t, b, tag, i);
      RunTo(t, tag, b, k, i + 1);
    }
  }

  /** Whether the tag follows behind a dot. */
  predicate TagFollows(out: string, g: nat, a: string) {
    g < |out| && out[g] == '.' && BareEnd(out, g + 1, a) >= 0
  }

  /** Then it starts with a digit, was found on its own, and is found with the suffix for its alias. */
  lemma TextJump(t: string, mark: nat -> bool, tag: string, out: string, i: nat, g: nat, a: string,
                 sure: nat -> bool, done: nat -> bool, e: nat)
    returns (k: nat, h: nat)
    requires Word(tag) && Marks(t, mark, tag) && Word(a) && Safe(a, tag) && DoneLaws(out, a, done) && Sure(t, a, sure)
    requires mark(i) && 6 <= g <= |out| && out[g - 6..g] == TEXT && Carried(t, mark, out, i, g) && sure(i)
    requires Entered(t, a, e, i)
    requires TagFollows(out, g, a)
    ensures i < k && Held(t, mark, out, k, h) && sure(k) && EntryAt(t, k) && (done(h) ==> done(g - 6))
  {
    TagIsThere(t, mark, tag, out, i, g, a, e);
    k, h := i + 1 + |a| + 6, g + 1 + |a| + 6;
    JumpIsSure(t, a, sure, i);
    JumpCarried(t, mark, tag, out, i, g, a);
    SuffixIsEntry(t, i + 1 + |a|);
    JumpDone(out, g, a, done);
  }

  lemma TagIsThere(t: string, mark: nat -> bool, tag: string, out: string, i: nat, g: nat, a: string, e: nat)
    requires Word(tag) && Marks(t, mark, tag) && Word(a) && Safe(a, tag) && mark(i) && Carried(t, mark, out, i, g)
    requires Entered(t, a, e, i) && TagFollows(out, g, a)
    ensures i < |t| && t[i] == '.' && BareEnd(t, i + 1, a) >= 0 && !IdentStart(a[0])
  {
    DotCarried(t, mark, tag, out, i, g);
    BareThere(t, mark, tag, out, i + 1, g + 1, a);
    if !Digital(tag) { NoTagBehindDot(t, tag, a, i, e); }
  }

  lemma SuffixIsEntry(t: string, r: nat)
    requires At(t, TEXT, r)
    ensures EntryAt(t, r + 6)
  {
    SuffixStands(t, r);
  }

  /** The tag was found on its own. */
  lemma JumpIsSure(t: string, a: string, sure: nat -> bool, i: nat)
    requires Word(a) && !IdentStart(a[0]) && Sure(t, a, sure) && sure(i) && i < |t| && t[i] == '.'
    requires BareEnd(t, i + 1, a) >= 0
    ensures Suffixed(t, i + 1, a, i + 1) && sure(i + 1 + |a| + 6)
  {
    assert SureAt(t, a, sure, i) && SureAt(t, a, sure, i + 1);
    NotAt(t, a, i);
    assert t[i + 1 + 0] == a[0];
  }

  lemma JumpCarried(t: string, mark: nat -> bool, tag: string, out: string, i: nat, g: nat, a: string)
    requires Word(tag) && Marks(t, mark, tag) && Word(a) && Suffixed(t, i + 1, a, i + 1) && Carried(t, mark, out, i, g)
    requires i < |t| && t[i] == '.'
    ensures Held(t, mark, out, i + 1 + |a| + 6, g + 1 + |a| + 6)
    ensures g < |out| && out[g] == '.' && BareEnd(out, g + 1, a) >= 0 && At(out, TEXT, g + 1 + |a|)
  {
    NoOtherMark(t, mark, tag, i + 1, a, i + 1);
    NoMarkWhere(t, tag, i + 1);
    TagBehind(t, mark, tag, out, a, i + 1, i, g);
    CarriedTo(t, mark, tag, out, i, g, i + 1 + |a| + 6);
  }

  lemma JumpDone(out: string, g: nat, a: string, done: nat -> bool)
    requires Word(a) && DoneLaws(out, a, done) && 6 <= g < |out| && out[g - 6..g] == TEXT
    requires out[g] == '.' && BareEnd(out, g + 1, a) >= 0 && At(out, TEXT, g + 1 + |a|)
    ensures done(g + 1 + |a| + 6) ==> done(g - 6)
  {
    TextIsAlias(out, g, a);
    TextChars(out, g - 6);
    NotAt(out, a, g - 6);
    NotAt(out, a, g - 5);
    DoneAlias(out, a, done, g - 6, g, g + 1 + |a| + 6);
  }

  // ---- step by step

  /** One step further, in the text and with the suffixes put in. */
  lemma StepStays(t: string, mark: nat -> bool, tag: string, out: string, i: nat, j: nat, a: string,
                  sure: nat -> bool, done: nat -> bool, e: nat)
    returns (k: nat, g: nat, entry: nat)
    requires Word(tag) && Marks(t, mark, tag) && Word(a) && a != tag && DoneLaws(out, a, done) && Sure(t, a, sure)
    requires i < |t| && Carried(t, mark, out, i, j) && sure(i) && Entered(t, a, e, i)
    ensures i < k && Held(t, mark, out, k, g) && sure(k) && Entered(t, a, entry, k) && (done(g) ==> done(j))
  {
    assert SureAt(t, a, sure, i);
    var r := RefEnd(t, i, a);
    if r < 0 {
      k, g, entry := i + 1, j + 1, e;
      CharStays(t, mark, tag, out, i, j, a, done);
    } else {
      k, entry := r + 6, r + 6;
      SuffixIsEntry(t, r);
      g := RefGoesOn(t, mark, tag, out, i, j, a, r - |a|, done, k);
    }
  }

  lemma CharStays(t: string, mark: nat -> bool, tag: string, out: string, i: nat, j: nat, a: string, done: nat -> bool)
    requires Word(tag) && Marks(t, mark, tag) && Word(a) && DoneLaws(out, a, done)
    requires i < |t| && Carried(t, mark, out, i, j) && RefEnd(t, i, a) < 0
    ensures Held(t, mark, out, i + 1, j + 1) && (done(j + 1) ==> done(j))
  {
    NoneThere(t, mark, tag, out, i, j, a);
    CarriedTo(t, mark, tag, out, i, j, i + 1);
    DoneOver(out, a, done, j, j + 1);
  }

  lemma RefGoesOn(t: string, mark: nat -> bool, tag: string, out: string, i: nat, j: nat, a: string, p: nat,
                  done: nat -> bool, e: nat)
    returns (g: nat)
    requires Word(tag) && Marks(t, mark, tag) && Word(a) && a != tag && DoneLaws(out, a, done)
    requires Suffixed(t, i, a, p) && Carried(t, mark, out, i, j) && e == p + |a| + 6
    ensures i < e && Held(t, mark, out, e, g) && (done(g) ==> done(j))
  {
    if i < p && mark(p - 1) {
      g := MarkedRefGoesOn(t, mark, tag, out, i, j, a, p, done, e, p - 1);
    } else {
      g := j + (e - i);
      PlainRefStays(t, mark, tag, out, i, j, a, p, e, g);
      DoneRef(out, a, done, j, g - 6);
    }
  }

  lemma MarkedRefGoesOn(t: string, mark: nat -> bool, tag: string, out: string, i: nat, j: nat, a: string, p: nat,
                        done: nat -> bool, e: nat, d: nat)
    returns (g: nat)
    requires Word(tag) && Marks(t, mark, tag) && Word(a) && a != tag && DoneLaws(out, a, done)
    requires Suffixed(t, i, a, p) && Carried(t, mark, out, i, j) && e == p + |a| + 6 && i < p && d + 1 == p && mark(d)
    ensures Held(t, mark, out, e, g) && (done(g) ==> done(j))
  {
    AliasMarked(t, i, p, a);
    var h := j + (d - i) + 6;
    MarkedRefStays(t, mark, tag, out, i, j, a, p, e, d, h);
    g := h + (e - d);
    DoneAlias(out, a, done, j, h, g);
  }

  lemma DoneAlias(out: string, a: string, done: nat -> bool, j: nat, h: nat, g: nat)
    requires a != "" && DoneLaws(out, a, done) && j + 4 <= h <= |out| && g == h + 1 + |a| + 6
    requires forall q :: j <= q < h - 4 ==> RefEnd(out, q, a) < 0
    requires RefEnd(out, h - 4, a) == h + 1 + |a| && At(out, TEXT, h + 1 + |a|)
    ensures done(g) ==> done(j)
  {
    DoneRef(out, a, done, h - 4, h + 1 + |a|);
    DoneOver(out, a, done, j, h - 4);
  }

  /** Over the suffix at a mark: the place behind it in the text made. */
  lemma TextDone(t: string, mark: nat -> bool, tag: string, out: string, i: nat, g: nat, a: string, done: nat -> bool)
    requires Word(tag) && Marks(t, mark, tag) && Word(a) && a != "text" && DoneLaws(out, a, done)
    requires mark(i) && 6 <= g <= |out| && out[g - 6..g] == TEXT && Carried(t, mark, out, i, g)
    requires !TagFollows(out, g, a)
    ensures done(g) ==> done(g - 6)
  {
    SuffixEnds(t, mark, tag, out, i, g);
    NoRefInText(out, a, g - 6);
    DoneOver(out, a, done, g - 6, g);
  }

  /** A text settled for one tag stays so when another is cast in it. */
  lemma {:induction false} StaysDone(t: string, mark: nat -> bool, tag: string, out: string, i: nat, h: nat, a: string,
                                     sure: nat -> bool, done: nat -> bool, e: nat)
    requires Word(tag) && Marks(t, mark, tag) && Word(a) && a != tag && Safe(a, tag)
    requires DoneLaws(out, a, done) && Sure(t, a, sure) && Held(t, mark, out, i, h) && sure(i) && Entered(t, a, e, i)
    ensures done(h)
    decreases |t| - i
  {
    var g := if mark(i) then h + 6 else h;
    if mark(i) && TagFollows(out, g, a) {
      var k, h' := TextJump(t, mark, tag, out, i, g, a, sure, done, e);
      StaysDone(t, mark, tag, out, k, h', a, sure, done, k);
    } else {
      if mark(i) { TextDone(t, mark, tag, out, i, g, a, done); }
      FirstCarried(t, mark, out, i, g);
      if i < |t| {
        var k, h', entry := StepStays(t, mark, tag, out, i, g, a, sure, done, e);
        StaysDone(t, mark, tag, out, k, h', a, sure, done, entry);
      }
    }
  }

  // ---- the marks of a cast

  /** Where the cast of the tag puts a suffix in. */
  ghost function Ends(t: string, tag: string, i: nat): set<nat>
    requires i <= |t| && tag != ""
    decreases |t| - i
  {
    if i == |t| then {}
    else (if Bare(t, tag, i) then {StepEnd(t, tag, i)} else {}) + Ends(t, tag, StepEnd(t, tag, i))
  }

  lemma {:induction false} EndsBehind(t: string, tag: string, i: nat, k: nat)
    requires i <= |t| && tag != "" && k in Ends(t, tag, i)
    ensures i < k && MarkAt(t, tag, k)
    decreases |t| - i
  {
    if k in Ends(t, tag, StepEnd(t, tag, i)) {
      EndsBehind(t, tag, StepEnd(t, tag, i), k);
    } else {
      RefEndsTag(t, i, tag);
    }
  }

  /** The cast is the text with the suffixes put in at those marks. */
  lemma {:induction false} CastIsPut(t: string, tag: string, mark: nat -> bool, i: nat)
    requires i <= |t| && tag != "" && forall k :: i < k ==> (mark(k) <==> k in Ends(t, tag, i))
    ensures CastTag(t, tag, i) == Put(t, mark, i)
    decreases |t| - i
  {
    if i < |t| {
      var j := StepEnd(t, tag, i);
      forall k | i < k <= j ensures mark(k) <==> k == j && Bare(t, tag, i) {
        if k in Ends(t, tag, j) { EndsBehind(t, tag, j, k); }
      }
      CastIsPut(t, tag, mark, j);
      if Bare(t, tag, i) {
        PutMark(t, mark, i, j);
      } else {
        PutCopies(t, mark, i, j);
        CastCopies(t, tag, i, j, CastTag(t, tag, j));
      }
    }
  }

  lemma NoneAtStart(t: string, tag: string)
    requires tag != ""
    ensures 0 !in Ends(t, tag, 0)
  {
    if 0 in Ends(t, tag, 0) { EndsBehind(t, tag, 0, 0); }
  }

  /** A text settled for a tag is settled for it when another tag is cast in it. */
  lemma CastStaysSettled(t: string, tag: string, a: string)
    requires Word(tag) && Word(a) && (a == tag || Safe(a, tag)) && CastTag(t, a, 0) == t
    ensures CastTag(CastTag(t, tag, 0), a, 0) == CastTag(t, tag, 0)
  {
    if a == tag {
      CastOnce(t, tag);
    } else {
      var out := CastTag(t, tag, 0);
      var mark := (k: nat) => k in Ends(t, tag, 0);
      forall k | mark(k) ensures MarkAt(t, tag, k) { EndsBehind(t, tag, 0, k); }
      CastIsPut(t, tag, mark, 0);
      DoneHolds(out, a);
      DoneIsSure(t, a);
      assert out[0..] == out && t[0..] == t;
      NoneAtStart(t, tag);
      StaysDone(t, mark, tag, out, 0, 0, a, Done(t, a), Done(out, a), 0);
      assert Settled(out, a, 0);
    }
  }

  // ---- a list of tags, outside literals

  /** Text that a leaves as it is, is left so by a once b has been applied. */
  ghost predicate Keeps(a: string -> string, b: string -> string) {
    forall t {:trigger b(t)} :: a(t) == t ==> a(b(t)) == b(t)
  }

  lemma CastersKeep(a: string, b: string)
    requires Word(a) && Word(b) && (a == b || Safe(a, b))
    ensures Keeps(Caster(a), Caster(b))
  {
    forall t | Caster(a)(t) == t ensures Caster(a)(Caster(b)(t)) == Caster(b)(t) {
      CastStaysSettled(t, b, a);
    }
  }

  /** A literal in front: it stays. */
  lemma LiteralKeeps(x: string -> string, y: string -> string, f: string -> string, g: string -> string, t: string,
                     s: string)
    requires Outside(x, f) && Outside(y, g) && Quoted(t) && x(t + s) == t + s
    ensures x(s) == s
    ensures x(y(s)) == y(s) ==> x(y(t + s)) == y(t + s)
  {
    assert LiteralStays(x, t, s) && LiteralStays(y, t, s) && LiteralStays(x, t, y(s));
    Behind(t, x(s), s);
  }

  lemma Behind(t: string, a: string, b: string)
    requires t + a == t + b
    ensures a == b
  {
    assert (t + a)[|t|..] == a && (t + b)[|t|..] == b;
  }

  /** A stretch in front. */
  lemma StretchKeeps(x: string -> string, y: string -> string, f: string -> string, g: string -> string, t: string,
                     s: string)
    requires Outside(x, f) && Outside(y, g) && Cuts(f) && Cuts(g) && Keeps(f, g) && Opens(y)
    requires QUOTE !in t && (s == "" || s[0] == QUOTE) && x(t + s) == t + s && |x(s)| >= |s|
    ensures x(s) == s
    ensures x(y(s)) == y(s) ==> x(y(t + s)) == y(t + s)
  {
    assert StretchTurns(x, f, t, s) && StretchTurns(y, g, t, s) && StretchTurns(x, f, g(t), y(s));
    assert |f(t)| >= |t|;
    BothParts(f(t), t, x(s), s);
  }

  /** What starts with a quote, or is empty, still does. */
  ghost predicate Opens(y: string -> string) {
    forall s {:trigger y(s)} :: s == "" || s[0] == QUOTE ==> y(s) == "" || y(s)[0] == QUOTE
  }

  lemma BothParts(a: string, t: string, b: string, s: string)
    requires a + b == t + s && |a| >= |t| && |b| >= |s|
    ensures a == t && b == s
  {
    assert |a| == |t|;
    assert a == (a + b)[..|a|] && t == (t + s)[..|t|];
    Behind(t, b, s);
  }

  ghost predicate Grows(x: string -> string) {
    forall s {:trigger x(s)} :: |x(s)| >= |s|
  }

  lemma ReplacerIs(f: string -> string)
    requires Cuts(f)
    ensures Outside(Replacer(f), f) && Opens(Replacer(f)) && Grows(Replacer(f))
  {
    ReplacerIsOutside(f);
    forall s | s == "" || s[0] == QUOTE ensures Replaced(s, f) == "" || Replaced(s, f)[0] == QUOTE {
      ReplacedStartsAlike(s, f);
    }
    forall s ensures |Replaced(s, f)| >= |s| { ReplacedGrows(s, f); }
  }

  /** Outside literals too. */
  lemma {:induction false} ReplacedKeeps(x: string -> string, y: string -> string, f: string -> string,
                                         g: string -> string, s: string)
    requires Outside(x, f) && Outside(y, g) && Cuts(f) && Cuts(g) && Keeps(f, g) && Opens(y) && Grows(x) && x(s) == s
    ensures x(y(s)) == y(s)
    decreases |s|
  {
    if s == "" {
    } else if s[0] == QUOTE {
      var e := Quote(s, 1);
      if e < |s| {
        CutsLiteral(s, e);
        Rejoined(s, e + 1);
        LiteralKeeps(x, y, f, g, s[..e + 1], s[e + 1..]);
        ReplacedKeeps(x, y, f, g, s[e + 1..]);
      } else {
        assert OpenStays(y, s);
      }
    } else {
      var t, z := FirstStretch(s);
      StretchKeeps(x, y, f, g, t, z);
      ReplacedKeeps(x, y, f, g, z);
    }
  }

  /** Names, each of which may be cast after all before it. */
  ghost predicate AllSafe(tags: seq<string>) {
    && AllWords(tags)
    && forall k, m :: 0 <= k < m < |tags| ==> tags[k] == tags[m] || Safe(tags[k], tags[m])
  }

  /** The text has every reference to these tags cast. */
  ghost predicate AllSettled(s: string, fs: seq<string -> string>) {
    forall k :: 0 <= k < |fs| ==> Replaced(s, fs[k]) == s
  }

  lemma {:induction false} SettledIsCast(s: string, fs: seq<string -> string>)
    requires AllSettled(s, fs)
    ensures CastIdentifiers(s, fs) == s
  {
    if fs != [] {
      var n := |fs| - 1;
      assert AllSettled(s, fs[..n]);
      SettledIsCast(s, fs[..n]);
    }
  }

  ghost predicate AllKeep(fs: seq<string -> string>) {
    forall k, m :: 0 <= k < m < |fs| ==> Keeps(fs[k], fs[m])
  }

  ghost predicate Twofold(f: string -> string) {
    forall t {:trigger f(t)} :: f(f(t)) == f(t)
  }

  ghost predicate AllTwofold(fs: seq<string -> string>) {
    forall k :: 0 <= k < |fs| ==> Twofold(fs[k])
  }

  /** After the list has been cast every one of its tags is settled. */
  lemma {:induction false} CastIsSettled(args: string, fs: seq<string -> string>)
    requires AllCut(fs) && AllKeep(fs) && AllTwofold(fs)
    ensures AllSettled(CastIdentifiers(args, fs), fs)
  {
    if fs != [] {
      var n := |fs| - 1;
      var gs, f, s := fs[..n], fs[n], CastIdentifiers(args, fs[..n]);
      CastIsSettled(args, gs);
      forall k | 0 <= k < |fs| ensures Replaced(Replaced(s, f), fs[k]) == Replaced(s, f) {
        if k == n {
          ReplacedOnce(s, f);
        } else {
          assert Replaced(s, gs[k]) == s;
          OneStaysSettled(s, fs[k], f);
        }
      }
    }
  }

  lemma OneStaysSettled(s: string, f: string -> string, g: string -> string)
    requires Cuts(f) && Cuts(g) && Keeps(f, g) && Replaced(s, f) == s
    ensures Replaced(Replaced(s, g), f) == Replaced(s, g)
  {
    ReplacerIs(f);
    ReplacerIs(g);
    ReplacedKeeps(Replacer(f), Replacer(g), f, g, s);
  }

  lemma CastersAreGood(tags: seq<string>)
    requires AllSafe(tags)
    ensures AllWords(tags) && AllCut(Casters(tags)) && AllKeep(Casters(tags)) && AllTwofold(Casters(tags))
  {
    var fs := Casters(tags);
    forall k | 0 <= k < |fs| ensures Cuts(fs[k]) { CasterIsCutting(tags[k]); }
    forall k, m | 0 <= k < m < |fs| ensures Keeps(fs[k], fs[m]) { CastersKeep(tags[k], tags[m]); }
    forall k | 0 <= k < |fs| ensures Twofold(fs[k]) {
      forall t ensures fs[k](fs[k](t)) == fs[k](t) { CastOnce(t, tags[k]); }
    }
  }

  /** Casting a list of such tags in an argument list a second time changes nothing. */
  lemma ListOnce(tags: seq<string>)
    requires AllSafe(tags)
    ensures AllWords(tags) && Once(TagCast(tags))
  {
    CastersAreGood(tags);
    forall a ensures TagCast(tags)(TagCast(tags)(a)) == TagCast(tags)(a) {
      CastIsSettled(a, Casters(tags));
      SettledIsCast(TagCast(tags)(a), Casters(tags));
    }
  }

  /** The calls inside an argument list get nothing more once the list has been cast. */
  lemma NestedCallsOnce(args: string, tags: seq<string>)
    requires AllSafe(tags) && AllContained(Literals(args))
    ensures AllWords(tags) && Pass(TagCast(tags)(args), tags) == TagCast(tags)(args)
  {
    ListOnce(tags);
    TagCastIsSafe(tags);
    TagCastIsParted(tags);
    NestedOnce(args, TagCast(tags));
    if tags == [] { assert Casters(tags) == []; }
  }

  /** The pass over a whole query, made twice, is the pass made once. */
  lemma PassOnce(q: string, tags: seq<string>)
    requires AllSafe(tags) && AllContained(Literals(q))
    ensures AllWords(tags) && Pass(Pass(q, tags), tags) == Pass(q, tags)
  {
    ListOnce(tags);
    if tags != [] {
      TagCastIsSafe(tags);
      TagCastIsParted(tags);
      PassTwice(q, TagCast(tags));
    }
  }

  /** The lists of tags there are. */
  lemma TablesAreSafe()
    ensures AllSafe(["cpu"]) && AllSafe(["node", "block_order"])
  {
    assert Word("node") && Word("block_order") && Word("cpu");
    assert IdentStart("block_order"[0]) && IdentStart("block_order"[4]);
  }
}

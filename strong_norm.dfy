/**
 * `strong_normalize` (src/matching/entity_matcher.py): lower-case the name,
 * delete every whole-word match of the legal-suffix and state-code pattern
 * `_LEGAL_SUFFIX_RE`, turn the remaining punctuation into spaces, collapse
 * whitespace and strip.
 *
 * The pattern is `\b(alt1|alt2|...)\b`. A backtracking engine tries, at the
 * leftmost position, each alternative in order and, inside an alternative,
 * each way of matching its optional parts (greedy first); the first end
 * position at which the closing `\b` holds wins. `Ends` lists those end
 * positions in that order, so `MatchAt` is the regex's own choice.
 *
 * The scan is written for any table of alternatives; `Alternatives` is the
 * table of `_LEGAL_SUFFIX_RE`, and `Table` collects the two facts about it
 * that the proofs use: it deletes every stop word, and nothing else that
 * can stand in clean text.
 */
module StrongNorm {
  import opened Wrappers
  import opened Text

  /** One alternative of `_LEGAL_SUFFIX_RE`. */
  datatype Alt =
    | Lit(w: string)               // a literal word
    | LitOpt(w: string, opt: char) // a literal with one optional, greedy character: `ltd\.?`, `holdings?`
    | PtyLtd                       // `pty\.?\s*ltd\.?`

  predicate WellFormed(a: Alt) {
    (a.Lit? || a.LitOpt?) ==> a.w != [] && IsLower(a.w[0])
  }

  predicate AllWellFormed(alts: seq<Alt>) {
    forall k :: 0 <= k < |alts| ==> WellFormed(alts[k])
  }

  /** The alternatives of `_LEGAL_SUFFIX_RE`, in the order the regex tries them. */
  const Alternatives: seq<Alt> := LegalForms + BusinessWords + Places

  const LegalForms: seq<Alt> := [
    PtyLtd, Lit("p/l"), LitOpt("ltd", '.'), Lit("limited"), LitOpt("inc", '.'), Lit("incorporated"),
    LitOpt("corp", '.'), Lit("corporation")
  ]

  const BusinessWords: seq<Alt> := [
    LitOpt("holding", 's'), Lit("group"), Lit("trust"), LitOpt("service", 's'), LitOpt("solution", 's')
  ]

  const Places: seq<Alt> := [
    Lit("australia"), LitOpt("aust", '.'), Lit("nsw"), Lit("vic"), Lit("qld"), Lit("wa"), Lit("sa"),
    Lit("tas"), Lit("act"), Lit("nt")
  ]

  /** The words the pattern deletes when they stand alone between non-word characters. */
  predicate IsStopWord(w: string) {
    w in {
      "ptyltd", "ltd", "limited", "inc", "incorporated", "corp", "corporation", "holding", "holdings",
      "group", "trust", "service", "services", "solution", "solutions", "australia", "aust",
      "nsw", "vic", "qld", "wa", "sa", "tas", "act", "nt"
    }
  }

  /**
   * Alternative `a` deletes only stop words: every literal other than `p/l`
   * is a stop word, and so is a literal followed by its optional `s`.
   */
  predicate DeletesStopWords(a: Alt) {
    && WellFormed(a)
    && (a.Lit? ==> a.w == "p/l" || (AllWord(a.w) && IsStopWord(a.w)))
    && (a.LitOpt? ==> AllWord(a.w) && IsStopWord(a.w))
    && (a.LitOpt? ==> a.opt == '.' || (a.opt == 's' && IsStopWord(a.w + ['s'])))
  }

  /** Alternative `a` spells the word `w`. */
  predicate Spells(a: Alt, w: string) {
    match a
    case PtyLtd => w == "ptyltd"
    case Lit(v) => w == v
    case LitOpt(v, c) => w == v || w == v + [c]
  }

  /** A table that deletes exactly the stop words among the words of clean text. */
  ghost predicate Table(alts: seq<Alt>) {
    && AllWellFormed(alts)
    && (forall a :: a in alts ==> DeletesStopWords(a))
    && (forall w :: IsStopWord(w) ==> exists a :: a in alts && Spells(a, w))
  }

  /** The alternative of `_LEGAL_SUFFIX_RE` that spells a stop word. */
  function StopWordAlt(w: string): (a: Alt)
    requires IsStopWord(w)
    ensures a in Alternatives && Spells(a, w)
  {
    if w == "ptyltd" then LegalForms[0]
    else if w == "ltd" then LegalForms[2]
    else if w == "limited" then LegalForms[3]
    else if w == "inc" then LegalForms[4]
    else if w == "incorporated" then LegalForms[5]
    else if w == "corp" then LegalForms[6]
    else if w == "corporation" then LegalForms[7]
    else if w == "holding" || w == "holdings" then BusinessWords[0]
    else if w == "group" then BusinessWords[1]
    else if w == "trust" then BusinessWords[2]
    else if w == "service" || w == "services" then BusinessWords[3]
    else if w == "solution" || w == "solutions" then BusinessWords[4]
    else if w == "australia" then Places[0]
    else if w == "aust" then Places[1]
    else if w == "nsw" then Places[2]
    else if w == "vic" then Places[3]
    else if w == "qld" then Places[4]
    else if w == "wa" then Places[5]
    else if w == "sa" then Places[6]
    else if w == "tas" then Places[7]
    else if w == "act" then Places[8]
    else Places[9]
  }

  lemma AlternativesDeleteStopWords()
    ensures forall a :: a in Alternatives ==> DeletesStopWords(a)
  {
    LegalFormsDelete();
    BusinessWordsDelete();
    PlacesDelete();
  }

  lemma LegalFormsDelete()
    ensures forall a :: a in LegalForms ==> DeletesStopWords(a)
  {
    assert DeletesStopWords(PtyLtd) && DeletesStopWords(Lit("p/l"));
    assert DeletesStopWords(LitOpt("ltd", '.')) && DeletesStopWords(Lit("limited"));
    assert DeletesStopWords(LitOpt("inc", '.')) && DeletesStopWords(Lit("incorporated"));
    assert DeletesStopWords(LitOpt("corp", '.')) && DeletesStopWords(Lit("corporation"));
  }

  lemma BusinessWordsDelete()
    ensures forall a :: a in BusinessWords ==> DeletesStopWords(a)
  {
    assert "holding" + ['s'] == "holdings";
    assert "service" + ['s'] == "services";
    assert "solution" + ['s'] == "solutions";
    assert DeletesStopWords(LitOpt("holding", 's')) && DeletesStopWords(Lit("group"));
    assert DeletesStopWords(Lit("trust")) && DeletesStopWords(LitOpt("service", 's'));
    assert DeletesStopWords(LitOpt("solution", 's'));
  }

  lemma PlacesDelete()
    ensures forall a :: a in Places ==> DeletesStopWords(a)
  {
    assert DeletesStopWords(Lit("australia")) && DeletesStopWords(LitOpt("aust", '.'));
    assert DeletesStopWords(Lit("nsw")) && DeletesStopWords(Lit("vic")) && DeletesStopWords(Lit("qld"));
    assert DeletesStopWords(Lit("wa")) && DeletesStopWords(Lit("sa")) && DeletesStopWords(Lit("tas"));
    assert DeletesStopWords(Lit("act")) && DeletesStopWords(Lit("nt"));
  }

  /** `_LEGAL_SUFFIX_RE` deletes exactly the stop words. */
  lemma AlternativesTable()
    ensures Table(Alternatives)
  {
    AlternativesDeleteStopWords();
    forall k | 0 <= k < |Alternatives| ensures WellFormed(Alternatives[k]) {
      assert Alternatives[k] in Alternatives;
    }
    forall w | IsStopWord(w)
      ensures exists a :: a in Alternatives && Spells(a, w)
    {
      var a := StopWordAlt(w);
    }
  }

  // ---------------------------------------------------------------------
  // The scan
  // ---------------------------------------------------------------------

  /** End positions of `w c?` matched at `i`, greedy option first. */
  function OptEnds(s: string, i: nat, w: string, c: char): (r: seq<nat>)
    requires w != []
    ensures forall k :: 0 <= k < |r| ==> i < r[k] <= |s|
    ensures r != [] ==> StartsAt(s, i, w)
  {
    if StartsAt(s, i, w) then
      var e := i + |w|;
      if e < |s| && s[e] == c then [e + 1, e] else [e]
    else []
  }

  /** End positions of alternative `a` matched at `i`, in backtracking order. */
  function Ends(s: string, i: nat, a: Alt): (r: seq<nat>)
    requires i <= |s| && WellFormed(a)
    ensures forall k :: 0 <= k < |r| ==> i < r[k] <= |s|
    ensures r != [] ==> i < |s| && IsLower(s[i])
  {
    match a
    case Lit(w) =>
      if StartsAt(s, i, w) then assert s[i] == s[i..i + |w|][0]; [i + |w|] else []
    case LitOpt(w, c) =>
      var r := OptEnds(s, i, w, c);
      assert r != [] ==> s[i] == s[i..i + |w|][0];
      r
    case PtyLtd =>
      if StartsAt(s, i, "pty") then
        var k := if i + 3 < |s| && s[i + 3] == '.' then i + 4 else i + 3;
        assert s[i] == s[i..i + 3][0];
        OptEnds(s, SpaceRunEnd(s, k), "ltd", '.')
      else []
  }

  /** The first end position at which `\b` holds. */
  function FirstBoundary(s: string, ends: seq<nat>): (r: Option<nat>)
    requires forall k :: 0 <= k < |ends| ==> ends[k] <= |s|
    ensures r.Some? ==> r.value in ends && Boundary(s, r.value)
    ensures r.None? ==> forall k :: 0 <= k < |ends| ==> !Boundary(s, ends[k])
  {
    if ends == [] then None
    else if Boundary(s, ends[0]) then Some(ends[0])
    else FirstBoundary(s, ends[1..])
  }

  /** The match at `i` found by the alternatives `alts`, tried in order. */
  function MatchIn(s: string, i: nat, alts: seq<Alt>): (r: Option<nat>)
    requires i <= |s| && AllWellFormed(alts)
    ensures r.Some? ==> i < r.value <= |s| && Boundary(s, r.value) && i < |s| && IsLower(s[i])
  {
    if alts == [] then None
    else
      var m := FirstBoundary(s, Ends(s, i, alts[0]));
      if m.Some? then m else MatchIn(s, i, alts[1..])
  }

  /** Where the match of `\b(alts)\b` that starts at `i` ends, if there is one. */
  function MatchAt(s: string, i: nat, alts: seq<Alt>): (r: Option<nat>)
    requires i <= |s| && AllWellFormed(alts)
    ensures r.Some? ==> Boundary(s, i) && i < r.value <= |s| && Boundary(s, r.value) && i < |s| && IsLower(s[i])
  {
    if Boundary(s, i) then MatchIn(s, i, alts) else None
  }

  /** The match of `\b(alts)\b` at every position of `s`, end of string included. */
  function Matches(s: string, alts: seq<Alt>): (ms: seq<Option<nat>>)
    requires AllWellFormed(alts)
    ensures WordMatches(s, ms)
  {
    seq(|s| + 1, p requires 0 <= p <= |s| => MatchAt(s, p, alts))
  }

  /** `ms` gives, for every position of `s`, where a match of a whole-word pattern starting there ends. */
  predicate WordMatches(s: string, ms: seq<Option<nat>>) {
    && |ms| == |s| + 1
    && forall p :: 0 <= p <= |s| && ms[p].Some? ==>
         p < ms[p].value <= |s| && IsWord(s[p]) && Boundary(s, p) && Boundary(s, ms[p].value)
  }

  /** `re.sub("", s)` for a pattern whose matches are `ms`, scanning from position `i`. */
  function SubFrom(s: string, i: nat, ms: seq<Option<nat>>): (r: string)
    requires i <= |s| && WordMatches(s, ms)
    decreases |s| - i
  {
    if i == |s| then []
    else match ms[i]
      case Some(j) => SubFrom(s, j, ms)
      case None => [s[i]] + SubFrom(s, i + 1, ms)
  }

  /** `_PUNCT_RE.sub(" ", s)`: every character that is neither word nor whitespace becomes a space. */
  function PunctToSpace(s: string): (r: string)
    ensures |r| == |s|
    ensures forall k :: 0 <= k < |s| ==> r[k] == (if IsWord(s[k]) || IsSpace(s[k]) then s[k] else ' ')
  {
    seq(|s|, k requires 0 <= k < |s| => if IsWord(s[k]) || IsSpace(s[k]) then s[k] else ' ')
  }

  /** The pipeline of `strong_normalize` after lower-casing, for the table `alts`. */
  function NormalizeWith(t: string, alts: seq<Alt>): (r: string)
    requires AllWellFormed(alts)
    ensures Canonical(r)
    ensures NoUpper(t) ==> NoUpper(r)
  {
    var u := PunctToSpace(SubFrom(t, 0, Matches(t, alts)));
    CollapseStripCanonical(u);
    if NoUpper(t) then
      SubNoUpper(t, 0, Matches(t, alts));
      CollapseStripNoUpper(u);
      CollapseStrip(u)
    else CollapseStrip(u)
  }

  /** `strong_normalize`: its result is empty for an empty name, otherwise canonical and lower-case. */
  function StrongNormalize(name: string): (r: string)
    ensures name == [] ==> r == []
    ensures Canonical(r) && NoUpper(r)
  {
    AlternativesTable();
    if name == [] then [] else NormalizeWith(Lower(name), Alternatives)
  }

  lemma {:induction false} SubNoUpper(s: string, i: nat, ms: seq<Option<nat>>)
    requires i <= |s| && WordMatches(s, ms) && NoUpper(s)
    ensures NoUpper(SubFrom(s, i, ms))
    decreases |s| - i
  {
    if i < |s| {
      match ms[i]
      case Some(j) => SubNoUpper(s, j, ms);
      case None => SubNoUpper(s, i + 1, ms);
    }
  }

  // ---------------------------------------------------------------------
  // How the scan moves through words
  // ---------------------------------------------------------------------

  /** `i` is not strictly inside a run of word characters. */
  predicate AtRunEdge(s: string, i: nat)
    requires i <= |s|
  {
    i == 0 || i == |s| || !IsWord(s[i - 1]) || !IsWord(s[i])
  }

  predicate NoStopWord(t: string) {
    forall k :: 0 <= k < |Words(t)| ==> !IsStopWord(Words(t)[k])
  }

  /** Inside a word no match can start, so the scan copies the rest of the word. */
  lemma {:induction false} SubInsideWord(s: string, p: nat, e: nat, ms: seq<Option<nat>>)
    requires 0 < p <= e <= |s| && WordMatches(s, ms)
    requires forall q :: p - 1 <= q < e ==> IsWord(s[q])
    ensures SubFrom(s, p, ms) == s[p..e] + SubFrom(s, e, ms)
    decreases e - p
  {
    if p == e {
      assert s[p..e] == [];
    } else {
      assert ms[p].None?;
      assert SubFrom(s, p, ms) == [s[p]] + SubFrom(s, p + 1, ms);
      SubInsideWord(s, p + 1, e, ms);
      assert s[p..e] == [s[p]] + s[p + 1..e];
    }
  }

  /** A word at which no match starts is copied whole. */
  lemma SubAtRun(s: string, i: nat, e: nat, ms: seq<Option<nat>>)
    requires i < e <= |s| && WordMatches(s, ms)
    requires forall q :: i <= q < e ==> IsWord(s[q])
    requires ms[i].None?
    ensures SubFrom(s, i, ms) == s[i..e] + SubFrom(s, e, ms)
  {
    assert SubFrom(s, i, ms) == [s[i]] + SubFrom(s, i + 1, ms);
    SubInsideWord(s, i + 1, e, ms);
    assert s[i..e] == [s[i]] + s[i + 1..e];
    AppendAssoc([s[i]], s[i + 1..e], SubFrom(s, e, ms));
  }

  lemma SplitSuffix<T>(s: seq<T>, i: nat, m: nat)
    requires i <= m <= |s|
    ensures s[i..] == s[i..m] + s[m..]
  {
  }

  lemma AppendAssoc<T>(a: seq<T>, b: seq<T>, c: seq<T>)
    ensures (a + b) + c == a + (b + c)
  {
  }

  /** A non-word character is copied. */
  lemma SubAtNonWord(s: string, i: nat, ms: seq<Option<nat>>)
    requires i < |s| && WordMatches(s, ms) && !IsWord(s[i])
    ensures SubFrom(s, i, ms) == [s[i]] + SubFrom(s, i + 1, ms)
  {
  }

  /** Position `p` starts a word of `s`. */
  predicate WordStart(s: string, p: nat) {
    p < |s| && IsWord(s[p]) && (p == 0 || !IsWord(s[p - 1]))
  }

  /** Every whole word of `s` that is a stop word is matched. */
  predicate StopWordsMatched(s: string, ms: seq<Option<nat>>)
    requires |ms| == |s| + 1
  {
    forall p :: 0 <= p < |s| && WordStart(s, p) && IsStopWord(s[p..WordRunEnd(s, p)]) ==> ms[p].Some?
  }

  /** No word of `s` that starts a stop-word-free suffix is matched. */
  predicate CleanUnmatched(s: string, ms: seq<Option<nat>>)
    requires |ms| == |s| + 1
  {
    forall p :: 0 <= p < |s| && WordStart(s, p) && NoStopWord(s[p..]) ==> ms[p].None?
  }

  // ---------------------------------------------------------------------
  // The pattern deletes every stop word standing alone
  // ---------------------------------------------------------------------

  /** An alternative with an end position at a boundary makes the match succeed. */
  lemma {:induction false} MatchInFinds(s: string, i: nat, alts: seq<Alt>, k: nat, x: nat)
    requires i <= |s| && AllWellFormed(alts) && k < |alts|
    requires x in Ends(s, i, alts[k]) && Boundary(s, x)
    ensures MatchIn(s, i, alts).Some?
  {
    if k > 0 {
      assert alts[1..][k - 1] == alts[k];
      MatchInFinds(s, i, alts[1..], k - 1, x);
    }
  }

  /** An alternative that spells the whole word at `i` has the word's end among its end positions. */
  lemma SpelledRunEnds(s: string, i: nat, e: nat, a: Alt)
    requires i < e <= |s| && WellFormed(a) && Spells(a, s[i..e])
    ensures e in Ends(s, i, a)
  {
    match a
    case PtyLtd => PtyLtdEnds(s, i, e);
    case Lit(w) => assert StartsAt(s, i, w);
    case LitOpt(v, c) => LitOptEnds(s, i, e, v, c);
  }

  lemma LitOptEnds(s: string, i: nat, e: nat, v: string, c: char)
    requires i < e <= |s| && v != [] && (s[i..e] == v || s[i..e] == v + [c])
    ensures e in OptEnds(s, i, v, c)
  {
    var w := s[i..e];
    if w == v {
      assert StartsAt(s, i, v);
    } else {
      assert |w| == |v| + 1;
      assert s[i..i + |v|] == w[..|v|];
      assert w[..|v|] == v;
      assert StartsAt(s, i, v);
      assert s[i + |v|] == w[|v|] == c;
    }
  }

  lemma PtyLtdEnds(s: string, i: nat, e: nat)
    requires i < e <= |s| && s[i..e] == "ptyltd"
    ensures e in Ends(s, i, PtyLtd)
  {
    var w := s[i..e];
    assert e == i + 6;
    assert s[i..i + 3] == w[..3];
    assert w[..3] == "pty";
    assert StartsAt(s, i, "pty");
    assert s[i + 3] == w[3] == 'l';
    assert SpaceRunEnd(s, i + 3) == i + 3;
    assert s[i + 3..i + 6] == w[3..];
    assert w[3..] == "ltd";
    assert StartsAt(s, i + 3, "ltd");
  }

  /** A whole word that is a stop word is matched where it starts. */
  lemma StopRunMatches(s: string, i: nat, e: nat, alts: seq<Alt>)
    requires i < e <= |s| && Boundary(s, i) && Table(alts)
    requires forall q :: i <= q < e ==> IsWord(s[q])
    requires e == |s| || !IsWord(s[e])
    ensures IsStopWord(s[i..e]) ==> MatchAt(s, i, alts).Some?
  {
    if IsStopWord(s[i..e]) {
      var a :| a in alts && Spells(a, s[i..e]);
      var k :| 0 <= k < |alts| && alts[k] == a;
      SpelledRunEnds(s, i, e, alts[k]);
      assert Boundary(s, e);
      MatchInFinds(s, i, alts, k, e);
    }
  }

  /** `_LEGAL_SUFFIX_RE` matches every stop word standing alone. */
  lemma MatchesStopWords(s: string, alts: seq<Alt>)
    requires Table(alts)
    ensures StopWordsMatched(s, Matches(s, alts))
  {
    var ms := Matches(s, alts);
    forall p | 0 <= p < |s| && WordStart(s, p) && IsStopWord(s[p..WordRunEnd(s, p)])
      ensures ms[p].Some?
    {
      StopRunMatches(s, p, WordRunEnd(s, p), alts);
    }
  }

  /** After the substitution no stop word is left standing alone. */
  lemma {:induction false} SubLeavesNoStopWord(s: string, i: nat, ms: seq<Option<nat>>)
    requires i <= |s| && AtRunEdge(s, i) && WordMatches(s, ms) && StopWordsMatched(s, ms)
    ensures NoStopWord(SubFrom(s, i, ms))
    decreases |s| - i
  {
    if i == |s| {
      assert Words([]) == [];
    } else if ms[i].Some? {
      SkipMatch(s, i, ms);
      SubLeavesNoStopWord(s, ms[i].value, ms);
    } else if !IsWord(s[i]) {
      SubLeavesNoStopWord(s, i + 1, ms);
      LeaveNonWord(s, i, ms);
    } else {
      var e := WordRunEnd(s, i);
      assert WordStart(s, i);
      assert !IsStopWord(s[i..e]);
      if e == |s| {
        LeaveLastWord(s, i, e, ms);
      } else {
        assert AtRunEdge(s, e + 1);
        SubLeavesNoStopWord(s, e + 1, ms);
        LeaveWord(s, i, e, ms);
      }
    }
  }

  /** A match is deleted and the scan resumes at its end, which is at the edge of a run. */
  lemma SkipMatch(s: string, i: nat, ms: seq<Option<nat>>)
    requires i < |s| && WordMatches(s, ms) && ms[i].Some?
    ensures ms[i].value <= |s| && SubFrom(s, i, ms) == SubFrom(s, ms[i].value, ms)
    ensures AtRunEdge(s, ms[i].value)
  {
  }

  /** One step of `SubLeavesNoStopWord`: a non-word character. */
  lemma LeaveNonWord(s: string, i: nat, ms: seq<Option<nat>>)
    requires i < |s| && !IsWord(s[i]) && WordMatches(s, ms)
    requires NoStopWord(SubFrom(s, i + 1, ms))
    ensures NoStopWord(SubFrom(s, i, ms))
  {
    SubAtNonWord(s, i, ms);
    NoStopWordAfterNonWord(s[i], SubFrom(s, i + 1, ms));
  }

  /** The run of word characters from `i` to `e`. */
  lemma RunAllWord(s: string, i: nat, e: nat)
    requires i <= e <= |s| && forall q :: i <= q < e ==> IsWord(s[q])
    ensures AllWord(s[i..e])
  {
    var w := s[i..e];
    forall k | 0 <= k < |w| ensures IsWord(w[k]) {
      assert w[k] == s[i + k];
    }
  }

  /** One step of `SubLeavesNoStopWord`: an unmatched last word. */
  lemma LeaveLastWord(s: string, i: nat, e: nat, ms: seq<Option<nat>>)
    requires i < |s| && IsWord(s[i]) && e == WordRunEnd(s, i) && e == |s|
    requires WordMatches(s, ms) && ms[i].None? && !IsStopWord(s[i..e])
    ensures NoStopWord(SubFrom(s, i, ms))
  {
    KeepLastWord(s, i, ms);
    RunAllWord(s, i, e);
    assert s[i..] == s[i..e];
    NoStopWordLastRun(s[i..]);
  }

  /** One step of `SubLeavesNoStopWord`: an unmatched word followed by a non-word character. */
  lemma LeaveWord(s: string, i: nat, e: nat, ms: seq<Option<nat>>)
    requires i < |s| && IsWord(s[i]) && e == WordRunEnd(s, i) && e < |s|
    requires WordMatches(s, ms) && ms[i].None? && !IsStopWord(s[i..e])
    requires NoStopWord(SubFrom(s, e + 1, ms))
    ensures NoStopWord(SubFrom(s, i, ms))
  {
    CopyWord(s, i, e, ms);
    RunAllWord(s, i, e);
    assert s[i..e + 1] == s[i..e] + [s[e]];
    NoStopWordRun(s[i..e], s[e], SubFrom(s, e + 1, ms));
  }

  lemma NoStopWordAfterNonWord(c: char, r: string)
    requires !IsWord(c) && NoStopWord(r)
    ensures NoStopWord([c] + r)
  {
    assert NoWord([c]);
    WordsFromNonWordPrefix([c], r);
    assert Words([c] + r) == Words(r);
  }

  lemma NoStopWordLastRun(w: string)
    requires w != [] && AllWord(w) && !IsStopWord(w)
    ensures NoStopWord(w)
  {
    WordsLastRun(w);
  }

  lemma NoStopWordRun(w: string, c: char, r: string)
    requires w != [] && AllWord(w) && !IsWord(c) && !IsStopWord(w) && NoStopWord(r)
    ensures NoStopWord(w + [c] + r)
  {
    WordsRun(w, c, r);
    var ws, rest := Words(w + [c] + r), Words(r);
    assert ws == [w] + rest;
    forall k | 0 <= k < |ws| ensures !IsStopWord(ws[k]) {
      if k > 0 {
        assert ws[k] == rest[k - 1];
      }
    }
  }

  // ---------------------------------------------------------------------
  // A canonical string without stop words is left alone
  // ---------------------------------------------------------------------

  /** The words of a suffix that starts with a word. */
  lemma WordsAt(s: string, i: nat)
    requires i < |s| && IsWord(s[i])
    ensures var e := WordRunEnd(s, i);
      Words(s[i..]) == [s[i..e]] + (if e == |s| then [] else Words(s[e + 1..]))
  {
    var e := WordRunEnd(s, i);
    if e == |s| {
      assert s[i..] == s[i..e];
      WordsLastRun(s[i..e]);
    } else {
      assert s[i..] == s[i..e] + [s[e]] + s[e + 1..];
      WordsRun(s[i..e], s[e], s[e + 1..]);
    }
  }

  /** Leading non-word characters do not change the words. */
  lemma WordsSkip(s: string, i: nat, m: nat)
    requires i <= m <= |s|
    requires forall q :: i <= q < m ==> !IsWord(s[q])
    ensures Words(s[i..]) == Words(s[m..])
  {
    assert s[i..] == s[i..m] + s[m..];
    WordsFromNonWordPrefix(s[i..m], s[m..]);
  }

  /** A literal word ending with a boundary inside a word run is the whole run. */
  lemma LiteralIsRun(s: string, i: nat, lit: string)
    requires i < |s| && lit != [] && AllWord(lit)
    ensures StartsAt(s, i, lit) && Boundary(s, i + |lit|) ==> s[i..WordRunEnd(s, i)] == lit
  {
    if StartsAt(s, i, lit) && Boundary(s, i + |lit|) {
      var x := i + |lit|;
      assert forall q :: i <= q < x ==> s[q] == lit[q - i];
      assert IsWord(s[x - 1]);
      assert x == |s| || !IsWord(s[x]);
    }
  }

  /** Alternative `a` has no end position at `i` where the closing `\b` holds. */
  predicate NoBoundaryEnd(s: string, i: nat, a: Alt)
    requires i <= |s| && WellFormed(a)
  {
    forall x :: x in Ends(s, i, a) ==> !Boundary(s, x)
  }

  lemma {:induction false} MatchInNone(s: string, i: nat, alts: seq<Alt>)
    requires i <= |s| && AllWellFormed(alts)
    requires forall k :: 0 <= k < |alts| ==> NoBoundaryEnd(s, i, alts[k])
    ensures MatchIn(s, i, alts).None?
  {
    if alts != [] {
      assert NoBoundaryEnd(s, i, alts[0]);
      assert forall k :: 0 <= k < |alts[1..]| ==> alts[1..][k] == alts[k + 1];
      MatchInNone(s, i, alts[1..]);
    }
  }

  /** No `/`: the one character through which `p/l` joins two words that are not stop words. */
  predicate NoSlash(s: string) {
    forall k :: 0 <= k < |s| ==> s[k] != '/'
  }

  /** In a string without `/`, no match starts where a word that starts a stop-word-free suffix starts. */
  lemma NoMatchInClean(s: string, i: nat, alts: seq<Alt>)
    requires i < |s| && NoSlash(s) && IsWord(s[i]) && (i == 0 || !IsWord(s[i - 1]))
    requires NoStopWord(s[i..]) && Table(alts)
    ensures MatchAt(s, i, alts).None?
  {
    forall k | 0 <= k < |alts|
      ensures NoBoundaryEnd(s, i, alts[k])
    {
      assert alts[k] in alts;
      AltNoBoundary(s, i, alts[k]);
    }
    MatchInNone(s, i, alts);
  }

  /** An alternative that deletes only stop words ends at no boundary at a word that is not one. */
  lemma AltNoBoundary(s: string, i: nat, a: Alt)
    requires i < |s| && NoSlash(s) && IsWord(s[i]) && (i == 0 || !IsWord(s[i - 1]))
    requires DeletesStopWords(a)
    requires NoStopWord(s[i..])
    ensures NoBoundaryEnd(s, i, a)
  {
    match a
    case Lit(w) =>
      if w == "p/l" {
        if i + 3 <= |s| {
          assert s[i..i + 3][1] == s[i + 1] != '/';
        }
      } else {
        LitNoBoundary(s, i, w);
      }
    case LitOpt(w, c) =>
      LitOptNoBoundary(s, i, w, c);
    case PtyLtd =>
      PtyLtdNoBoundary(s, i);
  }

  /** The first word of a suffix without stop words is not one. */
  lemma FirstWordNotStop(s: string, i: nat)
    requires i < |s| && IsWord(s[i]) && NoStopWord(s[i..])
    ensures !IsStopWord(s[i..WordRunEnd(s, i)])
  {
    WordsAt(s, i);
    var ws := Words(s[i..]);
    assert ws[0] == s[i..WordRunEnd(s, i)];
  }

  /** A stop word cannot be matched, up to a boundary, at a word that is not one. */
  lemma LitNoBoundary(s: string, i: nat, w: string)
    requires i < |s| && IsWord(s[i]) && NoStopWord(s[i..])
    requires w != [] && AllWord(w) && IsStopWord(w)
    ensures !(StartsAt(s, i, w) && Boundary(s, i + |w|))
  {
    FirstWordNotStop(s, i);
    LiteralIsRun(s, i, w);
  }

  /** The last character of a literal found at `i` is a word character. */
  lemma StartsAtWordEnd(s: string, i: nat, w: string)
    requires w != [] && AllWord(w)
    ensures StartsAt(s, i, w) ==> IsWord(s[i + |w| - 1])
  {
    if StartsAt(s, i, w) {
      assert s[i + |w| - 1] == s[i..i + |w|][|w| - 1];
    }
  }

  lemma LitOptNoBoundary(s: string, i: nat, w: string, c: char)
    requires i < |s| && IsWord(s[i]) && NoStopWord(s[i..])
    requires DeletesStopWords(LitOpt(w, c))
    ensures forall x :: x in OptEnds(s, i, w, c) ==> !Boundary(s, x)
  {
    LitNoBoundary(s, i, w);
    StartsAtWordEnd(s, i, w);
    if StartsAt(s, i, w) && i + |w| < |s| && s[i + |w|] == c && c == 's' {
      var v := w + [c];
      assert AllWord(v);
      assert s[i..i + |v|] == s[i..i + |w|] + [c];
      LitNoBoundary(s, i, v);
    }
  }

  lemma PtyLtdNoBoundary(s: string, i: nat)
    requires i < |s| && IsWord(s[i]) && NoStopWord(s[i..])
    ensures NoBoundaryEnd(s, i, PtyLtd)
  {
    if StartsAt(s, i, "pty") {
      var k := if i + 3 < |s| && s[i + 3] == '.' then i + 4 else i + 3;
      var m := SpaceRunEnd(s, k);
      assert Ends(s, i, PtyLtd) == OptEnds(s, m, "ltd", '.');
      if StartsAt(s, m, "ltd") {
        assert AllWord("ltd");
        StartsAtWordEnd(s, m, "ltd");
        if m == i + 3 {
          PtyLtdJoined(s, i);
        } else {
          PtyLtdSeparated(s, i, m);
        }
      }
    }
  }

  /** `ptyltd` written as one word is a stop word. */
  lemma PtyLtdJoined(s: string, i: nat)
    requires i < |s| && IsWord(s[i]) && NoStopWord(s[i..])
    requires StartsAt(s, i, "pty") && StartsAt(s, i + 3, "ltd")
    ensures !Boundary(s, i + 6)
  {
    assert s[i..i + 6] == s[i..i + 3] + s[i + 3..i + 6];
    assert AllWord("ptyltd");
    LitNoBoundary(s, i, "ptyltd");
  }

  /** `pty ltd` or `pty.ltd` as two words has the stop word `ltd` second. */
  lemma PtyLtdSeparated(s: string, i: nat, m: nat)
    requires i + 3 < m && m + 3 <= |s| && NoStopWord(s[i..])
    requires forall q :: i + 3 <= q < m ==> !IsWord(s[q])
    requires StartsAt(s, i, "pty") && StartsAt(s, m, "ltd")
    ensures !Boundary(s, m + 3)
  {
    assert s[i] == s[i..i + 3][0] && s[i + 1] == s[i..i + 3][1] && s[i + 2] == s[i..i + 3][2];
    assert !IsWord(s[i + 3]);
    assert WordRunEnd(s, i) == i + 3;
    WordsAt(s, i);
    WordsSkip(s, i + 4, m);
    assert s[m] == s[m..m + 3][0];
    WordsAt(s, m);
    var ws, rest := Words(s[i..]), Words(s[m..]);
    assert ws == ["pty"] + rest;
    assert ws[1] == rest[0];
    assert AllWord("ltd");
    LiteralIsRun(s, m, "ltd");
  }

  /** Without `/`, `_LEGAL_SUFFIX_RE` matches no word that starts a stop-word-free suffix. */
  lemma MatchesClean(s: string, alts: seq<Alt>)
    requires Table(alts) && NoSlash(s)
    ensures CleanUnmatched(s, Matches(s, alts))
  {
    var ms := Matches(s, alts);
    forall p | 0 <= p < |s| && WordStart(s, p) && NoStopWord(s[p..])
      ensures ms[p].None?
    {
      NoMatchInClean(s, p, alts);
    }
  }

  /** On a string none of whose words is a stop word or matched, the substitution changes nothing. */
  lemma {:induction false} SubKeepsClean(s: string, i: nat, ms: seq<Option<nat>>)
    requires i <= |s| && AtRunEdge(s, i)
    requires WordMatches(s, ms) && CleanUnmatched(s, ms)
    requires NoStopWord(s[i..])
    ensures SubFrom(s, i, ms) == s[i..]
    decreases |s| - i
  {
    if i < |s| {
      if !IsWord(s[i]) {
        KeepNonWord(s, i, ms);
        SubKeepsClean(s, i + 1, ms);
      } else {
        var e := WordRunEnd(s, i);
        assert WordStart(s, i);
        assert ms[i].None?;
        if e == |s| {
          KeepLastWord(s, i, ms);
        } else {
          KeepWord(s, i, e, ms);
          assert AtRunEdge(s, e + 1);
          SubKeepsClean(s, e + 1, ms);
        }
      }
    }
  }

  /** One step of `SubKeepsClean`: a non-word character. */
  lemma KeepNonWord(s: string, i: nat, ms: seq<Option<nat>>)
    requires i < |s| && !IsWord(s[i]) && WordMatches(s, ms) && NoStopWord(s[i..])
    ensures SubFrom(s, i, ms) == [s[i]] + SubFrom(s, i + 1, ms)
    ensures s[i..] == [s[i]] + s[i + 1..]
    ensures NoStopWord(s[i + 1..]) && AtRunEdge(s, i + 1)
  {
    SubAtNonWord(s, i, ms);
    WordsSkip(s, i, i + 1);
  }

  /** One step of `SubKeepsClean`: the last word, which is not matched. */
  lemma KeepLastWord(s: string, i: nat, ms: seq<Option<nat>>)
    requires i < |s| && IsWord(s[i]) && WordRunEnd(s, i) == |s|
    requires WordMatches(s, ms) && ms[i].None?
    ensures SubFrom(s, i, ms) == s[i..]
  {
    SubAtRun(s, i, |s|, ms);
    assert SubFrom(s, |s|, ms) == [];
    assert s[i..] == s[i..|s|] + [];
  }

  /** One step of `SubKeepsClean`: a word, which is not matched, and the space after it. */
  lemma KeepWord(s: string, i: nat, e: nat, ms: seq<Option<nat>>)
    requires i < |s| && IsWord(s[i]) && e == WordRunEnd(s, i) && e < |s|
    requires WordMatches(s, ms) && ms[i].None? && NoStopWord(s[i..])
    ensures SubFrom(s, i, ms) == s[i..e + 1] + SubFrom(s, e + 1, ms)
    ensures s[i..] == s[i..e + 1] + s[e + 1..]
    ensures NoStopWord(s[e + 1..])
  {
    CopyWord(s, i, e, ms);
    SplitSuffix(s, i, e + 1);
    NoStopWordAfterRun(s, i);
  }

  /** An unmatched word followed by a non-word character is copied, with that character. */
  lemma CopyWord(s: string, i: nat, e: nat, ms: seq<Option<nat>>)
    requires i < e < |s| && WordMatches(s, ms) && ms[i].None?
    requires forall q :: i <= q < e ==> IsWord(s[q])
    requires !IsWord(s[e])
    ensures SubFrom(s, i, ms) == s[i..e + 1] + SubFrom(s, e + 1, ms)
  {
    SubAtRun(s, i, e, ms);
    SubAtNonWord(s, e, ms);
    var rest := SubFrom(s, e + 1, ms);
    AppendAssoc(s[i..e], [s[e]], rest);
    assert s[i..e + 1] == s[i..e] + [s[e]];
  }

  /** Dropping the first word of a suffix keeps it free of stop words. */
  lemma NoStopWordAfterRun(s: string, i: nat)
    requires i < |s| && IsWord(s[i]) && WordRunEnd(s, i) < |s| && NoStopWord(s[i..])
    ensures NoStopWord(s[WordRunEnd(s, i) + 1..])
  {
    var e := WordRunEnd(s, i);
    WordsAt(s, i);
    var ws, rest := Words(s[i..]), Words(s[e + 1..]);
    assert ws == [s[i..e]] + rest;
    forall k | 0 <= k < |rest| ensures !IsStopWord(rest[k]) {
      assert rest[k] == ws[k + 1];
    }
  }

  // ---------------------------------------------------------------------
  // Properties of strong_normalize
  // ---------------------------------------------------------------------

  /** No stop word is left standing alone in a normalized name. */
  lemma NormalizedHasNoStopWord(t: string, alts: seq<Alt>)
    requires Table(alts)
    ensures NoStopWord(NormalizeWith(t, alts))
  {
    var ms := Matches(t, alts);
    var v := SubFrom(t, 0, ms);
    MatchesStopWords(t, alts);
    SubLeavesNoStopWord(t, 0, ms);
    var u := PunctToSpace(v);
    WordsFromSameWords(u, v, []);
    WordsCollapseStrip(u);
    assert Words(NormalizeWith(t, alts)) == Words(v);
  }

  /** Without stop words (and without `/`), the substitution deletes nothing and only punctuation and spacing change. */
  lemma NormalizeWithoutStopWords(t: string, alts: seq<Alt>)
    requires Table(alts) && NoSlash(t) && NoStopWord(t)
    ensures NormalizeWith(t, alts) == CollapseStrip(PunctToSpace(t))
  {
    var ms := Matches(t, alts);
    MatchesClean(t, alts);
    assert t[0..] == t;
    SubKeepsClean(t, 0, ms);
  }

  /** A canonical string without stop words is its own normalization. */
  lemma NormalizeWithKeepsClean(y: string, alts: seq<Alt>)
    requires Table(alts) && Canonical(y) && NoStopWord(y)
    ensures NormalizeWith(y, alts) == y
  {
    assert NoSlash(y);
    NormalizeWithoutStopWords(y, alts);
    assert PunctToSpace(y) == y;
    CanonicalCollapseStrip(y);
  }

  /** For a table that deletes exactly the stop words, normalizing a normalized name changes nothing. */
  lemma NormalizeWithIdempotent(t: string, alts: seq<Alt>)
    requires Table(alts)
    ensures NormalizeWith(NormalizeWith(t, alts), alts) == NormalizeWith(t, alts)
  {
    NormalizedHasNoStopWord(t, alts);
    NormalizeWithKeepsClean(NormalizeWith(t, alts), alts);
  }

  /** Applying `strong_normalize` twice is the same as applying it once. */
  lemma StrongNormalizeIdempotent(name: string)
    ensures StrongNormalize(StrongNormalize(name)) == StrongNormalize(name)
  {
    var y := StrongNormalize(name);
    if y != [] {
      AlternativesTable();
      NormalizeWithIdempotent(Lower(name), Alternatives);
      assert Lower(y) == y;
    }
  }

  /** No legal suffix or state code is left standing alone in a strongly normalized name. */
  lemma StrongNormalizeDropsStopWords(name: string)
    ensures NoStopWord(StrongNormalize(name))
  {
    if name != [] {
      AlternativesTable();
      NormalizedHasNoStopWord(Lower(name), Alternatives);
    }
  }

  /** A lower-case name of single-spaced words none of which is a stop word is left as it is. */
  lemma StrongNormalizeKeepsClean(name: string)
    requires Canonical(name) && NoUpper(name) && NoStopWord(name)
    ensures StrongNormalize(name) == name
  {
    if name != [] {
      AlternativesTable();
      assert Lower(name) == name;
      NormalizeWithKeepsClean(name, Alternatives);
    }
  }

  /** When the lower-cased name holds no stop word, `strong_normalize` only turns punctuation into spaces and collapses them. */
  lemma StrongNormalizeWithoutStopWords(name: string)
    requires NoSlash(name) && NoStopWord(Lower(name))
    ensures StrongNormalize(name) == CollapseStrip(PunctToSpace(Lower(name)))
  {
    if name == [] {
      assert Lower(name) == [] && PunctToSpace([]) == [];
      assert CollapseStrip([]) == [] by { CanonicalCollapseStrip([]); }
    } else {
      AlternativesTable();
      assert NoSlash(Lower(name));
      NormalizeWithoutStopWords(Lower(name), Alternatives);
    }
  }

  /** Punctuation between two words that are not stop words becomes one space: `a.b` gives `a b`. */
  lemma PunctuationSeparates(x: string, c: char, y: string)
    requires x != [] && y != [] && AllWord(x) && AllWord(y) && NoUpper(x) && NoUpper(y)
    requires !IsStopWord(x) && !IsStopWord(y)
    requires !IsWord(c) && !IsSpace(c) && c != '/'
    ensures StrongNormalize(x + [c] + y) == x + " " + y
  {
    var n := x + [c] + y;
    JoinShape(x, c, y);
    NoStopWordLastRun(y);
    NoStopWordRun(x, c, y);
    StrongNormalizeWithoutStopWords(n);
    JoinCanonical(x, y);
    CanonicalCollapseStrip(x + " " + y);
  }

  /** `x + [c] + y` for words `x`, `y` and a punctuation character `c`. */
  lemma JoinShape(x: string, c: char, y: string)
    requires AllWord(x) && AllWord(y) && NoUpper(x) && NoUpper(y)
    requires !IsWord(c) && !IsSpace(c) && c != '/'
    ensures Lower(x + [c] + y) == x + [c] + y
    ensures NoSlash(x + [c] + y)
    ensures PunctToSpace(x + [c] + y) == x + " " + y
  {
    var n := x + [c] + y;
    assert forall k :: 0 <= k < |n| ==> n[k] == if k < |x| then x[k] else if k == |x| then c else y[k - |x| - 1];
    assert IsUpper(c) == false;
  }

  /** Two words joined by one space are canonical. */
  lemma JoinCanonical(x: string, y: string)
    requires x != [] && y != [] && AllWord(x) && AllWord(y)
    ensures Canonical(x + " " + y)
  {
    var n := x + " " + y;
    assert forall k :: 0 <= k < |n| ==> n[k] == if k < |x| then x[k] else if k == |x| then ' ' else y[k - |x| - 1];
  }
}

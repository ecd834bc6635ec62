/**
 * Scoring and the decision chain of `fuzzy_match`: the composite score, the
 * three threshold bands, and the `extractOne` pre-filter. The rapidfuzz scorers
 * are foreign and arrive as functions.
 */
module Scoring {
  import opened Wrappers

  /** `fuzz.token_set_ratio`, `fuzz.partial_ratio` and `fuzz.token_sort_ratio`. */
  datatype Scorers = Scorers(
    tokenSetRatio: (string, string) -> real,
    partialRatio: (string, string) -> real,
    tokenSortRatio: (string, string) -> real)

  predicate InRange(x: real) { 0.0 <= x <= 100.0 }

  /** `composite_score`: the best of the three scorers. */
  function CompositeScore(sc: Scorers, a: string, b: string): (r: real)
    ensures r >= sc.tokenSetRatio(a, b) && r >= sc.partialRatio(a, b) && r >= sc.tokenSortRatio(a, b)
    ensures r == sc.tokenSetRatio(a, b) || r == sc.partialRatio(a, b) || r == sc.tokenSortRatio(a, b)
  {
    var t, p, s := sc.tokenSetRatio(a, b), sc.partialRatio(a, b), sc.tokenSortRatio(a, b);
    var m := if p > t then p else t;
    if s > m then s else m
  }

  /** When the three scorers stay in [0, 100], so does the composite. */
  lemma CompositeInRange(sc: Scorers, a: string, b: string)
    requires InRange(sc.tokenSetRatio(a, b)) && InRange(sc.partialRatio(a, b)) && InRange(sc.tokenSortRatio(a, b))
    ensures InRange(CompositeScore(sc, a, b))
  {
  }

  const ScoreHighConf: real := 90.0
  const ScoreMedConf: real := 82.0
  const ScoreAiMin: real := 78.0

  /** The `score_cutoff` of the pre-filter, `SCORE_AI_MIN - 1`. */
  const PrefilterCutoff: real := ScoreAiMin - 1.0

  datatype Band = High | Medium | AiReview | Rejected

  /** The `if`/`elif` chain on the composite score. */
  function Decide(score: real): (d: Band)
    ensures d == High <==> score > 90.0
    ensures d == Medium <==> 82.0 <= score <= 90.0
    ensures d == AiReview <==> 78.0 <= score < 82.0
    ensures d == Rejected <==> score < 78.0
  {
    if score > ScoreHighConf then High
    else if score >= ScoreMedConf then Medium
    else if score >= ScoreAiMin then AiReview
    else Rejected
  }

  function Rank(d: Band): nat {
    match d
    case Rejected => 0
    case AiReview => 1
    case Medium => 2
    case High => 3
  }

  /** A higher score never lands in a lower band. */
  lemma DecideMonotone(s: real, t: real)
    requires s <= t
    ensures Rank(Decide(s)) <= Rank(Decide(t))
  {
  }

  /** A score of exactly 90 is medium confidence, not high. */
  lemma NinetyIsMedium()
    ensures Decide(90.0) == Medium
  {
  }

  /**
   * `rf_process.extractOne(query, choices, scorer=..., score_cutoff=cutoff)` scanned from `i`
   * with the best index so far: the first choice whose score is the greatest of those at or above
   * the cutoff.
   */
  function ExtractFrom(query: string, choices: seq<string>, scorer: (string, string) -> real,
                       cutoff: real, i: nat, best: Option<nat>): (r: Option<nat>)
    requires i <= |choices|
    requires best.Some? ==> best.value < i
    ensures r.Some? ==> r.value < |choices|
    decreases |choices| - i
  {
    if i == |choices| then best
    else
      var s := scorer(query, choices[i]);
      if s >= cutoff && (best.None? || s > scorer(query, choices[best.value])) then
        ExtractFrom(query, choices, scorer, cutoff, i + 1, Some(i))
      else
        ExtractFrom(query, choices, scorer, cutoff, i + 1, best)
  }

  function ExtractOne(query: string, choices: seq<string>, scorer: (string, string) -> real, cutoff: real): (r: Option<nat>)
    ensures r.Some? ==> r.value < |choices|
  {
    ExtractFrom(query, choices, scorer, cutoff, 0, None)
  }

  /** The best index so far is the first of greatest score among the choices before `i` that reach the cutoff. */
  ghost predicate BestBefore(query: string, choices: seq<string>, scorer: (string, string) -> real,
                             cutoff: real, i: nat, best: Option<nat>)
    requires i <= |choices|
  {
    && (best.None? ==> forall j :: 0 <= j < i ==> scorer(query, choices[j]) < cutoff)
    && (best.Some? ==>
          && best.value < i
          && scorer(query, choices[best.value]) >= cutoff
          && (forall j :: 0 <= j < i ==> scorer(query, choices[j]) <= scorer(query, choices[best.value]))
          && (forall j :: 0 <= j < best.value ==> scorer(query, choices[j]) < scorer(query, choices[best.value])))
  }

  lemma {:induction false} ExtractFromSpec(query: string, choices: seq<string>, scorer: (string, string) -> real,
                                           cutoff: real, i: nat, best: Option<nat>)
    requires i <= |choices| && BestBefore(query, choices, scorer, cutoff, i, best)
    ensures BestBefore(query, choices, scorer, cutoff, |choices|, ExtractFrom(query, choices, scorer, cutoff, i, best))
    decreases |choices| - i
  {
    if i < |choices| {
      var s := scorer(query, choices[i]);
      if s >= cutoff && (best.None? || s > scorer(query, choices[best.value])) {
        ExtractFromSpec(query, choices, scorer, cutoff, i + 1, Some(i));
      } else {
        ExtractFromSpec(query, choices, scorer, cutoff, i + 1, best);
      }
    }
  }

  /**
   * The pre-filter passes exactly when some choice reaches the cutoff, and then picks the first
   * choice of greatest score.
   */
  lemma ExtractOneSpec(query: string, choices: seq<string>, scorer: (string, string) -> real, cutoff: real)
    ensures var r := ExtractOne(query, choices, scorer, cutoff);
      && (r.None? <==> forall j :: 0 <= j < |choices| ==> scorer(query, choices[j]) < cutoff)
      && (r.Some? ==>
            && scorer(query, choices[r.value]) >= cutoff
            && (forall j :: 0 <= j < |choices| ==> scorer(query, choices[j]) <= scorer(query, choices[r.value]))
            && (forall j :: 0 <= j < r.value ==> scorer(query, choices[j]) < scorer(query, choices[r.value])))
  {
    ExtractFromSpec(query, choices, scorer, cutoff, 0, None);
  }

  /** A pair that passes the pre-filter has a composite score of at least 77. */
  lemma PrefilterBoundsComposite(sc: Scorers, query: string, choices: seq<string>)
    requires ExtractOne(query, choices, sc.tokenSetRatio, PrefilterCutoff).Some?
    ensures CompositeScore(sc, query, choices[ExtractOne(query, choices, sc.tokenSetRatio, PrefilterCutoff).value]) >= 77.0
  {
    ExtractOneSpec(query, choices, sc.tokenSetRatio, PrefilterCutoff);
  }
}

/**
 * What `fuzzy_match` decides for one crawled row: skip it, reject it, write a
 * confident match, or send the pair to the LLM for review.
 */
module Matcher {
  import opened Wrappers
  import opened Text
  import opened Numbers
  import opened StrongNorm
  import opened Records
  import opened Scoring
  import opened Blocking

  /** The four maps `build_indexes` returns. */
  datatype Indexes = Indexes(
    byPrefix3: map<string, seq<IndexedRow>>, namesPrefix3: map<string, seq<string>>,
    byToken1: map<string, seq<IndexedRow>>, namesToken1: map<string, seq<string>>)

  /** The indexes are those `build_indexes` makes from `abr`. */
  ghost predicate BuiltFrom(ix: Indexes, abr: seq<AbrRow>) {
    && IsIndex(ix.byPrefix3, abr, ByPrefix3) && ix.namesPrefix3 == NamesOf(ix.byPrefix3)
    && IsIndex(ix.byToken1, abr, ByToken1) && ix.namesToken1 == NamesOf(ix.byToken1)
  }

  function CandidatesFor(n: string, ix: Indexes): seq<Pair> {
    Candidates(n, ix.byPrefix3, ix.namesPrefix3, ix.byToken1, ix.namesToken1)
  }

  /**
   * The fate of one crawled row. `Skipped` rows have an empty strong norm or no candidates
   * and reach neither a counter nor the drain; `Unmatched` rows fail the pre-filter; the rest
   * reach the decision chain.
   */
  datatype Outcome =
    | Skipped
    | Unmatched
    | Direct(band: Band, record: MasterRecord)
    | Review(cc: CcRow, abr: AbrRow, score: real)
    | LowScore

  /** The row reached the `if`/`elif` chain, and with it the drain check. */
  predicate Decided(o: Outcome) {
    o.Direct? || o.Review? || o.LowScore?
  }

  /** The decision for a row with strong norm `n` that has candidates `c`. */
  function Judge(row: CcRow, n: string, c: seq<Pair>, sc: Scorers): Outcome {
    match ExtractOne(n, Seconds(c), sc.tokenSetRatio, PrefilterCutoff)
    case None => Unmatched
    case Some(idx) =>
      var a := c[idx].0;
      var score := CompositeScore(sc, n, a.strongNorm);
      match Decide(score)
      case High => Direct(High, BuildRecord(row, a.row, FuzzyHighConf, score))
      case Medium => Direct(Medium, BuildRecord(row, a.row, FuzzyMedConf, score))
      case AiReview => Review(row, a.row, score)
      case Rejected => LowScore
  }

  /** The body of the main loop, up to its writes. */
  function Classify(row: CcRow, ix: Indexes, sc: Scorers): Outcome {
    var n := StrongNormalize(row.normalizedName);
    if n == [] then Skipped
    else
      var c := CandidatesFor(n, ix);
      if c == [] then Skipped else Judge(row, n, c, sc)
  }

  /** Normalising, candidate retrieval, the pre-filter, the composite rescore and the decision. */
  method Assess(row: CcRow, ix: Indexes, sc: Scorers) returns (o: Outcome)
    ensures o == Classify(row, ix, sc)
  {
    var ccNorm := StrongNormalize(row.normalizedName);
    if ccNorm == [] {
      return Skipped;
    }
    var candidates, candidateNorms := GetCandidates(ccNorm, ix.byPrefix3, ix.namesPrefix3, ix.byToken1, ix.namesToken1);
    ghost var c := CandidatesFor(ccNorm, ix);
    if candidates == [] {
      assert c == [];
      return Skipped;
    }
    var best := ExtractOne(ccNorm, candidateNorms, sc.tokenSetRatio, PrefilterCutoff);
    if best.None? {
      return Unmatched;
    }
    var abrRow := candidates[best.value];
    assert abrRow == c[best.value].0;
    var score := CompositeScore(sc, ccNorm, abrRow.strongNorm);
    if score > ScoreHighConf {
      assert Decide(score) == High;
      o := Direct(High, BuildRecord(row, abrRow.row, FuzzyHighConf, score));
    } else if score >= ScoreMedConf {
      assert Decide(score) == Medium;
      o := Direct(Medium, BuildRecord(row, abrRow.row, FuzzyMedConf, score));
    } else if score >= ScoreAiMin {
      assert Decide(score) == AiReview;
      o := Review(row, abrRow.row, score);
    } else {
      assert Decide(score) == Rejected;
      o := LowScore;
    }
  }

  /** A row with candidates fails the pre-filter exactly when no candidate's token-set score reaches 77. */
  lemma UnmatchedIff(row: CcRow, ix: Indexes, sc: Scorers)
    requires var n := StrongNormalize(row.normalizedName); n != [] && CandidatesFor(n, ix) != []
    ensures var n := StrongNormalize(row.normalizedName);
      var c := CandidatesFor(n, ix);
      Classify(row, ix, sc).Unmatched? <==> forall j :: 0 <= j < |c| ==> sc.tokenSetRatio(n, c[j].1) < 77.0
  {
    var n := StrongNormalize(row.normalizedName);
    ExtractOneSpec(n, Seconds(CandidatesFor(n, ix)), sc.tokenSetRatio, PrefilterCutoff);
  }

  /**
   * Over indexes built from `abr`, a row that reaches the decision chain was compared with a
   * reference row of `abr` that shares the norm's prefix or first token, and the band matches
   * the composite score of that pair: a direct match is written under the reference row's ABN
   * and the crawled URL, with the band's method and the score, rounded to two decimals, as its confidence.
   */
  lemma DecidedSpec(abr: seq<AbrRow>, row: CcRow, ix: Indexes, sc: Scorers)
    requires BuiltFrom(ix, abr)
    requires Decided(Classify(row, ix, sc))
    ensures var n := StrongNormalize(row.normalizedName);
      var c := CandidatesFor(n, ix);
      var idx := ExtractOne(n, Seconds(c), sc.tokenSetRatio, PrefilterCutoff);
      && idx.Some?
      && var a := c[idx.value].0;
         var score := CompositeScore(sc, n, a.strongNorm);
         && a.row in abr && a.strongNorm == StrongNormalize(a.row.normalizedName)
         && (Prefix3(a.strongNorm) == Prefix3(n) || FirstToken(a.strongNorm) == FirstToken(n))
         && score >= 77.0
         && match Classify(row, ix, sc)
            case Direct(band, r) =>
              && band == Decide(score) && score >= 82.0
              && r.abn == a.row.abn && r.websiteUrl == row.websiteUrl && r.matchConfidence == Round2(score)
              && r.matchMethod == (if band == High then FuzzyHighConf else FuzzyMedConf)
            case Review(cc, ref, s) => cc == row && ref == a.row && s == score && 78.0 <= s < 82.0
            case LowScore => score < 78.0
            case _ => false
  {
    var n := StrongNormalize(row.normalizedName);
    var c := CandidatesFor(n, ix);
    var idx := ExtractOne(n, Seconds(c), sc.tokenSetRatio, PrefilterCutoff);
    CandidatesSound(abr, n, ix.byPrefix3, ix.namesPrefix3, ix.byToken1, ix.namesToken1);
    PrefilterBoundsComposite(sc, n, Seconds(c));
    var a := c[idx.value].0;
    assert c[idx.value] in c;
    var score := CompositeScore(sc, n, a.strongNorm);
    BuildRecordFitsColumns(row, a.row, FuzzyHighConf, score);
    BuildRecordFitsColumns(row, a.row, FuzzyMedConf, score);
  }
}

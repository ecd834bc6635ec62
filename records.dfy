/**
 * The rows the matcher reads and writes: reference rows from `staging.abr_clean`,
 * crawled rows from `staging.commoncrawl_clean`, and the `core.company_master`
 * table with its insert-if-absent semantics.
 */
module Records {
  import opened Wrappers
  import opened Text
  import opened Numbers
  import opened Frames

  /** A row of `staging.abr_clean` as `load_data` reads it. */
  datatype AbrRow = AbrRow(
    abn: string,
    entityName: string,
    normalizedName: string,
    entityType: Option<string>,
    entityStatus: Option<string>,
    state: Option<string>,
    postcode: Option<string>)

  /** A row of `staging.commoncrawl_raw`: the extractor writes it, the crawl cleaner reads it. */
  datatype CrawlRawRow = CrawlRawRow(websiteUrl: string, companyName: Option<string>, industry: Option<string>)

  /** A row of `staging.commoncrawl_clean` as `load_data` reads it. */
  datatype CcRow = CcRow(websiteUrl: string, companyName: string, normalizedName: string)

  /** A row of `core.company_master`. */
  datatype MasterRecord = MasterRecord(
    abn: string,
    websiteUrl: string,
    companyName: string,
    industry: Option<string>,
    entityType: Option<string>,
    entityStatus: Option<string>,
    state: Option<string>,
    postcode: Option<string>,
    matchMethod: string,
    matchConfidence: real)

  const FuzzyHighConf: string := "fuzzy_high_conf"
  const FuzzyMedConf: string := "fuzzy_med_conf"
  const AiValidated: string := "ai_validated"

  /** `str(x or "")` for a text column. */
  function OrEmpty(x: Option<string>): string {
    if x.Some? then x.value else ""
  }

  /** `s[:n]`. */
  function Take(s: string, n: nat): (r: string)
    ensures |r| == if |s| <= n then |s| else n
    ensures r == s[..|r|]
  {
    if |s| <= n then s else s[..n]
  }

  /** `re.fullmatch(r"\d{4}", s)`, over ASCII digits. */
  predicate IsPostcode(s: string) {
    |s| == 4 && forall k :: 0 <= k < 4 ==> IsDigit(s[k])
  }

  /** `_build_record`: the reference row's columns under the crawled row's URL, cut to the column widths, and the confidence rounded to two decimals. */
  function BuildRecord(cc: CcRow, abr: AbrRow, how: string, confidence: real): (r: MasterRecord)
    ensures r.abn == abr.abn && r.websiteUrl == cc.websiteUrl && r.companyName == abr.entityName
    ensures r.industry.None? && r.entityType == abr.entityType && r.entityStatus == abr.entityStatus
    ensures r.matchConfidence == Round2(confidence) && -0.005 <= r.matchConfidence - confidence <= 0.005
  {
    var rawState := Strip(OrEmpty(abr.state));
    var rawPostcode := Strip(OrEmpty(abr.postcode));
    var rawMethod := Strip(how);
    MasterRecord(
      abr.abn, cc.websiteUrl, abr.entityName, None, abr.entityType, abr.entityStatus,
      if rawState != [] then Some(Take(rawState, 3)) else None,
      if IsPostcode(rawPostcode) then Some(rawPostcode) else None,
      if rawMethod != [] then Take(rawMethod, 20) else how,
      Round2(confidence))
  }

  /** The postcode is kept, stripped, exactly when it is four digits. */
  lemma BuildRecordPostcode(cc: CcRow, abr: AbrRow, how: string, confidence: real)
    ensures var r := BuildRecord(cc, abr, how, confidence);
      (r.postcode.Some? <==> IsPostcode(Strip(OrEmpty(abr.postcode))))
      && (r.postcode.Some? ==> r.postcode.value == Strip(OrEmpty(abr.postcode)))
  {
  }

  /** The state is the first three characters of the stripped state, and missing when that is empty. */
  lemma BuildRecordState(cc: CcRow, abr: AbrRow, how: string, confidence: real)
    ensures var r := BuildRecord(cc, abr, how, confidence);
      var raw := Strip(OrEmpty(abr.state));
      (r.state.None? <==> raw == [])
      && (r.state.Some? ==>
            && r.state.value != [] && |r.state.value| <= 3
            && r.state.value == raw[..|r.state.value|]
            && (|raw| >= 3 ==> |r.state.value| == 3))
  {
  }

  /** The record fits `state VARCHAR(3)`, `postcode VARCHAR(4)` and, for the matcher's methods, `match_method VARCHAR(20)`. */
  lemma BuildRecordFitsColumns(cc: CcRow, abr: AbrRow, how: string, confidence: real)
    requires how == FuzzyHighConf || how == FuzzyMedConf || how == AiValidated
    ensures var r := BuildRecord(cc, abr, how, confidence);
      (r.state.Some? ==> |r.state.value| <= 3)
      && (r.postcode.Some? ==> |r.postcode.value| == 4)
      && r.matchMethod == how && |r.matchMethod| <= 20
  {
    assert Strip(how) == how by {
      assert StripLeft(how) == how;
      assert StripRight(how) == how;
    }
  }

  // ---------------------------------------------------------------------
  // core.company_master
  // ---------------------------------------------------------------------

  predicate SameKey(a: MasterRecord, b: MasterRecord) {
    a.abn == b.abn && a.websiteUrl == b.websiteUrl
  }

  /** The `WHERE NOT EXISTS` test of `_INSERT_MASTER`. */
  predicate HasKey(master: seq<MasterRecord>, r: MasterRecord) {
    exists i :: 0 <= i < |master| && SameKey(master[i], r)
  }

  /** At most one row per (abn, website_url). */
  predicate KeysUnique(master: seq<MasterRecord>) {
    forall i, j :: 0 <= i < j < |master| ==> !SameKey(master[i], master[j])
  }

  /** `_INSERT_MASTER`: the row is appended unless a row with its (abn, website_url) exists. */
  function InsertIfAbsent(master: seq<MasterRecord>, r: MasterRecord): (m: seq<MasterRecord>)
    ensures HasKey(m, r)
    ensures m == master || m == master + [r]
  {
    if HasKey(master, r) then master
    else
      assert SameKey((master + [r])[|master|], r);
      master + [r]
  }

  /** Inserting keeps the table free of duplicate keys. */
  lemma InsertKeepsKeysUnique(master: seq<MasterRecord>, r: MasterRecord)
    requires KeysUnique(master)
    ensures KeysUnique(InsertIfAbsent(master, r))
  {
    var m := InsertIfAbsent(master, r);
    if m != master {
      forall i, j | 0 <= i < j < |m| ensures !SameKey(m[i], m[j]) {
        if j == |master| {
          assert m[i] == master[i];
        }
      }
    }
  }

  /** Re-inserting a row whose key is present changes nothing. */
  lemma InsertExistingKey(master: seq<MasterRecord>, r: MasterRecord, r2: MasterRecord)
    requires HasKey(master, r) && SameKey(r, r2)
    ensures InsertIfAbsent(master, r2) == master
  {
    var i :| 0 <= i < |master| && SameKey(master[i], r);
    assert SameKey(master[i], r2);
  }

  /** Inserting the same row twice is inserting it once. */
  lemma InsertIdempotent(master: seq<MasterRecord>, r: MasterRecord)
    ensures InsertIfAbsent(InsertIfAbsent(master, r), r) == InsertIfAbsent(master, r)
  {
    InsertExistingKey(InsertIfAbsent(master, r), r, r);
  }

  /** Insertion keeps every existing key and adds only the inserted row's. */
  lemma InsertKeys(master: seq<MasterRecord>, r: MasterRecord, x: MasterRecord)
    ensures HasKey(InsertIfAbsent(master, r), x) <==> HasKey(master, x) || SameKey(r, x)
  {
    var m := InsertIfAbsent(master, r);
    if HasKey(master, x) {
      var i :| 0 <= i < |master| && SameKey(master[i], x);
      assert SameKey(m[i], x);
    }
    if SameKey(r, x) {
      var i :| 0 <= i < |m| && SameKey(m[i], r);
      assert SameKey(m[i], x);
    }
    if HasKey(m, x) && m != master && !HasKey(master, x) {
      var i :| 0 <= i < |m| && SameKey(m[i], x);
      assert i == |master|;
    }
  }

  /** The table after the inserts `ws`, in order. */
  function InsertAll(master: seq<MasterRecord>, ws: seq<MasterRecord>): seq<MasterRecord>
    decreases |ws|
  {
    if ws == [] then master else InsertIfAbsent(InsertAll(master, ws[..|ws| - 1]), ws[|ws| - 1])
  }

  lemma {:induction false} InsertAllAppend(master: seq<MasterRecord>, ws: seq<MasterRecord>, vs: seq<MasterRecord>)
    ensures InsertAll(InsertAll(master, ws), vs) == InsertAll(master, ws + vs)
    decreases |vs|
  {
    if vs == [] {
      assert ws + vs == ws;
    } else {
      InsertAllAppend(master, ws, vs[..|vs| - 1]);
      assert (ws + vs)[..|ws + vs| - 1] == ws + vs[..|vs| - 1];
    }
  }

  /**
   * A run of inserts never removes or changes a row, keeps the keys unique, and leaves exactly
   * the keys that were present or inserted.
   */
  lemma {:induction false} InsertAllSpec(master: seq<MasterRecord>, ws: seq<MasterRecord>)
    ensures var m := InsertAll(master, ws);
      && |master| <= |m| && m[..|master|] == master
      && (forall k :: |master| <= k < |m| ==> m[k] in ws)
      && (KeysUnique(master) ==> KeysUnique(m))
      && (forall x :: HasKey(m, x) <==> HasKey(master, x) || HasKey(ws, x))
    decreases |ws|
  {
    if ws != [] {
      var init, w := ws[..|ws| - 1], ws[|ws| - 1];
      var m0 := InsertAll(master, init);
      InsertAllSpec(master, init);
      if KeysUnique(m0) { InsertKeepsKeysUnique(m0, w); }
      var m := InsertIfAbsent(m0, w);
      assert m[..|m0|] == m0;
      assert m[..|master|] == m0[..|master|];
      assert forall k :: |master| <= k < |m0| ==> m[k] == m0[k];
      assert forall x :: x in init ==> x in ws;
      forall x ensures HasKey(m, x) <==> HasKey(master, x) || HasKey(ws, x) {
        InsertKeys(m0, w, x);
        HasKeySnoc(init, w, x);
      }
    }
  }

  /** The `(abn, website_url)` key of a row. */
  function RowKey(r: MasterRecord): (string, string) {
    (r.abn, r.websiteUrl)
  }

  /** The rows of `ws` whose key is not in `master`, in order. */
  function Unkeyed(master: seq<MasterRecord>, ws: seq<MasterRecord>): seq<MasterRecord>
    decreases |ws|
  {
    if ws == [] then []
    else
      var n := |ws| - 1;
      Unkeyed(master, ws[..n]) + (if HasKey(master, ws[n]) then [] else [ws[n]])
  }

  /**
   * The rows a run of inserts appends are, in order, the first row of `ws` for each key that
   * was not in the table before: exactly `drop_duplicates` on the rows with a new key.
   */
  lemma {:induction false} InsertAllFirstNew(master: seq<MasterRecord>, ws: seq<MasterRecord>)
    ensures InsertAll(master, ws) == master + KeepFirst(Unkeyed(master, ws), RowKey)
    decreases |ws|
  {
    if ws == [] {
      assert master + [] == master;
    } else {
      var n := |ws| - 1;
      var init, w := ws[..n], ws[n];
      InsertAllFirstNew(master, init);
      var us := Unkeyed(master, init);
      assert Unkeyed(master, ws) == us + (if HasKey(master, w) then [] else [w]);
      FirstNewStep(master, us, w);
    }
  }

  /** One insert of `InsertAllFirstNew`. */
  lemma FirstNewStep(master: seq<MasterRecord>, us: seq<MasterRecord>, w: MasterRecord)
    ensures InsertIfAbsent(master + KeepFirst(us, RowKey), w)
         == master + KeepFirst(us + (if HasKey(master, w) then [] else [w]), RowKey)
  {
    var ks := KeepFirst(us, RowKey);
    HasKeyAppend(master, ks, w);
    if HasKey(master, w) {
      assert us + [] == us;
    } else {
      assert (us + [w])[..|us|] == us;
      HasKeyIsKeyIn(ks, w);
      assert (master + ks) + [w] == master + (ks + [w]);
    }
  }

  lemma HasKeyAppend(a: seq<MasterRecord>, b: seq<MasterRecord>, r: MasterRecord)
    ensures HasKey(a + b, r) <==> HasKey(a, r) || HasKey(b, r)
  {
    var c := a + b;
    if HasKey(a, r) {
      var i :| 0 <= i < |a| && SameKey(a[i], r);
      assert SameKey(c[i], r);
    }
    if HasKey(b, r) {
      var i :| 0 <= i < |b| && SameKey(b[i], r);
      assert SameKey(c[|a| + i], r);
    }
    if HasKey(c, r) && !HasKey(a, r) {
      var i :| 0 <= i < |c| && SameKey(c[i], r);
      assert SameKey(b[i - |a|], r);
    }
  }

  lemma HasKeyIsKeyIn(ys: seq<MasterRecord>, r: MasterRecord)
    ensures HasKey(ys, r) <==> KeyIn(ys, RowKey, RowKey(r))
  {
    if KeyIn(ys, RowKey, RowKey(r)) {
      var j :| 0 <= j < |ys| && RowKey(ys[j]) == RowKey(r);
      assert SameKey(ys[j], r);
    }
    if HasKey(ys, r) {
      var j :| 0 <= j < |ys| && SameKey(ys[j], r);
      assert RowKey(ys[j]) == RowKey(r);
    }
  }

  lemma HasKeySnoc(ws: seq<MasterRecord>, w: MasterRecord, x: MasterRecord)
    ensures HasKey(ws + [w], x) <==> HasKey(ws, x) || SameKey(w, x)
  {
    var vs := ws + [w];
    if HasKey(ws, x) {
      var i :| 0 <= i < |ws| && SameKey(ws[i], x);
      assert SameKey(vs[i], x);
    }
    if SameKey(w, x) {
      assert SameKey(vs[|ws|], x);
    }
    if HasKey(vs, x) && !SameKey(w, x) {
      var i :| 0 <= i < |vs| && SameKey(vs[i], x);
      assert SameKey(ws[i], x);
    }
  }
}

/**
 * `ABRCleaner`: the rows of `staging.abr_raw` whose entity name is present and not blank
 * and whose status is "ACT" are kept, the name is stripped and title-cased, a normalised
 * name is derived from it, and the first row of every ABN goes into `staging.abr_clean`.
 */
module CleanAbr {
  import opened Wrappers
  import opened Text
  import opened Frames
  import opened NameCleaning

  /** A row of `staging.abr_raw`, as the cleaner selects it. */
  datatype AbrRawRow = AbrRawRow(
    abn: string,
    entityName: Option<string>,
    entityType: Option<string>,
    entityStatus: Option<string>,
    addressLine: Option<string>,
    postcode: Option<string>,
    state: Option<string>,
    startDate: Option<string>)

  /** A row of `staging.abr_clean`: the raw columns, the cleaned name and its normal form. */
  datatype AbrCleanRow = AbrCleanRow(
    abn: string,
    entityName: string,
    entityType: Option<string>,
    entityStatus: Option<string>,
    addressLine: Option<string>,
    postcode: Option<string>,
    state: Option<string>,
    startDate: Option<string>,
    normalizedName: Option<string>)

  /** The only status kept. */
  const Active: string := "ACT"

  /**
   * `normalize_name`: `None` for a missing or empty name; otherwise the lower-cased name with
   * the legal suffixes deleted where they stand whole, and then tidied.
   */
  function NormalizeName(name: Option<string>): (r: Option<string>)
    ensures r.None? <==> name.None? || name.value == []
  {
    if name.None? || name.value == [] then None
    else Some(Tidy(DeleteLegalSuffixes(Lower(name.value))))
  }

  /** A normalised name is lower-case words of word characters separated by single spaces, with no outer whitespace. */
  lemma NormalizeNameShape(name: Option<string>)
    requires NormalizeName(name).Some?
    ensures Canonical(NormalizeName(name).value) && NoUpper(NormalizeName(name).value)
  {
    var l := Lower(name.value);
    NoUpperChars(l, DeleteLegalSuffixes(l));
    TidyShape(DeleteLegalSuffixes(l));
  }

  /** A name already in that form, in which no legal suffix stands whole, is its own normal form. */
  lemma NormalizeNameFixed(name: string)
    requires name != [] && Canonical(name) && NoUpper(name) && NoLegalSuffix(name)
    ensures NormalizeName(Some(name)) == Some(name)
  {
    LowerNoUpper(name);
    DeleteLegalSuffixesNone(name);
    TidyCanonical(name);
  }

  /** A name made of legal suffixes only, such as "Pty Ltd", normalises to the empty string, not to `None`. */
  lemma NormalizePtyLtd(name: string)
    requires name == "Pty Ltd"
    ensures NormalizeName(Some(name)) == Some("")
  {
    var s := Lower(name);
    assert s == "pty ltd";
    var w := "pty ltd";
    assert s[0..7] == w;
    assert WholeWordSub(s, w) == "";
    WholeWordSubAbsent("", "ltd");
    WholeWordSubAbsent("", "limited");
    WholeWordSubAbsent("", "pty");
    assert Tidy("") == "";
  }

  /**
   * One raw row through the masks and assignments of `run` before `drop_duplicates`:
   * `None` when a mask drops it.
   */
  function CleanRowOf(r: AbrRawRow): Option<AbrCleanRow> {
    if r.entityName.None? || Strip(r.entityName.value) == [] || r.entityStatus != Some(Active) then None
    else
      var name := Title(Strip(r.entityName.value));
      Some(AbrCleanRow(
        r.abn, name, r.entityType, r.entityStatus, r.addressLine, r.postcode, r.state, r.startDate,
        NormalizeName(Some(name))))
  }

  function AbnKey(c: AbrCleanRow): string {
    c.abn
  }

  /** The cleaning of `run`: the masks, the two column assignments and `drop_duplicates(subset=["abn"])`. */
  function CleanAbr(rows: seq<AbrRawRow>): seq<AbrCleanRow> {
    KeepFirst(FilterMap(rows, CleanRowOf), AbnKey)
  }

  /**
   * The cleaned frame, on the raw one: in input order, exactly the rows with a present,
   * non-blank name and status "ACT" that come first among such rows for their ABN. Each keeps
   * its ABN and other columns, its name is the raw name stripped and title-cased, which is not
   * blank, and its normalised name is the normal form of that name. ABNs are unique, and every
   * ABN of a kept raw row is in the frame.
   */
  lemma CleanAbrSpec(rows: seq<AbrRawRow>) returns (idx: seq<nat>)
    ensures var out := CleanAbr(rows);
      && CleanedFrom(rows, CleanRowOf, AbnKey, out, idx)
      && KeysDistinct(out, AbnKey)
      && (forall i :: 0 <= i < |rows| && CleanRowOf(rows[i]).Some? ==> KeyIn(out, AbnKey, rows[i].abn))
      && forall k :: 0 <= k < |out| ==>
           var raw := rows[idx[k]];
           && raw.entityName.Some? && Strip(raw.entityName.value) != []
           && out[k].entityStatus == Some(Active)
           && out[k].abn == raw.abn && out[k].entityType == raw.entityType
           && out[k].addressLine == raw.addressLine && out[k].postcode == raw.postcode
           && out[k].state == raw.state && out[k].startDate == raw.startDate
           && out[k].entityName == Title(Strip(raw.entityName.value))
           && out[k].entityName != [] && !IsSpace(out[k].entityName[0])
           && !IsSpace(out[k].entityName[|out[k].entityName| - 1])
           && IsTitleCased(out[k].entityName)
           && out[k].normalizedName == NormalizeName(Some(out[k].entityName))
           && out[k].normalizedName.Some?
  {
    idx := CleanedRows(rows, CleanRowOf, AbnKey);
    CleanedKeys(rows, CleanRowOf, AbnKey);
    var out := CleanAbr(rows);
    forall k | 0 <= k < |out|
      ensures out[k].entityName != [] && !IsSpace(out[k].entityName[0])
      ensures !IsSpace(out[k].entityName[|out[k].entityName| - 1]) && IsTitleCased(out[k].entityName)
    {
      var raw := rows[idx[k]];
      assert CleanRowOf(raw) == Some(out[k]);
      TitleStripShape(raw.entityName.value);
    }
  }

  /** A row whose name normalises to "" is kept: this cleaner drops no row for its normal form. */
  lemma EmptyNormalFormKept(rows: seq<AbrRawRow>)
    requires rows == [AbrRawRow("12345678901", Some("Pty Ltd"), None, Some(Active), None, None, None, None)]
    ensures CleanAbr(rows) == [AbrCleanRow("12345678901", "Pty Ltd", None, Some(Active), None, None, None, None, Some(""))]
  {
    var n := "Pty Ltd";
    assert !IsSpace(n[0]) && !IsSpace(n[|n| - 1]);
    assert StripLeft(n) == n && Strip(n) == n;
    assert Title(n) == n;
    NormalizePtyLtd(n);
    var c := AbrCleanRow("12345678901", n, None, Some(Active), None, None, None, None, Some(""));
    assert CleanRowOf(rows[0]) == Some(c);
    assert rows[..0] == [];
    assert FilterMap(rows, CleanRowOf) == [c];
    assert [c][..0] == [];
  }
}

/**
 * `CommonCrawlCleaner`: the crawled rows of `staging.commoncrawl_raw` are filtered on
 * their company name, the name is cut at the first " - ", stripped and title-cased, a
 * normalised name is derived from it, and rows are de-duplicated on that normalised name
 * into `staging.commoncrawl_clean`.
 */
module CleanCommonCrawl {
  import opened Wrappers
  import opened Text
  import opened Records
  import opened Frames
  import opened NameCleaning

  /** `re.sub(r"\bintroducing\b", "", s)`, then the same for "official website", "home" and "welcome", in this order. */
  function DeleteMarketing(s: string): (r: string)
    ensures forall c :: c in r ==> c in s
  {
    var s := WholeWordSub(s, "introducing");
    var s := WholeWordSub(s, "official website");
    var s := WholeWordSub(s, "home");
    WholeWordSub(s, "welcome")
  }

  /** None of the marketing phrases stands whole in `s`. */
  predicate NoMarketingWord(s: string) {
    !HasWholeWord(s, "introducing") && !HasWholeWord(s, "official website") && !HasWholeWord(s, "home") && !HasWholeWord(s, "welcome")
  }

  lemma MarketingPhrases()
    ensures Phrase("introducing") && Phrase("official website") && Phrase("home") && Phrase("welcome")
  {
    var p := "official website";
    assert forall t :: 0 <= t < |p| - 1 ==> IsWord(p[t]) || IsWord(p[t + 1]);
  }

  /**
   * After the marketing deletions none of the marketing phrases stands whole, and no legal
   * suffix stands whole again.
   */
  lemma DeleteMarketingDeletes(s: string)
    requires NoLegalSuffix(s)
    ensures NoLegalSuffix(DeleteMarketing(s)) && NoMarketingWord(DeleteMarketing(s))
  {
    MarketingPhrases();
    var s1 := WholeWordSub(s, "introducing");
    WholeWordSubDeletes(s, "introducing");
    KeepsNoLegalSuffix(s, "introducing");
    var s2 := WholeWordSub(s1, "official website");
    WholeWordSubDeletes(s1, "official website");
    WholeWordSubKeepsAbsent(s1, "official website", "introducing");
    KeepsNoLegalSuffix(s1, "official website");
    var s3 := WholeWordSub(s2, "home");
    WholeWordSubDeletes(s2, "home");
    WholeWordSubKeepsAbsent(s2, "home", "introducing");
    WholeWordSubKeepsAbsent(s2, "home", "official website");
    KeepsNoLegalSuffix(s2, "home");
    WholeWordSubDeletes(s3, "welcome");
    WholeWordSubKeepsAbsent(s3, "welcome", "introducing");
    WholeWordSubKeepsAbsent(s3, "welcome", "official website");
    WholeWordSubKeepsAbsent(s3, "welcome", "home");
    KeepsNoLegalSuffix(s3, "welcome");
  }

  /** Before punctuation goes, none of the eight listed words stands whole in the lower-cased name. */
  lemma NormalizeNameDeletesWords(name: string)
    ensures var d := DeleteMarketing(DeleteLegalSuffixes(Lower(name)));
      NoLegalSuffix(d) && NoMarketingWord(d)
  {
    DeleteLegalSuffixesDeletes(Lower(name));
    DeleteMarketingDeletes(DeleteLegalSuffixes(Lower(name)));
  }

  /**
   * `normalize_name`: `None` for a missing or empty name; otherwise the lower-cased name with
   * the legal suffixes and then the marketing phrases deleted where they stand whole, and
   * then tidied.
   */
  function NormalizeName(name: Option<string>): (r: Option<string>)
    ensures r.None? <==> name.None? || name.value == []
  {
    if name.None? || name.value == [] then None
    else Some(Tidy(DeleteMarketing(DeleteLegalSuffixes(Lower(name.value)))))
  }

  /** A normalised name is lower-case words of word characters separated by single spaces, with no outer whitespace. */
  lemma NormalizeNameShape(name: Option<string>)
    requires NormalizeName(name).Some?
    ensures Canonical(NormalizeName(name).value) && NoUpper(NormalizeName(name).value)
  {
    var l := Lower(name.value);
    var d := DeleteMarketing(DeleteLegalSuffixes(l));
    NoUpperChars(l, d);
    TidyShape(d);
  }

  /** A name already in that form, in which none of the deleted words stands whole, is its own normal form. */
  lemma NormalizeNameFixed(name: string)
    requires name != [] && Canonical(name) && NoUpper(name)
    requires NoLegalSuffix(name) && NoMarketingWord(name)
    ensures NormalizeName(Some(name)) == Some(name)
  {
    LowerNoUpper(name);
    DeleteLegalSuffixesNone(name);
    WholeWordSubNone(name, "introducing");
    WholeWordSubNone(name, "official website");
    WholeWordSubNone(name, "home");
    WholeWordSubNone(name, "welcome");
    TidyCanonical(name);
  }

  // ---------------------------------------------------------------------
  // clean_dataframe
  // ---------------------------------------------------------------------

  /** A row of `staging.commoncrawl_clean`: the raw columns with the cleaned name and its normal form. */
  datatype CleanRow = CleanRow(websiteUrl: string, companyName: string, industry: Option<string>, normalizedName: string)

  /** The length of the run of digits at the start of `s[i..]`, as an end position. */
  function DigitRunEnd(s: string, i: nat): (e: nat)
    requires i <= |s|
    ensures i <= e <= |s|
    ensures forall p :: i <= p < e ==> IsDigit(s[p])
    ensures e == |s| || !IsDigit(s[e])
    decreases |s| - i
  {
    if i < |s| && IsDigit(s[i]) then DigitRunEnd(s, i + 1) else i
  }

  /** `str.match(r"^\d+$")`: digits up to the end, or up to a final newline, which `$` also accepts. */
  predicate AllDigits(s: string) {
    var n := if s != [] && s[|s| - 1] == '\n' then |s| - 1 else |s|;
    0 < n && forall k :: 0 <= k < n ==> IsDigit(s[k])
  }

  /** `str.match(r"^\d+\s+\w+")`: digits, whitespace and a word character, as an address starts. */
  predicate AddressLike(s: string) {
    var d := DigitRunEnd(s, 0);
    0 < d && var e := SpaceRunEnd(s, d); d < e < |s| && IsWord(s[e])
  }

  /** `str.contains(r"\.au$", case=False)`: ".au" in any case at the end, or before a final newline. */
  predicate DomainLike(s: string) {
    var l := Lower(s);
    EndsWith(l, ".au") || EndsWith(l, ".au\n")
  }

  /** `str.match(r"^\d")`. */
  predicate StartsWithDigit(s: string) {
    s != [] && IsDigit(s[0])
  }

  /** The masks applied to the raw company name, in their order. */
  predicate RawNameKept(name: Option<string>) {
    && name.Some?
    && Strip(name.value) != []
    && !AllDigits(name.value)
    && !AddressLike(name.value)
    && !DomainLike(name.value)
    && |name.value| >= 4
    && !StartsWithDigit(name.value)
  }

  /** `s.find(sep, i)`, or the length of `s` when `sep` does not start at or after `i`. */
  function FindFrom(s: string, sep: string, i: nat): (e: nat)
    requires sep != [] && i <= |s|
    ensures i <= e <= |s|
    ensures forall j :: i <= j < e ==> !StartsAt(s, j, sep)
    ensures e < |s| ==> StartsAt(s, e, sep)
    decreases |s| - i
  {
    if i == |s| || StartsAt(s, i, sep) then i else FindFrom(s, sep, i + 1)
  }

  /** `s.split(sep)[0]`: `s` up to where `sep` first starts, or all of `s`. */
  function SplitHead(s: string, sep: string): string
    requires sep != []
  {
    s[..FindFrom(s, sep, 0)]
  }

  /** `x.split(" - ")[0] if " - " in x else x`, then `.str.strip().str.title()`. */
  function CleanName(raw: string): string {
    Title(Strip(SplitHead(raw, " - ")))
  }

  /**
   * One raw row through every mask and assignment of `clean_dataframe` before
   * `drop_duplicates`: `None` when some mask drops it.
   */
  function CleanRowOf(r: CrawlRawRow): Option<CleanRow> {
    if !RawNameKept(r.companyName) then None
    else
      var name := CleanName(r.companyName.value);
      var norm := NormalizeName(Some(name));
      if norm.None? || Strip(norm.value) == [] then None
      else Some(CleanRow(r.websiteUrl, name, r.industry, norm.value))
  }

  function NormKey(c: CleanRow): string {
    c.normalizedName
  }

  /** `clean_dataframe`. */
  function CleanDataframe(rows: seq<CrawlRawRow>): seq<CleanRow> {
    KeepFirst(FilterMap(rows, CleanRowOf), NormKey)
  }

  /** The two digit masks are subsumed by the later "starts with a digit" mask. */
  lemma DigitMasksSubsumed(s: string)
    ensures AllDigits(s) || AddressLike(s) ==> StartsWithDigit(s)
  {
    if AddressLike(s) {
      var d := DigitRunEnd(s, 0);
      assert 0 < d;
      assert IsDigit(s[0]);
    }
  }

  /**
   * A raw row survives the masks and assignments exactly when its name is present, not blank,
   * at least four characters long, does not start with a digit and does not end in ".au" in
   * any case, and the normal form of its cleaned name is present and not empty.
   */
  lemma CleanRowOfSpec(r: CrawlRawRow)
    ensures CleanRowOf(r).Some? <==>
      && r.companyName.Some?
      && var n := r.companyName.value;
         && Strip(n) != [] && |n| >= 4 && !IsDigit(n[0]) && !DomainLike(n)
         && var norm := NormalizeName(Some(CleanName(n)));
            norm.Some? && norm.value != []
  {
    if r.companyName.Some? {
      var n := r.companyName.value;
      DigitMasksSubsumed(n);
      var c := CleanName(n);
      if c != [] {
        TidyBlank(DeleteMarketing(DeleteLegalSuffixes(Lower(c))));
      }
    }
  }

  /**
   * The cleaned frame, on the raw one: in input order, exactly the rows that survive the masks
   * and whose normalised name no earlier surviving row has; each keeps its URL and industry,
   * its name is the cleaned name, stripped and title-cased, and its normalised name is the
   * non-empty normal form of that name. Every surviving normalised name appears exactly once.
   */
  lemma CleanDataframeSpec(rows: seq<CrawlRawRow>) returns (idx: seq<nat>)
    ensures var out := CleanDataframe(rows);
      && CleanedFrom(rows, CleanRowOf, NormKey, out, idx)
      && KeysDistinct(out, NormKey)
      && (forall i :: 0 <= i < |rows| && CleanRowOf(rows[i]).Some? ==> KeyIn(out, NormKey, NormKey(CleanRowOf(rows[i]).value)))
      && forall k :: 0 <= k < |out| ==>
           var raw := rows[idx[k]];
           && raw.companyName.Some?
           && out[k].websiteUrl == raw.websiteUrl && out[k].industry == raw.industry
           && out[k].companyName == CleanName(raw.companyName.value)
           && Some(out[k].normalizedName) == NormalizeName(Some(out[k].companyName))
           && out[k].normalizedName != []
           && IsTitleCased(out[k].companyName)
  {
    idx := CleanedRows(rows, CleanRowOf, NormKey);
    CleanedKeys(rows, CleanRowOf, NormKey);
    var out := CleanDataframe(rows);
    forall k | 0 <= k < |out|
      ensures out[k].normalizedName != [] && IsTitleCased(out[k].companyName)
    {
      var raw := rows[idx[k]];
      assert CleanRowOf(raw) == Some(out[k]);
      TitleStripShape(SplitHead(raw.companyName.value, " - "));
      assert Strip([]) == [];
    }
  }

  // ---------------------------------------------------------------------
  // Examples
  // ---------------------------------------------------------------------

  /** "Home Pty Ltd" consists of deleted words only, so its normal form is empty. */
  lemma NormalizeHomePtyLtd(name: string)
    requires name == "Home Pty Ltd"
    ensures NormalizeName(Some(name)) == Some("")
  {
    var l := Lower(name);
    assert l == "home pty ltd";
    HomePtyLtdSuffixes(l);
    HomeMarketing("home ");
    assert Tidy(" ") == "";
  }

  lemma HomePtyLtdSuffixes(s: string)
    requires s == "home pty ltd"
    ensures DeleteLegalSuffixes(s) == "home "
  {
    var w := "pty ltd";
    assert s[5..12] == w;
    assert WholeWordSubFrom(s, w, 12) == [];
    assert WholeWordSubFrom(s, w, 5) == [];
    assert s[4] != w[0] && s[0] != w[0];
    assert WholeWordSubFrom(s, w, 4) == " ";
    assert WholeWordSubFrom(s, w, 3) == "e ";
    assert WholeWordSubFrom(s, w, 2) == "me ";
    assert WholeWordSubFrom(s, w, 1) == "ome ";
    assert WholeWordSub(s, w) == "home ";
    WholeWordSubAbsent("home ", "ltd");
    WholeWordSubAbsent("home ", "limited");
    WholeWordSubAbsent("home ", "pty");
  }

  lemma HomeMarketing(s: string)
    requires s == "home "
    ensures DeleteMarketing(s) == " "
  {
    var w := "home";
    WholeWordSubAbsent(s, "introducing");
    WholeWordSubAbsent(s, "official website");
    assert s[0..4] == w;
    assert WholeWordSubFrom(s, w, 5) == [];
    assert WholeWordSubFrom(s, w, 4) == " ";
    assert WholeWordSub(s, w) == " ";
    WholeWordSubAbsent(" ", "welcome");
  }

  /**
   * Normalising twice is not normalising once: punctuation is deleted after the words, so
   * "Hom.e" gives "home", which is itself a deleted word, and "home" gives "".
   */
  lemma NormalizeNameNotIdempotent(name: string)
    requires name == "Hom.e"
    ensures NormalizeName(Some(name)) == Some("home")
    ensures NormalizeName(NormalizeName(Some(name))) == Some("")
  {
    var l := Lower(name);
    assert l == "hom.e";
    HomUnchanged(l);
    HomTidy(l);
    var h := "home";
    assert Lower(h) == h;
    HomeDeleted(h);
    assert Tidy("") == "";
  }

  lemma HomUnchanged(s: string)
    requires s == "hom.e"
    ensures DeleteMarketing(DeleteLegalSuffixes(s)) == s
  {
    WholeWordSubAbsent(s, "pty ltd");
    WholeWordSubAbsent(s, "ltd");
    WholeWordSubAbsent(s, "limited");
    WholeWordSubAbsent(s, "pty");
    WholeWordSubAbsent(s, "introducing");
    WholeWordSubAbsent(s, "official website");
    var w := "home";
    assert s[3] != w[3];
    assert !StartsAt(s, 0, w) && !StartsAt(s, 1, w) && !StartsAt(s, 2, w);
    assert WholeWordSubFrom(s, w, 5) == [];
    assert WholeWordSubFrom(s, w, 4) == "e";
    assert WholeWordSubFrom(s, w, 3) == ".e";
    assert WholeWordSubFrom(s, w, 2) == "m.e";
    assert WholeWordSubFrom(s, w, 1) == "om.e";
    assert WholeWordSub(s, w) == s;
    WholeWordSubAbsent(s, "welcome");
  }

  lemma HomTidy(s: string)
    requires s == "hom.e"
    ensures Tidy(s) == "home"
  {
    HomPunct(s);
    var h := "home";
    assert Canonical(h);
    CanonicalCollapseStrip(h);
  }

  lemma HomPunct(s: string)
    requires s == "hom.e"
    ensures DeletePunct(s) == "home"
  {
    assert s[1..] == "om.e";
    assert s[1..][1..] == "m.e";
    assert s[1..][1..][1..] == ".e";
    assert s[1..][1..][1..][1..] == "e";
    assert DeletePunct("e") == "e";
    assert DeletePunct(".e") == "e";
    assert DeletePunct("m.e") == "me";
    assert DeletePunct("om.e") == "ome";
  }

  lemma HomeDeleted(s: string)
    requires s == "home"
    ensures DeleteMarketing(DeleteLegalSuffixes(s)) == ""
  {
    WholeWordSubAbsent(s, "pty ltd");
    WholeWordSubAbsent(s, "ltd");
    WholeWordSubAbsent(s, "limited");
    WholeWordSubAbsent(s, "pty");
    WholeWordSubAbsent(s, "introducing");
    WholeWordSubAbsent(s, "official website");
    var w := "home";
    assert s[0..4] == w;
    assert WholeWordSub(s, w) == "";
    WholeWordSubAbsent("", "welcome");
  }

  /** The length mask comes before the cut at " - ", so a kept name may be shorter than four characters. */
  lemma ShortNameKept(rows: seq<CrawlRawRow>)
    requires rows == [CrawlRawRow("http://ab.com.au", Some("Ab - Cdef"), None)]
    ensures CleanDataframe(rows) == [CleanRow("http://ab.com.au", "Ab", None, "ab")]
    ensures |CleanDataframe(rows)[0].companyName| < 4
  {
    var c := CleanRow("http://ab.com.au", "Ab", None, "ab");
    AbRow(rows[0]);
    assert rows[..0] == [];
    assert FilterMap(rows, CleanRowOf) == [c];
    assert [c][..0] == [];
  }

  lemma AbRow(r: CrawlRawRow)
    requires r == CrawlRawRow("http://ab.com.au", Some("Ab - Cdef"), None)
    ensures CleanRowOf(r) == Some(CleanRow("http://ab.com.au", "Ab", None, "ab"))
  {
    var n := r.companyName.value;
    AbMasks(n);
    AbSplit(n);
    var a := "Ab";
    assert Strip(a) == a;
    assert Title(a) == a;
    AbNormal(a);
    assert Strip("ab") == "ab";
  }

  lemma AbMasks(n: string)
    requires n == "Ab - Cdef"
    ensures RawNameKept(Some(n))
  {
    assert n[|n| - 1] == 'f' && !IsDigit(n[0]);
    assert !AllDigits(n) && !AddressLike(n) && !StartsWithDigit(n);
    var l := Lower(n);
    assert l[|l| - 1] == 'f';
    assert !DomainLike(n);
    assert !IsSpace(n[0]) && !IsSpace(n[|n| - 1]);
    assert StripLeft(n) == n;
  }

  lemma AbSplit(n: string)
    requires n == "Ab - Cdef"
    ensures SplitHead(n, " - ") == "Ab"
  {
    var sep := " - ";
    assert n[0] != sep[0] && n[1] != sep[0];
    assert n[2..5] == sep;
    assert FindFrom(n, sep, 2) == 2;
  }

  lemma AbNormal(a: string)
    requires a == "Ab"
    ensures NormalizeName(Some(a)) == Some("ab")
  {
    var s := Lower(a);
    assert s == "ab";
    WholeWordSubAbsent(s, "pty ltd");
    WholeWordSubAbsent(s, "ltd");
    WholeWordSubAbsent(s, "limited");
    WholeWordSubAbsent(s, "pty");
    WholeWordSubAbsent(s, "introducing");
    WholeWordSubAbsent(s, "official website");
    WholeWordSubAbsent(s, "home");
    WholeWordSubAbsent(s, "welcome");
    assert Canonical(s);
    TidyCanonical(s);
  }
}

/**
 * `FastCommonCrawlExtractor`: the hostnames of the Common Crawl index pages for `*.au`
 * that end in ".au" are collected once each, in the order first seen, and written in
 * batches to `staging.commoncrawl_raw` with a company name guessed from the domain.
 */
module CrawlExtractor {
  import opened Wrappers
  import opened Text
  import opened Records
  import opened Frames

  // ---------------------------------------------------------------------
  // Domains
  // ---------------------------------------------------------------------

  /** `is_valid_domain`: a present, non-empty hostname whose lower-cased form ends in ".au". */
  predicate IsValidDomain(domain: Option<string>) {
    domain.Some? && domain.value != [] && EndsWith(Lower(domain.value), ".au")
  }

  /** A valid domain is one whose last three characters are '.', then 'a' or 'A', then 'u' or 'U'. */
  lemma IsValidDomainChars(domain: Option<string>)
    ensures IsValidDomain(domain) <==>
      && domain.Some?
      && var s := domain.value;
         && |s| >= 3 && s[|s| - 3] == '.'
         && (s[|s| - 2] == 'a' || s[|s| - 2] == 'A')
         && (s[|s| - 1] == 'u' || s[|s| - 1] == 'U')
  {
    if domain.Some? && |domain.value| >= 3 {
      var s := domain.value;
      var l := Lower(s);
      assert l[|l| - 3..] == [l[|s| - 3], l[|s| - 2], l[|s| - 1]];
    }
  }

  /**
   * `domain_to_company_name`: lower-case, delete "www." and the suffixes ".com.au", ".net.au",
   * ".org.au", ".asn.au" and ".au" wherever they occur (in that order), turn hyphens into
   * spaces, strip and title-case.
   */
  function DomainToCompanyName(domain: string): string {
    var name := Lower(domain);
    var name := ReplaceAll(name, "www.", "");
    var name := ReplaceAll(name, ".com.au", "");
    var name := ReplaceAll(name, ".net.au", "");
    var name := ReplaceAll(name, ".org.au", "");
    var name := ReplaceAll(name, ".asn.au", "");
    var name := ReplaceAll(name, ".au", "");
    var name := ReplaceAll(name, "-", " ");
    Title(Strip(name))
  }

  /** `str.replace` with a one-character pattern leaves no occurrence of that character behind. */
  lemma {:induction false} ReplaceAllRemovesChar(s: string, c: char, rep: string)
    requires c !in rep
    ensures c !in ReplaceAll(s, [c], rep)
    decreases |s|
  {
    if |s| >= 1 {
      ReplaceAllRemovesChar(s[1..], c, rep);
      if s[..1] != [c] {
        assert s[0] != c;
      }
    }
  }

  /** Everything in `str.strip(s)` is in `s`. */
  lemma StripChars(s: string)
    ensures forall c :: c in Strip(s) ==> c in s
  {
    StripLeftSuffix(s);
    StripRightPrefix(StripLeft(s));
  }

  /**
   * The guessed name has no hyphen and no outer whitespace, is title-cased, and up to case
   * every character of it is a character of the domain or a space.
   */
  lemma DomainToCompanyNameShape(domain: string)
    ensures var r := DomainToCompanyName(domain);
      && '-' !in r
      && (r == [] || (!IsSpace(r[0]) && !IsSpace(r[|r| - 1])))
      && IsTitleCased(r)
      && forall k :: 0 <= k < |r| ==> LowerChar(r[k]) == ' ' || LowerChar(r[k]) in Lower(domain)
  {
    var l := Lower(domain);
    var m := ReplaceAll(ReplaceAll(ReplaceAll(l, "www.", ""), ".com.au", ""), ".net.au", "");
    var n := ReplaceAll(ReplaceAll(ReplaceAll(m, ".org.au", ""), ".asn.au", ""), ".au", "");
    var h := ReplaceAll(n, "-", " ");
    ReplaceAllRemovesChar(n, '-', " ");
    assert forall c :: c in h ==> c in l || c == ' ';
    var t := Strip(h);
    StripChars(h);
    TitleStripShape(h);
    TitleShape(t);
    var r := Title(t);
    assert r == DomainToCompanyName(domain);
    forall k | 0 <= k < |r|
      ensures r[k] != '-'
      ensures LowerChar(r[k]) == ' ' || LowerChar(r[k]) in l
    {
      assert t[k] in h;
      assert t[k] in l || t[k] == ' ';
      if t[k] in l {
        var j :| 0 <= j < |l| && l[j] == t[k];
        assert !IsUpper(t[k]);
      }
      assert LowerChar(r[k]) == t[k];
    }
  }

  /** Lower-casing the domain first changes nothing: the guess depends on the domain only up to case. */
  lemma DomainToCompanyNameCase(domain: string)
    ensures DomainToCompanyName(Lower(domain)) == DomainToCompanyName(domain)
  {
    assert Lower(Lower(domain)) == Lower(domain);
  }

  /** `str.replace` on a string that lacks one of the pattern's characters changes nothing. */
  lemma {:induction false} ReplaceAllAbsent(s: string, pat: string, rep: string, c: char)
    requires pat != [] && c in pat && c !in s
    ensures ReplaceAll(s, pat, rep) == s
    decreases |s|
  {
    if |s| >= |pat| {
      assert s[..|pat|] != pat by {
        var j :| 0 <= j < |pat| && pat[j] == c;
        assert s[..|pat|][j] == s[j];
      }
      ReplaceAllAbsent(s[1..], pat, rep, c);
      assert [s[0]] + s[1..] == s;
    }
  }

  /** `str.replace` passes over a prefix that lacks the pattern's first character. */
  lemma {:induction false} ReplaceAllSkip(a: string, b: string, pat: string, rep: string)
    requires pat != [] && pat[0] !in a
    ensures ReplaceAll(a + b, pat, rep) == a + ReplaceAll(b, pat, rep)
    decreases |a|
  {
    var s := a + b;
    if a == [] {
      assert s == b;
    } else {
      if |s| < |pat| {
        assert ReplaceAll(b, pat, rep) == b;
      } else {
        assert s[..|pat|][0] == a[0] != pat[0];
        assert s[1..] == a[1..] + b;
        ReplaceAllSkip(a[1..], b, pat, rep);
        assert [a[0]] + a[1..] == a;
      }
    }
  }

  /** One hyphen between two hyphen-free words becomes one space. */
  lemma ReplaceHyphen(w: string, q: string)
    requires '-' !in w && '-' !in q
    ensures ReplaceAll(w + "-" + q, "-", " ") == w + " " + q
  {
    var p := "-" + q;
    assert w + "-" + q == w + p;
    ReplaceAllSkip(w, p, "-", " ");
    assert p[..1] == "-" && p[1..] == q;
    ReplaceAllAbsent(q, "-", " ", '-');
    assert ReplaceAll(p, "-", " ") == " " + q;
  }

  /** The suffixes ".org.au", ".asn.au" and ".au" are absent from a name without a dot. */
  lemma NoDotSuffixes(a: string)
    requires '.' !in a
    ensures ReplaceAll(ReplaceAll(ReplaceAll(a, ".org.au", ""), ".asn.au", ""), ".au", "") == a
  {
    ReplaceAllAbsent(a, ".org.au", "", '.');
    ReplaceAllAbsent(a, ".asn.au", "", '.');
    ReplaceAllAbsent(a, ".au", "", '.');
  }

  /** Without upper-case letters or 'w' in the label, only the leading "www." goes. */
  lemma WwwDeleted(x: string)
    requires NoUpper(x) && 'w' !in x
    ensures ReplaceAll(Lower("www." + x + ".com.au"), "www.", "") == x + ".com.au"
  {
    var t := x + ".com.au";
    var d := "www." + t;
    assert "www." + x + ".com.au" == d;
    assert NoUpper(d) by {
      assert forall k :: 4 <= k < 4 + |x| ==> d[k] == x[k - 4];
    }
    LowerNoUpper(d);
    assert d[..4] == "www." && d[4..] == t;
    ReplaceAllAbsent(t, "www.", "", 'w');
  }

  /** Without a dot in the label, ".com.au" goes as a whole. */
  lemma ComAuDeleted(x: string)
    requires '.' !in x
    ensures ReplaceAll(x + ".com.au", ".com.au", "") == x
  {
    var c := ".com.au";
    ReplaceAllSkip(x, c, c, "");
    assert c[..|c|] == c && c[|c|..] == [];
    assert ReplaceAll(c, c, "") == "";
  }

  /**
   * For a label without upper-case letters, dots or 'w', "www." + label + ".com.au" loses the
   * prefix and the whole suffix (not only ".au"), and only the label's hyphens become spaces.
   */
  lemma WwwComAuName(x: string)
    requires NoUpper(x) && '.' !in x && 'w' !in x
    ensures DomainToCompanyName("www." + x + ".com.au") == Title(Strip(ReplaceAll(x, "-", " ")))
  {
    WwwDeleted(x);
    ComAuDeleted(x);
    ReplaceAllAbsent(x, ".net.au", "", '.');
    NoDotSuffixes(x);
  }

  /** `str.title` treats the words on either side of a space independently. */
  lemma TitleSpace(a: string, b: string)
    ensures Title(a + " " + b) == Title(a) + " " + Title(b)
  {
    var s := a + " " + b;
    var r := Title(a) + " " + Title(b);
    forall k | 0 <= k < |s|
      ensures Title(s)[k] == r[k]
    {
      if k < |a| {
        assert Title(s)[k] == TitleAt(s, k) && s[k] == a[k] && (k > 0 ==> s[k - 1] == a[k - 1]);
        assert r[k] == TitleAt(a, k);
      } else if k > |a| {
        var j := k - |a| - 1;
        assert Title(s)[k] == TitleAt(s, k) && s[k] == b[j] && (j > 0 ==> s[k - 1] == b[j - 1]);
        assert r[k] == TitleAt(b, j);
      }
    }
  }

  /** A word of lower-case letters is title-cased by upper-casing its first letter. */
  lemma TitleLowerWord(w: string)
    requires w != [] && forall k :: 0 <= k < |w| ==> IsLower(w[k])
    ensures Title(w) == [UpperChar(w[0])] + w[1..]
  {
    var r := [UpperChar(w[0])] + w[1..];
    forall k | 0 <= k < |w|
      ensures Title(w)[k] == r[k]
    {
      assert Title(w)[k] == TitleAt(w, k);
    }
  }

  lemma AcmeTitle(w: string, q: string)
    requires w == "acme" && q == "plumbing"
    ensures Title(w + " " + q) == "Acme Plumbing"
  {
    TitleSpace(w, q);
    TitleLowerWord(w);
    TitleLowerWord(q);
  }

  /** `domain_to_company_name("www.acme-plumbing.com.au")` is "Acme Plumbing". */
  lemma AcmePlumbing(w: string, q: string)
    requires w == "acme" && q == "plumbing"
    ensures DomainToCompanyName("www." + w + "-" + q + ".com.au") == "Acme Plumbing"
  {
    var x := w + "-" + q;
    assert "www." + w + "-" + q + ".com.au" == "www." + x + ".com.au";
    assert NoUpper(x) && '.' !in x && 'w' !in x;
    WwwComAuName(x);
    ReplaceHyphen(w, q);
    var h := w + " " + q;
    assert StripLeft(h) == h && StripRight(h) == h;
    AcmeTitle(w, q);
  }

  // ---------------------------------------------------------------------
  // insert_batch
  // ---------------------------------------------------------------------

  /** The `staging.commoncrawl_raw` row `insert_batch` writes for one domain. */
  function RawRowFor(domain: string): CrawlRawRow {
    CrawlRawRow("http://" + domain, Some(DomainToCompanyName(domain)), None)
  }

  /** The rows written for a sequence of domains, one each, in order. */
  function RowsFor(domains: seq<string>): (rows: seq<CrawlRawRow>)
    ensures |rows| == |domains|
  {
    seq(|domains|, k requires 0 <= k < |domains| => RawRowFor(domains[k]))
  }

  lemma RowsForAppend(a: seq<string>, b: seq<string>)
    ensures RowsFor(a + b) == RowsFor(a) + RowsFor(b)
  {
    assert forall k :: 0 <= k < |b| ==> (a + b)[|a| + k] == b[k];
  }

  /**
   * `insert_batch`: nothing for an empty batch; otherwise one row per domain, in order, with
   * the URL "http://" + domain, the name guessed from the domain and no industry, and the
   * number of rows written.
   */
  method InsertBatch(batch: seq<string>) returns (rows: seq<CrawlRawRow>, inserted: nat)
    ensures |rows| == |batch| && inserted == |batch|
    ensures forall k :: 0 <= k < |batch| ==>
      && rows[k].websiteUrl == "http://" + batch[k]
      && rows[k].companyName == Some(DomainToCompanyName(batch[k]))
      && rows[k].industry.None?
  {
    if batch == [] {
      return [], 0;
    }
    rows := [];
    for k := 0 to |batch|
      invariant |rows| == k
      invariant forall j :: 0 <= j < k ==> rows[j] == RawRowFor(batch[j])
    {
      rows := rows + [RawRowFor(batch[k])];
    }
    inserted := |rows|;
  }

  // ---------------------------------------------------------------------
  // run
  // ---------------------------------------------------------------------

  /**
   * One line of an index page: empty, not JSON, or a JSON record with its "url" field (if
   * any) and the hostname `urlparse` finds in that URL (if any).
   */
  datatype Line = Blank | Malformed | Record(url: Option<string>, hostname: Option<string>)

  /**
   * One page request: a status other than 200 ends the run; otherwise the lines received,
   * which stop early when the connection drops.
   */
  datatype Page = NotFound | Fetched(lines: seq<Line>)

  /** The lines `run` reads: those of the pages before the first one not found. */
  function Delivered(pages: seq<Page>): seq<Line> {
    if pages == [] || pages[0].NotFound? then [] else pages[0].lines + Delivered(pages[1..])
  }

  /** Reading a fetched page moves its lines from the pages ahead to the lines read. */
  lemma DeliveredStep(pages: seq<Page>, p: nat, done: seq<Line>)
    requires p < |pages| && pages[p].Fetched?
    requires Delivered(pages) == done + Delivered(pages[p..])
    ensures Delivered(pages) == (done + pages[p].lines) + Delivered(pages[p + 1..])
  {
    assert pages[p..][0] == pages[p] && pages[p..][1..] == pages[p + 1..];
  }

  /** Once the window is exhausted or a page is not found, the lines read are all there are. */
  lemma DeliveredEnd(pages: seq<Page>, p: nat, done: seq<Line>)
    requires p <= |pages| && (p == |pages| || pages[p].NotFound?)
    requires Delivered(pages) == done + Delivered(pages[p..])
    ensures Delivered(pages) == done
  {
    assert Delivered(pages[p..]) == [];
    assert done + [] == done;
  }

  /** The domain a line offers, when it passes the blank, JSON, URL and validity skips. */
  function Offered(line: Line): Option<string> {
    match line
    case Record(url, host) => if url.Some? && url.value != [] && IsValidDomain(host) then host else None
    case _ => None
  }

  function Itself(d: string): string {
    d
  }

  /** The domains `run` collects from `lines`: each offered domain once, where first offered. */
  function Collected(lines: seq<Line>): seq<string> {
    KeepFirst(FilterMap(lines, Offered), Itself)
  }

  /**
   * The collected domains, in order, are exactly the lines that offer a domain no earlier
   * line offered; they are distinct and valid, and every offered domain is among them.
   */
  lemma CollectedSpec(lines: seq<Line>) returns (idx: seq<nat>)
    ensures var c := Collected(lines);
      && CleanedFrom(lines, Offered, Itself, c, idx)
      && (forall a, b :: 0 <= a < b < |c| ==> c[a] != c[b])
      && (forall i :: 0 <= i < |lines| && Offered(lines[i]).Some? ==> Offered(lines[i]).value in c)
      && forall k :: 0 <= k < |c| ==> IsValidDomain(Some(c[k]))
  {
    idx := CleanedRows(lines, Offered, Itself);
    CleanedKeys(lines, Offered, Itself);
    var c := Collected(lines);
    forall i | 0 <= i < |lines| && Offered(lines[i]).Some?
      ensures Offered(lines[i]).value in c
    {
      assert KeyIn(c, Itself, Offered(lines[i]).value);
    }
    forall k | 0 <= k < |c|
      ensures IsValidDomain(Some(c[k]))
    {
      assert Offered(lines[idx[k]]) == Some(c[k]);
    }
    assert forall a, b :: 0 <= a < b < |c| ==> Itself(c[a]) != Itself(c[b]);
  }

  /** Reading one more line adds its domain exactly when it is offered and new. */
  lemma CollectedSnoc(xs: seq<Line>, l: Line)
    ensures var c := Collected(xs);
      var d := Offered(l);
      Collected(xs + [l]) == if d.Some? && d.value !in c then c + [d.value] else c
  {
    var zs := xs + [l];
    assert zs[..|xs|] == xs && zs[|xs|] == l;
    var ys := FilterMap(xs, Offered);
    var c := KeepFirst(ys, Itself);
    var d := Offered(l);
    if d.Some? {
      var ys' := ys + [d.value];
      assert ys'[..|ys|] == ys;
      if d.value in c {
        var j :| 0 <= j < |c| && c[j] == d.value;
        assert Itself(c[j]) == d.value;
      }
    }
  }

  /** A domain collected from a prefix of the lines stays collected, at the same position. */
  lemma CollectedPrefix(xs: seq<Line>, ys: seq<Line>)
    ensures Collected(xs) <= Collected(xs + ys)
    decreases |ys|
  {
    if ys != [] {
      var n := |ys| - 1;
      CollectedPrefix(xs, ys[..n]);
      assert xs + ys == (xs + ys[..n]) + [ys[n]];
      CollectedSnoc(xs + ys[..n], ys[n]);
    } else {
      assert xs + ys == xs;
    }
  }

  /** The batches one after the other. */
  function Flatten(batches: seq<seq<string>>): seq<string> {
    if batches == [] then [] else Flatten(batches[..|batches| - 1]) + batches[|batches| - 1]
  }

  lemma FlattenSnoc(batches: seq<seq<string>>, b: seq<string>)
    ensures Flatten(batches + [b]) == Flatten(batches) + b
  {
    assert (batches + [b])[..|batches|] == batches;
  }

  /** The batch size `run` behaves as having: a size below 1 flushes after every domain. */
  function Cap(batchSize: int): (n: nat)
    ensures 1 <= n && (batchSize >= 1 ==> n == batchSize)
  {
    if batchSize < 1 then 1 else batchSize
  }

  /** The local state of `run`. */
  datatype Tally = Tally(
    seen: set<string>,
    batch: seq<string>,
    totalCollected: nat,
    totalInserted: nat,
    written: seq<CrawlRawRow>)

  /**
   * The state of `run` once `c` has been collected, with `batches` flushed so far: the flushed
   * batches and the pending one make up `c`, `seen` holds exactly its domains, the totals count
   * them and the flushed ones, the rows written are those of the flushed domains, and every
   * flushed batch is full.
   */
  ghost predicate Tallied(st: Tally, batches: seq<seq<string>>, c: seq<string>, cap: nat) {
    && Flatten(batches) + st.batch == c
    && (forall d :: d in st.seen <==> d in c)
    && st.totalCollected == |c|
    && st.totalInserted == |Flatten(batches)|
    && st.written == RowsFor(Flatten(batches))
    && (forall b :: b in batches ==> |b| == cap)
  }

  /** `Tallied`, between two lines: the pending batch is not full. */
  ghost predicate Consistent(st: Tally, batches: seq<seq<string>>, c: seq<string>, cap: nat) {
    Tallied(st, batches, c, cap) && |st.batch| < cap
  }

  /** Recording a new domain keeps the tally, with a pending batch now of 1 to `cap` domains. */
  lemma AddStep(st: Tally, batches: seq<seq<string>>, c: seq<string>, d: string, cap: nat)
    requires Consistent(st, batches, c, cap) && d !in st.seen
    ensures var st' := st.(seen := st.seen + {d}, batch := st.batch + [d], totalCollected := st.totalCollected + 1);
      Tallied(st', batches, c + [d], cap) && 0 < |st'.batch| <= cap
  {
  }

  /** Flushing the pending batch writes its rows and counts them. */
  lemma FlushStep(st: Tally, batches: seq<seq<string>>, c: seq<string>, rows: seq<CrawlRawRow>, cap: nat)
    requires Tallied(st, batches, c, cap) && rows == RowsFor(st.batch)
    ensures var st' := st.(batch := [], totalInserted := st.totalInserted + |st.batch|, written := st.written + rows);
      && Flatten(batches + [st.batch]) + st'.batch == c
      && st'.totalInserted == |Flatten(batches + [st.batch])|
      && st'.written == RowsFor(Flatten(batches + [st.batch]))
  {
    FlattenSnoc(batches, st.batch);
    RowsForAppend(Flatten(batches), st.batch);
  }

  /** Flushing a full batch leaves a consistent state with nothing pending. */
  lemma FlushFull(st: Tally, batches: seq<seq<string>>, c: seq<string>, rows: seq<CrawlRawRow>, inserted: nat, cap: nat)
    requires Tallied(st, batches, c, cap) && 0 < |st.batch| == cap
    requires rows == RowsFor(st.batch) && inserted == |st.batch|
    ensures Consistent(st.(batch := [], totalInserted := st.totalInserted + inserted, written := st.written + rows),
                       batches + [st.batch], c, cap)
  {
    FlushStep(st, batches, c, rows, cap);
  }

  /** Lines 134-143: a new valid domain is recorded and the batch flushed once it is full. */
  method Take(st: Tally, d: string, batchSize: int, ghost batches: seq<seq<string>>, ghost c: seq<string>)
    returns (st': Tally, ghost batches': seq<seq<string>>)
    requires Consistent(st, batches, c, Cap(batchSize)) && d !in st.seen
    ensures Consistent(st', batches', c + [d], Cap(batchSize))
  {
    AddStep(st, batches, c, d, Cap(batchSize));
    st' := st.(seen := st.seen + {d}, batch := st.batch + [d], totalCollected := st.totalCollected + 1);
    batches' := batches;
    if |st'.batch| >= batchSize {
      var rows, inserted := InsertBatch(st'.batch);
      FlushFull(st', batches, c + [d], rows, inserted, Cap(batchSize));
      batches' := batches + [st'.batch];
      st' := st'.(batch := [], totalInserted := st'.totalInserted + inserted, written := st'.written + rows);
    }
  }

  /** A line that offers no domain, or one already seen, changes nothing. */
  lemma Skipped(st: Tally, batches: seq<seq<string>>, xs: seq<Line>, l: Line, cap: nat)
    requires Consistent(st, batches, Collected(xs), cap)
    requires Offered(l).None? || Offered(l).value in st.seen
    ensures Consistent(st, batches, Collected(xs + [l]), cap)
  {
    CollectedSnoc(xs, l);
  }

  /** A line that offers an unseen domain adds it to the collected ones. */
  lemma Fresh(st: Tally, batches: seq<seq<string>>, xs: seq<Line>, l: Line, cap: nat)
    requires Consistent(st, batches, Collected(xs), cap)
    requires l.Record? && l.url.Some? && l.url.value != [] && IsValidDomain(l.hostname) && l.hostname.value !in st.seen
    ensures Collected(xs + [l]) == Collected(xs) + [l.hostname.value]
  {
    CollectedSnoc(xs, l);
  }

  /** Lines 110-138: the lines of one page, skipped or taken one by one. */
  method ReadLines(lines: seq<Line>, batchSize: int, st: Tally, ghost batches: seq<seq<string>>, ghost xs: seq<Line>)
    returns (st': Tally, ghost batches': seq<seq<string>>)
    requires Consistent(st, batches, Collected(xs), Cap(batchSize))
    ensures Consistent(st', batches', Collected(xs + lines), Cap(batchSize))
  {
    st', batches' := st, batches;
    assert xs + lines[..0] == xs;
    for j := 0 to |lines|
      invariant Consistent(st', batches', Collected(xs + lines[..j]), Cap(batchSize))
    {
      var line := lines[j];
      ghost var before := xs + lines[..j];
      assert xs + lines[..j + 1] == before + [line];
      if line.Blank? || line.Malformed? || line.url.None? || line.url.value == [] || !IsValidDomain(line.hostname) {
        Skipped(st', batches', before, line, Cap(batchSize));
      } else if line.hostname.value in st'.seen {
        Skipped(st', batches', before, line, Cap(batchSize));
      } else {
        Fresh(st', batches', before, line, Cap(batchSize));
        st', batches' := Take(st', line.hostname.value, batchSize, batches', Collected(before));
      }
    }
    assert lines[..|lines|] == lines;
  }

  /** Before any line is read, nothing is collected, pending or written. */
  lemma Started(batchSize: int)
    ensures Consistent(Tally({}, [], 0, 0, []), [], Collected([]), Cap(batchSize))
  {
    assert Collected([]) == [] && Flatten([]) == [];
  }

  /** Lines 83-155: the pages of the window are read until one is not found. */
  method ReadPages(pages: seq<Page>, batchSize: int) returns (st: Tally, ghost batches: seq<seq<string>>)
    ensures Consistent(st, batches, Collected(Delivered(pages)), Cap(batchSize))
  {
    st := Tally({}, [], 0, 0, []);
    batches := [];
    ghost var done: seq<Line> := [];
    Started(batchSize);
    var p := 0;
    assert pages[p..] == pages;
    while p < |pages| && pages[p].Fetched?
      invariant p <= |pages|
      invariant Delivered(pages) == done + Delivered(pages[p..])
      invariant Consistent(st, batches, Collected(done), Cap(batchSize))
    {
      DeliveredStep(pages, p, done);
      st, batches := ReadLines(pages[p].lines, batchSize, st, batches, done);
      done := done + pages[p].lines;
      p := p + 1;
    }
    DeliveredEnd(pages, p, done);
  }

  /** Lines 157-159: a batch still pending is flushed, after which every collected domain is written. */
  method FlushRemaining(st: Tally, batchSize: int, ghost batches: seq<seq<string>>, ghost c: seq<string>)
    returns (st': Tally, ghost batches': seq<seq<string>>)
    requires Consistent(st, batches, c, Cap(batchSize))
    ensures Flatten(batches') == c && st'.written == RowsFor(c)
    ensures st'.totalCollected == |c| && st'.totalInserted == |c|
    ensures forall i :: 0 <= i < |batches'| ==> 0 < |batches'[i]| <= Cap(batchSize)
    ensures forall i :: 0 <= i < |batches'| - 1 ==> |batches'[i]| == Cap(batchSize)
  {
    st', batches' := st, batches;
    if st.batch != [] {
      var rows, inserted := InsertBatch(st.batch);
      assert rows == RowsFor(st.batch);
      FlushStep(st, batches, c, rows, Cap(batchSize));
      batches' := batches + [st.batch];
      st' := st.(batch := [], totalInserted := st.totalInserted + inserted, written := st.written + rows);
    } else {
      assert Flatten(batches) == c;
    }
    assert forall i :: 0 <= i < |batches| ==> batches[i] in batches;
  }

  /**
   * `run` over the pages of the window: every distinct valid domain of the lines read, in the
   * order first seen, is written once, as the row `insert_batch` makes for it; both totals
   * count them; the domains go in batches of the batch size (at least 1), of which only the
   * last may be smaller, and none is empty.
   */
  method Run(pages: seq<Page>, batchSize: int)
    returns (written: seq<CrawlRawRow>, totalCollected: nat, totalInserted: nat, ghost batches: seq<seq<string>>)
    ensures var c := Collected(Delivered(pages));
      && written == RowsFor(c)
      && totalCollected == |c| && totalInserted == |c|
      && Flatten(batches) == c
    ensures forall i :: 0 <= i < |batches| ==> 0 < |batches[i]| <= Cap(batchSize)
    ensures forall i :: 0 <= i < |batches| - 1 ==> |batches[i]| == Cap(batchSize)
  {
    var st;
    st, batches := ReadPages(pages, batchSize);
    st, batches := FlushRemaining(st, batchSize, batches, Collected(Delivered(pages)));
    written, totalCollected, totalInserted := st.written, st.totalCollected, st.totalInserted;
  }
}

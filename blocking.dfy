/**
 * The blocking step of the matcher: the two indexes over the reference rows,
 * keyed by the first three characters and by the first token of the strong
 * norm, and the retrieval of a crawled name's candidates from both.
 */
module Blocking {
  import opened Wrappers
  import opened Text
  import opened StrongNorm
  import opened Records

  /** A reference row with the `strong_norm` column that `build_indexes` adds. */
  datatype IndexedRow = IndexedRow(row: AbrRow, strongNorm: string)

  datatype KeyKind = ByPrefix3 | ByToken1

  /** The bucket of a strong norm: `sn[:3]`, or `sn.split()[0] if sn.split() else sn`. */
  function Key(kind: KeyKind, sn: string): string {
    match kind
    case ByPrefix3 => Prefix3(sn)
    case ByToken1 => FirstToken(sn)
  }

  function Indexed(r: AbrRow): IndexedRow {
    IndexedRow(r, StrongNormalize(r.normalizedName))
  }

  /** Row `r` is appended to bucket `k`: its strong norm is not empty and has key `k`. */
  predicate InBucket(r: AbrRow, kind: KeyKind, k: string) {
    var sn := StrongNormalize(r.normalizedName);
    sn != [] && Key(kind, sn) == k
  }

  /** The rows of bucket `k`, in input order. */
  function Bucket(rows: seq<AbrRow>, kind: KeyKind, k: string): seq<IndexedRow>
    decreases |rows|
  {
    if rows == [] then []
    else
      var last := rows[|rows| - 1];
      Bucket(rows[..|rows| - 1], kind, k) + (if InBucket(last, kind, k) then [Indexed(last)] else [])
  }

  function Norms(b: seq<IndexedRow>): (r: seq<string>)
    ensures |r| == |b| && forall i :: 0 <= i < |b| ==> r[i] == b[i].strongNorm
  {
    seq(|b|, i requires 0 <= i < |b| => b[i].strongNorm)
  }

  /** `_names(d)`: each bucket's strong norms, index-parallel to its rows. */
  function NamesOf(d: map<string, seq<IndexedRow>>): (n: map<string, seq<string>>)
    ensures n.Keys == d.Keys
    ensures forall k :: k in n ==> n[k] == Norms(d[k])
  {
    map k | k in d :: Norms(d[k])
  }

  /** `d` holds exactly the non-empty buckets of `rows`. */
  ghost predicate IsIndex(d: map<string, seq<IndexedRow>>, rows: seq<AbrRow>, kind: KeyKind) {
    forall k :: (k in d ==> d[k] == Bucket(rows, kind, k) && d[k] != []) && (k !in d ==> Bucket(rows, kind, k) == [])
  }

  /** `d[k].append(x)` on a `defaultdict(list)`. */
  function Append(d: map<string, seq<IndexedRow>>, k: string, x: IndexedRow): map<string, seq<IndexedRow>> {
    d[k := (if k in d then d[k] else []) + [x]]
  }

  /** The index after the loop body has seen `r`. */
  function Added(d: map<string, seq<IndexedRow>>, r: AbrRow, kind: KeyKind): map<string, seq<IndexedRow>> {
    var sn := StrongNormalize(r.normalizedName);
    if sn == [] then d else Append(d, Key(kind, sn), IndexedRow(r, sn))
  }

  lemma IndexStep(d: map<string, seq<IndexedRow>>, rows: seq<AbrRow>, r: AbrRow, kind: KeyKind)
    requires IsIndex(d, rows, kind)
    ensures IsIndex(Added(d, r, kind), rows + [r], kind)
  {
    var rows' := rows + [r];
    assert rows'[..|rows'| - 1] == rows;
    var d' := Added(d, r, kind);
    forall k ensures (k in d' ==> d'[k] == Bucket(rows', kind, k) && d'[k] != []) && (k !in d' ==> Bucket(rows', kind, k) == []) {
      assert Bucket(rows', kind, k) == Bucket(rows, kind, k) + (if InBucket(r, kind, k) then [Indexed(r)] else []);
    }
  }

  /** `build_indexes`: both indexes, each with its parallel names. */
  method BuildIndexes(abr: seq<AbrRow>)
    returns (byPrefix3: map<string, seq<IndexedRow>>, namesPrefix3: map<string, seq<string>>,
             byToken1: map<string, seq<IndexedRow>>, namesToken1: map<string, seq<string>>)
    ensures IsIndex(byPrefix3, abr, ByPrefix3) && IsIndex(byToken1, abr, ByToken1)
    ensures namesPrefix3 == NamesOf(byPrefix3) && namesToken1 == NamesOf(byToken1)
  {
    byPrefix3, byToken1 := map[], map[];
    var i := 0;
    while i < |abr|
      invariant i <= |abr|
      invariant IsIndex(byPrefix3, abr[..i], ByPrefix3) && IsIndex(byToken1, abr[..i], ByToken1)
    {
      var row := abr[i];
      var sn := StrongNormalize(row.normalizedName);
      IndexStep(byPrefix3, abr[..i], row, ByPrefix3);
      IndexStep(byToken1, abr[..i], row, ByToken1);
      if sn != [] {
        byPrefix3 := Append(byPrefix3, Prefix3(sn), IndexedRow(row, sn));
        byToken1 := Append(byToken1, FirstToken(sn), IndexedRow(row, sn));
      }
      assert abr[..i + 1] == abr[..i] + [row];
      i := i + 1;
    }
    assert abr[..i] == abr;
    namesPrefix3 := NamesOf(byPrefix3);
    namesToken1 := NamesOf(byToken1);
  }

  /** Every entry of a bucket is a row of the input with its own non-empty strong norm, of that bucket's key. */
  lemma {:induction false} BucketSound(rows: seq<AbrRow>, kind: KeyKind, k: string)
    ensures forall e :: e in Bucket(rows, kind, k) ==>
      e.row in rows && e.strongNorm == StrongNormalize(e.row.normalizedName)
      && e.strongNorm != [] && Key(kind, e.strongNorm) == k
    decreases |rows|
  {
    if rows != [] {
      var init := rows[..|rows| - 1];
      BucketSound(init, kind, k);
      assert forall x :: x in init ==> x in rows;
    }
  }

  /**
   * Each record is appended to its own bucket once per occurrence in the input, and to no other;
   * a record whose strong norm is empty is in no bucket.
   */
  lemma {:induction false} BucketMultiplicity(rows: seq<AbrRow>, kind: KeyKind, k: string, r: AbrRow)
    ensures multiset(Bucket(rows, kind, k))[Indexed(r)] == if InBucket(r, kind, k) then multiset(rows)[r] else 0
    decreases |rows|
  {
    if rows != [] {
      var init, last := rows[..|rows| - 1], rows[|rows| - 1];
      BucketMultiplicity(init, kind, k, r);
      assert rows == init + [last];
      assert multiset(rows) == multiset(init) + multiset{last};
    }
  }

  // ---------------------------------------------------------------------
  // _get_candidates
  // ---------------------------------------------------------------------

  type Pair = (IndexedRow, string)

  /** `dict.get(k, [])`. */
  function GetOrEmpty<T>(d: map<string, seq<T>>, k: string): seq<T> {
    if k in d then d[k] else []
  }

  /** `zip(rows, norms)`, which stops at the shorter list. */
  function Zip(rows: seq<IndexedRow>, norms: seq<string>): (z: seq<Pair>)
    ensures |z| == (if |rows| <= |norms| then |rows| else |norms|)
    ensures forall j :: 0 <= j < |z| ==> z[j] == (rows[j], norms[j])
  {
    var n := if |rows| <= |norms| then |rows| else |norms|;
    seq(n, j requires 0 <= j < n => (rows[j], norms[j]))
  }

  function AbnOf(p: Pair): string { p.0.row.abn }

  function AbnsOf(ps: seq<Pair>): set<string> {
    set i | 0 <= i < |ps| :: AbnOf(ps[i])
  }

  /** The pairs the `seen_abns` test lets through, starting with the ABNs in `seen` taken. */
  function Dedup(ps: seq<Pair>, seen: set<string>): seq<Pair>
    decreases |ps|
  {
    if ps == [] then []
    else if AbnOf(ps[0]) in seen then Dedup(ps[1..], seen)
    else [ps[0]] + Dedup(ps[1..], seen + {AbnOf(ps[0])})
  }

  function Firsts(ps: seq<Pair>): (r: seq<IndexedRow>)
    ensures |r| == |ps| && forall i :: 0 <= i < |ps| ==> r[i] == ps[i].0
  {
    seq(|ps|, i requires 0 <= i < |ps| => ps[i].0)
  }

  function Seconds(ps: seq<Pair>): (r: seq<string>)
    ensures |r| == |ps| && forall i :: 0 <= i < |ps| ==> r[i] == ps[i].1
  {
    seq(|ps|, i requires 0 <= i < |ps| => ps[i].1)
  }

  /** The prefix bucket's pairs and the token bucket's pairs for a crawled norm. */
  function PrefixPairs(ccNorm: string, byPrefix3: map<string, seq<IndexedRow>>, namesPrefix3: map<string, seq<string>>): seq<Pair> {
    Zip(GetOrEmpty(byPrefix3, Prefix3(ccNorm)), GetOrEmpty(namesPrefix3, Prefix3(ccNorm)))
  }

  function TokenPairs(ccNorm: string, byToken1: map<string, seq<IndexedRow>>, namesToken1: map<string, seq<string>>): seq<Pair> {
    Zip(GetOrEmpty(byToken1, FirstToken(ccNorm)), GetOrEmpty(namesToken1, FirstToken(ccNorm)))
  }

  /** The one inner loop of `_get_candidates`, over one bucket. */
  method MergeBucket(ps: seq<Pair>, seen0: set<string>, rows0: seq<IndexedRow>, norms0: seq<string>)
    returns (seen: set<string>, rows: seq<IndexedRow>, norms: seq<string>)
    ensures rows == rows0 + Firsts(Dedup(ps, seen0)) && norms == norms0 + Seconds(Dedup(ps, seen0))
    ensures seen == seen0 + AbnsOf(ps)
  {
    seen, rows, norms := seen0, rows0, norms0;
    ghost var taken: seq<Pair> := [];
    var j := 0;
    while j < |ps|
      invariant j <= |ps|
      invariant taken + Dedup(ps[j..], seen) == Dedup(ps, seen0)
      invariant rows == rows0 + Firsts(taken) && norms == norms0 + Seconds(taken)
      invariant seen == seen0 + AbnsOf(ps[..j])
    {
      var (row, norm) := ps[j];
      assert ps[j..][1..] == ps[j + 1..];
      AbnsStep(ps, j);
      if row.row.abn !in seen {
        seen := seen + {row.row.abn};
        rows := rows + [row];
        norms := norms + [norm];
        taken := taken + [ps[j]];
      }
      j := j + 1;
    }
    assert ps[..j] == ps;
  }

  lemma AbnsStep(ps: seq<Pair>, j: nat)
    requires j < |ps|
    ensures AbnsOf(ps[..j + 1]) == AbnsOf(ps[..j]) + {AbnOf(ps[j])}
  {
    var a, b := ps[..j + 1], ps[..j];
    assert forall i :: 0 <= i < j ==> a[i] == b[i];
    assert AbnOf(a[j]) == AbnOf(ps[j]);
  }

  /** The candidates in the order `_get_candidates` appends them. */
  function Candidates(ccNorm: string, byPrefix3: map<string, seq<IndexedRow>>, namesPrefix3: map<string, seq<string>>,
                      byToken1: map<string, seq<IndexedRow>>, namesToken1: map<string, seq<string>>): seq<Pair> {
    var p, t := PrefixPairs(ccNorm, byPrefix3, namesPrefix3), TokenPairs(ccNorm, byToken1, namesToken1);
    Dedup(p, {}) + Dedup(t, AbnsOf(p))
  }

  /** `_get_candidates`. */
  method GetCandidates(ccNorm: string, byPrefix3: map<string, seq<IndexedRow>>, namesPrefix3: map<string, seq<string>>,
                       byToken1: map<string, seq<IndexedRow>>, namesToken1: map<string, seq<string>>)
    returns (rows: seq<IndexedRow>, norms: seq<string>)
    ensures var c := Candidates(ccNorm, byPrefix3, namesPrefix3, byToken1, namesToken1);
      rows == Firsts(c) && norms == Seconds(c)
  {
    var key3 := Prefix3(ccNorm);
    var keytok := FirstToken(ccNorm);
    var p := Zip(GetOrEmpty(byPrefix3, key3), GetOrEmpty(namesPrefix3, key3));
    var t := Zip(GetOrEmpty(byToken1, keytok), GetOrEmpty(namesToken1, keytok));
    var seen: set<string>;
    assert p == PrefixPairs(ccNorm, byPrefix3, namesPrefix3) && t == TokenPairs(ccNorm, byToken1, namesToken1);
    seen, rows, norms := MergeBucket(p, {}, [], []);
    assert seen == AbnsOf(p) && rows == Firsts(Dedup(p, {})) && norms == Seconds(Dedup(p, {}));
    seen, rows, norms := MergeBucket(t, seen, rows, norms);
    FirstsAppend(Dedup(p, {}), Dedup(t, AbnsOf(p)));
  }

  lemma FirstsAppend(a: seq<Pair>, b: seq<Pair>)
    ensures Firsts(a + b) == Firsts(a) + Firsts(b) && Seconds(a + b) == Seconds(a) + Seconds(b)
  {
  }

  // ---------------------------------------------------------------------
  // What the ABN dedup keeps
  // ---------------------------------------------------------------------

  /** `a` can be obtained from `b` by dropping elements. */
  predicate Subsequence(a: seq<Pair>, b: seq<Pair>)
    decreases |b|
  {
    if b == [] then a == []
    else (a != [] && a[0] == b[0] && Subsequence(a[1..], b[1..])) || Subsequence(a, b[1..])
  }

  ghost predicate DistinctAbns(ps: seq<Pair>) {
    forall i, j :: 0 <= i < j < |ps| ==> AbnOf(ps[i]) != AbnOf(ps[j])
  }

  lemma AbnsCons(x: Pair, ps: seq<Pair>)
    ensures AbnsOf([x] + ps) == {AbnOf(x)} + AbnsOf(ps)
  {
    var xs := [x] + ps;
    forall a | a in AbnsOf(xs) ensures a in {AbnOf(x)} + AbnsOf(ps) {
      var i :| 0 <= i < |xs| && AbnOf(xs[i]) == a;
      if i > 0 { assert AbnOf(ps[i - 1]) == a; }
    }
    forall a | a in AbnsOf(ps) ensures a in AbnsOf(xs) {
      var i :| 0 <= i < |ps| && AbnOf(ps[i]) == a;
      assert AbnOf(xs[i + 1]) == a;
    }
    assert AbnOf(xs[0]) == AbnOf(x);
  }

  /**
   * The dedup keeps, in their order, exactly one pair for every ABN of the input
   * not taken beforehand, and nothing else.
   */
  lemma {:induction false} DedupSpec(ps: seq<Pair>, seen: set<string>)
    ensures var d := Dedup(ps, seen);
      Subsequence(d, ps) && DistinctAbns(d) && AbnsOf(d) == AbnsOf(ps) - seen
    decreases |ps|
  {
    if ps != [] {
      var a := AbnOf(ps[0]);
      assert ps == [ps[0]] + ps[1..];
      AbnsCons(ps[0], ps[1..]);
      if a in seen {
        DedupSpec(ps[1..], seen);
      } else {
        var rest := Dedup(ps[1..], seen + {a});
        DedupSpec(ps[1..], seen + {a});
        AbnsCons(ps[0], rest);
        var d := [ps[0]] + rest;
        assert d[1..] == rest;
        forall i, j | 0 <= i < j < |d| ensures AbnOf(d[i]) != AbnOf(d[j]) {
          if i == 0 {
            assert AbnOf(rest[j - 1]) in AbnsOf(rest);
          } else {
            assert d[i] == rest[i - 1] && d[j] == rest[j - 1];
          }
        }
      }
    }
  }

  /** Dedup over two buckets in turn is one dedup over their concatenation. */
  lemma {:induction false} DedupAppend(p1: seq<Pair>, p2: seq<Pair>, seen: set<string>)
    ensures Dedup(p1 + p2, seen) == Dedup(p1, seen) + Dedup(p2, seen + AbnsOf(p1))
    decreases |p1|
  {
    if p1 == [] {
      assert p1 + p2 == p2;
      assert seen + AbnsOf(p1) == seen;
    } else {
      var a := AbnOf(p1[0]);
      assert (p1 + p2)[0] == p1[0] && (p1 + p2)[1..] == p1[1..] + p2;
      assert p1 == [p1[0]] + p1[1..];
      AbnsCons(p1[0], p1[1..]);
      if a in seen {
        DedupAppend(p1[1..], p2, seen);
        assert seen + AbnsOf(p1[1..]) == seen + AbnsOf(p1);
      } else {
        DedupAppend(p1[1..], p2, seen + {a});
        assert seen + {a} + AbnsOf(p1[1..]) == seen + AbnsOf(p1);
      }
    }
  }

  // ---------------------------------------------------------------------
  // What the candidates are
  // ---------------------------------------------------------------------

  /** A pair built from a reference row of `abr` and that row's own non-empty strong norm. */
  ghost predicate RowPair(abr: seq<AbrRow>, x: Pair) {
    x.0.row in abr && x.1 == x.0.strongNorm && x.1 == StrongNormalize(x.0.row.normalizedName) && x.1 != []
  }

  /** The prefix and token pairs of a query. */
  function AllPairs(ccNorm: string, byPrefix3: map<string, seq<IndexedRow>>, namesPrefix3: map<string, seq<string>>,
                    byToken1: map<string, seq<IndexedRow>>, namesToken1: map<string, seq<string>>): seq<Pair> {
    PrefixPairs(ccNorm, byPrefix3, namesPrefix3) + TokenPairs(ccNorm, byToken1, namesToken1)
  }

  /** The pairs of one bucket: reference rows of that key, each with its own strong norm. */
  lemma PairsSound(abr: seq<AbrRow>, d: map<string, seq<IndexedRow>>, kind: KeyKind, k: string)
    requires IsIndex(d, abr, kind)
    ensures forall x :: x in Zip(GetOrEmpty(d, k), GetOrEmpty(NamesOf(d), k)) ==> RowPair(abr, x) && Key(kind, x.1) == k
  {
    BucketSound(abr, kind, k);
    var b := GetOrEmpty(d, k);
    assert GetOrEmpty(NamesOf(d), k) == Norms(b);
    forall x | x in Zip(b, Norms(b)) ensures x.0 in b && x.1 == x.0.strongNorm {
      var j :| 0 <= j < |Zip(b, Norms(b))| && Zip(b, Norms(b))[j] == x;
    }
  }

  /** Candidates are the single-pass dedup of both buckets, prefix bucket first. */
  lemma CandidatesOnePass(ccNorm: string, byPrefix3: map<string, seq<IndexedRow>>, namesPrefix3: map<string, seq<string>>,
                          byToken1: map<string, seq<IndexedRow>>, namesToken1: map<string, seq<string>>)
    ensures Candidates(ccNorm, byPrefix3, namesPrefix3, byToken1, namesToken1)
         == Dedup(AllPairs(ccNorm, byPrefix3, namesPrefix3, byToken1, namesToken1), {})
  {
    var p, t := PrefixPairs(ccNorm, byPrefix3, namesPrefix3), TokenPairs(ccNorm, byToken1, namesToken1);
    DedupAppend(p, t, {});
    assert {} + AbnsOf(p) == AbnsOf(p);
  }

  /** The candidates keep the order of the buckets, offer every ABN of both buckets, and each only once. */
  lemma CandidatesSpec(ccNorm: string, byPrefix3: map<string, seq<IndexedRow>>, namesPrefix3: map<string, seq<string>>,
                       byToken1: map<string, seq<IndexedRow>>, namesToken1: map<string, seq<string>>)
    ensures var c := Candidates(ccNorm, byPrefix3, namesPrefix3, byToken1, namesToken1);
      var all := AllPairs(ccNorm, byPrefix3, namesPrefix3, byToken1, namesToken1);
      Subsequence(c, all) && DistinctAbns(c) && AbnsOf(c) == AbnsOf(all)
  {
    CandidatesOnePass(ccNorm, byPrefix3, namesPrefix3, byToken1, namesToken1);
    DedupSpec(AllPairs(ccNorm, byPrefix3, namesPrefix3, byToken1, namesToken1), {});
  }

  /**
   * Over indexes built from `abr`, every candidate is a reference row of `abr` with its own
   * non-empty strong norm that shares the prefix or the first token with the query.
   */
  lemma CandidatesSound(abr: seq<AbrRow>, ccNorm: string,
                        byPrefix3: map<string, seq<IndexedRow>>, namesPrefix3: map<string, seq<string>>,
                        byToken1: map<string, seq<IndexedRow>>, namesToken1: map<string, seq<string>>)
    requires IsIndex(byPrefix3, abr, ByPrefix3) && namesPrefix3 == NamesOf(byPrefix3)
    requires IsIndex(byToken1, abr, ByToken1) && namesToken1 == NamesOf(byToken1)
    ensures forall x :: x in Candidates(ccNorm, byPrefix3, namesPrefix3, byToken1, namesToken1) ==>
      RowPair(abr, x) && (Prefix3(x.1) == Prefix3(ccNorm) || FirstToken(x.1) == FirstToken(ccNorm))
  {
    var c := Candidates(ccNorm, byPrefix3, namesPrefix3, byToken1, namesToken1);
    var p, t := PrefixPairs(ccNorm, byPrefix3, namesPrefix3), TokenPairs(ccNorm, byToken1, namesToken1);
    CandidatesSpec(ccNorm, byPrefix3, namesPrefix3, byToken1, namesToken1);
    SubsequenceIn(c, p + t);
    PairsSound(abr, byPrefix3, ByPrefix3, Prefix3(ccNorm));
    PairsSound(abr, byToken1, ByToken1, FirstToken(ccNorm));
    forall x | x in c ensures RowPair(abr, x) && (Prefix3(x.1) == Prefix3(ccNorm) || FirstToken(x.1) == FirstToken(ccNorm)) {
      assert x in p + t;
      if x in p {
        assert Key(ByPrefix3, x.1) == Prefix3(ccNorm);
      } else {
        assert Key(ByToken1, x.1) == FirstToken(ccNorm);
      }
    }
  }

  lemma {:induction false} SubsequenceIn(a: seq<Pair>, b: seq<Pair>)
    requires Subsequence(a, b)
    ensures forall x :: x in a ==> x in b
    decreases |b|
  {
    if b != [] {
      if a != [] && a[0] == b[0] && Subsequence(a[1..], b[1..]) {
        SubsequenceIn(a[1..], b[1..]);
        assert forall x :: x in a ==> x == a[0] || x in a[1..];
      } else {
        SubsequenceIn(a, b[1..]);
      }
      assert forall x :: x in b[1..] ==> x in b;
    }
  }

  /** A reference row with a non-empty strong norm is in the pairs of its own bucket. */
  lemma InOwnBucket(abr: seq<AbrRow>, d: map<string, seq<IndexedRow>>, kind: KeyKind, r: AbrRow)
    requires IsIndex(d, abr, kind) && r in abr && StrongNormalize(r.normalizedName) != []
    ensures var k := Key(kind, StrongNormalize(r.normalizedName));
      r.abn in AbnsOf(Zip(GetOrEmpty(d, k), GetOrEmpty(NamesOf(d), k)))
  {
    var k := Key(kind, StrongNormalize(r.normalizedName));
    BucketMultiplicity(abr, kind, k, r);
    var b := Bucket(abr, kind, k);
    assert Indexed(r) in multiset(b);
    assert k in d;
    var j :| 0 <= j < |b| && b[j] == Indexed(r);
    var z := Zip(GetOrEmpty(d, k), GetOrEmpty(NamesOf(d), k));
    assert GetOrEmpty(NamesOf(d), k) == Norms(b);
    assert AbnOf(z[j]) == r.abn;
  }

  /** A crawled name whose norm equals a reference row's non-empty strong norm is offered that row's ABN. */
  lemma SelfRetrieval(abr: seq<AbrRow>, r: AbrRow,
                      byPrefix3: map<string, seq<IndexedRow>>, namesPrefix3: map<string, seq<string>>,
                      byToken1: map<string, seq<IndexedRow>>, namesToken1: map<string, seq<string>>)
    requires IsIndex(byPrefix3, abr, ByPrefix3) && namesPrefix3 == NamesOf(byPrefix3)
    requires IsIndex(byToken1, abr, ByToken1) && namesToken1 == NamesOf(byToken1)
    requires r in abr && StrongNormalize(r.normalizedName) != []
    ensures r.abn in AbnsOf(Candidates(StrongNormalize(r.normalizedName), byPrefix3, namesPrefix3, byToken1, namesToken1))
  {
    var sn := StrongNormalize(r.normalizedName);
    InOwnBucket(abr, byPrefix3, ByPrefix3, r);
    CandidatesSpec(sn, byPrefix3, namesPrefix3, byToken1, namesToken1);
    AbnsCat(PrefixPairs(sn, byPrefix3, namesPrefix3), TokenPairs(sn, byToken1, namesToken1));
  }

  lemma AbnsCat(a: seq<Pair>, b: seq<Pair>)
    ensures AbnsOf(a + b) == AbnsOf(a) + AbnsOf(b)
  {
    var ab := a + b;
    forall x | x in AbnsOf(ab) ensures x in AbnsOf(a) + AbnsOf(b) {
      var i :| 0 <= i < |ab| && AbnOf(ab[i]) == x;
      if i < |a| { assert AbnOf(a[i]) == x; } else { assert AbnOf(b[i - |a|]) == x; }
    }
    forall x | x in AbnsOf(a) + AbnsOf(b) ensures x in AbnsOf(ab) {
      if x in AbnsOf(a) {
        var i :| 0 <= i < |a| && AbnOf(a[i]) == x;
        assert AbnOf(ab[i]) == x;
      } else {
        var i :| 0 <= i < |b| && AbnOf(b[i]) == x;
        assert AbnOf(ab[|a| + i]) == x;
      }
    }
  }
}

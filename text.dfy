/**
 * ASCII text primitives with the meaning Python gives them on ASCII text:
 * the `re` classes `\w`, `\s` and `\b`, the `str` methods `lower`, `title`,
 * `strip`, `replace` and `split()[0]`, and the two regular-expression
 * substitutions every name normaliser in this repository ends with
 * (`\s+` to one space, then strip). Characters outside ASCII are classed as
 * neither word, space nor cased.
 *
 * The words of a string (its maximal runs of word characters) are the view
 * used to reason about the substitutions.
 */
module Text {

  // ---------------------------------------------------------------------
  // Character classes
  // ---------------------------------------------------------------------

  predicate IsDigit(c: char) { '0' <= c <= '9' }
  predicate IsUpper(c: char) { 'A' <= c <= 'Z' }
  predicate IsLower(c: char) { 'a' <= c <= 'z' }
  /** The cased characters: Python's `str.title` upper-cases a letter iff the one before is not cased. */
  predicate IsLetter(c: char) { IsUpper(c) || IsLower(c) }
  /** Python `\w`. */
  predicate IsWord(c: char) { IsLetter(c) || IsDigit(c) || c == '_' }
  /** Python `\s` and `str.isspace`: space, tab, LF, VT, FF, CR and the separators 0x1C to 0x1F. */
  predicate IsSpace(c: char) { c == ' ' || ('\t' <= c <= '\r') || (28 <= c as int <= 31) }

  function LowerChar(c: char): (r: char)
    ensures !IsUpper(r)
    ensures IsUpper(c) ==> IsLower(r)
    ensures !IsUpper(c) ==> r == c
  {
    if IsUpper(c) then (c as int + 32) as char else c
  }

  function UpperChar(c: char): (r: char)
    ensures !IsLower(r)
    ensures IsLower(c) ==> IsUpper(r)
    ensures !IsLower(c) ==> r == c
    ensures LowerChar(r) == LowerChar(c)
  {
    if IsLower(c) then (c as int - 32) as char else c
  }

  /** Python `str.lower`. */
  function Lower(s: string): (r: string)
    ensures |r| == |s|
    ensures forall k :: 0 <= k < |s| ==> r[k] == LowerChar(s[k])
  {
    seq(|s|, k requires 0 <= k < |s| => LowerChar(s[k]))
  }

  predicate NoUpper(s: string) { forall k :: 0 <= k < |s| ==> !IsUpper(s[k]) }

  // ---------------------------------------------------------------------
  // str.title
  // ---------------------------------------------------------------------

  /** Every letter is upper-case exactly when the character before it is not a letter. */
  predicate IsTitleCased(s: string) {
    forall k :: 0 <= k < |s| && IsLetter(s[k]) ==> (IsUpper(s[k]) <==> (k == 0 || !IsLetter(s[k - 1])))
  }

  /** Python `str.title`: a letter is upper-cased after a non-letter and lower-cased after a letter. */
  function Title(s: string): (r: string)
    ensures |r| == |s|
  {
    seq(|s|, k requires 0 <= k < |s| => TitleAt(s, k))
  }

  /** Character `k` of `str.title(s)`. */
  function TitleAt(s: string, k: nat): char
    requires k < |s|
  {
    if k == 0 || !IsLetter(s[k - 1]) then UpperChar(s[k]) else LowerChar(s[k])
  }

  /** `str.title` keeps every character up to case and produces a title-cased string. */
  lemma TitleShape(s: string)
    ensures IsTitleCased(Title(s))
    ensures forall k :: 0 <= k < |s| && !IsLetter(s[k]) ==> Title(s)[k] == s[k]
    ensures forall k :: 0 <= k < |s| ==> (IsLetter(Title(s)[k]) <==> IsLetter(s[k]))
    ensures forall k :: 0 <= k < |s| ==> LowerChar(Title(s)[k]) == LowerChar(s[k])
  {
    var r := Title(s);
    forall k | 0 <= k < |s|
      ensures (IsLetter(r[k]) <==> IsLetter(s[k])) && LowerChar(r[k]) == LowerChar(s[k])
      ensures !IsLetter(s[k]) ==> r[k] == s[k]
    {
      assert r[k] == TitleAt(s, k);
    }
    forall k | 0 <= k < |r| && IsLetter(r[k])
      ensures IsUpper(r[k]) <==> (k == 0 || !IsLetter(r[k - 1]))
    {
      assert r[k] == TitleAt(s, k);
      if k > 0 {
        assert IsLetter(r[k - 1]) <==> IsLetter(s[k - 1]);
      }
    }
  }

  // ---------------------------------------------------------------------
  // str.strip and the `\s+` substitution
  // ---------------------------------------------------------------------

  /** Python `str.lstrip()`: the suffix of `s` left after removing leading whitespace. */
  function StripLeft(s: string): (r: string)
    ensures |r| <= |s|
    ensures r != [] ==> !IsSpace(r[0])
  {
    if s != [] && IsSpace(s[0]) then StripLeft(s[1..]) else s
  }

  /** Python `str.rstrip()`: the prefix of `s` left after removing trailing whitespace. */
  function StripRight(s: string): (r: string)
    ensures |r| <= |s|
    ensures r != [] ==> !IsSpace(r[|r| - 1])
  {
    if s != [] && IsSpace(s[|s| - 1]) then StripRight(s[..|s| - 1]) else s
  }

  /** Python `str.strip()`. */
  function Strip(s: string): (r: string)
    ensures r == [] || (!IsSpace(r[0]) && !IsSpace(r[|r| - 1]))
  {
    var l := StripLeft(s);
    var r := StripRight(l);
    StripRightPrefix(l);
    assert r != [] ==> r[0] == l[0];
    r
  }

  /** `lstrip` keeps a suffix. */
  lemma {:induction false} StripLeftSuffix(s: string)
    ensures StripLeft(s) == s[|s| - |StripLeft(s)|..]
  {
    if s != [] && IsSpace(s[0]) {
      StripLeftSuffix(s[1..]);
      assert s[1..][|s| - 1 - |StripLeft(s)|..] == s[|s| - |StripLeft(s)|..];
    }
  }

  /** `rstrip` keeps a prefix. */
  lemma {:induction false} StripRightPrefix(s: string)
    ensures StripRight(s) == s[..|StripRight(s)|]
  {
    if s != [] && IsSpace(s[|s| - 1]) {
      StripRightPrefix(s[..|s| - 1]);
      assert s[..|s| - 1][..|StripRight(s)|] == s[..|StripRight(s)|];
    }
  }

  /** `lstrip` removes only whitespace. */
  lemma {:induction false} StripLeftSpaces(s: string)
    ensures forall k :: 0 <= k < |s| - |StripLeft(s)| ==> IsSpace(s[k])
  {
    if s != [] && IsSpace(s[0]) {
      StripLeftSpaces(s[1..]);
      assert forall k :: 1 <= k < |s| ==> s[k] == s[1..][k - 1];
    }
  }

  /** `rstrip` removes only whitespace. */
  lemma {:induction false} StripRightSpaces(s: string)
    ensures forall k :: |StripRight(s)| <= k < |s| ==> IsSpace(s[k])
  {
    if s != [] && IsSpace(s[|s| - 1]) {
      StripRightSpaces(s[..|s| - 1]);
      assert forall k :: 0 <= k < |s| - 1 ==> s[k] == s[..|s| - 1][k];
    }
  }

  /** `re.sub(r"\s+", " ", s)`: every maximal run of whitespace becomes a single space. */
  function Collapse(s: string): (r: string)
    ensures r != [] <==> s != []
    ensures r != [] ==> (IsSpace(r[0]) <==> IsSpace(s[0]))
    decreases |s|
  {
    if s == [] then []
    else if IsSpace(s[0]) then
      var rest := StripLeft(s);
      assert |rest| < |s|;
      " " + Collapse(rest)
    else
      [s[0]] + Collapse(s[1..])
  }

  /** The only whitespace left is single spaces. */
  predicate SingleSpaced(r: string) {
    && (forall k :: 0 <= k < |r| && IsSpace(r[k]) ==> r[k] == ' ')
    && (forall k :: 0 <= k < |r| - 1 ==> !IsSpace(r[k]) || !IsSpace(r[k + 1]))
  }

  /** `\s+` to one space leaves single spaces only. */
  lemma {:induction false} CollapseSingleSpaced(s: string)
    ensures SingleSpaced(Collapse(s))
    decreases |s|
  {
    if s != [] {
      var r := Collapse(s);
      if IsSpace(s[0]) {
        var rest := StripLeft(s);
        var c := Collapse(rest);
        assert r == " " + c;
        CollapseSingleSpaced(rest);
        assert c != [] ==> !IsSpace(c[0]);
        assert forall k :: 1 <= k < |r| ==> r[k] == c[k - 1];
      } else {
        var c := Collapse(s[1..]);
        assert r == [s[0]] + c;
        CollapseSingleSpaced(s[1..]);
        assert forall k :: 1 <= k < |r| ==> r[k] == c[k - 1];
      }
    }
  }

  /** `\s+` to one space keeps every other character from its input. */
  lemma {:induction false} CollapseChars(s: string)
    ensures forall k :: 0 <= k < |Collapse(s)| && !IsSpace(Collapse(s)[k]) ==> Collapse(s)[k] in s
    decreases |s|
  {
    if s != [] {
      var r := Collapse(s);
      if IsSpace(s[0]) {
        var rest := StripLeft(s);
        var c := Collapse(rest);
        assert r == " " + c;
        CollapseChars(rest);
        assert forall k :: 1 <= k < |r| ==> r[k] == c[k - 1];
        StripLeftSuffix(s);
        assert forall x :: x in rest ==> x in s;
      } else {
        var c := Collapse(s[1..]);
        assert r == [s[0]] + c;
        CollapseChars(s[1..]);
        assert forall k :: 1 <= k < |r| ==> r[k] == c[k - 1];
        assert forall x :: x in s[1..] ==> x in s;
      }
    }
  }

  /** `re.sub(r"\s+", " ", s).strip()`, the common tail of every name normaliser. */
  function CollapseStrip(s: string): string {
    Strip(Collapse(s))
  }

  // ---------------------------------------------------------------------
  // Words, runs and word boundaries
  // ---------------------------------------------------------------------

  predicate AllWord(s: string) { forall k :: 0 <= k < |s| ==> IsWord(s[k]) }
  predicate NoWord(s: string) { forall k :: 0 <= k < |s| ==> !IsWord(s[k]) }

  function Flush(cur: string): seq<string> { if cur == [] then [] else [cur] }

  /** The maximal runs of word characters of `s`, the first of them continuing the run `cur`. */
  function WordsFrom(s: string, cur: string): seq<string>
  {
    if s == [] then Flush(cur)
    else if IsWord(s[0]) then WordsFrom(s[1..], cur + [s[0]])
    else Flush(cur) + WordsFrom(s[1..], [])
  }

  /** The words of `s`: its maximal runs of word characters, in order. */
  function Words(s: string): seq<string> { WordsFrom(s, []) }

  predicate WordAt(s: string, p: int) { 0 <= p < |s| && IsWord(s[p]) }

  /** Python `\b` at position `i` of `s`. */
  predicate Boundary(s: string, i: nat) { WordAt(s, i - 1) != WordAt(s, i) }

  function WordRunEnd(s: string, i: nat): (e: nat)
    requires i <= |s|
    ensures i <= e <= |s|
    ensures forall p :: i <= p < e ==> IsWord(s[p])
    ensures e == |s| || !IsWord(s[e])
    decreases |s| - i
  {
    if i < |s| && IsWord(s[i]) then WordRunEnd(s, i + 1) else i
  }

  function SpaceRunEnd(s: string, i: nat): (e: nat)
    requires i <= |s|
    ensures i <= e <= |s|
    ensures forall p :: i <= p < e ==> IsSpace(s[p])
    ensures e == |s| || !IsSpace(s[e])
    decreases |s| - i
  {
    if i < |s| && IsSpace(s[i]) then SpaceRunEnd(s, i + 1) else i
  }

  function NonSpaceRunEnd(s: string, i: nat): (e: nat)
    requires i <= |s|
    ensures i <= e <= |s|
    ensures forall p :: i <= p < e ==> !IsSpace(s[p])
    ensures e == |s| || IsSpace(s[e])
    decreases |s| - i
  {
    if i < |s| && !IsSpace(s[i]) then NonSpaceRunEnd(s, i + 1) else i
  }

  /** `s.split()[0] if s.split() else s`. */
  function FirstToken(s: string): string {
    var a := StripLeft(s);
    if a == [] then s else a[..NonSpaceRunEnd(a, 0)]
  }

  /** `s[:3]` */
  function Prefix3(s: string): (r: string)
    ensures |r| == if |s| < 3 then |s| else 3
    ensures r == s[..|r|]
  {
    if |s| < 3 then s else s[..3]
  }

  predicate StartsAt(s: string, i: nat, w: string) {
    i + |w| <= |s| && s[i..i + |w|] == w
  }

  predicate EndsWith(s: string, w: string) {
    |w| <= |s| && s[|s| - |w|..] == w
  }

  // ---------------------------------------------------------------------
  // Canonical strings
  // ---------------------------------------------------------------------

  /** Word characters in words separated by single spaces, with no space at either end. */
  predicate Canonical(s: string) {
    && (forall k :: 0 <= k < |s| ==> IsWord(s[k]) || s[k] == ' ')
    && (s != [] ==> s[0] != ' ' && s[|s| - 1] != ' ')
    && (forall k :: 0 <= k < |s| - 1 ==> s[k] != ' ' || s[k + 1] != ' ')
  }

  // ---------------------------------------------------------------------
  // Substitutions
  // ---------------------------------------------------------------------

  /** Python `s.replace(pat, rep)` for a non-empty `pat`: leftmost, non-overlapping occurrences. */
  function ReplaceAll(s: string, pat: string, rep: string): (r: string)
    requires pat != []
    ensures forall c :: c in r ==> c in s || c in rep
    decreases |s|
  {
    if |s| < |pat| then s
    else if s[..|pat|] == pat then rep + ReplaceAll(s[|pat|..], pat, rep)
    else [s[0]] + ReplaceAll(s[1..], pat, rep)
  }

  /**
   * `re.sub(r"\b" + w + r"\b", "", s)` scanned from position `i`, for a literal `w`;
   * boundaries are judged on the whole of `s`, as the regex engine does.
   */
  function WholeWordSubFrom(s: string, w: string, i: nat): (r: string)
    requires w != [] && i <= |s|
    ensures forall c :: c in r ==> c in s
    decreases |s| - i
  {
    if i == |s| then []
    else if Boundary(s, i) && StartsAt(s, i, w) && Boundary(s, i + |w|) then WholeWordSubFrom(s, w, i + |w|)
    else [s[i]] + WholeWordSubFrom(s, w, i + 1)
  }

  function WholeWordSub(s: string, w: string): (r: string)
    requires w != []
    ensures forall c :: c in r ==> c in s
  {
    WholeWordSubFrom(s, w, 0)
  }

  /** `re.sub(r"[^\w\s]", "", s)`: punctuation deleted. */
  function DeletePunct(s: string): (r: string)
    ensures forall k :: 0 <= k < |r| ==> IsWord(r[k]) || IsSpace(r[k])
    ensures forall c :: c in r ==> c in s
  {
    if s == [] then []
    else (if IsWord(s[0]) || IsSpace(s[0]) then [s[0]] else []) + DeletePunct(s[1..])
  }

  // ---------------------------------------------------------------------
  // Lemmas on words
  // ---------------------------------------------------------------------

  lemma {:induction false} WordsFromWordPrefix(w: string, r: string, cur: string)
    requires AllWord(w)
    ensures WordsFrom(w + r, cur) == WordsFrom(r, cur + w)
  {
    if w == [] {
      assert w + r == r && cur + w == cur;
    } else {
      assert (w + r)[0] == w[0] && (w + r)[1..] == w[1..] + r;
      WordsFromWordPrefix(w[1..], r, cur + [w[0]]);
      assert cur + [w[0]] + w[1..] == cur + w;
    }
  }

  lemma {:induction false} WordsFromNonWordPrefix(g: string, r: string)
    requires NoWord(g)
    ensures WordsFrom(g + r, []) == WordsFrom(r, [])
  {
    if g == [] {
      assert g + r == r;
    } else {
      assert (g + r)[0] == g[0] && (g + r)[1..] == g[1..] + r;
      WordsFromNonWordPrefix(g[1..], r);
    }
  }

  lemma {:induction false} WordsFromNoWords(g: string)
    requires NoWord(g)
    ensures WordsFrom(g, []) == []
  {
    WordsFromNonWordPrefix(g, []);
    assert g + [] == g;
  }

  lemma {:induction false} WordsFromNonWordSuffix(a: string, g: string, cur: string)
    requires NoWord(g)
    ensures WordsFrom(a + g, cur) == WordsFrom(a, cur)
  {
    if a == [] {
      assert a + g == g;
      if g != [] {
        WordsFromNoWords(g[1..]);
      }
    } else {
      assert (a + g)[0] == a[0] && (a + g)[1..] == a[1..] + g;
      WordsFromNonWordSuffix(a[1..], g, if IsWord(a[0]) then cur + [a[0]] else []);
    }
  }

  /** The words of a run of word characters followed by a non-word character. */
  lemma WordsRun(w: string, c: char, r: string)
    requires w != [] && AllWord(w) && !IsWord(c)
    ensures Words(w + [c] + r) == [w] + Words(r)
  {
    assert w + [c] + r == w + ([c] + r);
    WordsFromWordPrefix(w, [c] + r, []);
    assert [] + w == w;
    assert ([c] + r)[1..] == r;
  }

  /** The words of a run of word characters at the end of a string. */
  lemma WordsLastRun(w: string)
    requires w != [] && AllWord(w)
    ensures Words(w) == [w]
  {
    WordsFromWordPrefix(w, [], []);
    assert w + [] == w && [] + w == w;
  }

  /** Two strings with the same word characters in the same places have the same words. */
  lemma {:induction false} WordsFromSameWords(u: string, v: string, cur: string)
    requires |u| == |v|
    requires forall k :: 0 <= k < |u| ==> (IsWord(u[k]) <==> IsWord(v[k]))
    requires forall k :: 0 <= k < |u| && IsWord(u[k]) ==> u[k] == v[k]
    ensures WordsFrom(u, cur) == WordsFrom(v, cur)
  {
    if u != [] {
      WordsFromSameWords(u[1..], v[1..], if IsWord(u[0]) then cur + [u[0]] else []);
    }
  }

  lemma {:induction false} WordsFromCollapse(s: string, cur: string)
    ensures WordsFrom(Collapse(s), cur) == WordsFrom(s, cur)
    decreases |s|
  {
    if s == [] {
    } else if IsSpace(s[0]) {
      var rest := StripLeft(s);
      assert |rest| < |s|;
      var c := Collapse(rest);
      assert Collapse(s) == " " + c;
      assert (" " + c)[0] == ' ' && (" " + c)[1..] == c;
      WordsFromCollapse(rest, []);
      var g := s[1..|s| - |rest|];
      StripLeftSuffix(s);
      assert s[1..] == g + rest;
      StripLeftSpaces(s);
      assert NoWord(g) by {
        forall k | 0 <= k < |g| ensures !IsWord(g[k]) {
          assert g[k] == s[k + 1];
        }
      }
      WordsFromNonWordPrefix(g, rest);
    } else {
      var c := Collapse(s[1..]);
      assert Collapse(s) == [s[0]] + c;
      assert ([s[0]] + c)[0] == s[0] && ([s[0]] + c)[1..] == c;
      WordsFromCollapse(s[1..], if IsWord(s[0]) then cur + [s[0]] else []);
    }
  }

  lemma {:induction false} WordsStripLeft(s: string)
    ensures Words(StripLeft(s)) == Words(s)
  {
    if s != [] && IsSpace(s[0]) {
      assert StripLeft(s) == StripLeft(s[1..]);
      WordsStripLeft(s[1..]);
      assert !IsWord(s[0]);
      assert WordsFrom(s, []) == Flush([]) + WordsFrom(s[1..], []);
      assert Flush([]) == [];
    }
  }

  lemma {:induction false} WordsStripRight(s: string)
    ensures Words(StripRight(s)) == Words(s)
  {
    if s != [] && IsSpace(s[|s| - 1]) {
      var a := s[..|s| - 1];
      WordsStripRight(a);
      assert s == a + [s[|s| - 1]];
      assert NoWord([s[|s| - 1]]);
      WordsFromNonWordSuffix(a, [s[|s| - 1]], []);
    }
  }

  /** Stripping keeps the words. */
  lemma WordsStrip(s: string)
    ensures Words(Strip(s)) == Words(s)
  {
    WordsStripLeft(s);
    WordsStripRight(StripLeft(s));
  }

  /** Collapsing whitespace and stripping keeps the words. */
  lemma WordsCollapseStrip(s: string)
    ensures Words(CollapseStrip(s)) == Words(s)
  {
    WordsStrip(Collapse(s));
    WordsFromCollapse(s, []);
  }

  // ---------------------------------------------------------------------
  // Lemmas on canonical strings
  // ---------------------------------------------------------------------

  predicate WordOrBlank(s: string) {
    forall k :: 0 <= k < |s| ==> IsWord(s[k]) || s[k] == ' '
  }

  predicate NoDoubleBlank(s: string) {
    forall k :: 0 <= k < |s| - 1 ==> s[k] != ' ' || s[k + 1] != ' '
  }

  lemma CollapseWordOrBlank(u: string)
    requires forall k :: 0 <= k < |u| ==> IsWord(u[k]) || IsSpace(u[k])
    ensures WordOrBlank(Collapse(u)) && NoDoubleBlank(Collapse(u))
  {
    var c := Collapse(u);
    CollapseSingleSpaced(u);
    CollapseChars(u);
    forall k | 0 <= k < |c|
      ensures IsWord(c[k]) || c[k] == ' '
    {
      if !IsSpace(c[k]) {
        assert c[k] in u;
        var j :| 0 <= j < |u| && u[j] == c[k];
      }
    }
  }

  lemma SliceCanonical(c: string, a: nat, b: nat)
    requires a <= b <= |c| && WordOrBlank(c) && NoDoubleBlank(c)
    requires a < b ==> c[a] != ' ' && c[b - 1] != ' '
    ensures Canonical(c[a..b])
  {
    var r := c[a..b];
    assert forall k :: 0 <= k < |r| ==> r[k] == c[a + k];
  }

  /** Stripping a string of words and single spaces leaves a canonical string. */
  lemma CanonicalStrip(c: string)
    requires WordOrBlank(c) && NoDoubleBlank(c)
    ensures Canonical(Strip(c))
  {
    var l := StripLeft(c);
    var r := StripRight(l);
    var off := |c| - |l|;
    StripLeftSuffix(c);
    StripRightPrefix(l);
    assert Strip(c) == r;
    assert r == c[off..off + |r|];
    if r != [] {
      assert c[off] == r[0] && c[off + |r| - 1] == r[|r| - 1];
    }
    SliceCanonical(c, off, off + |r|);
  }

  /** When only word characters and whitespace remain, collapsing and stripping yields a canonical string. */
  lemma CollapseStripCanonical(u: string)
    requires forall k :: 0 <= k < |u| ==> IsWord(u[k]) || IsSpace(u[k])
    ensures Canonical(CollapseStrip(u))
  {
    CollapseWordOrBlank(u);
    CanonicalStrip(Collapse(u));
  }

  /** Collapsing whitespace and stripping introduce no upper-case letter. */
  lemma CollapseStripNoUpper(u: string)
    requires NoUpper(u)
    ensures NoUpper(CollapseStrip(u))
  {
    var c := Collapse(u);
    CollapseChars(u);
    assert NoUpper(c) by {
      forall k | 0 <= k < |c| ensures !IsUpper(c[k]) {
        if !IsSpace(c[k]) {
          assert c[k] in u;
          var j :| 0 <= j < |u| && u[j] == c[k];
        }
      }
    }
    var l := StripLeft(c);
    var r := StripRight(l);
    var off := |c| - |l|;
    StripLeftSuffix(c);
    StripRightPrefix(l);
    assert CollapseStrip(u) == r;
    assert forall k :: 0 <= k < |r| ==> r[k] == c[off + k];
  }

  lemma {:induction false} CollapseNoDoubleSpace(y: string)
    requires forall k :: 0 <= k < |y| ==> IsWord(y[k]) || y[k] == ' '
    requires forall k :: 0 <= k < |y| - 1 ==> y[k] != ' ' || y[k + 1] != ' '
    ensures Collapse(y) == y
    decreases |y|
  {
    if y != [] {
      var t := y[1..];
      assert forall k :: 0 <= k < |t| ==> t[k] == y[k + 1];
      CollapseNoDoubleSpace(t);
      if IsSpace(y[0]) {
        assert t == [] || !IsSpace(t[0]);
        assert StripLeft(t) == t;
        assert StripLeft(y) == t;
        assert Collapse(y) == " " + Collapse(t);
      } else {
        assert Collapse(y) == [y[0]] + Collapse(t);
      }
    }
  }

  /** A canonical string is left unchanged by collapsing whitespace and stripping. */
  lemma CanonicalCollapseStrip(y: string)
    requires Canonical(y)
    ensures CollapseStrip(y) == y
  {
    CollapseNoDoubleSpace(y);
    assert StripLeft(y) == y;
    assert StripRight(y) == y;
  }

  // ---------------------------------------------------------------------
  // Chains of whole-word deletions
  // ---------------------------------------------------------------------

  /** `w` stands in `s` at `i` with a `\b` on both sides. */
  predicate WholeWordAt(s: string, w: string, i: nat) {
    Boundary(s, i) && StartsAt(s, i, w) && Boundary(s, i + |w|)
  }

  /** `s` holds `w` as a whole word somewhere. */
  predicate HasWholeWord(s: string, w: string) {
    exists i :: 0 <= i < |s| && WholeWordAt(s, w, i)
  }

  lemma {:induction false} WholeWordSubFromNone(s: string, w: string, i: nat)
    requires w != [] && i <= |s|
    requires forall j :: i <= j < |s| ==> !WholeWordAt(s, w, j)
    ensures WholeWordSubFrom(s, w, i) == s[i..]
    decreases |s| - i
  {
    if i < |s| {
      assert !WholeWordAt(s, w, i);
      WholeWordSubFromNone(s, w, i + 1);
      assert s[i..] == [s[i]] + s[i + 1..];
    }
  }

  /** Deleting a word that does not stand whole in `s` leaves `s` as it is. */
  lemma WholeWordSubNone(s: string, w: string)
    requires w != [] && !HasWholeWord(s, w)
    ensures WholeWordSub(s, w) == s
  {
    WholeWordSubFromNone(s, w, 0);
  }

  /** A word longer than `s`, or whose first character is not in `s`, cannot be deleted from it. */
  lemma WholeWordSubAbsent(s: string, w: string)
    requires w != [] && (|s| < |w| || w[0] !in s)
    ensures WholeWordSub(s, w) == s
  {
    forall i | 0 <= i < |s| && i + |w| <= |s|
      ensures !StartsAt(s, i, w)
    {
      assert s[i..i + |w|][0] == s[i];
    }
    WholeWordSubNone(s, w);
  }

  /**
   * A phrase `re.sub(r"\b" + w + r"\b", "", s)` can delete for good: it starts and ends with a
   * word character and never has two non-word characters in a row.
   */
  predicate Phrase(w: string) {
    && w != [] && IsWord(w[0]) && IsWord(w[|w| - 1])
    && forall t :: 0 <= t < |w| - 1 ==> IsWord(w[t]) || IsWord(w[t + 1])
  }

  /** The first position at or after `i` where `w` stands whole in `s`, or `|s|`. */
  function NextCut(s: string, w: string, i: nat): (k: nat)
    requires i <= |s|
    ensures i <= k <= |s|
    ensures k < |s| ==> WholeWordAt(s, w, k)
    ensures forall p :: i <= p < k ==> !WholeWordAt(s, w, p)
    decreases |s| - i
  {
    if i == |s| || WholeWordAt(s, w, i) then i else NextCut(s, w, i + 1)
  }

  /** Up to the next whole occurrence of `w` the scan copies `s`. */
  lemma {:induction false} SubUpToCut(s: string, w: string, i: nat)
    requires w != [] && i <= |s|
    ensures WholeWordSubFrom(s, w, i) == s[i..NextCut(s, w, i)] + WholeWordSubFrom(s, w, NextCut(s, w, i))
    decreases |s| - i
  {
    var k := NextCut(s, w, i);
    if k == i {
      assert s[i..k] == [];
    } else {
      SubUpToCut(s, w, i + 1);
      assert NextCut(s, w, i + 1) == k;
      assert s[i..k] == [s[i]] + s[i + 1..k];
    }
  }

  /** A whole occurrence of a phrase has a non-word character, or an end of `s`, on either side. */
  lemma CutEdges(s: string, w: string, k: nat)
    requires Phrase(w) && k < |s| && WholeWordAt(s, w, k)
    ensures k + |w| <= |s| && IsWord(s[k]) && IsWord(s[k + |w| - 1])
    ensures k + |w| == |s| || !IsWord(s[k + |w|])
    ensures k == 0 || !IsWord(s[k - 1])
  {
    assert s[k..k + |w|][0] == s[k];
    assert s[k..k + |w|][|w| - 1] == s[k + |w| - 1];
  }

  /** A phrase cannot start at a non-word character, so the scan copies it. */
  lemma SubAtNonWord(s: string, w: string, p: nat)
    requires Phrase(w) && p < |s| && !IsWord(s[p])
    ensures WholeWordSubFrom(s, w, p) == [s[p]] + WholeWordSubFrom(s, w, p + 1)
  {
    if p + |w| <= |s| {
      assert s[p..p + |w|][0] == s[p];
    }
  }

  /**
   * `v` stands whole at `j` in `r`, where `r` follows a word character exactly when `lw`: the
   * scan's output from some position on, with what it has already written before it.
   */
  predicate WholeAfter(lw: bool, r: string, v: string, j: nat) {
    && StartsAt(r, j, v) && Boundary(r, j + |v|)
    && (if j == 0 then !lw else j <= |r| && !IsWord(r[j - 1]))
  }

  /**
   * An occurrence of a phrase `v` at the start of the scan's output from a copied position `i`
   * is an occurrence in `s` at `i`: a deletion only ever joins two non-word characters, and a
   * phrase has no two in a row.
   */
  lemma StartOcc(s: string, w: string, v: string, i: nat, lw: bool)
    requires Phrase(w) && Phrase(v) && i < |s|
    requires IsWord(s[i]) ==> (lw <==> WordAt(s, i - 1))
    requires !WholeWordAt(s, w, i)
    requires WholeAfter(lw, WholeWordSubFrom(s, w, i), v, 0)
    ensures WholeWordAt(s, v, i)
  {
    var r := WholeWordSubFrom(s, w, i);
    assert r == [s[i]] + WholeWordSubFrom(s, w, i + 1);
    assert r[..|v|][0] == r[0];
    assert IsWord(s[i]) && Boundary(s, i);
    var d := CopyRun(s, w, i);
    if !(d == |r| && i + d == |s|) {
      GapBound(r, v, d);
    }
    assert forall q :: 0 <= q < |v| ==> r[q] == s[i + q];
    assert s[i..i + |v|] == r[..|v|];
    assert WordAt(r, |v| - 1) == WordAt(s, i + |v| - 1);
    assert WordAt(r, |v|) == WordAt(s, i + |v|);
  }

  /**
   * From a copied position the scan copies `d` characters of `s`; then either both run out, or
   * the copy ends in a non-word character and a non-word character or the end follows it.
   */
  lemma CopyRun(s: string, w: string, i: nat) returns (d: nat)
    requires Phrase(w) && i < |s| && !WholeWordAt(s, w, i)
    ensures var r := WholeWordSubFrom(s, w, i);
      && 1 <= d <= |r| && i + d <= |s|
      && (forall q :: 0 <= q < d ==> r[q] == s[i + q])
      && ((d == |r| && i + d == |s|) || (!IsWord(r[d - 1]) && (d == |r| || !IsWord(r[d]))))
  {
    var r := WholeWordSubFrom(s, w, i);
    var k := NextCut(s, w, i);
    SubUpToCut(s, w, i);
    d := k - i;
    assert forall q :: 0 <= q < d ==> r[q] == s[i + q];
    if k < |s| {
      CutEdges(s, w, k);
      AfterCut(s, w, k);
    } else {
      assert r == s[i..] + [];
    }
  }

  /** What the scan writes after a whole occurrence: nothing, or a non-word character first. */
  lemma AfterCut(s: string, w: string, k: nat)
    requires Phrase(w) && k < |s| && WholeWordAt(s, w, k)
    ensures var t := WholeWordSubFrom(s, w, k);
      (k + |w| == |s| && t == []) || (k + |w| < |s| && t != [] && !IsWord(t[0]))
  {
    CutEdges(s, w, k);
    var e := k + |w|;
    assert WholeWordSubFrom(s, w, k) == WholeWordSubFrom(s, w, e);
    if e < |s| {
      SubAtNonWord(s, w, e);
    }
  }

  /** A phrase at the start of `r` ends before the first pair of non-word characters in it. */
  lemma GapBound(r: string, v: string, d: nat)
    requires Phrase(v) && StartsAt(r, 0, v) && 1 <= d <= |r|
    requires !IsWord(r[d - 1]) && (d == |r| || !IsWord(r[d]))
    ensures |v| < d
  {
    assert forall q :: 0 <= q < |v| ==> v[q] == r[q];
    if d <= |v| {
      assert false;
    }
  }

  /** An occurrence past the first character of `[c] + t` is an occurrence in `t`. */
  lemma ShiftWhole(c: char, t: string, v: string, lw: bool, j: nat)
    requires j > 0 && v != [] && WholeAfter(lw, [c] + t, v, j)
    ensures WholeAfter(IsWord(c), t, v, j - 1)
  {
    var r := [c] + t;
    assert r[j..j + |v|] == t[j - 1..j - 1 + |v|];
    assert WordAt(r, j + |v| - 1) == WordAt(t, j - 1 + |v| - 1);
    assert WordAt(r, j + |v|) == WordAt(t, j - 1 + |v|);
    if j > 1 {
      assert r[j - 1] == t[j - 2];
    }
  }

  /**
   * The scan's output from `i` on, after the output so far (ending in a word character exactly
   * when `lw`), holds no whole occurrence of a phrase `v` unless `s` had one there that was not
   * also an occurrence of `w`.
   */
  lemma {:induction false} NoWholeAfter(s: string, w: string, v: string, i: nat, lw: bool)
    requires Phrase(w) && Phrase(v) && i <= |s|
    requires i < |s| && IsWord(s[i]) ==> (lw <==> WordAt(s, i - 1))
    requires forall p :: i <= p < |s| && WholeWordAt(s, v, p) ==> WholeWordAt(s, w, p)
    ensures forall j :: !WholeAfter(lw, WholeWordSubFrom(s, w, i), v, j)
    decreases |s| - i
  {
    var r := WholeWordSubFrom(s, w, i);
    if i == |s| {
      assert r == [];
    } else if WholeWordAt(s, w, i) {
      CutEdges(s, w, i);
      var e := i + |w|;
      NoWholeAfter(s, w, v, e, false);
      assert r == WholeWordSubFrom(s, w, e);
      forall j ensures !WholeAfter(lw, r, v, j) {
        assert !WholeAfter(false, r, v, j);
      }
    } else {
      var t := WholeWordSubFrom(s, w, i + 1);
      assert r == [s[i]] + t;
      NoWholeAfter(s, w, v, i + 1, IsWord(s[i]));
      forall j ensures !WholeAfter(lw, r, v, j) {
        if j == 0 {
          if WholeAfter(lw, r, v, 0) {
            StartOcc(s, w, v, i, lw);
          }
        } else if WholeAfter(lw, r, v, j) {
          ShiftWhole(s[i], t, v, lw, j);
        }
      }
    }
  }

  /** After the deletion of `w`, a phrase `v` stands whole only where `s` had it and not also `w`. */
  lemma WholeWordSubLeaves(s: string, w: string, v: string)
    requires Phrase(w) && Phrase(v)
    requires forall p :: 0 <= p < |s| && WholeWordAt(s, v, p) ==> WholeWordAt(s, w, p)
    ensures !HasWholeWord(WholeWordSub(s, w), v)
  {
    NoWholeAfter(s, w, v, 0, false);
    var r := WholeWordSub(s, w);
    if HasWholeWord(r, v) {
      var j :| 0 <= j < |r| && WholeWordAt(r, v, j);
      assert r[j..j + |v|][0] == r[j];
      assert WholeAfter(false, r, v, j);
    }
  }

  /** `re.sub(r"\b" + w + r"\b", "", s)` leaves no whole `w` behind. */
  lemma WholeWordSubDeletes(s: string, w: string)
    requires Phrase(w)
    ensures !HasWholeWord(WholeWordSub(s, w), w)
  {
    WholeWordSubLeaves(s, w, w);
  }

  /** Deleting one phrase never makes another phrase stand whole. */
  lemma WholeWordSubKeepsAbsent(s: string, w: string, v: string)
    requires Phrase(w) && Phrase(v) && !HasWholeWord(s, v)
    ensures !HasWholeWord(WholeWordSub(s, w), v)
  {
    WholeWordSubLeaves(s, w, v);
  }

  /** Deleting punctuation from a string of word characters and whitespace leaves it as it is. */
  lemma {:induction false} DeletePunctNone(s: string)
    requires forall k :: 0 <= k < |s| ==> IsWord(s[k]) || IsSpace(s[k])
    ensures DeletePunct(s) == s
    decreases |s|
  {
    if s != [] {
      assert forall k :: 0 <= k < |s[1..]| ==> s[1..][k] == s[k + 1];
      DeletePunctNone(s[1..]);
      assert s == [s[0]] + s[1..];
    }
  }

  /** A string without upper-case letters is its own lower-case form. */
  lemma LowerNoUpper(s: string)
    requires NoUpper(s)
    ensures Lower(s) == s
  {
  }

  /** A string made of characters of a string without upper-case letters has none either. */
  lemma NoUpperChars(s: string, r: string)
    requires NoUpper(s) && forall c :: c in r ==> c in s
    ensures NoUpper(r)
  {
    forall k | 0 <= k < |r| ensures !IsUpper(r[k]) {
      assert r[k] in s;
      var j :| 0 <= j < |s| && s[j] == r[k];
    }
  }

  /** `s.strip().title()` has no whitespace at either end and is title-cased. */
  lemma TitleStripShape(s: string)
    ensures var r := Title(Strip(s));
      && IsTitleCased(r)
      && (r == [] || (!IsSpace(r[0]) && !IsSpace(r[|r| - 1])))
  {
    var t := Strip(s);
    TitleShape(t);
    if t != [] {
      assert !IsLetter(t[0]) ==> Title(t)[0] == t[0];
      assert !IsLetter(t[|t| - 1]) ==> Title(t)[|t| - 1] == t[|t| - 1];
    }
  }
}

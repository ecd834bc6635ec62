/**
 * The substitutions both cleaning scripts' `normalize_name` share: the legal suffixes
 * deleted where they stand as whole words, and the tail that deletes punctuation, turns
 * whitespace runs into single spaces and strips the ends.
 */
module NameCleaning {
  import opened Text

  /** `re.sub(r"\bpty ltd\b", "", s)`, then the same for "ltd", "limited" and "pty", in this order. */
  function DeleteLegalSuffixes(s: string): (r: string)
    ensures forall c :: c in r ==> c in s
  {
    var s := WholeWordSub(s, "pty ltd");
    var s := WholeWordSub(s, "ltd");
    var s := WholeWordSub(s, "limited");
    WholeWordSub(s, "pty")
  }

  /** None of the legal suffixes stands whole in `s`. */
  predicate NoLegalSuffix(s: string) {
    !HasWholeWord(s, "pty ltd") && !HasWholeWord(s, "ltd") && !HasWholeWord(s, "limited") && !HasWholeWord(s, "pty")
  }

  lemma DeleteLegalSuffixesNone(s: string)
    requires NoLegalSuffix(s)
    ensures DeleteLegalSuffixes(s) == s
  {
    WholeWordSubNone(s, "pty ltd");
    WholeWordSubNone(s, "ltd");
    WholeWordSubNone(s, "limited");
    WholeWordSubNone(s, "pty");
  }

  lemma LegalPhrases()
    ensures Phrase("pty ltd") && Phrase("ltd") && Phrase("limited") && Phrase("pty")
  {
    var p := "pty ltd";
    assert forall t :: 0 <= t < |p| - 1 ==> IsWord(p[t]) || IsWord(p[t + 1]);
  }

  /** Deleting another phrase keeps the legal suffixes out. */
  lemma KeepsNoLegalSuffix(s: string, w: string)
    requires Phrase(w) && NoLegalSuffix(s)
    ensures NoLegalSuffix(WholeWordSub(s, w))
  {
    LegalPhrases();
    WholeWordSubKeepsAbsent(s, w, "pty ltd");
    WholeWordSubKeepsAbsent(s, w, "ltd");
    WholeWordSubKeepsAbsent(s, w, "limited");
    WholeWordSubKeepsAbsent(s, w, "pty");
  }

  /** After the four deletions none of the legal suffixes stands whole. */
  lemma DeleteLegalSuffixesDeletes(s: string)
    ensures NoLegalSuffix(DeleteLegalSuffixes(s))
  {
    LegalPhrases();
    var s1 := WholeWordSub(s, "pty ltd");
    WholeWordSubDeletes(s, "pty ltd");
    var s2 := WholeWordSub(s1, "ltd");
    WholeWordSubDeletes(s1, "ltd");
    WholeWordSubKeepsAbsent(s1, "ltd", "pty ltd");
    var s3 := WholeWordSub(s2, "limited");
    WholeWordSubDeletes(s2, "limited");
    WholeWordSubKeepsAbsent(s2, "limited", "pty ltd");
    WholeWordSubKeepsAbsent(s2, "limited", "ltd");
    WholeWordSubDeletes(s3, "pty");
    WholeWordSubKeepsAbsent(s3, "pty", "pty ltd");
    WholeWordSubKeepsAbsent(s3, "pty", "ltd");
    WholeWordSubKeepsAbsent(s3, "pty", "limited");
  }

  /** `re.sub(r"[^\w\s]", "", s)`, then `re.sub(r"\s+", " ", s)`, then `.strip()`. */
  function Tidy(s: string): string {
    CollapseStrip(DeletePunct(s))
  }

  /** Tidying gives lower-case words of word characters, single-spaced, with no outer whitespace. */
  lemma TidyShape(s: string)
    requires NoUpper(s)
    ensures Canonical(Tidy(s)) && NoUpper(Tidy(s))
  {
    var u := DeletePunct(s);
    NoUpperChars(s, u);
    CollapseStripCanonical(u);
    CollapseStripNoUpper(u);
  }

  /** A canonical string is already tidy. */
  lemma TidyCanonical(s: string)
    requires Canonical(s)
    ensures Tidy(s) == s
  {
    DeletePunctNone(s);
    CanonicalCollapseStrip(s);
  }

  /** A tidy string is blank exactly when it is empty. */
  lemma TidyBlank(s: string)
    ensures Strip(Tidy(s)) == [] <==> Tidy(s) == []
  {
    var t := Tidy(s);
    if t != [] {
      assert !IsSpace(t[0]);
      assert StripLeft(t) == t;
      assert StripRight(t) == t;
    }
  }
}

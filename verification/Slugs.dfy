/** Slugs of titles, and the search for one that is not taken. */
module Slugs {
  import opened Text

  // ----- A slug from a title -----

  predicate IsSlugChar(c: char) {
    'a' <= c <= 'z' || '0' <= c <= '9'
  }

  /** Every run of other characters becomes one hyphen. */
  function Collapse(s: string, inRun: bool): string {
    if s == "" then ""
    else if IsSlugChar(s[0]) then [s[0]] + Collapse(s[1..], false)
    else (if inRun then "" else "-") + Collapse(s[1..], true)
  }

  function StripLeading(s: string): string {
    if s != "" && s[0] == '-' then StripLeading(s[1..]) else s
  }

  function StripTrailing(s: string): string {
    if s != "" && s[|s| - 1] == '-' then StripTrailing(s[..|s| - 1]) else s
  }

  /** The slug of a title before it is cut. */
  function Uncut(low: CaseMap, value: string): string {
    StripTrailing(StripLeading(Collapse(Trim(MapCase(low, value)), false)))
  }

  function Slugify(low: CaseMap, value: string): string {
    var t := Uncut(low, value);
    var u := if |t| <= 80 then t else t[..80];
    if u == "" then "article" else u
  }

  /** Lower-case letters, digits and single hyphens. */
  predicate Hyphenated(s: string) {
    && (forall i | 0 <= i < |s| :: IsSlugChar(s[i]) || s[i] == '-')
    && (forall i | 0 <= i < |s| - 1 :: s[i] != '-' || s[i + 1] != '-')
  }

  predicate IsSlug(s: string) {
    1 <= |s| <= 80 && Hyphenated(s) && s[0] != '-'
  }

  lemma HyphenatedCons(c: char, s: string)
    requires Hyphenated(s) && (IsSlugChar(c) || (c == '-' && (s == "" || s[0] != '-')))
    ensures Hyphenated([c] + s)
  {
    var t := [c] + s;
    forall i | 0 <= i < |t| - 1 ensures t[i] != '-' || t[i + 1] != '-' {
      if 0 < i { assert t[i] == s[i - 1] && t[i + 1] == s[i]; }
    }
  }

  lemma {:induction false} CollapseIsHyphenated(s: string, inRun: bool)
    ensures Hyphenated(Collapse(s, inRun))
    ensures inRun && Collapse(s, inRun) != "" ==> Collapse(s, inRun)[0] != '-'
  {
    if s != "" {
      CollapseIsHyphenated(s[1..], !IsSlugChar(s[0]));
      if IsSlugChar(s[0]) {
        HyphenatedCons(s[0], Collapse(s[1..], false));
      } else if !inRun {
        HyphenatedCons('-', Collapse(s[1..], true));
        assert "-" == ['-'];
      } else {
        assert "" + Collapse(s[1..], true) == Collapse(s[1..], true);
      }
    }
  }

  lemma {:induction false} StripLeadingKeeps(s: string)
    requires Hyphenated(s)
    ensures Hyphenated(StripLeading(s)) && (StripLeading(s) != "" ==> StripLeading(s)[0] != '-')
  {
    if s != "" && s[0] == '-' {
      assert Hyphenated(s[1..]);
      StripLeadingKeeps(s[1..]);
    }
  }

  lemma {:induction false} StripTrailingKeeps(s: string)
    requires Hyphenated(s)
    ensures Hyphenated(StripTrailing(s)) && StripTrailing(s) <= s
    ensures StripTrailing(s) != "" ==> StripTrailing(s)[|StripTrailing(s)| - 1] != '-'
  {
    if s != "" && s[|s| - 1] == '-' {
      assert Hyphenated(s[..|s| - 1]);
      StripTrailingKeeps(s[..|s| - 1]);
    }
  }

  /**
   Whatever the title, the slug is well formed; it ends in a hyphen exactly when the text
   is longer than 80 characters and the cut falls after a hyphen.
   */
  lemma SlugShape(low: CaseMap, value: string)
    ensures
      var t, u := Uncut(low, value), Slugify(low, value);
      IsSlug(u) && (u[|u| - 1] == '-' <==> 80 < |t| && t[79] == '-')
  {
    var c := Collapse(Trim(MapCase(low, value)), false);
    CollapseIsHyphenated(Trim(MapCase(low, value)), false);
    hide Collapse, StripLeading, StripTrailing, Hyphenated;
    StripLeadingKeeps(c);
    StripTrailingKeeps(StripLeading(c));
    var t := StripTrailing(StripLeading(c));
    if 80 < |t| { PrefixHyphenated(t, 80); }
    ArticleIsHyphenated();
  }

  lemma PrefixHyphenated(s: string, n: nat)
    requires Hyphenated(s) && n <= |s|
    ensures Hyphenated(s[..n])
  {
  }

  lemma ArticleIsHyphenated()
    ensures Hyphenated("article")
  {
  }

  // ----- Slugs of slugs -----

  lemma {:induction false} SlugTextUnchanged(low: CaseMap, s: string)
    requires Lowercases(low) && Hyphenated(s)
    ensures MapCase(low, s) == s && Collapse(s, false) == s
    ensures s == "" || s[0] != '-' ==> Collapse(s, true) == s
    decreases |s|
  {
    if s != "" {
      assert Hyphenated(s[1..]);
      assert s == [s[0]] + s[1..];
      SlugTextUnchanged(low, s[1..]);
      assert s[0] == '-' ==> s[1..] == "" || s[1..][0] != '-';
    }
  }

  lemma NotTrimmed(s: string)
    requires Hyphenated(s)
    ensures Trim(s) == s
  {
    if s != "" {
      assert !IsSpace(s[0]) && !IsSpace(s[|s| - 1]);
    }
  }

  /**
   A slug is its own slug exactly when it does not end in a hyphen, so slugging twice
   changes the result exactly when the cut at 80 characters fell after a hyphen.
   */
  lemma SlugOfSlug(low: CaseMap, u: string)
    requires Lowercases(low) && IsSlug(u)
    ensures Slugify(low, u) == u <==> u[|u| - 1] != '-'
  {
    SlugTextUnchanged(low, u);
    NotTrimmed(u);
    assert StripLeading(u) == u;
    if u[|u| - 1] == '-' {
      StripTrailingKeeps(u[..|u| - 1]);
      SlugShape(low, u);
    }
  }

  /** A title whose slug ends in a hyphen: 79 letters, a hyphen and one more letter. */
  lemma CutAfterAHyphen(low: CaseMap)
    requires Lowercases(low)
    ensures
      var title := Repeat('a', 79) + "-b";
      Slugify(low, title) == Repeat('a', 79) + "-" && Slugify(low, Slugify(low, title)) == Repeat('a', 79)
  {
    var title, u := Repeat('a', 79) + "-b", Repeat('a', 79) + "-";
    SlugTextUnchanged(low, title);
    NotTrimmed(title);
    assert StripLeading(title) == title && StripTrailing(title) == title;
    assert title[..80] == u;
    SlugTextUnchanged(low, u);
    NotTrimmed(u);
    assert StripLeading(u) == u;
    assert u[..79] == Repeat('a', 79);
    assert StripTrailing(u[..79]) == u[..79];
  }

  // ----- A slug that is not taken -----

  /** The slugs tried, in order: the base, then the base with suffixes from 2 on. */
  function Candidate(base: string, n: nat): string {
    if n <= 1 then base else base + "-" + Numeral(n, 10)
  }

  lemma CandidatesDiffer(base: string, m: nat, n: nat)
    requires 1 <= m < n
    ensures Candidate(base, m) != Candidate(base, n)
  {
    if 2 <= m {
      if Numeral(m, 10) == Numeral(n, 10) {
        NumeralInjective(m, n, 10);
      }
      assert Candidate(base, m)[|base| + 1..] == Numeral(m, 10);
      assert Candidate(base, n)[|base| + 1..] == Numeral(n, 10);
    }
  }

  ghost function Tried(base: string, n: nat): set<string> {
    set m | 1 <= m < n :: Candidate(base, m)
  }

  /** Each taken candidate tried leaves fewer taken slugs to run into. */
  lemma TakenCandidateShrinks(base: string, taken: set<string>, n: nat)
    requires 1 <= n && Candidate(base, n) in taken
    ensures taken - Tried(base, n + 1) < taken - Tried(base, n)
  {
    forall m | 1 <= m < n ensures Candidate(base, m) != Candidate(base, n) {
      CandidatesDiffer(base, m, n);
    }
    assert Candidate(base, n) in taken - Tried(base, n);
    assert Candidate(base, n) in Tried(base, n + 1);
  }

  /** The number of the first free candidate from the `n`th on. */
  ghost function FirstFree(base: string, taken: set<string>, n: nat): nat
    requires 1 <= n
    decreases taken - Tried(base, n)
  {
    if Candidate(base, n) !in taken then n
    else
      TakenCandidateShrinks(base, taken, n);
      FirstFree(base, taken, n + 1)
  }

  ghost function FreeSlug(base: string, taken: set<string>): string {
    Candidate(base, FirstFree(base, taken, 1))
  }

  lemma {:induction false} FirstFreeIsFirst(base: string, taken: set<string>, n: nat)
    requires 1 <= n
    ensures
      var f := FirstFree(base, taken, n);
      n <= f && Candidate(base, f) !in taken && forall m | n <= m < f :: Candidate(base, m) in taken
    decreases taken - Tried(base, n)
  {
    if Candidate(base, n) in taken {
      TakenCandidateShrinks(base, taken, n);
      FirstFreeIsFirst(base, taken, n + 1);
    }
  }

  /** The loop ends for every set of taken slugs, with the first candidate that is free. */
  method UniqueSlug(base: string, taken: set<string>) returns (slug: string)
    ensures slug == FreeSlug(base, taken) && slug !in taken
  {
    slug := base;
    var suffix := 2;
    while slug in taken
      invariant 2 <= suffix && slug == Candidate(base, suffix - 1)
      invariant FirstFree(base, taken, suffix - 1) == FirstFree(base, taken, 1)
      decreases taken - Tried(base, suffix - 1)
    {
      TakenCandidateShrinks(base, taken, suffix - 1);
      slug := base + "-" + Numeral(suffix, 10);
      suffix := suffix + 1;
    }
    FirstFreeIsFirst(base, taken, 1);
  }

  /** A suffix above `n` means that at least `n` slugs were taken. */
  lemma {:induction false} SuffixesAreNotSkipped(base: string, taken: set<string>, n: nat)
    requires 1 <= n && forall m | 1 <= m <= n :: Candidate(base, m) in taken
    ensures n <= |taken|
  {
    var last := Candidate(base, n);
    if n == 1 {
      assert last in taken;
      assert |taken - {last}| == |taken| - 1;
    } else {
      forall m | 1 <= m <= n - 1 ensures Candidate(base, m) in taken - {last} {
        CandidatesDiffer(base, m, n);
      }
      SuffixesAreNotSkipped(base, taken - {last}, n - 1);
    }
  }

  lemma SuffixIsBounded(base: string, taken: set<string>)
    ensures FirstFree(base, taken, 1) <= |taken| + 1
  {
    FirstFreeIsFirst(base, taken, 1);
    var f := FirstFree(base, taken, 1);
    if 1 < f {
      SuffixesAreNotSkipped(base, taken, f - 1);
    }
  }
}

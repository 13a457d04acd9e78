/** What a slug is made of: the words of the title, joined by hyphens. */
module SlugWords {
  import opened Seqs
  import opened Slugs
  import opened Text

  /** Letters a to z and figures. */
  predicate IsWordChar(c: char) {
    97 <= c as int <= 122 || 48 <= c as int <= 57
  }

  /** The longest beginning that is all of word characters. */
  function Beginning(s: string): (n: nat)
    ensures n <= |s| && (forall i | 0 <= i < n :: IsWordChar(s[i])) && (n < |s| ==> !IsWordChar(s[n]))
  {
    if s == "" || !IsWordChar(s[0]) then 0 else 1 + Beginning(s[1..])
  }

  /** The longest runs of word characters, in order; all else only separates them. */
  function Words(s: string): seq<string>
    decreases |s|
  {
    if s == "" then []
    else if IsWordChar(s[0]) then [s[..Beginning(s)]] + Words(s[Beginning(s)..])
    else Words(s[1..])
  }

  function Hyphened(words: seq<string>): string {
    if words == [] then ""
    else if |words| == 1 then words[0]
    else words[0] + "-" + Hyphened(words[1..])
  }

  lemma WordCharIs(c: char)
    ensures IsWordChar(c) <==> IsSlugChar(c)
  {
  }

  lemma {:induction false} WordsAreNotEmpty(s: string)
    ensures Words(s) == [] <==> Hyphened(Words(s)) == ""
    ensures Words(s) != [] ==> Words(s)[0] != ""
    ensures Words(s) == [] && s != "" ==> !IsWordChar(s[|s| - 1]) && !IsWordChar(s[0])
    decreases |s|
  {
    if s != "" {
      if IsWordChar(s[0]) {
        WordsAreNotEmpty(s[Beginning(s)..]);
      } else {
        WordsAreNotEmpty(s[1..]);
      }
    }
  }

  lemma BeginningStep(c: char, s: string)
    requires IsWordChar(c)
    ensures Beginning([c] + s) == 1 + Beginning(s)
  {
    assert ([c] + s)[1..] == s;
    hide IsWordChar;
  }

  lemma NoBeginning(s: string)
    ensures s == "" || !IsWordChar(s[0]) ==> Beginning(s) == 0
  {
  }

  lemma WordsOfWord(c: char, s: string)
    requires IsWordChar(c)
    ensures
      if s != "" && IsWordChar(s[0]) then Words([c] + s) == [[c] + Words(s)[0]] + Words(s)[1..] && Words(s) != []
      else Words([c] + s) == [[c]] + Words(s)
  {
    var t, n := [c] + s, Beginning(s);
    BeginningStep(c, s);
    assert Words(t) == [t[..1 + n]] + Words(t[1 + n..]);
    assert t[..1 + n] == [c] + s[..n] && t[1 + n..] == s[n..];
    if s == "" || !IsWordChar(s[0]) {
      NoBeginning(s);
      assert s[0..] == s && [c] + s[..0] == [c];
    } else {
      assert Words(s) == [s[..n]] + Words(s[n..]);
      assert Words(s)[1..] == Words(s[n..]);
    }
    hide Words, IsWordChar, Beginning;
  }

  lemma WordsOfOther(c: char, s: string)
    requires !IsWordChar(c)
    ensures Words([c] + s) == Words(s)
  {
    assert ([c] + s)[1..] == s;
  }

  lemma HyphenedHead(c: char, words: seq<string>)
    requires words != []
    ensures Hyphened([[c] + words[0]] + words[1..]) == [c] + Hyphened(words)
  {
    var more := [[c] + words[0]] + words[1..];
    assert more[1..] == words[1..];
  }

  lemma HyphenedCons(word: string, words: seq<string>)
    ensures Hyphened([word] + words) == if words == [] then word else word + "-" + Hyphened(words)
  {
    assert ([word] + words)[1..] == words;
  }

  function Lead(s: string, inRun: bool): string {
    if s != "" && !IsWordChar(s[0]) && !inRun then "-" else ""
  }

  function Trail(s: string): string {
    if s != "" && !IsWordChar(s[|s| - 1]) && Words(s) != [] then "-" else ""
  }

  lemma LeadStep(c: char, rest: string, inRun: bool)
    ensures Lead([c] + rest, inRun) == if IsWordChar(c) || inRun then "" else "-"
    ensures Lead(rest, false) == (if rest == "" || IsWordChar(rest[0]) then "" else "-") && Lead(rest, true) == ""
  {
  }

  lemma TrailStep(c: char, rest: string)
    ensures
      Trail([c] + rest) ==
        if rest == "" then "" else if Words(rest) == [] then (if IsWordChar(c) then "-" else "") else Trail(rest)
  {
    WordsAreNotEmpty(rest);
    hide Words, IsWordChar;
    var s := [c] + rest;
    assert rest != "" ==> s[|s| - 1] == rest[|rest| - 1];
    if IsWordChar(c) {
      WordsOfWord(c, rest);
    } else {
      WordsOfOther(c, rest);
      NoWords();
    }
  }

  lemma NoWords()
    ensures Words("") == [] && Hyphened([]) == ""
  {
  }

  /** A word character joins the word that follows it at once, or is a word of its own. */
  lemma HyphenedStep(c: char, rest: string)
    ensures
      var v, w := Hyphened(Words(rest)), Hyphened(Words([c] + rest));
      w == if !IsWordChar(c) then v
           else if rest != "" && IsWordChar(rest[0]) then [c] + v
           else if Words(rest) == [] then [c] else [c] + "-" + v
  {
    hide Words, Hyphened, IsWordChar;
    if IsWordChar(c) {
      WordsOfWord(c, rest);
      if rest != "" && IsWordChar(rest[0]) {
        HyphenedHead(c, Words(rest));
      } else {
        HyphenedCons([c], Words(rest));
      }
    } else {
      WordsOfOther(c, rest);
    }
  }

  /**
   Collapsing the text puts a hyphen between words, and one at either end where the text does not
   begin or end with a word.
   */
  lemma {:induction false} CollapseIsWords(s: string, inRun: bool)
    ensures Collapse(s, inRun) == Lead(s, inRun) + (Hyphened(Words(s)) + Trail(s))
    decreases |s|
  {
    hide Collapse, Words, Hyphened, IsSlugChar, IsWordChar, Lead, Trail;
    if s == "" {
      NoWords();
      EmptyEnds(inRun);
      CollapseStep(' ', "", inRun);
    } else {
      var c, rest := s[0], s[1..];
      assert s == [c] + rest;
      WordCharIs(c);
      CollapseIsWords(rest, !IsWordChar(c));
      CollapseStep(c, rest, inRun);
      LeadStep(c, rest, inRun);
      TrailStep(c, rest);
      HyphenedStep(c, rest);
      WordsAreNotEmpty(rest);
      EmptyEnds(false);
      JoinedEnds(c, Hyphened(Words(rest)), Trail(rest));
      NoTrail(rest);
    }
  }

  lemma NoTrail(s: string)
    ensures Words(s) == [] ==> Trail(s) == ""
  {
    hide Words, IsWordChar;
  }

  lemma EmptyEnds(inRun: bool)
    ensures Lead("", inRun) == "" && Trail("") == "" && Words("") == []
  {
  }

  lemma JoinedEnds(c: char, v: string, t: string)
    ensures [c] + ("" + (v + t)) == "" + (([c] + v) + t)
    ensures [c] + ("-" + (v + t)) == "" + (([c] + "-" + v) + t)
    ensures [c] + ("-" + ("" + "")) == "" + ([c] + "-")
    ensures [c] + ("" + ("" + "")) == "" + ([c] + "")
    ensures "-" + ("" + (v + t)) == "-" + (v + t) && "" + ("" + (v + t)) == "" + (v + t)
  {
  }

  lemma CollapseStep(c: char, rest: string, inRun: bool)
    ensures Collapse([c] + rest, inRun) ==
      if IsSlugChar(c) then [c] + Collapse(rest, false) else (if inRun then "" else "-") + Collapse(rest, true)
    ensures Collapse("", inRun) == ""
  {
    assert ([c] + rest)[1..] == rest;
  }

  lemma {:induction false} HyphenedEnds(s: string)
    ensures
      var w := Hyphened(Words(s));
      w != "" ==> w[0] != '-' && w[|w| - 1] != '-'
    decreases |s|
  {
    if s != "" {
      if IsWordChar(s[0]) {
        var n := Beginning(s);
        HyphenedEnds(s[n..]);
        WordsAreNotEmpty(s[n..]);
        HyphenedCons(s[..n], Words(s[n..]));
        assert s[..n][0] == s[0] && IsWordChar(s[..n][n - 1]);
        hide Words, Hyphened;
      } else {
        HyphenedEnds(s[1..]);
      }
    }
  }

  lemma StripsToWords(w: string, before: string, after: string)
    requires w != "" ==> w[0] != '-' && w[|w| - 1] != '-'
    requires (before == "" || before == "-") && (after == "" || (after == "-" && w != ""))
    ensures StripTrailing(StripLeading(before + (w + after))) == w
  {
    hide StripLeading, StripTrailing;
    var t := w + after;
    LeadingGone(before, t);
    TrailingGone(w, after);
  }

  lemma LeadingGone(before: string, t: string)
    requires (before == "" || before == "-") && (t == "" || t[0] != '-')
    ensures StripLeading(before + t) == t
  {
    assert before == "" ==> before + t == t;
    assert before == "-" ==> (before + t)[0] == '-' && (before + t)[1..] == t;
  }

  lemma TrailingGone(w: string, after: string)
    requires (after == "" || after == "-") && (w == "" || w[|w| - 1] != '-')
    ensures StripTrailing(w + after) == w
  {
    var t := w + after;
    assert after == "" ==> t == w;
    assert after == "-" ==> t[|t| - 1] == '-' && t[..|t| - 1] == w;
  }

  lemma Ends(s: string)
    ensures Lead(s, false) == "" || Lead(s, false) == "-"
    ensures Trail(s) == "" || (Trail(s) == "-" && Words(s) != [])
  {
    hide Words;
  }

  // ----- Trimming takes away no words -----

  lemma {:induction false} LeadingSpacesNoWords(before: string, s: string)
    requires AllSpaces(before)
    ensures Words(before + s) == Words(s)
  {
    if before == "" {
      assert before + s == s;
    } else {
      SpacesAreNoWords(before[0]);
      assert before + s == [before[0]] + (before[1..] + s);
      WordsOfOther(before[0], before[1..] + s);
      LeadingSpacesNoWords(before[1..], s);
    }
  }

  lemma {:induction false} TrailingSpacesNoWords(s: string, after: string)
    requires AllSpaces(after)
    ensures Words(s + after) == Words(s)
    decreases |s|
  {
    if s == "" {
      assert s + after == after && after + "" == after;
      LeadingSpacesNoWords(after, "");
    } else {
      var c, rest := s[0], s[1..];
      assert s == [c] + rest && s + after == [c] + (rest + after);
      TrailingSpacesNoWords(rest, after);
      hide Words, IsWordChar;
      if IsWordChar(c) {
        WordsOfWord(c, rest);
        WordsOfWord(c, rest + after);
        if rest == "" && after != "" {
          SpacesAreNoWords(after[0]);
          assert (rest + after)[0] == after[0];
        }
        assert rest != "" ==> (rest + after)[0] == rest[0];
      } else {
        WordsOfOther(c, rest);
        WordsOfOther(c, rest + after);
      }
    }
  }

  lemma SpacesAreNoWords(c: char)
    requires IsSpace(c)
    ensures !IsWordChar(c)
  {
  }

  lemma TrimKeepsWords(s: string)
    ensures Words(Trim(s)) == Words(s)
  {
    hide Words, Trim, IsSpace;
    var before, body, after := EveryTextCanBeTrimmed(s);
    TrimIs(before, body, after);
    LeadingSpacesNoWords(before, body + after);
    TrailingSpacesNoWords(body, after);
    assert before + (body + after) == s;
  }

  /**
   What a slug is: the words of the title in lower case, joined by hyphens, of which the first 80
   characters are kept; "article" if there is no word.
   */
  lemma SlugIsItsWords(low: CaseMap, title: string)
    ensures
      var w := Hyphened(Words(MapCase(low, title)));
      && Uncut(low, title) == w
      && Slugify(low, title) == if w == "" then "article" else if |w| <= 80 then w else w[..80]
  {
    hide Words, Hyphened, Trim, MapCase, Collapse, StripLeading, StripTrailing, IsWordChar;
    var t := Trim(MapCase(low, title));
    TrimKeepsWords(MapCase(low, title));
    CollapseIsWords(t, false);
    HyphenedEnds(t);
    Ends(t);
    WordsAreNotEmpty(t);
    hide Lead, Trail;
    StripsToWords(Hyphened(Words(t)), Lead(t, false), Trail(t));
  }

  // ----- The candidates -----

  /** The base comes first, and then the base, a hyphen and the number, from 2 on. */
  lemma CandidateIsNumbered(base: string, n: nat)
    ensures Candidate(base, 1) == base
    ensures 2 <= n ==>
      && |base| < |Candidate(base, n)| && Candidate(base, n)[..|base| + 1] == base + "-"
      && Parse(Candidate(base, n)[|base| + 1..], 10) == n
  {
    NumeralParses(n, 10);
    if 2 <= n {
      assert Candidate(base, n) == (base + "-") + Numeral(n, 10);
      assert Candidate(base, n)[|base| + 1..] == Numeral(n, 10);
    }
  }
}

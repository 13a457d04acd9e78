/** Normal forms of DNS domain names, as the client and client-domain services compute them. */
module DomainNames {
  import opened Options
  import opened Text

  predicate IsLetter(c: char) {
    'a' <= c <= 'z'
  }

  predicate IsLabel(s: string) {
    1 <= |s| <= 63 && forall i | 0 <= i < |s| :: IsLetter(s[i]) || IsDigit(s[i]) || s[i] == '-'
  }

  predicate IsTopLevel(s: string) {
    2 <= |s| <= 63 && forall i | 0 <= i < |s| :: IsLetter(s[i])
  }

  function FirstDot(s: string): (i: nat)
    ensures i <= |s| && (i < |s| ==> s[i] == '.')
  {
    if s == "" || s[0] == '.' then 0 else 1 + FirstDot(s[1..])
  }

  /** One or more labels, each with its dot, and a top level. */
  predicate Labels(s: string)
    decreases |s|
  {
    var i := FirstDot(s);
    i < |s| && IsLabel(s[..i]) && (IsTopLevel(s[i + 1..]) || Labels(s[i + 1..]))
  }

  predicate IsDomain(s: string) {
    s != "" && s[0] != '-' && Labels(s)
  }

  function StripDot(s: string): string {
    if s != "" && s[|s| - 1] == '.' then s[..|s| - 1] else s
  }

  function Folded(low: CaseMap, value: string): string {
    StripDot(MapCase(low, Trim(value)))
  }

  /** The name in normal form, or an error. */
  function NormalizeDomain(low: CaseMap, value: string): Option<string> {
    if IsDomain(Folded(low, value)) then Some(Folded(low, value)) else None
  }

  predicate IsDomainChar(c: char) {
    IsLetter(c) || IsDigit(c) || c == '-' || c == '.'
  }

  lemma {:induction false} LabelsShape(s: string)
    requires Labels(s)
    ensures forall i | 0 <= i < |s| :: IsDomainChar(s[i])
    ensures s != "" && IsLetter(s[|s| - 1])
    decreases |s|
  {
    var i := FirstDot(s);
    var head, rest := s[..i], s[i + 1..];
    assert s == head + ["."[0]] + rest;
    if !IsTopLevel(rest) {
      LabelsShape(rest);
    }
  }

  lemma {:induction false} DomainTextUnchanged(low: CaseMap, s: string)
    requires Lowercases(low) && forall i | 0 <= i < |s| :: IsDomainChar(s[i])
    ensures MapCase(low, s) == s
  {
    if s != "" {
      DomainTextUnchanged(low, s[1..]);
    }
  }

  /** A normal form is its own normal form: two texts of a domain compare equal once both are normalized. */
  lemma NormalizationIsIdempotent(low: CaseMap, value: string)
    requires Lowercases(low) && NormalizeDomain(low, value).Some?
    ensures
      var d := NormalizeDomain(low, value).value;
      NormalizeDomain(low, d) == Some(d)
  {
    var d := NormalizeDomain(low, value).value;
    LabelsShape(d);
    assert !IsSpace(d[0]) && !IsSpace(d[|d| - 1]);
    assert Trim(d) == d;
    DomainTextUnchanged(low, d);
  }

  /** The clients' variant: an empty name is dropped rather than refused, and each name is kept once. */
  function NormalizeList(low: CaseMap, values: seq<string>): Option<seq<string>> {
    if values == [] then Some([])
    else
      var front, last := NormalizeList(low, values[..|values| - 1]), Folded(low, values[|values| - 1]);
      if front.None? || (last != "" && !IsDomain(last)) then None
      else if last == "" || last in front.value then front
      else Some(front.value + [last])
  }

  lemma {:induction false} ListIsNormal(low: CaseMap, values: seq<string>)
    requires Lowercases(low) && NormalizeList(low, values).Some?
    ensures
      var names := NormalizeList(low, values).value;
      && (forall i | 0 <= i < |names| :: NormalizeDomain(low, names[i]) == Some(names[i]))
      && (forall i, j | 0 <= i < j < |names| :: names[i] != names[j])
  {
    if values != [] {
      var n := |values| - 1;
      ListIsNormal(low, values[..n]);
      var front, last := NormalizeList(low, values[..n]).value, values[n];
      if Folded(low, last) != "" && Folded(low, last) !in front {
        assert NormalizeDomain(low, last) == Some(Folded(low, last));
        NormalizationIsIdempotent(low, last);
        hide Folded, IsDomain, NormalizeDomain;
      }
    }
  }

  // ----- The names that are accepted -----

  /** Labels, each with a dot after it, and a top level. */
  function Dotted(labels: seq<string>, top: string): string {
    if labels == [] then top else labels[0] + "." + Dotted(labels[1..], top)
  }

  /** One part or more of 1 to 63 letters, digits and hyphens, and a top level of 2 to 63 letters. */
  ghost predicate AreLabels(labels: seq<string>, top: string) {
    && labels != [] && 2 <= |top| <= 63
    && (forall k | 0 <= k < |top| :: 'a' <= top[k] <= 'z')
    && forall i | 0 <= i < |labels| :: IsOneLabel(labels[i])
  }

  ghost predicate IsOneLabel(part: string) {
    && 1 <= |part| <= 63
    && forall k | 0 <= k < |part| :: 'a' <= part[k] <= 'z' || '0' <= part[k] <= '9' || part[k] == '-'
  }

  lemma {:induction false} FirstDotIs(part: string, rest: string)
    requires forall k | 0 <= k < |part| :: part[k] != '.'
    ensures FirstDot(part + "." + rest) == |part|
  {
    var s := part + "." + rest;
    if part == "" {
      assert s[0] == '.';
    } else {
      assert s[0] == part[0] && s[1..] == part[1..] + "." + rest;
      FirstDotIs(part[1..], rest);
    }
  }

  lemma {:induction false} LabelsFound(s: string) returns (labels: seq<string>, top: string)
    requires Labels(s)
    ensures AreLabels(labels, top) && s == Dotted(labels, top)
    decreases |s|
  {
    var i := FirstDot(s);
    var part, rest := s[..i], s[i + 1..];
    assert s == part + "." + rest;
    if IsTopLevel(rest) {
      labels, top := [part], rest;
      assert [part][1..] == [];
    } else {
      labels, top := LabelsFound(rest);
      assert ([part] + labels)[1..] == labels;
      labels := [part] + labels;
    }
  }

  lemma {:induction false} LabelsMatch(labels: seq<string>, top: string)
    requires AreLabels(labels, top)
    ensures Labels(Dotted(labels, top))
    decreases |labels|
  {
    var part, rest := labels[0], Dotted(labels[1..], top);
    assert IsOneLabel(part);
    FirstDotIs(part, rest);
    var s := part + "." + rest;
    assert s[..|part|] == part && s[|part| + 1..] == rest;
    if labels[1..] != [] {
      LabelsMatch(labels[1..], top);
    }
  }

  /** Exactly the dotted names that do not begin with a hyphen. None of them holds a slash, a colon or an at sign. */
  lemma DomainsAreDottedLabels(s: string)
    ensures IsDomain(s) <==>
      s != "" && s[0] != '-' && exists labels, top :: AreLabels(labels, top) && s == Dotted(labels, top)
  {
    if Labels(s) {
      var labels, top := LabelsFound(s);
    }
    if labels, top :| AreLabels(labels, top) && s == Dotted(labels, top) {
      LabelsMatch(labels, top);
    }
  }

  /** What a name is normalized to: the text, trimmed and in lower case, without one final dot, if that is a domain. */
  lemma NormalFormIff(low: CaseMap, value: string, d: string)
    ensures
      var v := MapCase(low, Trim(value));
      NormalizeDomain(low, value) == Some(d) <==> IsDomain(d) && (v == d || v == d + ".")
  {
    var v := MapCase(low, Trim(value));
    if IsDomain(d) {
      LabelsShape(d);
      assert (d + ".")[..|d|] == d;
    }
    if v != "" && v[|v| - 1] == '.' {
      assert v == v[..|v| - 1] + ".";
    }
    hide MapCase, Trim, IsDomain;
  }

  lemma FoldedIsEmpty(low: CaseMap, value: string)
    ensures
      var v := MapCase(low, Trim(value));
      Folded(low, value) == "" <==> v == "" || v == "."
  {
    hide MapCase, Trim;
  }

  /** An error if a name is neither empty nor a domain, and otherwise the normal forms of the names, each once. */
  ghost predicate IsNormalList(low: CaseMap, values: seq<string>, r: Option<seq<string>>) {
    && (r.None? <==> exists i | 0 <= i < |values| :: IsBad(low, values[i]))
    && (r.Some? ==> forall x ::
          x in r.value <==> exists i | 0 <= i < |values| :: NormalizeDomain(low, values[i]) == Some(x))
    && (r.Some? ==> forall i, j | 0 <= i < j < |r.value| :: r.value[i] != r.value[j])
  }

  lemma ListWithNext(low: CaseMap, values: seq<string>, value: string,
                     r: Option<seq<string>>, next: Option<seq<string>>)
    requires IsNormalList(low, values, r)
    requires
      if r.None? || IsBad(low, value) then next == None
      else
        var d := NormalizeDomain(low, value);
        next == if d.None? || d.value in r.value then r else Some(r.value + [d.value])
    ensures IsNormalList(low, values + [value], next)
  {
    hide IsBad, NormalizeDomain;
    var more := values + [value];
    assert forall i | 0 <= i < |values| :: more[i] == values[i];
    if i :| 0 <= i < |values| && IsBad(low, values[i]) {
      assert IsBad(low, more[i]);
    }
    assert more[|values|] == value;
    if next.Some? {
      forall x ensures x in next.value <==> exists i | 0 <= i < |more| :: NormalizeDomain(low, more[i]) == Some(x) {
        if i :| 0 <= i < |values| && NormalizeDomain(low, values[i]) == Some(x) {
          assert NormalizeDomain(low, more[i]) == Some(x);
        }
      }
    }
  }

  lemma ListStep(low: CaseMap, values: seq<string>, value: string)
    ensures
      var r, next := NormalizeList(low, values), NormalizeList(low, values + [value]);
      if r.None? || IsBad(low, value) then next == None
      else
        var d := NormalizeDomain(low, value);
        next == if d.None? || d.value in r.value then r else Some(r.value + [d.value])
  {
    assert (values + [value])[..|values|] == values;
    BadIff(low, value);
    EmptyIsNoDomain();
    hide IsBad, IsDomain, Folded;
  }

  /** What a list of names is normalized to. */
  lemma {:induction false} ListIff(low: CaseMap, values: seq<string>)
    ensures IsNormalList(low, values, NormalizeList(low, values))
  {
    if values == [] {
    } else {
      hide IsNormalList, NormalizeList;
      var front, last := values[..|values| - 1], values[|values| - 1];
      ListIff(low, front);
      ListStep(low, front, last);
      ListWithNext(low, front, last, NormalizeList(low, front), NormalizeList(low, values));
      assert values == front + [last];
    }
  }

  lemma EmptyIsNoDomain()
    ensures !IsDomain("")
  {
  }

  /** Neither empty, a lone dot counting as empty, nor a domain. */
  ghost predicate IsBad(low: CaseMap, value: string) {
    var v := MapCase(low, Trim(value));
    v != "" && v != "." && NormalizeDomain(low, value).None?
  }

  lemma BadIff(low: CaseMap, value: string)
    ensures IsBad(low, value) <==> Folded(low, value) != "" && !IsDomain(Folded(low, value))
  {
    FoldedIsEmpty(low, value);
    hide MapCase, Trim, IsDomain, Folded;
  }
}

/** Strings as ECMAScript treats them: white space, letter case, numerals and padding. */
module Text {

  /** The `\s` class, which is also what `trim` removes. */
  predicate IsSpace(c: char) {
    || c == ' ' || '\t' <= c <= '\r' || c == '\U{00A0}' || c == '\U{1680}' || '\U{2000}' <= c <= '\U{200A}'
    || c == '\U{2028}' || c == '\U{2029}' || c == '\U{202F}' || c == '\U{205F}' || c == '\U{3000}' || c == '\U{FEFF}'
  }

  function RemoveSpaces(s: string): string {
    if s == "" then "" else (if IsSpace(s[0]) then "" else [s[0]]) + RemoveSpaces(s[1..])
  }

  function TrimStart(s: string): string {
    if s != "" && IsSpace(s[0]) then TrimStart(s[1..]) else s
  }

  function TrimEnd(s: string): string {
    if s != "" && IsSpace(s[|s| - 1]) then TrimEnd(s[..|s| - 1]) else s
  }

  function Trim(s: string): string {
    TrimEnd(TrimStart(s))
  }

  /** `s.replace(/c/g, with)` for a single character. */
  function ReplaceChar(s: string, c: char, with: string): string {
    if s == "" then "" else (if s[0] == c then with else [s[0]]) + ReplaceChar(s[1..], c, with)
  }

  // ----- Letter case. What happens to characters outside ASCII is a parameter. -----

  type CaseMap = char -> string

  function AsciiUpper(c: char): char {
    if 'a' <= c <= 'z' then (c as int - 32) as char else c
  }

  function AsciiLower(c: char): char {
    if 'A' <= c <= 'Z' then (c as int + 32) as char else c
  }

  ghost predicate Uppercases(up: CaseMap) {
    forall c: char | c < '\U{0080}' :: up(c) == [AsciiUpper(c)]
  }

  ghost predicate Lowercases(low: CaseMap) {
    forall c: char | c < '\U{0080}' :: low(c) == [AsciiLower(c)]
  }

  function MapCase(f: CaseMap, s: string): string {
    if s == "" then "" else f(s[0]) + MapCase(f, s[1..])
  }

  // ----- Numerals -----

  function DigitChar(d: nat): char
    requires d < 10
  {
    ('0' as int + d) as char
  }

  predicate IsDigit(c: char) {
    '0' <= c <= '9'
  }

  function DigitValue(c: char): nat {
    if IsDigit(c) then c as int - '0' as int else 0
  }

  /** `n.toString(base)`. */
  function Numeral(n: nat, base: nat): string
    requires 2 <= base <= 10
  {
    if n < base then [DigitChar(n)] else Numeral(n / base, base) + [DigitChar(n % base)]
  }

  /** `parseInt(s, base)` on a string of digits. */
  function Parse(s: string, base: nat): nat {
    if s == "" then 0 else Parse(s[..|s| - 1], base) * base + DigitValue(s[|s| - 1])
  }

  function Power(base: nat, exponent: nat): nat {
    if exponent == 0 then 1 else base * Power(base, exponent - 1)
  }

  function Repeat(c: char, count: nat): string {
    seq(count, _ => c)
  }

  function PadStart(s: string, width: nat, c: char): string {
    if |s| < width then Repeat(c, width - |s|) + s else s
  }

  function PadEnd(s: string, width: nat, c: char): string {
    if |s| < width then s + Repeat(c, width - |s|) else s
  }

  // ----- Arithmetic on quotients -----

  lemma NextMultiple(p: nat, q: nat, base: nat)
    requires p < q
    ensures p * base + base <= q * base
  {
    assert (p + 1) * base <= q * base;
  }

  lemma DivisionSplits(n: nat, base: nat)
    requires 1 <= base
    ensures n / base * base + n % base == n && n % base < base
  {
  }

  lemma DigitStep(p: nat, q: nat, d: nat, base: nat)
    requires p < q && d < base
    ensures p * base + d < q * base
  {
    NextMultiple(p, q, base);
  }

  lemma MultiplesOrdered(p: nat, q: nat, base: nat)
    requires p <= q
    ensures p * base <= q * base
  {
  }

  lemma QuotientBelow(n: nat, base: nat, q: nat)
    requires 1 <= base && n < q * base
    ensures n / base < q
  {
    DivisionSplits(n, base);
    if q <= n / base {
      MultiplesOrdered(q, n / base, base);
    }
  }

  // ----- Facts about numerals -----

  ghost predicate DigitsBelow(s: string, base: nat) {
    forall i | 0 <= i < |s| :: IsDigit(s[i]) && DigitValue(s[i]) < base
  }

  lemma ParseOneMore(s: string, c: char, base: nat)
    ensures Parse(s + [c], base) == Parse(s, base) * base + DigitValue(c)
  {
    assert (s + [c])[..|s|] == s;
  }

  lemma DigitIsRead(d: nat)
    requires d < 10
    ensures IsDigit(DigitChar(d)) && DigitValue(DigitChar(d)) == d
  {
  }

  lemma ParseOneDigit(d: nat, base: nat)
    requires d < 10
    ensures Parse([DigitChar(d)], base) == d
  {
    ParseOneMore("", DigitChar(d), base);
    assert "" + [DigitChar(d)] == [DigitChar(d)];
    assert 0 * base == 0;
  }

  lemma {:induction false} NumeralParses(n: nat, base: nat)
    requires 2 <= base <= 10
    ensures Parse(Numeral(n, base), base) == n && DigitsBelow(Numeral(n, base), base)
  {
    hide Parse, DigitChar, DigitValue, IsDigit;
    if n < base {
      ParseOneDigit(n, base);
      DigitIsRead(n);
    } else {
      NumeralParses(n / base, base);
      DivisionSplits(n, base);
      DigitIsRead(n % base);
      ParseOneMore(Numeral(n / base, base), DigitChar(n % base), base);
    }
  }

  lemma NumeralInjective(m: nat, n: nat, base: nat)
    requires 2 <= base <= 10 && Numeral(m, base) == Numeral(n, base)
    ensures m == n
  {
    NumeralParses(m, base);
    NumeralParses(n, base);
  }

  lemma PowerOfZero(base: nat)
    ensures Power(base, 0) == 1
  {
  }

  lemma PowerStep(base: nat, exponent: nat)
    ensures Power(base, exponent + 1) == Power(base, exponent) * base
  {
  }

  lemma {:induction false} NumeralLength(n: nat, base: nat, width: nat)
    requires 2 <= base <= 10 && 1 <= width && n < Power(base, width)
    ensures |Numeral(n, base)| <= width
    decreases width
  {
    hide Power, DigitChar;
    PowerStep(base, width - 1);
    if base <= n {
      var q := Power(base, width - 1);
      if width == 1 { PowerOfZero(base); }
      QuotientBelow(n, base, q);
      DivisionSplits(n, base);
      NumeralLength(n / base, base, width - 1);
    }
  }

  lemma {:induction false} LeadingZeros(s: string, base: nat, count: nat)
    ensures Parse(Repeat('0', count) + s, base) == Parse(s, base)
    decreases |s|, count
  {
    var t := Repeat('0', count) + s;
    if s != "" {
      LeadingZeros(s[..|s| - 1], base, count);
      assert t[..|t| - 1] == Repeat('0', count) + s[..|s| - 1];
    } else if count != 0 {
      assert t[..|t| - 1] == Repeat('0', count - 1) + s;
      LeadingZeros(s, base, count - 1);
    }
  }

  /** Padding a numeral with zeros gives exactly `width` digits of the same value. */
  lemma PaddedNumeral(n: nat, base: nat, width: nat)
    requires 2 <= base <= 10 && 1 <= width && n < Power(base, width)
    ensures
      var s := PadStart(Numeral(n, base), width, '0');
      |s| == width && DigitsBelow(s, base) && Parse(s, base) == n
  {
    NumeralParses(n, base);
    NumeralLength(n, base, width);
    if |Numeral(n, base)| < width {
      LeadingZeros(Numeral(n, base), base, width - |Numeral(n, base)|);
    }
  }

  lemma {:induction false} ParseBound(s: string, base: nat)
    requires 2 <= base && DigitsBelow(s, base)
    ensures Parse(s, base) < Power(base, |s|)
  {
    if s != "" {
      var front := s[..|s| - 1];
      ParseBound(front, base);
      DigitStep(Parse(front, base), Power(base, |front|), DigitValue(s[|s| - 1]), base);
    }
  }

  /** A digit string of a given width is fixed by its value. */
  lemma {:induction false} ParseInjective(s: string, t: string, base: nat)
    requires 2 <= base <= 10 && |s| == |t| && DigitsBelow(s, base) && DigitsBelow(t, base)
    requires Parse(s, base) == Parse(t, base)
    ensures s == t
  {
    if s != "" {
      var a, b := s[..|s| - 1], t[..|t| - 1];
      var x, y := s[|s| - 1], t[|t| - 1];
      assert s == a + [x] && t == b + [y];
      ParseOneMore(a, x, base);
      ParseOneMore(b, y, base);
      QuotientsAgree(Parse(a, base), Parse(b, base), DigitValue(x), DigitValue(y), base);
      ParseInjective(a, b, base);
    }
  }

  lemma QuotientsAgree(p: nat, q: nat, x: nat, y: nat, base: nat)
    requires x < base && y < base && p * base + x == q * base + y
    ensures p == q && x == y
  {
    if p < q {
      NextMultiple(p, q, base);
    } else if q < p {
      NextMultiple(q, p, base);
    }
  }

  lemma PaddedParse(s: string, base: nat)
    requires 2 <= base <= 10 && 1 <= |s| && DigitsBelow(s, base)
    ensures PadStart(Numeral(Parse(s, base), base), |s|, '0') == s
  {
    ParseBound(s, base);
    PaddedNumeral(Parse(s, base), base, |s|);
    ParseInjective(PadStart(Numeral(Parse(s, base), base), |s|, '0'), s, base);
  }

  // ----- What the text functions mean, apart from how they are computed -----

  /** White space and line terminators of ECMAScript (sections 12.2 and 12.3), by code point. */
  lemma SpacesByCodePoint(c: char)
    ensures IsSpace(c) <==>
      || c as int in {0x9, 0xA, 0xB, 0xC, 0xD, 0x20, 0xA0, 0x1680, 0x2028, 0x2029, 0x202F, 0x205F, 0x3000, 0xFEFF}
      || 0x2000 <= c as int <= 0x200A
  {
  }

  ghost predicate AllSpaces(s: string) {
    forall i | 0 <= i < |s| :: IsSpace(s[i])
  }

  lemma RemoveSpacesStep(c: char, s: string)
    ensures RemoveSpaces([c] + s) == (if IsSpace(c) then "" else [c]) + RemoveSpaces(s)
    ensures RemoveSpaces("") == ""
  {
    hide IsSpace;
    assert ([c] + s)[1..] == s;
  }

  /** Each character goes or stays by itself: with `RemoveSpacesStep` for one character, this is all of it. */
  lemma {:induction false} RemoveSpacesAppend(s: string, t: string)
    ensures RemoveSpaces(s + t) == RemoveSpaces(s) + RemoveSpaces(t)
  {
    hide RemoveSpaces, IsSpace;
    if s == "" {
      assert s + t == t;
      RemoveSpacesStep(' ', "");
      assert "" + RemoveSpaces(t) == RemoveSpaces(t);
    } else {
      RemoveSpacesAppend(s[1..], t);
      RemoveSpacesStep(s[0], s[1..] + t);
      RemoveSpacesStep(s[0], s[1..]);
      assert [s[0]] + (s[1..] + t) == s + t && [s[0]] + s[1..] == s;
    }
  }

  lemma MapCaseStep(f: CaseMap, c: char, s: string)
    ensures MapCase(f, [c] + s) == f(c) + MapCase(f, s)
    ensures MapCase(f, "") == ""
  {
    assert ([c] + s)[1..] == s;
  }

  lemma {:induction false} MapCaseAppend(f: CaseMap, s: string, t: string)
    ensures MapCase(f, s + t) == MapCase(f, s) + MapCase(f, t)
  {
    hide MapCase;
    if s == "" {
      assert s + t == t;
      MapCaseStep(f, ' ', "");
      assert "" + MapCase(f, t) == MapCase(f, t);
    } else {
      MapCaseAppend(f, s[1..], t);
      MapCaseStep(f, s[0], s[1..] + t);
      MapCaseStep(f, s[0], s[1..]);
      assert [s[0]] + (s[1..] + t) == s + t && [s[0]] + s[1..] == s;
    }
  }

  lemma {:induction false} TrimStartIs(before: string, body: string)
    requires AllSpaces(before) && (body == "" || !IsSpace(body[0]))
    ensures TrimStart(before + body) == body
  {
    if before == "" {
      assert before + body == body;
    } else {
      assert (before + body)[0] == before[0] && (before + body)[1..] == before[1..] + body;
      TrimStartIs(before[1..], body);
    }
  }

  lemma {:induction false} TrimEndIs(body: string, after: string)
    requires AllSpaces(after) && (body == "" || !IsSpace(body[|body| - 1]))
    ensures TrimEnd(body + after) == body
  {
    if after == "" {
      assert body + after == body;
    } else {
      var t := body + after;
      assert t[|t| - 1] == after[|after| - 1] && t[..|t| - 1] == body + after[..|after| - 1];
      TrimEndIs(body, after[..|after| - 1]);
    }
  }

  /** Trimming takes all the white space at either end, and nothing else. */
  lemma TrimIs(before: string, body: string, after: string)
    requires AllSpaces(before) && AllSpaces(after)
    requires body == "" || (!IsSpace(body[0]) && !IsSpace(body[|body| - 1]))
    ensures Trim(before + body + after) == body
  {
    if body == "" {
      assert before + body + after == (before + after) + body;
      TrimStartIs(before + after, body);
    } else {
      assert before + body + after == before + (body + after);
      TrimStartIs(before, body + after);
      TrimEndIs(body, after);
    }
  }

  /** Every text is of that form, so `TrimIs` says what `Trim` does to all of them. */
  lemma {:induction false} EveryTextCanBeTrimmed(s: string) returns (before: string, body: string, after: string)
    ensures s == before + body + after && AllSpaces(before) && AllSpaces(after)
    ensures body == "" || (!IsSpace(body[0]) && !IsSpace(body[|body| - 1]))
  {
    if s == "" {
      before, body, after := "", "", "";
    } else if IsSpace(s[0]) {
      before, body, after := EveryTextCanBeTrimmed(s[1..]);
      before := [s[0]] + before;
    } else if IsSpace(s[|s| - 1]) {
      before, body, after := EveryTextCanBeTrimmed(s[..|s| - 1]);
      after := after + [s[|s| - 1]];
      assert before + body != "" ==> (before + body)[0] == s[0];
    } else {
      before, body, after := "", s, "";
    }
  }

  /** The value of a few digits, written out. */
  lemma FiveDigits(s: string, base: nat)
    requires |s| == 5
    ensures Parse(s, base) == (((DigitValue(s[0]) * base + DigitValue(s[1])) * base + DigitValue(s[2])) * base
                               + DigitValue(s[3])) * base + DigitValue(s[4])
  {
    hide DigitValue, IsDigit;
    assert s[..0] == "" && Parse(s[..0], base) == 0 && 0 * base == 0;
    assert s[..1] == s[..0] + [s[0]] && s[..2] == s[..1] + [s[1]] && s[..3] == s[..2] + [s[2]];
    assert s[..4] == s[..3] + [s[3]] && s == s[..4] + [s[4]];
    hide Parse;
    ParseOneMore(s[..0], s[0], base);
    ParseOneMore(s[..1], s[1], base);
    ParseOneMore(s[..2], s[2], base);
    ParseOneMore(s[..3], s[3], base);
    ParseOneMore(s[..4], s[4], base);
  }
}

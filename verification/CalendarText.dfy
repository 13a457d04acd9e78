/** Escaping of calendar TEXT values (RFC 5545, section 3.3.11). */
module CalendarText {
  import opened Options
  import opened Text

  /** `s.replace(/\r?\n/g, with)` */
  function ReplaceNewlines(s: string, with: string): string {
    if s == "" then ""
    else if "\r\n" <= s then with + ReplaceNewlines(s[2..], with)
    else if s[0] == '\n' then with + ReplaceNewlines(s[1..], with)
    else [s[0]] + ReplaceNewlines(s[1..], with)
  }

  function EscapeChars(value: string): string {
    ReplaceChar(ReplaceChar(ReplaceChar(value, '\\', "\\\\"), ';', "\\;"), ',', "\\,")
  }

  /** The four replacements, one after the other. */
  function Escape(value: string): string {
    ReplaceNewlines(EscapeChars(value), "\\n")
  }

  function EscapedChar(c: char): string {
    match c
    case '\n' => "\\n"
    case '\\' => "\\\\"
    case ';' => "\\;"
    case ',' => "\\,"
    case c => [c]
  }

  /** The same in one pass over the text. */
  function EscapeOnce(s: string): string {
    if s == "" then ""
    else if "\r\n" <= s then EscapedChar('\n') + EscapeOnce(s[2..])
    else EscapedChar(s[0]) + EscapeOnce(s[1..])
  }

  lemma ReplaceCharStep(first: char, rest: string, c: char, with: string)
    ensures ReplaceChar([first] + rest, c, with) == (if first == c then with else [first]) + ReplaceChar(rest, c, with)
  {
    assert ([first] + rest)[1..] == rest;
  }

  lemma ReplaceCharTwo(x: char, y: char, rest: string, c: char, with: string)
    requires x != c && y != c
    ensures ReplaceChar([x, y] + rest, c, with) == [x, y] + ReplaceChar(rest, c, with)
  {
    ReplaceCharStep(x, [y] + rest, c, with);
    ReplaceCharStep(y, rest, c, with);
    assert [x, y] + rest == [x] + ([y] + rest);
    assert [x, y] + ReplaceChar(rest, c, with) == [x] + ([y] + ReplaceChar(rest, c, with));
  }

  lemma ReplaceNewlinesStep(c: char, rest: string, with: string)
    requires c != '\n' && !("\r\n" <= [c] + rest)
    ensures ReplaceNewlines([c] + rest, with) == [c] + ReplaceNewlines(rest, with)
  {
    assert ([c] + rest)[1..] == rest;
  }

  lemma ReplaceNewlinesTwo(x: char, y: char, rest: string, with: string)
    requires x !in {'\r', '\n'} && y !in {'\r', '\n'}
    ensures ReplaceNewlines([x, y] + rest, with) == [x, y] + ReplaceNewlines(rest, with)
  {
    assert ([x] + ([y] + rest))[0] == x && ([y] + rest)[0] == y;
    ReplaceNewlinesStep(x, [y] + rest, with);
    ReplaceNewlinesStep(y, rest, with);
    assert [x, y] + rest == [x] + ([y] + rest);
    assert [x, y] + ReplaceNewlines(rest, with) == [x] + ([y] + ReplaceNewlines(rest, with));
  }

  lemma EscapeCharsStep(c: char, rest: string)
    ensures EscapeChars([c] + rest) == (if c == '\n' then [c] else EscapedChar(c)) + EscapeChars(rest)
  {
    var r1 := ReplaceChar(rest, '\\', "\\\\");
    var r2 := ReplaceChar(r1, ';', "\\;");
    ReplaceCharStep(c, rest, '\\', "\\\\");
    if c == '\\' {
      ReplaceCharTwo('\\', '\\', r1, ';', "\\;");
      ReplaceCharTwo('\\', '\\', r2, ',', "\\,");
    } else {
      ReplaceCharStep(c, r1, ';', "\\;");
      if c == ';' {
        ReplaceCharTwo('\\', ';', r2, ',', "\\,");
      } else {
        ReplaceCharStep(c, r2, ',', "\\,");
      }
    }
  }

  lemma EscapeCharsStart(s: string)
    ensures s == "" <==> EscapeChars(s) == ""
    ensures s != "" ==> (EscapeChars(s)[0] == '\n' <==> s[0] == '\n')
  {
    if s != "" {
      assert s == [s[0]] + s[1..];
      EscapeCharsStep(s[0], s[1..]);
    }
  }

  /** On every text, the four replacements in sequence and the single pass agree. */
  lemma {:induction false} SequentialEqualsOnePass(s: string)
    ensures Escape(s) == EscapeOnce(s)
    decreases |s|
  {
    EscapeCharsStart(s);
    hide EscapeChars;
    if s != "" {
      var c, rest := s[0], s[1..];
      assert s == [c] + rest;
      EscapeCharsStep(c, rest);
      var escaped := EscapeChars(rest);
      SequentialEqualsOnePass(rest);
      if "\r\n" <= s {
        SequentialEqualsOnePass(s[2..]);
        assert rest == ['\n'] + s[2..];
        EscapeCharsStep('\n', s[2..]);
        var t := ['\r'] + (['\n'] + EscapeChars(s[2..]));
        assert EscapeChars(s) == t && "\r\n" <= t && t[2..] == EscapeChars(s[2..]);
      } else if c in {'\\', ';', ','} {
        ReplaceNewlinesTwo('\\', c, escaped, "\\n");
      } else if c == '\n' {
        assert (['\n'] + escaped)[1..] == escaped;
      } else {
        EscapeCharsStart(rest);
        ReplaceNewlinesStep(c, escaped, "\\n");
      }
    }
  }

  // ----- Unescaping -----

  /** The text a TEXT value stands for, if it is well formed. */
  function Unescape(s: string): Option<string> {
    if s == "" then Some("")
    else if s[0] in {';', ',', '\n'} then None
    else if s[0] != '\\' then Prepend([s[0]], Unescape(s[1..]))
    else if |s| == 1 then None
    else match s[1]
      case '\\' => Prepend("\\", Unescape(s[2..]))
      case ';' => Prepend(";", Unescape(s[2..]))
      case ',' => Prepend(",", Unescape(s[2..]))
      case 'n' => Prepend("\n", Unescape(s[2..]))
      case 'N' => Prepend("\n", Unescape(s[2..]))
      case _ => None
  }

  function Prepend(head: string, tail: Option<string>): Option<string> {
    match tail
    case Some(t) => Some(head + t)
    case None => None
  }

  lemma UnescapePair(c: char, plain: string, rest: string)
    requires (c in {'\\', ';', ','} && plain == [c]) || (c == 'n' && plain == "\n")
    ensures Unescape(['\\', c] + rest) == Prepend(plain, Unescape(rest))
  {
    assert (['\\', c] + rest)[2..] == rest;
  }

  lemma {:induction false} OnePassUnescapes(s: string)
    ensures Unescape(EscapeOnce(s)) == Some(ReplaceNewlines(s, "\n"))
    decreases |s|
  {
    if s != "" {
      if "\r\n" <= s {
        OnePassUnescapes(s[2..]);
        UnescapePair('n', "\n", EscapeOnce(s[2..]));
      } else {
        var c, rest := s[0], EscapeOnce(s[1..]);
        OnePassUnescapes(s[1..]);
        if c == '\n' {
          UnescapePair('n', "\n", rest);
        } else if c in {'\\', ';', ','} {
          UnescapePair(c, [c], rest);
        } else {
          assert ([c] + rest)[1..] == rest;
        }
      }
    }
  }

  /**
   Escaping always yields a well-formed value, one with no line feed and with no `;`
   or `,` that is not escaped, and unescaping it gives the text back with each CRLF
   turned into LF.
   */
  lemma UnescapeUndoesEscape(s: string)
    ensures Unescape(Escape(s)) == Some(ReplaceNewlines(s, "\n"))
  {
    SequentialEqualsOnePass(s);
    OnePassUnescapes(s);
  }

  ghost predicate HasCrlf(s: string) {
    exists i | 0 <= i < |s| - 1 :: s[i] == '\r' && s[i + 1] == '\n'
  }

  lemma {:induction false} NewlinesUnchanged(s: string)
    ensures |ReplaceNewlines(s, "\n")| <= |s|
    ensures |ReplaceNewlines(s, "\n")| == |s| <==> !HasCrlf(s)
    ensures !HasCrlf(s) ==> ReplaceNewlines(s, "\n") == s
    decreases |s|
  {
    if s != "" {
      if "\r\n" <= s {
        NewlinesUnchanged(s[2..]);
        assert s[0] == '\r' && s[1] == '\n';
      } else {
        NewlinesUnchanged(s[1..]);
        assert HasCrlf(s) <==> HasCrlf(s[1..]) by {
          if HasCrlf(s) {
            var i :| 0 <= i < |s| - 1 && s[i] == '\r' && s[i + 1] == '\n';
            assert 0 < i && s[1..][i - 1] == '\r' && s[1..][i] == '\n';
          }
          if HasCrlf(s[1..]) {
            var i :| 0 <= i < |s[1..]| - 1 && s[1..][i] == '\r' && s[1..][i + 1] == '\n';
            assert s[i + 1] == '\r' && s[i + 2] == '\n';
          }
        }
      }
    }
  }

  /** The round trip is exact if and only if the text holds no CRLF. */
  lemma RoundTripIsExactWithoutCrlf(s: string)
    ensures Unescape(Escape(s)) == Some(s) <==> !HasCrlf(s)
  {
    UnescapeUndoesEscape(s);
    NewlinesUnchanged(s);
  }

  lemma CrlfComesBackAsLf()
    ensures Unescape(Escape("\r\n")) == Some("\n")
  {
    UnescapeUndoesEscape("\r\n");
    assert ReplaceNewlines("", "\n") == "" && "\r\n"[2..] == "";
    assert ReplaceNewlines("\r\n", "\n") == "\n" + "" == "\n";
  }

  /** Every `;` and `,` is the second of an escape pair, and no line feed remains. */
  predicate Protected(s: string) {
    s == ""
    || (s[0] == '\\' && 2 <= |s| && s[1] != '\n' && Protected(s[2..]))
    || (s[0] !in {'\\', ';', ',', '\n'} && Protected(s[1..]))
  }

  lemma {:induction false} UnescapableIsProtected(s: string)
    requires Unescape(s).Some?
    ensures Protected(s) && '\n' !in s
    decreases |s|
  {
    if s != "" {
      if s[0] == '\\' {
        UnescapableIsProtected(s[2..]);
        assert s == [s[0], s[1]] + s[2..];
      } else {
        UnescapableIsProtected(s[1..]);
        assert s == [s[0]] + s[1..];
      }
    }
  }

  lemma EscapedTextIsProtected(s: string)
    ensures Protected(Escape(s)) && '\n' !in Escape(s)
  {
    UnescapeUndoesEscape(s);
    UnescapableIsProtected(Escape(s));
  }
}

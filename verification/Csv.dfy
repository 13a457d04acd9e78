/** The CSV printer of the report and audit exports, and a parser of the format (RFC 4180, section 2). */
module Csv {
  import opened Options
  import opened Text

  type Row = seq<string>

  const QUOTE: string := "\""
  const LINE_BREAK: string := "\r\n"

  // ----- The printer -----

  function Quoted(cell: string): string {
    QUOTE + ReplaceChar(cell, '"', "\"\"") + QUOTE
  }

  function Join(parts: seq<string>, separator: string): string {
    if parts == [] then ""
    else if |parts| == 1 then parts[0]
    else parts[0] + separator + Join(parts[1..], separator)
  }

  function RowText(row: Row): string {
    Join(seq(|row|, i requires 0 <= i < |row| => Quoted(row[i])), ",")
  }

  function ToCsv(rows: seq<Row>): string {
    Join(seq(|rows|, i requires 0 <= i < |rows| => RowText(rows[i])), LINE_BREAK)
  }

  // ----- The parser -----

  datatype Parsed<T> = Fail | Ok(value: T, rest: string)

  /** The rest of a quoted field, after its opening quote. */
  function ParseQuoted(s: string): (r: Parsed<string>)
    ensures r.Ok? ==> |r.rest| < |s|
  {
    if s == "" then Fail
    else if s[0] != '"' then
      match ParseQuoted(s[1..])
      case Ok(cell, rest) => Ok([s[0]] + cell, rest)
      case Fail => Fail
    else if 2 <= |s| && s[1] == '"' then
      match ParseQuoted(s[2..])
      case Ok(cell, rest) => Ok("\"" + cell, rest)
      case Fail => Fail
    else Ok("", s[1..])
  }

  /** An unquoted field: everything up to a comma, a quote or a line break. */
  function ParsePlain(s: string): (r: Parsed<string>)
    ensures r.Ok? && |r.rest| <= |s|
  {
    if s == "" || s[0] in {',', '"', '\r', '\n'} then Ok("", s)
    else
      var r := ParsePlain(s[1..]);
      Ok([s[0]] + r.value, r.rest)
  }

  function ParseField(s: string): (r: Parsed<string>)
    ensures r.Ok? ==> |r.rest| <= |s|
  {
    if "\"" <= s then ParseQuoted(s[1..]) else ParsePlain(s)
  }

  /** One or more fields separated by commas. */
  function ParseRecord(s: string): (r: Parsed<Row>)
    ensures r.Ok? ==> |r.rest| <= |s| && r.value != []
    decreases |s|
  {
    match ParseField(s)
    case Fail => Fail
    case Ok(cell, rest) =>
      if "," <= rest then
        match ParseRecord(rest[1..])
        case Ok(row, rest) => Ok([cell] + row, rest)
        case Fail => Fail
      else Ok([cell], rest)
  }

  /** One or more records separated by line breaks; a final line break is optional. */
  function ParseFile(s: string): (r: Option<seq<Row>>)
    ensures r.Some? ==> r.value != [] && forall i | 0 <= i < |r.value| :: r.value[i] != []
    decreases |s|
  {
    match ParseRecord(s)
    case Fail => None
    case Ok(row, rest) =>
      if rest == "" || rest == "\r\n" then Some([row])
      else if "\r\n" <= rest then
        match ParseFile(rest[2..])
        case Some(rows) => Some([row] + rows)
        case None => None
      else None
  }

  // ----- The parser undoes the printer -----

  lemma QuotedStep(c: char, tail: string)
    requires ParseQuoted(tail).Ok?
    ensures ParseQuoted((if c == '"' then "\"\"" else [c]) + tail)
      == Ok([c] + ParseQuoted(tail).value, ParseQuoted(tail).rest)
  {
    if c == '"' {
      assert ("\"\"" + tail)[2..] == tail;
    } else {
      assert ([c] + tail)[1..] == tail;
    }
  }

  lemma QuotedEnd(rest: string)
    requires !(QUOTE <= rest)
    ensures ParseQuoted(QUOTE + rest) == Ok("", rest)
  {
    assert (QUOTE + rest)[1..] == rest;
  }

  lemma {:induction false} QuotedParses(cell: string, rest: string)
    requires !(QUOTE <= rest)
    ensures ParseQuoted(ReplaceChar(cell, '"', "\"\"") + QUOTE + rest) == Ok(cell, rest)
  {
    hide ParseQuoted;
    if cell == "" {
      QuotedEnd(rest);
      assert "" + QUOTE + rest == QUOTE + rest;
    } else {
      QuotedParses(cell[1..], rest);
      var tail := ReplaceChar(cell[1..], '"', "\"\"") + QUOTE + rest;
      QuotedStep(cell[0], tail);
      assert cell == [cell[0]] + cell[1..];
      var head := if cell[0] == '"' then "\"\"" else [cell[0]];
      assert ReplaceChar(cell, '"', "\"\"") + QUOTE + rest == head + tail;
    }
  }

  lemma FieldParses(cell: string, rest: string)
    requires !(QUOTE <= rest)
    ensures ParseField(Quoted(cell) + rest) == Ok(cell, rest)
  {
    QuotedParses(cell, rest);
    assert (Quoted(cell) + rest)[1..] == ReplaceChar(cell, '"', "\"\"") + QUOTE + rest;
  }

  lemma RowTextStep(row: Row)
    requires 2 <= |row|
    ensures RowText(row) == Quoted(row[0]) + "," + RowText(row[1..])
  {
    var cells := seq(|row|, i requires 0 <= i < |row| => Quoted(row[i]));
    assert cells[1..] == seq(|row[1..]|, i requires 0 <= i < |row[1..]| => Quoted(row[1..][i]));
  }

  lemma RecordStep(cell: string, tail: string)
    requires ParseRecord(tail).Ok?
    ensures ParseRecord(Quoted(cell) + ("," + tail)) == Ok([cell] + ParseRecord(tail).value, ParseRecord(tail).rest)
  {
    hide ParseField, Quoted;
    assert ("," + tail)[0] == ',' && ("," + tail)[1..] == tail;
    FieldParses(cell, "," + tail);
  }

  lemma RecordEnd(cell: string, rest: string)
    requires !(QUOTE <= rest) && !("," <= rest)
    ensures ParseRecord(Quoted(cell) + rest) == Ok([cell], rest)
  {
    hide ParseField, Quoted;
    FieldParses(cell, rest);
  }

  lemma {:induction false} RowParses(row: Row, rest: string)
    requires row != [] && !(QUOTE <= rest) && !("," <= rest)
    ensures ParseRecord(RowText(row) + rest) == Ok(row, rest)
    decreases |row|
  {
    hide ParseRecord, Quoted;
    if |row| == 1 {
      RecordEnd(row[0], rest);
      assert row == [row[0]];
    } else {
      RowTextStep(row);
      RowParses(row[1..], rest);
      RecordStep(row[0], RowText(row[1..]) + rest);
      assert RowText(row) + rest == Quoted(row[0]) + ("," + (RowText(row[1..]) + rest));
      assert row == [row[0]] + row[1..];
    }
  }

  lemma CsvStep(rows: seq<Row>)
    requires 2 <= |rows|
    ensures ToCsv(rows) == RowText(rows[0]) + LINE_BREAK + ToCsv(rows[1..])
  {
    var lines := seq(|rows|, i requires 0 <= i < |rows| => RowText(rows[i]));
    assert lines[1..] == seq(|rows[1..]|, i requires 0 <= i < |rows[1..]| => RowText(rows[1..][i]));
  }

  lemma CsvOfOne(row: Row)
    ensures ToCsv([row]) == RowText(row)
  {
  }

  lemma RowTextStartsQuoted(row: Row)
    requires row != []
    ensures QUOTE <= RowText(row)
  {
    if 2 <= |row| { RowTextStep(row); }
  }

  lemma FileStep(row: Row, tail: string)
    requires row != [] && ParseFile(tail).Some? && tail != ""
    ensures ParseFile(RowText(row) + LINE_BREAK + tail) == Some([row] + ParseFile(tail).value)
  {
    hide ParseRecord, RowText;
    var rest := LINE_BREAK + tail;
    assert rest[0] == '\r' && rest[2..] == tail && LINE_BREAK <= rest && rest != LINE_BREAK;
    RowParses(row, rest);
    assert RowText(row) + LINE_BREAK + tail == RowText(row) + rest;
  }

  lemma FileEnd(row: Row)
    requires row != []
    ensures ParseFile(RowText(row)) == Some([row])
  {
    hide ParseRecord, RowText;
    RowParses(row, "");
    assert RowText(row) + "" == RowText(row);
  }

  lemma {:induction false} FileParses(rows: seq<Row>)
    requires rows != [] && forall i | 0 <= i < |rows| :: rows[i] != []
    ensures ParseFile(ToCsv(rows)) == Some(rows) && QUOTE <= ToCsv(rows)
    decreases |rows|
  {
    hide ParseFile, RowText, ToCsv;
    RowTextStartsQuoted(rows[0]);
    if |rows| == 1 {
      CsvOfOne(rows[0]);
      FileEnd(rows[0]);
      assert rows == [rows[0]];
    } else {
      CsvStep(rows);
      FileParses(rows[1..]);
      FileStep(rows[0], ToCsv(rows[1..]));
      assert rows == [rows[0]] + rows[1..];
    }
  }

  /**
   Reading back what was printed recovers the rows exactly when there is a row and no
   row is empty, whatever quotes, commas and line breaks the cells hold. An empty list
   and an empty row print as nothing, which reads as one empty cell.
   */
  lemma ParseRecoversTheRows(rows: seq<Row>)
    ensures ParseFile(ToCsv(rows)) == Some(rows) <==> rows != [] && forall i | 0 <= i < |rows| :: rows[i] != []
  {
    if rows != [] && forall i | 0 <= i < |rows| :: rows[i] != [] {
      FileParses(rows);
    }
  }

  lemma EmptyReadsAsOneCell()
    ensures ParseFile(ToCsv([])) == Some([[""]]) && ParseFile(ToCsv([[]])) == Some([[""]])
  {
    OnlyBlankIsEmpty([]);
    OnlyBlankIsEmpty([[]]);
    assert ParseRecord("") == Ok([""], "");
  }

  /**
   What is printed, character by character: every cell between quotes, its own quotes doubled, commas
   between cells and a carriage return and line feed between rows, none after the last.
   */
  lemma PrintedForm(cell: string, c: char, row: Row, rows: seq<Row>)
    ensures Quoted("") == "\"\""
    ensures Quoted([c] + cell) == "\"" + (if c == '"' then "\"\"" else [c]) + Quoted(cell)[1..]
    ensures RowText([]) == "" && RowText([cell]) == Quoted(cell)
    ensures row != [] ==> RowText([cell] + row) == Quoted(cell) + "," + RowText(row)
    ensures ToCsv([]) == "" && ToCsv([row]) == RowText(row)
    ensures rows != [] ==> ToCsv([row] + rows) == RowText(row) + "\r\n" + ToCsv(rows)
  {
    assert ReplaceChar("", '"', "\"\"") == "";
    assert ([c] + cell)[1..] == cell;
    assert seq(1, i requires 0 <= i < 1 => Quoted([cell][i])) == [Quoted(cell)];
    if row != [] {
      RowTextStep([cell] + row);
      assert ([cell] + row)[1..] == row;
    }
    hide RowText, Quoted;
    CsvOfOne(row);
    if rows != [] {
      CsvStep([row] + rows);
      assert ([row] + rows)[1..] == rows;
    }
  }

  // ----- Tables that print the same -----

  /** What may follow a row: nothing, or a line break. */
  predicate EndsRow(rest: string) {
    rest == "" || LINE_BREAK <= rest
  }

  lemma RowsCannotRunOn(a: Row, b: Row, more: string, other: string)
    requires EndsRow(more) && EndsRow(other) && RowText(a) + more == RowText(b) + other
    ensures a == b && more == other
  {
    hide ParseRecord, RowText;
    assert LINE_BREAK[0] == '\r';
    assert more == "" || more[0] == '\r';
    assert other == "" || other[0] == '\r';
    if a != [] { RowParses(a, more); RowTextStartsQuoted(a); }
    if b != [] { RowParses(b, other); RowTextStartsQuoted(b); }
    EmptyRowText();
    assert "" + more == more && "" + other == other;
    assert a != [] ==> QUOTE <= RowText(a) + more;
    assert b != [] ==> QUOTE <= RowText(b) + other;
  }

  lemma EmptyRowText()
    ensures RowText([]) == ""
  {
  }

  function TailText(rows: seq<Row>): string {
    if rows == [] then "" else LINE_BREAK + ToCsv(rows)
  }

  lemma CsvHeadTail(rows: seq<Row>)
    requires rows != []
    ensures ToCsv(rows) == RowText(rows[0]) + TailText(rows[1..]) && EndsRow(TailText(rows[1..]))
  {
    if 2 <= |rows| { CsvStep(rows); }
  }

  lemma {:induction false} NonEmptyTablesDiffer(a: seq<Row>, b: seq<Row>)
    requires a != [] && b != [] && ToCsv(a) == ToCsv(b)
    ensures a == b
    decreases |a|
  {
    hide ToCsv, RowText;
    CsvHeadTail(a);
    CsvHeadTail(b);
    RowsCannotRunOn(a[0], b[0], TailText(a[1..]), TailText(b[1..]));
    if a[1..] != [] && b[1..] != [] {
      assert TailText(a[1..])[2..] == ToCsv(a[1..]) && TailText(b[1..])[2..] == ToCsv(b[1..]);
      NonEmptyTablesDiffer(a[1..], b[1..]);
    }
    assert a == [a[0]] + a[1..] && b == [b[0]] + b[1..];
  }

  /** No row at all, or a single empty one. */
  predicate IsBlank(rows: seq<Row>) {
    rows == [] || rows == [[]]
  }

  lemma OnlyBlankIsEmpty(rows: seq<Row>)
    ensures ToCsv(rows) == "" <==> IsBlank(rows)
  {
    EmptyRowText();
    if rows != [] && ToCsv(rows) == "" {
      CsvHeadTail(rows);
      if rows[0] != [] { RowTextStartsQuoted(rows[0]); }
      assert rows == [rows[0]] + rows[1..];
    }
    hide RowText;
  }

  /** When two tables print the same: exactly if they are equal, or neither has anything to print. */
  lemma ToCsvInjective(a: seq<Row>, b: seq<Row>)
    ensures ToCsv(a) == ToCsv(b) <==> a == b || (IsBlank(a) && IsBlank(b))
  {
    hide ToCsv;
    OnlyBlankIsEmpty(a);
    OnlyBlankIsEmpty(b);
    if a != [] && b != [] && ToCsv(a) == ToCsv(b) {
      NonEmptyTablesDiffer(a, b);
    }
  }
}

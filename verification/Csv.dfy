/** stdlib/csv.ep: comma-separated values, the format of RFC 4180. */
module Csv {

  // ---------- what the scanner does, as a function of the text to come ----------

  /** The rows still to be made, when field and row are what was read of the present ones. */
  function Rows(text: string, quoted: bool, field: string, row: seq<string>): (rows: seq<seq<string>>)
    ensures rows != []
    decreases |text|
  {
    if text == "" then [row + [field]]
    else
      var c, rest := text[0], text[1..];
      if quoted then
        if c != '\"' then Rows(rest, true, field + [c], row)
        else if rest != "" && rest[0] == '\"' then Rows(rest[1..], true, field + "\"", row)
        else Rows(rest, false, field, row)
      else
        match c
        case '\"' => Rows(rest, true, field, row)
        case ',' => Rows(rest, false, "", row + [field])
        case '\n' => [row + [field]] + Rows(rest, false, "", [])
        case '\r' => Rows(rest, false, field, row)
        case _ => Rows(rest, false, field + [c], row)
  }

  function Parsed(text: string): seq<seq<string>> { Rows(text, false, "", []) }

  method Parse(text: string) returns (rows: seq<seq<string>>)
    ensures rows == Parsed(text)
  {
    rows := [];
    var row: seq<string>, field, quoted, i := [], "", false, 0;
    assert text[0..] == text;
    while i < |text|
      invariant 0 <= i <= |text|
      invariant rows + Rows(text[i..], quoted, field, row) == Parsed(text)
      decreases |text| - i
    {
      var c := text[i];
      ghost var ahead := text[i..];
      assert ahead[0] == c && ahead[1..] == text[i + 1..];
      if quoted {
        if c == '\"' {
          if i + 1 < |text| {
            if text[i + 1] == '\"' {
              assert ahead[1..][1..] == text[i + 2..];
              field := field + "\"";
              i := i + 2;
            } else {
              quoted := false;
              i := i + 1;
            }
          } else {
            quoted := false;
            i := i + 1;
          }
        } else {
          field := field + [c];
          i := i + 1;
        }
      } else if c == '\"' {
        quoted := true;
        i := i + 1;
      } else if c == ',' {
        row := row + [field];
        field := "";
        i := i + 1;
      } else if c == '\n' {
        RowEnds(rows, row + [field], text[i + 1..], Parsed(text));
        row := row + [field];
        rows := rows + [row];
        row, field := [], "";
        i := i + 1;
      } else if c == '\r' {
        i := i + 1;
      } else {
        field := field + [c];
        i := i + 1;
      }
    }
    row := row + [field];
    if |row| > 0 { rows := rows + [row]; }
  }

  lemma RowEnds(rows: seq<seq<string>>, row: seq<string>, rest: string, all: seq<seq<string>>)
    requires rows + ([row] + Rows(rest, false, "", [])) == all
    ensures (rows + [row]) + Rows(rest, false, "", []) == all
  {}

  // ---------- printing ----------

  predicate NeedsQuotes(field: string) { ',' in field || '\"' in field || '\n' in field }

  function Doubled(s: string): string {
    if s == "" then "" else (if s[0] == '\"' then "\"\"" else [s[0]]) + Doubled(s[1..])
  }

  function Quoted(s: string): string { "\"" + Doubled(s) + "\"" }

  function Escaped(field: string): string { if NeedsQuotes(field) then Quoted(field) else field }

  function RowText(row: seq<string>): string {
    if row == [] then "" else if |row| == 1 then Escaped(row[0]) else Escaped(row[0]) + "," + RowText(row[1..])
  }

  function Printed(rows: seq<seq<string>>): string {
    if rows == [] then "" else RowText(rows[0]) + "\n" + Printed(rows[1..])
  }

  lemma {:induction false} DoubledSnoc(s: string, c: char)
    ensures Doubled(s + [c]) == Doubled(s) + (if c == '\"' then "\"\"" else [c])
  {
    if s == "" {
      assert [c][1..] == "";
    } else {
      DoubledSnoc(s[1..], c);
      assert (s + [c])[1..] == s[1..] + [c];
    }
  }

  lemma {:induction false} RowSnoc(row: seq<string>, field: string)
    ensures RowText(row + [field]) == RowText(row) + (if row == [] then "" else ",") + Escaped(field)
  {
    if |row| > 1 {
      RowSnoc(row[1..], field);
      assert (row + [field])[1..] == row[1..] + [field];
    } else if |row| == 1 {
      assert (row + [field])[1..] == [field];
    }
  }

  lemma {:induction false} PrintedSnoc(rows: seq<seq<string>>, row: seq<string>)
    ensures Printed(rows + [row]) == Printed(rows) + RowText(row) + "\n"
  {
    if rows == [] {
      assert [row][1..] == [];
    } else {
      PrintedSnoc(rows[1..], row);
      assert (rows + [row])[1..] == rows[1..] + [row];
      assert RowText(rows[0]) + "\n" + (Printed(rows[1..]) + RowText(row) + "\n")
          == RowText(rows[0]) + "\n" + Printed(rows[1..]) + RowText(row) + "\n";
    }
  }

  method EscapeField(field: string) returns (r: string)
    ensures r == Escaped(field)
  {
    var needs, i := false, 0;
    while i < |field|
      invariant 0 <= i <= |field| && (needs <==> NeedsQuotes(field[..i]))
    {
      if field[i] == ',' { needs := true; }
      if field[i] == '\"' { needs := true; }
      if field[i] == '\n' { needs := true; }
      i := i + 1;
    }
    assert field[..i] == field;
    if !needs { return field; }
    r := "\"";
    i := 0;
    while i < |field|
      invariant 0 <= i <= |field| && r == "\"" + Doubled(field[..i])
    {
      DoubledSnoc(field[..i], field[i]);
      assert field[..i + 1] == field[..i] + [field[i]];
      if field[i] == '\"' { r := r + "\"\""; } else { r := r + field[i..i + 1]; }
      i := i + 1;
    }
    assert field[..i] == field;
    r := r + "\"";
  }

  method StringifyRow(row: seq<string>) returns (r: string)
    ensures r == RowText(row)
  {
    r := "";
    var j := 0;
    while j < |row|
      invariant 0 <= j <= |row| && r == RowText(row[..j])
    {
      var escaped := EscapeField(row[j]);
      RowSnoc(row[..j], row[j]);
      assert row[..j + 1] == row[..j] + [row[j]];
      if j > 0 { r := r + ","; }
      r := r + escaped;
      j := j + 1;
    }
    assert row[..j] == row;
  }

  method Stringify(rows: seq<seq<string>>) returns (r: string)
    ensures r == Printed(rows)
  {
    r := "";
    var i := 0;
    while i < |rows|
      invariant 0 <= i <= |rows| && r == Printed(rows[..i])
    {
      var text := StringifyRow(rows[i]);
      PrintedSnoc(rows[..i], rows[i]);
      assert rows[..i + 1] == rows[..i] + [rows[i]];
      r := r + text;
      r := r + "\n";
      i := i + 1;
    }
    assert rows[..i] == rows;
  }

  // ---------- files in the format ----------

  /** A field as it may be written: between quotes, or bare when nothing in it needs them. */
  datatype Cell = Bare(text: string) | Between(text: string)

  predicate GoodCell(c: Cell) { c.Bare? ==> !NeedsQuotes(c.text) }

  type Field = c: Cell | GoodCell(c) witness Bare("")

  /** One record, and whether a carriage return stands before its line feed. */
  datatype Line = Line(cells: seq<Field>, crlf: bool)

  function CellText(c: Field): string { if c.Bare? then c.text else Quoted(c.text) }

  /** A bare field is read without its carriage returns, a quoted one as it is. */
  function Value(c: Field): string { if c.Bare? then WithoutReturns(c.text) else c.text }

  function WithoutReturns(s: string): string {
    if s == "" then "" else (if s[0] == '\r' then "" else [s[0]]) + WithoutReturns(s[1..])
  }

  function CellsText(cells: seq<Field>): string
    requires cells != []
  {
    if |cells| == 1 then CellText(cells[0]) else CellText(cells[0]) + "," + CellsText(cells[1..])
  }

  function Values(cells: seq<Field>): seq<string> { if cells == [] then [] else [Value(cells[0])] + Values(cells[1..]) }

  predicate Filled(lines: seq<Line>) { forall l :: l in lines ==> l.cells != [] }

  function LinesText(lines: seq<Line>): string
    requires Filled(lines)
  {
    if lines == [] then ""
    else CellsText(lines[0].cells) + (if lines[0].crlf then "\r\n" else "\n") + LinesText(lines[1..])
  }

  function LineValues(lines: seq<Line>): seq<seq<string>> {
    if lines == [] then [] else [Values(lines[0].cells)] + LineValues(lines[1..])
  }

  lemma {:induction false} QuotedScans(s: string, rest: string, field: string, row: seq<string>)
    requires rest == "" || rest[0] != '\"'
    ensures Rows(Doubled(s) + ("\"" + rest), true, field, row) == Rows(rest, false, field + s, row)
    decreases |s|
  {
    var text := Doubled(s) + ("\"" + rest);
    if s == "" {
      assert text[0] == '\"' && text[1..] == rest;
      assert field + "" == field;
    } else {
      var ahead := Doubled(s[1..]) + ("\"" + rest);
      assert field + [s[0]] + s[1..] == field + s;
      QuotedScans(s[1..], rest, field + [s[0]], row);
      if s[0] == '\"' {
        assert text == "\"\"" + ahead;
        assert text[1..][1..] == ahead;
      } else {
        assert text == [s[0]] + ahead;
        assert text[1..] == ahead;
      }
    }
  }

  lemma {:induction false} BareScans(s: string, rest: string, field: string, row: seq<string>)
    requires !NeedsQuotes(s)
    ensures Rows(s + rest, false, field, row) == Rows(rest, false, field + WithoutReturns(s), row)
    decreases |s|
  {
    if s == "" {
      assert s + rest == rest && field + "" == field;
    } else {
      assert (s + rest)[0] == s[0] && (s + rest)[1..] == s[1..] + rest;
      var next := if s[0] == '\r' then field else field + [s[0]];
      BareScans(s[1..], rest, next, row);
      assert next + WithoutReturns(s[1..]) == field + WithoutReturns(s);
    }
  }

  /** One field, in front of whatever may follow a field. */
  lemma CellScans(c: Field, rest: string, row: seq<string>)
    requires rest == "" || rest[0] != '\"'
    ensures Rows(CellText(c) + rest, false, "", row) == Rows(rest, false, Value(c), row)
  {
    if c.Bare? {
      BareScans(c.text, rest, "", row);
      assert "" + WithoutReturns(c.text) == WithoutReturns(c.text);
    } else {
      QuotedCellScans(c.text, rest, row);
    }
  }

  lemma QuotedCellScans(s: string, rest: string, row: seq<string>)
    requires rest == "" || rest[0] != '\"'
    ensures Rows(Quoted(s) + rest, false, "", row) == Rows(rest, false, s, row)
  {
    var text, inner := Quoted(s) + rest, Doubled(s) + ("\"" + rest);
    assert text[0] == '\"' && text[1..] == inner;
    QuotedScans(s, rest, "", row);
    assert "" + s == s;
    QuoteOpens(text, inner, row);
  }

  lemma QuoteOpens(text: string, inner: string, row: seq<string>)
    requires text != "" && text[0] == '\"' && text[1..] == inner
    ensures Rows(text, false, "", row) == Rows(inner, true, "", row)
  {}

  /** The rows still to be made behind these fields of a row. */
  ghost function Behind(row: seq<string>, rest: string): seq<seq<string>>
    requires row != []
  {
    Rows(rest, false, row[|row| - 1], row[..|row| - 1])
  }

  lemma LastScans(c: Field, rest: string, row: seq<string>)
    requires rest == "" || rest[0] != '\"'
    ensures Rows(CellText(c) + rest, false, "", row) == Behind(row + [Value(c)], rest)
  {
    CellScans(c, rest, row);
    assert (row + [Value(c)])[..|row|] == row;
  }

  lemma CommaScans(c: Field, ahead: string, row: seq<string>)
    ensures Rows(CellText(c) + ("," + ahead), false, "", row) == Rows(ahead, false, "", row + [Value(c)])
  {
    CellScans(c, "," + ahead, row);
    assert ("," + ahead)[1..] == ahead;
  }

  lemma CellsTextStep(cells: seq<Field>, rest: string)
    requires |cells| > 1
    ensures CellsText(cells) + rest == CellText(cells[0]) + ("," + (CellsText(cells[1..]) + rest))
  {}

  lemma ValuesStep(cells: seq<Field>, row: seq<string>)
    requires cells != []
    ensures row + Values(cells) == row + [Value(cells[0])] + Values(cells[1..])
  {}

  /** A whole record, up to its line end or the end of the text. */
  lemma {:induction false} CellsScan(cells: seq<Field>, rest: string, row: seq<string>)
    requires cells != [] && (rest == "" || rest[0] != '\"')
    ensures row + Values(cells) != []
    ensures Rows(CellsText(cells) + rest, false, "", row) == Behind(row + Values(cells), rest)
    decreases |cells|
  {
    ValuesStep(cells, row);
    var c, others := cells[0], cells[1..];
    if |cells| == 1 {
      assert others == [] && row + [Value(c)] + [] == row + [Value(c)];
      LastScans(c, rest, row);
    } else {
      CellsScan(others, rest, row + [Value(c)]);
      CommaScans(c, CellsText(others) + rest, row);
      CellsTextStep(cells, rest);
    }
  }

  lemma EndScans(row: seq<string>, crlf: bool, rest: string)
    requires row != []
    ensures Behind(row, (if crlf then "\r\n" else "\n") + rest) == [row] + Rows(rest, false, "", [])
  {
    var field, front := row[|row| - 1], row[..|row| - 1];
    assert front + [field] == row;
    var text := "\n" + rest;
    assert text[1..] == rest;
    assert Rows(text, false, field, front) == [row] + Rows(rest, false, "", []);
    if crlf { assert ("\r\n" + rest)[1..] == text; }
  }

  lemma LineScans(line: Line, rest: string)
    requires line.cells != []
    ensures Rows(CellsText(line.cells) + (if line.crlf then "\r\n" else "\n") + rest, false, "", [])
         == [Values(line.cells)] + Rows(rest, false, "", [])
  {
    var cells, end := line.cells, if line.crlf then "\r\n" else "\n";
    assert CellsText(cells) + end + rest == CellsText(cells) + (end + rest);
    CellsScan(cells, end + rest, []);
    assert [] + Values(cells) == Values(cells);
    EndScans(Values(cells), line.crlf, rest);
  }

  lemma LastLineScans(last: seq<Field>)
    requires last != []
    ensures Parsed(CellsText(last)) == [Values(last)]
  {
    var text, row := CellsText(last), Values(last);
    assert text + "" == text && [] + row == row;
    CellsScan(last, "", []);
    NothingBehind(row);
  }

  lemma NothingBehind(row: seq<string>)
    requires row != []
    ensures Behind(row, "") == [row]
  {
    assert row[..|row| - 1] + [row[|row| - 1]] == row;
  }

  lemma LinesTextStep(lines: seq<Line>, rest: string)
    requires Filled(lines) && lines != []
    ensures LinesText(lines) + rest
         == CellsText(lines[0].cells) + (if lines[0].crlf then "\r\n" else "\n") + (LinesText(lines[1..]) + rest)
  {}

  /** Every file in the format of RFC 4180, with any choice of quoting and of line ends, is
      read as its records, and a last record without a line end is one of them. */
  lemma {:induction false} FileReads(lines: seq<Line>, last: seq<Field>)
    requires Filled(lines) && last != []
    ensures Parsed(LinesText(lines) + CellsText(last)) == LineValues(lines) + [Values(last)]
    decreases |lines|
  {
    if lines == [] {
      LastLineScans(last);
      assert "" + CellsText(last) == CellsText(last);
    } else {
      FileReads(lines[1..], last);
      LineScans(lines[0], LinesText(lines[1..]) + CellsText(last));
      LinesTextStep(lines, CellsText(last));
    }
  }

  // ---------- the round trip ----------

  function AsCell(field: string): Field { if NeedsQuotes(field) then Between(field) else Bare(field) }

  function AsCells(row: seq<string>): seq<Field> { if row == [] then [] else [AsCell(row[0])] + AsCells(row[1..]) }

  /** An empty row is printed as an empty line. */
  function AsLine(row: seq<string>): Line { Line(if row == [] then [Bare("")] else AsCells(row), false) }

  function AsLines(rows: seq<seq<string>>): (lines: seq<Line>)
    ensures Filled(lines)
  {
    if rows == [] then [] else [AsLine(rows[0])] + AsLines(rows[1..])
  }

  function Survivor(field: string): string { if NeedsQuotes(field) then field else WithoutReturns(field) }

  function SurvivingRow(row: seq<string>): seq<string> {
    if row == [] then [""] else seq(|row|, i requires 0 <= i < |row| => Survivor(row[i]))
  }

  function SurvivingRows(rows: seq<seq<string>>): seq<seq<string>> {
    seq(|rows|, i requires 0 <= i < |rows| => SurvivingRow(rows[i]))
  }

  lemma {:induction false} RowAsCells(row: seq<string>)
    requires row != []
    ensures |AsCells(row)| == |row| && RowText(row) == CellsText(AsCells(row))
    ensures Values(AsCells(row)) == SurvivingRow(row)
  {
    if |row| == 1 {
      assert AsCells(row) == [AsCell(row[0])];
    } else {
      RowAsCells(row[1..]);
      assert AsCells(row)[1..] == AsCells(row[1..]);
      assert SurvivingRow(row) == [Survivor(row[0])] + SurvivingRow(row[1..]);
    }
  }

  lemma {:induction false} PrintedAsLines(rows: seq<seq<string>>)
    ensures Printed(rows) == LinesText(AsLines(rows)) && LineValues(AsLines(rows)) == SurvivingRows(rows)
  {
    if rows != [] {
      PrintedAsLines(rows[1..]);
      var row := rows[0];
      if row != [] { RowAsCells(row); }
      assert AsLines(rows)[1..] == AsLines(rows[1..]);
      assert Values(AsLine(row).cells) == SurvivingRow(row);
      assert SurvivingRows(rows) == [SurvivingRow(row)] + SurvivingRows(rows[1..]);
    }
  }

  /** Printing and parsing: the rows come back, followed by one row of one empty field; an
      empty row comes back as such a row too, and carriage returns are lost from exactly
      the fields that were not quoted. */
  lemma RoundTrip(rows: seq<seq<string>>)
    ensures Parsed(Printed(rows)) == SurvivingRows(rows) + [[""]]
  {
    PrintedAsLines(rows);
    var lines := AsLines(rows);
    FileReads(lines, [Bare("")]);
    assert LinesText(lines) + "" == LinesText(lines);
    assert CellsText([Bare("")]) == "";
    assert Values([Bare("")]) == [""];
  }

  predicate Stable(row: seq<string>) {
    row != [] && forall i :: 0 <= i < |row| ==> '\r' in row[i] ==> NeedsQuotes(row[i])
  }

  lemma {:induction false} ReturnsGone(s: string)
    ensures WithoutReturns(s) == s <==> '\r' !in s
    ensures '\r' !in WithoutReturns(s)
  {
    if s != "" {
      ReturnsGone(s[1..]);
      assert s == [s[0]] + s[1..];
      if '\r' !in s { assert WithoutReturns(s) == [s[0]] + s[1..]; }
    }
  }

  lemma StableRow(row: seq<string>)
    ensures SurvivingRow(row) == row <==> Stable(row)
  {
    forall i | 0 <= i < |row|
      ensures Survivor(row[i]) == row[i] <==> ('\r' in row[i] ==> NeedsQuotes(row[i]))
    {
      ReturnsGone(row[i]);
    }
    if row != [] && SurvivingRow(row) == row {
      assert forall i :: 0 <= i < |row| ==> SurvivingRow(row)[i] == Survivor(row[i]);
    }
  }

  /** The rows come back as they were exactly when no row is empty and every field with a
      carriage return needs quotes. */
  lemma RowsComeBack(rows: seq<seq<string>>)
    ensures Parsed(Printed(rows)) == rows + [[""]] <==> forall i :: 0 <= i < |rows| ==> Stable(rows[i])
  {
    RoundTrip(rows);
    forall i | 0 <= i < |rows|
      ensures SurvivingRow(rows[i]) == rows[i] <==> Stable(rows[i])
    {
      StableRow(rows[i]);
    }
    var back := SurvivingRows(rows);
    assert back + [[""]] == rows + [[""]] ==> back == rows by {
      if back + [[""]] == rows + [[""]] {
        assert back == (back + [[""]])[..|rows|] == (rows + [[""]])[..|rows|] == rows;
      }
    }
    assert forall i :: 0 <= i < |rows| ==> back[i] == SurvivingRow(rows[i]);
  }
}

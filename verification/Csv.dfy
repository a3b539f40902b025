/** The CSV exports and a reader of them: LF-separated records, quoted fields with doubled
    quotes, CR as ordinary text. */
module Csv {
  import opened Text

  /** A database value: null, text (numbers print as text), or an array of texts. */
  datatype Cell = Null | Value(text: string) | List(items: seq<string>)

  function Render(c: Cell): string {
    match c
    case Null => ""
    case Value(s) => s
    case List(items) => Join(items, ";")
  }

  predicate NeedsQuotes(s: string) { ',' in s || '"' in s || '\n' in s }

  /** `s.replace(/"/g, '""')` */
  function DoubleQuotes(s: string): string {
    if s == "" then "" else (if s[0] == '"' then "\"\"" else [s[0]]) + DoubleQuotes(s[1..])
  }

  function Escape(s: string): string {
    if NeedsQuotes(s) then "\"" + DoubleQuotes(s) + "\"" else s
  }

  function Escapes(cells: seq<string>): seq<string> {
    seq(|cells|, k requires 0 <= k < |cells| => Escape(cells[k]))
  }

  /** One record: fleet.js maps `escapeCsv`, ipam.js calls `csvRow`; both print this text. */
  function PrintRow(cells: seq<string>): string { Join(Escapes(cells), ",") }

  function PrintRows(rows: seq<seq<string>>): seq<string> {
    seq(|rows|, k requires 0 <= k < |rows| => PrintRow(rows[k]))
  }

  function PrintTable(rows: seq<seq<string>>): string { Join(PrintRows(rows), "\n") }

  function Rendered(cells: seq<Cell>): seq<string> {
    seq(|cells|, k requires 0 <= k < |cells| => Render(cells[k]))
  }

  // ---- the reader -----------------------------------------------------------------------------

  predicate AtBreak(rest: string) { rest == "" || rest[0] == ',' || rest[0] == '\n' }

  datatype Field = Field(content: string, rest: string)

  function Plain(s: string): (f: Field)
    ensures |f.rest| <= |s| && AtBreak(f.rest)
  {
    if AtBreak(s) then Field("", s) else var f := Plain(s[1..]); Field([s[0]] + f.content, f.rest)
  }

  /** Inside quotes: a doubled quote is a quote, a single one ends the quoted part. */
  function Quoted(s: string): (f: Field)
    ensures |f.rest| <= |s|
  {
    if s == "" then Field("", "")
    else if s[0] == '"' && |s| > 1 && s[1] == '"' then var f := Quoted(s[2..]); Field("\"" + f.content, f.rest)
    else if s[0] == '"' then Field("", s[1..])
    else var f := Quoted(s[1..]); Field([s[0]] + f.content, f.rest)
  }

  function ReadField(s: string): (f: Field)
    ensures |f.rest| <= |s| && AtBreak(f.rest)
  {
    if s != "" && s[0] == '"' then
      var q := Quoted(s[1..]);
      var stray := Plain(q.rest);
      Field(q.content + stray.content, stray.rest)
    else Plain(s)
  }

  function Read(s: string): (table: seq<seq<string>>)
    ensures |table| >= 1 && |table[0]| >= 1
    decreases |s|
  {
    var f := ReadField(s);
    if f.rest == "" then [[f.content]]
    else
      var next := Read(f.rest[1..]);
      if f.rest[0] == ',' then [[f.content] + next[0]] + next[1..] else [[f.content]] + next
  }

  // ---- round trip --------------------------------------------------------------------------------

  lemma {:induction false} PlainOf(s: string, rest: string)
    requires ',' !in s && '\n' !in s && AtBreak(rest)
    ensures Plain(s + rest) == Field(s, rest)
  {
    if s == "" {
      assert s + rest == rest;
    } else {
      assert (s + rest)[1..] == s[1..] + rest;
      PlainOf(s[1..], rest);
      assert [s[0]] + s[1..] == s;
    }
  }

  lemma {:induction false} QuotedOf(s: string, rest: string)
    requires rest == "" || rest[0] != '"'
    ensures Quoted(DoubleQuotes(s) + ("\"" + rest)) == Field(s, rest)
  {
    var text := DoubleQuotes(s) + ("\"" + rest);
    if s == "" {
      assert text == "\"" + rest && text[1..] == rest;
    } else {
      var tail := DoubleQuotes(s[1..]) + ("\"" + rest);
      QuotedOf(s[1..], rest);
      assert [s[0]] + s[1..] == s;
      if s[0] == '"' {
        assert text == "\"\"" + tail && text[2..] == tail;
      } else {
        assert text == [s[0]] + tail && text[1..] == tail;
      }
    }
  }

  /** A printed cell reads back as itself, up to whatever break follows. */
  lemma {:induction false} FieldOfEscaped(s: string, rest: string)
    requires AtBreak(rest)
    ensures ReadField(Escape(s) + rest) == Field(s, rest)
  {
    hide Plain, Quoted, DoubleQuotes;
    if NeedsQuotes(s) {
      var inside := DoubleQuotes(s) + ("\"" + rest);
      assert Escape(s) + rest == "\"" + inside && ("\"" + inside)[1..] == inside;
      QuotedOf(s, rest);
      PlainOf("", rest);
      assert "" + rest == rest && s + "" == s;
    } else {
      PlainOf(s, rest);
      assert s + rest != "" ==> (s + rest)[0] == if s == "" then rest[0] else s[0];
    }
  }

  lemma {:induction false} CellThenComma(cell: string, tail: string)
    ensures Read(Escape(cell) + ("," + tail)) == [[cell] + Read(tail)[0]] + Read(tail)[1..]
  {
    hide Escape, ReadField;
    FieldOfEscaped(cell, "," + tail);
    assert ("," + tail)[1..] == tail;
  }

  lemma {:induction false} CellThenEnd(cell: string, rest: string)
    requires rest == "" || rest[0] == '\n'
    ensures Read(Escape(cell) + rest) == if rest == "" then [[cell]] else [[cell]] + Read(rest[1..])
  {
    hide Escape, ReadField;
    FieldOfEscaped(cell, rest);
  }

  /** A printed record reads back as its cells, then the reader goes on after the line feed. */
  lemma {:induction false} ReadOfRow(cells: seq<string>, rest: string)
    requires |cells| >= 1 && (rest == "" || rest[0] == '\n')
    ensures Read(PrintRow(cells) + rest) == if rest == "" then [cells] else [cells] + Read(rest[1..])
    decreases |cells|
  {
    hide Escape, Read;
    if |cells| == 1 {
      CellThenEnd(cells[0], rest);
      assert [cells[0]] == cells;
    } else {
      var tail := PrintRow(cells[1..]) + rest;
      assert Escapes(cells)[1..] == Escapes(cells[1..]);
      assert PrintRow(cells) + rest == Escape(cells[0]) + ("," + tail);
      CellThenComma(cells[0], tail);
      ReadOfRow(cells[1..], rest);
      assert [cells[0]] + cells[1..] == cells;
    }
  }

  /** Every non-empty table of non-empty records survives printing and reading. */
  lemma {:induction false} TableRoundTrip(rows: seq<seq<string>>)
    requires |rows| >= 1 && forall k :: 0 <= k < |rows| ==> |rows[k]| >= 1
    ensures Read(PrintTable(rows)) == rows
  {
    if |rows| == 1 {
      assert PrintTable(rows) == PrintRow(rows[0]) + "";
      ReadOfRow(rows[0], "");
    } else {
      assert PrintRows(rows)[1..] == PrintRows(rows[1..]);
      var rest := "\n" + PrintTable(rows[1..]);
      assert PrintTable(rows) == PrintRow(rows[0]) + rest;
      ReadOfRow(rows[0], rest);
      assert rest[1..] == PrintTable(rows[1..]);
      TableRoundTrip(rows[1..]);
    }
  }

  /** So two tables print alike only if they are the same table. */
  lemma {:induction false} PrintingIsInjective(a: seq<seq<string>>, b: seq<seq<string>>)
    requires |a| >= 1 && forall k :: 0 <= k < |a| ==> |a[k]| >= 1
    requires |b| >= 1 && forall k :: 0 <= k < |b| ==> |b[k]| >= 1
    requires PrintTable(a) == PrintTable(b)
    ensures a == b
  {
    TableRoundTrip(a);
    TableRoundTrip(b);
  }

  // ---- the exports -----------------------------------------------------------------------------------

  function RenderedAll(rows: seq<seq<Cell>>): seq<seq<string>> {
    seq(|rows|, k requires 0 <= k < |rows| => Rendered(rows[k]))
  }

  /** Header line, line feed, body: the text both exports send. */
  function Export(header: seq<string>, rows: seq<seq<Cell>>): string {
    PrintRow(header) + "\n" + PrintTable(RenderedAll(rows))
  }

  /** An export reads back as its header and its rendered rows; without rows the trailing line
      feed reads as one further record with a single empty cell. */
  lemma {:induction false} ExportRoundTrip(header: seq<string>, rows: seq<seq<Cell>>)
    requires |header| >= 1 && forall k :: 0 <= k < |rows| ==> |rows[k]| >= 1
    ensures Read(Export(header, rows)) == [header] + (if rows == [] then [[""]] else RenderedAll(rows))
  {
    var body := "\n" + PrintTable(RenderedAll(rows));
    assert Export(header, rows) == PrintRow(header) + body;
    ReadOfRow(header, body);
    assert body[1..] == PrintTable(RenderedAll(rows));
    if rows == [] {
      assert Read("") == [[""]];
    } else {
      TableRoundTrip(RenderedAll(rows));
    }
  }

  /** What a cell shows: a missing value nothing, a text itself, and a list its items, which come
      back by splitting at semicolons if none holds one. */
  lemma {:induction false} CellsShowTheirValues(c: Cell)
    ensures c.Null? ==> Render(c) == []
    ensures c.Value? ==> Render(c) == c.text
    ensures c.List? && c.items != [] && (forall k :: 0 <= k < |c.items| ==> ';' !in c.items[k]) ==> Split(Render(c), ';') == c.items
  {
    if c.List? && c.items != [] && (forall k :: 0 <= k < |c.items| ==> ';' !in c.items[k]) {
      SplitOfJoin(c.items, ';');
      assert ";" == [';'];
    }
  }
}

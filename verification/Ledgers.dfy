/** The coverage ledger: parsing, printing and the header that must survive a rewrite
    (Ledger.java, and the writing half of GatesMain.rewrite). */
module Ledgers {
  import opened JavaInts
  import opened Decimals
  import opened Tsv

  datatype Row = Row(sec: string, title: string, page: int, status: string, reason: string, behaviour: string)

  function Field(f: seq<string>, i: nat): string {
    if i < |f| then f[i] else ""
  }

  /** Missing columns are empty, a missing or malformed page is -1, further columns are dropped. */
  function RowOf(f: seq<string>): Row {
    Row(Field(f, 0), Field(f, 1), if |f| > 2 then ParseInt(f[2], -1) else -1, Field(f, 3), Field(f, 4), Field(f, 5))
  }

  function LoadRows(table: seq<seq<string>>): (rows: seq<Row>)
    ensures |rows| == |table|
  {
    seq(|table|, i requires 0 <= i < |table| => RowOf(table[i]))
  }

  /** Ledger.load on the text of the file. */
  function LoadText(text: string): seq<Row> {
    LoadRows(Rows(text))
  }

  method Load(text: string) returns (rows: seq<Row>)
    ensures rows == LoadText(text)
  {
    var table := Read(text);
    rows := [];
    for i := 0 to |table|
      invariant rows == LoadRows(table[..i])
    {
      rows := rows + [RowOf(table[i])];
    }
    assert table[..|table|] == table;
  }

  // ---- printing ----

  function RowLine(r: Row): string {
    Tabbed([r.sec, r.title, PrintInt(r.page), r.status, r.reason, r.behaviour])
  }

  function Tabbed(f: seq<string>): string
    requires f != []
  {
    if |f| == 1 then f[0] else f[0] + "\t" + Tabbed(f[1..])
  }

  function PrintRows(rows: seq<Row>): string {
    if rows == [] then "" else RowLine(rows[0]) + "\n" + PrintRows(rows[1..])
  }

  /** The leading comment and empty lines of the old text. */
  function HeaderLines(lines: seq<string>): (h: seq<string>)
    ensures forall i :: 0 <= i < |h| ==> h[i] == "" || h[i][0] == '#'
    ensures h <= lines
  {
    if lines == [] || (lines[0] != "" && lines[0][0] != '#') then [] else [lines[0]] + HeaderLines(lines[1..])
  }

  function PrintLines(lines: seq<string>): string {
    if lines == [] then "" else lines[0] + "\n" + PrintLines(lines[1..])
  }

  function Header(text: string): string {
    PrintLines(HeaderLines(Lines(text)))
  }

  /** One byte for each character, its low eight bits (GatesMain.write). */
  function LowBytes(s: string): (b: string)
    ensures |b| == |s| && Bytes(b)
  {
    seq(|s|, i requires 0 <= i < |s| => (s[i] as int % 256) as char)
  }

  lemma BytesStay(s: string)
    requires Bytes(s)
    ensures LowBytes(s) == s
  {
  }

  // ---- what reads back ----

  ghost predicate SafeRow(r: Row) {
    && SafeField(r.sec) && SafeField(r.title) && SafeField(r.status) && SafeField(r.reason) && SafeField(r.behaviour)
    && (r.sec != "" ==> r.sec[0] != '#')
    && IsInt(r.page)
  }

  lemma PageIsSafe(page: int)
    ensures SafeField(PrintInt(page))
  {
    var s := PrintInt(page);
    forall i | 0 <= i < |s| ensures FieldChar(s[i]) && s[i] != '\r' {
      if page < 0 && i > 0 { assert s[i] == Digits(-page)[i-1]; }
    }
  }

  lemma FieldStep(field: string, rest: string)
    requires SafeField(field)
    ensures Fields(field + "\t" + rest) == [field] + Fields(rest)
  {
    FieldsCons(field, rest);
    SafeFieldKept(field);
  }

  /** Splitting undoes joining with tabs. */
  lemma {:induction false} FieldsOfTabbed(f: seq<string>)
    requires f != [] && forall i :: 0 <= i < |f| ==> SafeField(f[i])
    ensures Fields(Tabbed(f)) == f
  {
    if |f| == 1 {
      FieldsLast(f[0]);
      SafeFieldKept(f[0]);
      assert f == [f[0]];
    } else {
      FieldsOfTabbed(f[1..]);
      FieldStep(f[0], Tabbed(f[1..]));
      assert f == [f[0]] + f[1..];
    }
  }

  lemma {:induction false} TabbedHolds(f: seq<string>, i: nat)
    requires f != [] && (forall k :: 0 <= k < |f| ==> SafeField(f[k])) && i < |Tabbed(f)|
    ensures Tabbed(f)[i] != '\n' && Tabbed(f)[i] < 256 as char
  {
    if |f| > 1 && i > |f[0]| { TabbedHolds(f[1..], i - |f[0]| - 1); }
  }

  lemma FieldsOfRow(r: Row)
    requires SafeRow(r)
    ensures Fields(RowLine(r)) == [r.sec, r.title, PrintInt(r.page), r.status, r.reason, r.behaviour]
  {
    PageIsSafe(r.page);
    FieldsOfTabbed([r.sec, r.title, PrintInt(r.page), r.status, r.reason, r.behaviour]);
  }

  /** A safe row survives printing and splitting. */
  lemma RowReadsBack(r: Row)
    requires SafeRow(r)
    ensures RowOf(Fields(RowLine(r))) == r
    ensures !Skipped(RowLine(r))
  {
    FieldsOfRow(r);
    ParsePrinted(r.page, -1);
    RowLineIsRead(r);
  }

  lemma RowLineIsRead(r: Row)
    requires SafeRow(r)
    ensures !Skipped(RowLine(r))
  {
    var f := [r.sec, r.title, PrintInt(r.page), r.status, r.reason, r.behaviour];
    var line, k := RowLine(r), |r.sec| + 1 + |r.title| + 1;
    assert f[1..][1..] == f[2..] && f[2..][0] == PrintInt(r.page);
    assert Tabbed(f) == f[0] + "\t" + Tabbed(f[1..]);
    assert Tabbed(f[1..]) == f[1] + "\t" + Tabbed(f[2..]);
    assert Tabbed(f[2..])[0] == PrintInt(r.page)[0];
    assert line[k] == PrintInt(r.page)[0];
    if r.sec != "" { assert line[0] == r.sec[0]; } else { assert line[0] == '\t'; }
  }

  lemma RowLineHoldsNoNewline(r: Row)
    requires SafeRow(r)
    ensures forall i :: 0 <= i < |RowLine(r)| ==> RowLine(r)[i] != '\n' && RowLine(r)[i] < 256 as char
  {
    PageIsSafe(r.page);
    forall i | 0 <= i < |RowLine(r)| ensures RowLine(r)[i] != '\n' && RowLine(r)[i] < 256 as char {
      TabbedHolds([r.sec, r.title, PrintInt(r.page), r.status, r.reason, r.behaviour], i);
    }
  }

  lemma {:induction false} RowsReadBack(rows: seq<Row>)
    requires forall i :: 0 <= i < |rows| ==> SafeRow(rows[i])
    ensures LoadRows(RowsOf(Lines(PrintRows(rows)))) == rows
  {
    if rows != [] {
      var line, rest := RowLine(rows[0]), PrintRows(rows[1..]);
      RowLineHoldsNoNewline(rows[0]);
      RowReadsBack(rows[0]);
      LinesCons(line, rest);
      RowsCons(line, Lines(rest));
      RowsReadBack(rows[1..]);
      LoadCons(Fields(line), RowsOf(Lines(rest)));
    }
  }

  lemma LoadCons(f: seq<string>, table: seq<seq<string>>)
    ensures LoadRows([f] + table) == [RowOf(f)] + LoadRows(table)
  {
  }

  lemma LineAssociates(line: string, a: string, b: string)
    ensures (line + "\n" + a) + b == line + "\n" + (a + b)
  {
  }

  lemma ConsAssociates(lines: seq<string>, rest: seq<string>)
    requires lines != []
    ensures [lines[0]] + (lines[1..] + rest) == lines + rest
  {
  }

  lemma {:induction false} PrintedLinesRead(lines: seq<string>, rest: string)
    requires forall i :: 0 <= i < |lines| ==> forall k :: 0 <= k < |lines[i]| ==> lines[i][k] != '\n'
    ensures Lines(PrintLines(lines) + rest) == lines + Lines(rest)
  {
    if lines == [] {
      assert PrintLines(lines) + rest == rest;
    } else {
      LineAssociates(lines[0], PrintLines(lines[1..]), rest);
      LinesCons(lines[0], PrintLines(lines[1..]) + rest);
      PrintedLinesRead(lines[1..], rest);
      ConsAssociates(lines, Lines(rest));
    }
  }

  lemma HeaderReadsAsNothing(lines: seq<string>, rest: string)
    requires forall i :: 0 <= i < |lines| ==> lines[i] == "" || lines[i][0] == '#'
    requires forall i :: 0 <= i < |lines| ==> forall k :: 0 <= k < |lines[i]| ==> lines[i][k] != '\n'
    ensures Lines(PrintLines(lines) + rest) == lines + Lines(rest)
    ensures RowsOf(Lines(PrintLines(lines) + rest)) == RowsOf(Lines(rest))
  {
    PrintedLinesRead(lines, rest);
    RowsConcat(lines, Lines(rest));
    RowsOfSkipped(lines);
  }

  /** The text written for the rows, below the old header. */
  function Written(text: string, rows: seq<Row>): string {
    LowBytes(Header(text) + PrintRows(rows))
  }

  lemma {:induction false} PrintedBytes(rows: seq<Row>)
    requires forall i :: 0 <= i < |rows| ==> SafeRow(rows[i])
    ensures Bytes(PrintRows(rows))
  {
    if rows != [] {
      RowLineHoldsNoNewline(rows[0]);
      PrintedBytes(rows[1..]);
    }
  }

  lemma {:induction false} LinesBytes(lines: seq<string>)
    requires forall i :: 0 <= i < |lines| ==> Bytes(lines[i])
    ensures Bytes(PrintLines(lines))
  {
    if lines != [] { LinesBytes(lines[1..]); }
  }

  lemma HeaderIsBytes(text: string)
    requires Bytes(text)
    ensures Bytes(Header(text))
    ensures forall i :: 0 <= i < |HeaderLines(Lines(text))| ==>
              forall k :: 0 <= k < |HeaderLines(Lines(text))[i]| ==> HeaderLines(Lines(text))[i][k] != '\n'
  {
    LinesHoldNoNewline(text);
    var h := HeaderLines(Lines(text));
    assert forall i :: 0 <= i < |h| ==> h[i] == Lines(text)[i];
    LinesBytes(h);
  }

  /** Every row the loader returns is one the printer can carry. */
  lemma LoadedRowsAreSafe(text: string)
    requires Bytes(text)
    ensures forall i :: 0 <= i < |LoadText(text)| ==> SafeRow(LoadText(text)[i])
  {
    LinesHoldNoNewline(text);
    RowsAreSafe(Lines(text));
  }

  lemma {:induction false} RowsAreSafe(lines: seq<string>)
    requires forall i :: 0 <= i < |lines| ==> Bytes(lines[i]) && forall k :: 0 <= k < |lines[i]| ==> lines[i][k] != '\n'
    ensures forall i :: 0 <= i < |RowsOf(lines)| ==> SafeRow(RowOf(RowsOf(lines)[i]))
  {
    if lines != [] {
      RowsAreSafe(lines[1..]);
      if !Skipped(lines[0]) { LineIsSafe(lines[0]); }
    }
  }

  lemma FieldIsSafe(f: seq<string>, i: nat)
    requires forall k :: 0 <= k < |f| ==> SafeField(f[k])
    ensures SafeField(Field(f, i))
  {
  }

  lemma FirstField(line: string)
    ensures Fields(line)[0] != "" ==> Fields(line)[0][0] == line[0]
  {
    var e := IndexOf(line, '\t');
    assert line[..|line|] == line;
    assert Fields(line)[0] == TrimCR(line[..e]);
  }

  lemma LineIsSafe(line: string)
    requires Bytes(line) && !Skipped(line) && forall k :: 0 <= k < |line| ==> line[k] != '\n'
    ensures SafeRow(RowOf(Fields(line)))
  {
    FieldsAreSafe(line);
    FirstField(line);
    var f := Fields(line);
    if |f| > 2 { ParsedIsInt(f[2], -1); }
    FieldIsSafe(f, 0);
    FieldIsSafe(f, 1);
    FieldIsSafe(f, 3);
    FieldIsSafe(f, 4);
    FieldIsSafe(f, 5);
  }

  /** The round trip, exactly: what was written reads back as the rows that were meant if and only
      if every row is safe, and the header stays as it was either way. */
  lemma WrittenReadsBack(text: string, rows: seq<Row>)
    requires Bytes(text)
    ensures LoadText(Written(text, rows)) == rows <==> forall i :: 0 <= i < |rows| ==> SafeRow(rows[i])
  {
    if forall i :: 0 <= i < |rows| ==> SafeRow(rows[i]) {
      HeaderIsBytes(text);
      PrintedBytes(rows);
      BytesStay(Header(text) + PrintRows(rows));
      HeaderReadsAsNothing(HeaderLines(Lines(text)), PrintRows(rows));
      RowsReadBack(rows);
    }
    LoadedRowsAreSafe(Written(text, rows));
  }

  lemma {:induction false} HeaderStops(h: seq<string>, lines: seq<string>)
    requires forall i :: 0 <= i < |h| ==> h[i] == "" || h[i][0] == '#'
    requires lines != [] ==> lines[0] != "" && lines[0][0] != '#'
    ensures HeaderLines(h + lines) == h
  {
    if h == [] {
      assert h + lines == lines;
    } else {
      assert (h + lines)[1..] == h[1..] + lines;
      HeaderStops(h[1..], lines);
    }
  }
}

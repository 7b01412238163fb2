/** Tab-separated tables: reading, and what a written row must look like to be read back (Tsv.java). */
module Tsv {
  import opened Sequences

  /** The first position of `c` at or after `i`, or the length. */
  function Next(s: string, c: char, i: nat): (e: nat)
    requires i <= |s|
    ensures i <= e <= |s|
    decreases |s| - i
  {
    if i == |s| || s[i] == c then i else Next(s, c, i + 1)
  }

  function IndexOf(s: string, c: char): (e: nat)
    ensures e <= |s|
  {
    Next(s, c, 0)
  }

  lemma {:induction false} NextIs(s: string, c: char, i: nat, e: nat)
    requires i <= e <= |s| && (forall k :: i <= k < e ==> s[k] != c) && (e < |s| ==> s[e] == c)
    ensures Next(s, c, i) == e
    decreases e - i
  {
    if i < e { NextIs(s, c, i + 1, e); }
  }

  lemma {:induction false} NextHolds(s: string, c: char, i: nat)
    requires i <= |s|
    ensures var e := Next(s, c, i); (forall k :: i <= k < e ==> s[k] != c) && (e < |s| ==> s[e] == c)
    decreases |s| - i
  {
    if i < |s| && s[i] != c { NextHolds(s, c, i + 1); }
  }

  /** The first position in what is left of a text. */
  lemma {:induction false} NextInRest(s: string, c: char, i: nat)
    requires i <= |s|
    ensures IndexOf(s[i..], c) == Next(s, c, i) - i
  {
    var e := Next(s, c, i);
    NextHolds(s, c, i);
    NextIs(s[i..], c, 0, e - i);
  }

  // ---- lines ----

  /** The lines of a text; a final newline does not start another one. */
  function Lines(text: string): seq<string>
    decreases |text|
  {
    if text == [] then []
    else
      var e := IndexOf(text, '\n');
      if e == |text| then [text] else [text[..e]] + Lines(text[e+1..])
  }

  predicate Blank(line: string) {
    forall i :: 0 <= i < |line| ==> line[i] == ' ' || line[i] == '\t' || line[i] == '\r'
  }

  /** Empty, a comment, or blank. */
  predicate Skipped(line: string) {
    line == "" || line[0] == '#' || Blank(line)
  }

  // ---- fields ----

  /** How much of the first `n` characters is left without the carriage returns at their end. */
  function TrimLength(s: string, n: nat): (k: nat)
    requires n <= |s|
    ensures k <= n
  {
    if n > 0 && s[n-1] == '\r' then TrimLength(s, n - 1) else n
  }

  function TrimCR(s: string): string {
    s[..TrimLength(s, |s|)]
  }

  lemma {:induction false} TrimHolds(s: string, n: nat)
    requires n <= |s|
    ensures var k := TrimLength(s, n); k > 0 ==> s[k-1] != '\r'
  {
    if n > 0 && s[n-1] == '\r' { TrimHolds(s, n - 1); }
  }

  function Fields(line: string): (f: seq<string>)
    ensures f != []
    decreases |line|
  {
    var e := IndexOf(line, '\t');
    if e == |line| then [TrimCR(line)] else [TrimCR(line[..e])] + Fields(line[e+1..])
  }

  // ---- rows ----

  function RowsOf(lines: seq<string>): seq<seq<string>> {
    if lines == [] then []
    else if Skipped(lines[0]) then RowsOf(lines[1..])
    else [Fields(lines[0])] + RowsOf(lines[1..])
  }

  /** Tsv.read, on the text of the file. */
  function Rows(text: string): seq<seq<string>> {
    RowsOf(Lines(text))
  }

  // ---- reading a text back in pieces ----

  lemma LinesCons(line: string, rest: string)
    requires forall i :: 0 <= i < |line| ==> line[i] != '\n'
    ensures Lines(line + "\n" + rest) == [line] + Lines(rest)
  {
    var text := line + "\n" + rest;
    NextIs(text, '\n', 0, |line|);
    assert text[..|line|] == line && text[|line|+1..] == rest;
  }

  lemma {:induction false} RowsConcat(a: seq<string>, b: seq<string>)
    ensures RowsOf(a + b) == RowsOf(a) + RowsOf(b)
  {
    if a == [] {
      assert a + b == b;
    } else {
      RowsConcat(a[1..], b);
      FirstOfConcat(a, b);
      if !Skipped(a[0]) { Associates([Fields(a[0])], RowsOf(a[1..]), RowsOf(b)); }
    }
  }

  lemma {:induction false} RowsOfSkipped(lines: seq<string>)
    requires forall i :: 0 <= i < |lines| ==> Skipped(lines[i])
    ensures RowsOf(lines) == []
  {
    if lines != [] { RowsOfSkipped(lines[1..]); }
  }

  lemma FieldsCons(field: string, rest: string)
    requires forall i :: 0 <= i < |field| ==> field[i] != '\t'
    ensures Fields(field + "\t" + rest) == [TrimCR(field)] + Fields(rest)
  {
    var line := field + "\t" + rest;
    NextIs(line, '\t', 0, |field|);
    assert line[..|field|] == field && line[|field|+1..] == rest;
  }

  lemma FieldsLast(field: string)
    requires forall i :: 0 <= i < |field| ==> field[i] != '\t'
    ensures Fields(field) == [TrimCR(field)]
  {
    NextIs(field, '\t', 0, |field|);
  }

  // ---- what a field read back looks like ----

  /** One byte per character, and none that splits a row. */
  predicate FieldChar(c: char) {
    c != '\t' && c != '\n' && c < 256 as char
  }

  /** What the reader can return as a field. */
  predicate SafeField(s: string) {
    (forall i :: 0 <= i < |s| ==> FieldChar(s[i])) && (s != "" ==> s[|s|-1] != '\r')
  }

  predicate Bytes(text: string) {
    forall i :: 0 <= i < |text| ==> text[i] < 256 as char
  }

  ghost predicate OneLine(line: string) {
    Bytes(line) && forall i :: 0 <= i < |line| ==> line[i] != '\n'
  }

  lemma TrimIsSafe(s: string)
    requires OneLine(s) && forall i :: 0 <= i < |s| ==> s[i] != '\t'
    ensures SafeField(TrimCR(s))
  {
    TrimHolds(s, |s|);
  }

  lemma {:induction false} FieldsAreSafe(line: string)
    requires OneLine(line)
    ensures forall k :: 0 <= k < |Fields(line)| ==> SafeField(Fields(line)[k])
    decreases |line|
  {
    var e := IndexOf(line, '\t');
    NextHolds(line, '\t', 0);
    TrimIsSafe(line[..e]);
    if e < |line| { FieldsAreSafe(line[e+1..]); } else { WholePrefix(line); }
  }

  lemma {:induction false} LinesHoldNoNewline(text: string)
    requires Bytes(text)
    ensures forall k :: 0 <= k < |Lines(text)| ==> OneLine(Lines(text)[k])
    decreases |text|
  {
    if text != [] {
      var e := IndexOf(text, '\n');
      NextHolds(text, '\n', 0);
      assert OneLine(text[..e]);
      if e < |text| { LinesHoldNoNewline(text[e+1..]); } else { WholePrefix(text); }
    }
  }

  /** A safe field trims to itself. */
  lemma SafeFieldKept(s: string)
    requires SafeField(s)
    ensures TrimCR(s) == s
  {
    WholePrefix(s);
  }

  // ---- the loops ----

  method FindIndex(s: string, c: char, from: nat) returns (e: int)
    requires from <= |s|
    ensures e == if Next(s, c, from) < |s| then Next(s, c, from) else -1
  {
    var i := from;
    while i < |s|
      invariant from <= i <= |s|
      invariant Next(s, c, i) == Next(s, c, from)
    {
      if s[i] == c { return i; }
      i := i + 1;
    }
    return -1;
  }

  /** What is left to read from position `i`, which may be one past the end. */
  function LinesFrom(text: string, i: nat): seq<string> {
    if i < |text| then Lines(text[i..]) else []
  }

  lemma LinesFromIs(text: string, i: nat)
    requires i <= |text|
    ensures LinesFrom(text, i) == Lines(text[i..])
  {
  }

  lemma LinesOn(text: string, i: nat)
    requires i < |text| && Next(text, '\n', i) < |text|
    ensures Lines(text[i..]) == [text[i..Next(text, '\n', i)]] + Lines(text[Next(text, '\n', i)+1..])
  {
    var e := IndexOf(text[i..], '\n');
    NextInRest(text, '\n', i);
    TailSlices(text, i, e);
    TailSlices(text, i, e + 1);
  }

  lemma LinesLast(text: string, i: nat)
    requires i < |text| && Next(text, '\n', i) == |text|
    ensures Lines(text[i..]) == [text[i..|text|]]
  {
    NextInRest(text, '\n', i);
    ToTheEnd(text, i);
  }

  lemma LinesStep(text: string, i: nat)
    requires i < |text|
    ensures var e := Next(text, '\n', i); LinesFrom(text, i) == [text[i..e]] + LinesFrom(text, e + 1)
  {
    var e := Next(text, '\n', i);
    if e < |text| {
      LinesOn(text, i);
      LinesFromIs(text, e + 1);
    } else {
      LinesLast(text, i);
    }
  }

  lemma FieldsOn(line: string, i: nat)
    requires i <= |line| && Next(line, '\t', i) < |line|
    ensures Fields(line[i..]) == [TrimCR(line[i..Next(line, '\t', i)])] + Fields(line[Next(line, '\t', i)+1..])
  {
    var e := IndexOf(line[i..], '\t');
    NextInRest(line, '\t', i);
    TailSlices(line, i, e);
    TailSlices(line, i, e + 1);
  }

  lemma FieldsEnd(line: string, i: nat)
    requires i <= |line| && Next(line, '\t', i) == |line|
    ensures Fields(line[i..]) == [TrimCR(line[i..|line|])]
  {
    NextInRest(line, '\t', i);
    ToTheEnd(line, i);
  }

  lemma RowsCons(line: string, lines: seq<string>)
    ensures RowsOf([line] + lines) == if Skipped(line) then RowsOf(lines) else [Fields(line)] + RowsOf(lines)
  {
    HeadTail(line, lines);
  }

  method TrimCRLoop(s: string) returns (t: string)
    ensures t == TrimCR(s)
  {
    var n := |s|;
    while n > 0 && s[n-1] == '\r'
      invariant 0 <= n <= |s| && TrimLength(s, n) == TrimLength(s, |s|)
    {
      n := n - 1;
    }
    return s[..n];
  }

  method BlankLoop(s: string) returns (b: bool)
    ensures b == Blank(s)
  {
    for i := 0 to |s|
      invariant forall k :: 0 <= k < i ==> s[k] == ' ' || s[k] == '\t' || s[k] == '\r'
    {
      if s[i] != ' ' && s[i] != '\t' && s[i] != '\r' { return false; }
    }
    return true;
  }

  /** The fields found so far, with those still to come. */
  function SplitOn(f: seq<string>, line: string, i: nat): seq<string>
    requires i <= |line|
  {
    f + Fields(line[i..])
  }

  lemma SplitStep(f: seq<string>, line: string, i: nat, e: nat)
    requires i <= |line| && e == Next(line, '\t', i) && e < |line|
    ensures SplitOn(f, line, i) == SplitOn(f + [TrimCR(line[i..e])], line, e + 1)
  {
    FieldsOn(line, i);
    Associates(f, [TrimCR(line[i..e])], Fields(line[e+1..]));
  }

  lemma SplitEnds(f: seq<string>, line: string, i: nat)
    requires i <= |line| && Next(line, '\t', i) == |line|
    ensures SplitOn(f, line, i) == f + [TrimCR(line[i..|line|])]
  {
    FieldsEnd(line, i);
  }

  method Split(line: string) returns (f: seq<string>)
    ensures f == Fields(line)
  {
    f := [];
    var i, n := 0, |line|;
    assert line[0..] == line;
    while true
      invariant 0 <= i <= n
      invariant SplitOn(f, line, i) == Fields(line)
      decreases n - i
    {
      var e := FindIndex(line, '\t', i);
      if e < 0 {
        SplitEnds(f, line, i);
        var last := TrimCRLoop(line[i..n]);
        f := f + [last];
        return;
      }
      SplitStep(f, line, i, e);
      var one := TrimCRLoop(line[i..e]);
      f := f + [one];
      i := e + 1;
    }
  }

  /** The rows read so far, with those still to come. */
  function ReadOn(rows: seq<seq<string>>, text: string, i: nat): seq<seq<string>> {
    rows + RowsOf(LinesFrom(text, i))
  }

  function Taken(rows: seq<seq<string>>, line: string): seq<seq<string>> {
    if Skipped(line) then rows else rows + [Fields(line)]
  }

  lemma AddRow(rows: seq<seq<string>>, fields: seq<string>, rest: seq<seq<string>>)
    ensures rows + ([fields] + rest) == (rows + [fields]) + rest
  {
  }

  lemma ReadStep(rows: seq<seq<string>>, text: string, i: nat, e: nat, line: string)
    requires i < |text| && e == Next(text, '\n', i) && line == text[i..e]
    ensures ReadOn(rows, text, i) == ReadOn(Taken(rows, line), text, e + 1)
  {
    LinesStep(text, i);
    RowsCons(line, LinesFrom(text, e + 1));
    if !Skipped(line) { AddRow(rows, Fields(line), RowsOf(LinesFrom(text, e + 1))); }
  }

  lemma ReadEnds(rows: seq<seq<string>>, text: string, i: nat)
    requires i >= |text|
    ensures ReadOn(rows, text, i) == rows
  {
  }

  lemma ReadStarts(text: string)
    ensures ReadOn([], text, 0) == Rows(text)
  {
    LinesFromIs(text, 0);
    assert text[0..] == text;
  }

  method Read(text: string) returns (rows: seq<seq<string>>)
    ensures rows == Rows(text)
  {
    rows := [];
    var i, n := 0, |text|;
    ReadStarts(text);
    while i < n
      invariant 0 <= i <= n + 1
      invariant ReadOn(rows, text, i) == Rows(text)
      decreases n + 1 - i
    {
      var e := FindIndex(text, '\n', i);
      if e < 0 { e := n; }
      ghost var before := rows;
      var line := text[i..e];
      ReadStep(before, text, i, e, line);
      i := e + 1;
      rows := ReadLine(rows, line);
    }
    ReadEnds(rows, text, i);
  }

  method ReadLine(rows: seq<seq<string>>, line: string) returns (more: seq<seq<string>>)
    ensures more == Taken(rows, line)
  {
    var skip := SkipLine(line);
    if skip { return rows; }
    var fields := Split(line);
    return rows + [fields];
  }

  /** The three reasons to pass over a line. */
  method SkipLine(line: string) returns (skip: bool)
    ensures skip == Skipped(line)
  {
    if |line| == 0 { return true; }
    if line[0] == '#' { return true; }
    skip := BlankLoop(line);
  }
}

/** What the written ledger reads back as, whatever its reason column holds. */
module Rereading {
  import opened JavaInts
  import opened Decimals
  import opened Tsv
  import opened Ledgers
  import opened Sequences

  /** The lines of a text that a newline will follow: a newline inside it starts another. */
  function Pieces(text: string): (lines: seq<string>)
    ensures lines != [] && lines[0] == text[..IndexOf(text, '\n')]
    decreases |text|
  {
    var e := IndexOf(text, '\n');
    if e == |text| then [text] else [text[..e]] + Pieces(text[e+1..])
  }

  lemma {:induction false} LinesOfPieces(a: string, b: string)
    ensures Lines(a + "\n" + b) == Pieces(a) + Lines(b)
    decreases |a|
  {
    var e := IndexOf(a, '\n');
    NextHolds(a, '\n', 0);
    if e == |a| {
      LinesCons(a, b);
    } else {
      LineRegroups(a, b, e);
      LinesCons(a[..e], a[e+1..] + "\n" + b);
      LinesOfPieces(a[e+1..], b);
    }
  }

  lemma LineRegroups(a: string, b: string, e: nat)
    requires e < |a| && a[e] == '\n'
    ensures a + "\n" + b == a[..e] + "\n" + (a[e+1..] + "\n" + b)
  {
  }

  /** The rows one written row comes back as. */
  function Reread(r: Row): seq<Row> {
    LoadRows(RowsOf(Pieces(LowBytes(RowLine(r)))))
  }

  function RereadAll(rows: seq<Row>): seq<Row> {
    if rows == [] then [] else Reread(rows[0]) + RereadAll(rows[1..])
  }

  lemma LowBytesAppend(a: string, b: string)
    ensures LowBytes(a + b) == LowBytes(a) + LowBytes(b)
  {
  }

  lemma LoadConcat(a: seq<seq<string>>, b: seq<seq<string>>)
    ensures LoadRows(a + b) == LoadRows(a) + LoadRows(b)
  {
  }

  lemma {:induction false} PrintedRereads(rows: seq<Row>)
    ensures LoadText(LowBytes(PrintRows(rows))) == RereadAll(rows)
  {
    if rows != [] {
      var line, rest := RowLine(rows[0]), PrintRows(rows[1..]);
      LowBytesAppend(line + "\n", rest);
      LowBytesAppend(line, "\n");
      assert LowBytes("\n") == "\n";
      LinesOfPieces(LowBytes(line), LowBytes(rest));
      RowsConcat(Pieces(LowBytes(line)), Lines(LowBytes(rest)));
      LoadConcat(RowsOf(Pieces(LowBytes(line))), RowsOf(Lines(LowBytes(rest))));
      PrintedRereads(rows[1..]);
    }
  }

  /** The whole written text, header and all, reads back as what each of its rows does. */
  lemma WrittenRereads(text: string, rows: seq<Row>)
    requires Bytes(text)
    ensures LoadText(Written(text, rows)) == RereadAll(rows)
  {
    HeaderIsBytes(text);
    BytesStay(Header(text));
    LowBytesAppend(Header(text), PrintRows(rows));
    HeaderReadsAsNothing(HeaderLines(Lines(text)), LowBytes(PrintRows(rows)));
    PrintedRereads(rows);
  }

  // ---- one row ----

  /** Its first four columns can be written; nothing is asked of the other two. */
  ghost predicate SafeHead(r: Row) {
    && SafeField(r.sec) && SafeField(r.title) && SafeField(r.status)
    && (r.sec != "" ==> r.sec[0] != '#')
    && IsInt(r.page)
  }

  predicate Unbroken(s: string) {
    forall i :: 0 <= i < |s| ==> s[i] as int % 256 != 10
  }

  /** Some columns, each closed by a tab, and what follows. */
  function Columns(f: seq<string>, t: string): string {
    if f == [] then t else f[0] + "\t" + Columns(f[1..], t)
  }

  lemma {:induction false} ColumnsAppend(f: seq<string>, t: string)
    ensures Columns(f, t) == Columns(f, "") + t
  {
    if f != [] { ColumnsAppend(f[1..], t); }
  }

  lemma {:induction false} ColumnsRead(f: seq<string>, t: string)
    requires forall i :: 0 <= i < |f| ==> SafeField(f[i])
    ensures Fields(Columns(f, t)) == f + Fields(t)
  {
    if f == [] {
      assert f + Fields(t) == Fields(t);
    } else {
      ColumnsRead(f[1..], t);
      FieldStep(f[0], Columns(f[1..], t));
      ConsAssociates(f, Fields(t));
    }
  }

  lemma {:induction false} ColumnsAreClean(f: seq<string>)
    requires forall i :: 0 <= i < |f| ==> SafeField(f[i])
    ensures Bytes(Columns(f, "")) && forall i :: 0 <= i < |Columns(f, "")| ==> Columns(f, "")[i] != '\n'
  {
    if f != [] { ColumnsAreClean(f[1..]); }
  }

  function HeadColumns(r: Row): seq<string> {
    [r.sec, r.title, PrintInt(r.page), r.status]
  }

  function Head(r: Row): string {
    Columns(HeadColumns(r), "")
  }

  function Tail(r: Row): string {
    r.reason + "\t" + r.behaviour
  }

  lemma {:induction false} TabbedColumns(f: seq<string>, g: seq<string>)
    requires g != []
    ensures Tabbed(f + g) == Columns(f, Tabbed(g))
  {
    if f == [] {
      assert f + g == g;
    } else {
      assert (f + g)[1..] == f[1..] + g;
      TabbedColumns(f[1..], g);
    }
  }

  lemma LineSplits(r: Row)
    ensures RowLine(r) == Head(r) + Tail(r)
  {
    var g := [r.reason, r.behaviour];
    assert HeadColumns(r) + g == [r.sec, r.title, PrintInt(r.page), r.status, r.reason, r.behaviour];
    TabbedColumns(HeadColumns(r), g);
    assert g[1..] == [r.behaviour];
    assert Tabbed(g) == Tail(r);
    ColumnsAppend(HeadColumns(r), Tail(r));
  }

  lemma HeadIsClean(r: Row)
    requires SafeHead(r)
    ensures Bytes(Head(r)) && forall i :: 0 <= i < |Head(r)| ==> Head(r)[i] != '\n'
  {
    PageIsSafe(r.page);
    ColumnsAreClean(HeadColumns(r));
  }

  lemma HeadIsRead(r: Row, t: string)
    requires SafeHead(r)
    ensures !Skipped(Head(r) + t)
  {
    var f := HeadColumns(r);
    var rest := Columns(f[2..], "");
    assert f[1..][1..] == f[2..];
    assert Columns(f[1..], "") == r.title + "\t" + rest;
    assert Head(r) == r.sec + "\t" + (r.title + "\t" + rest);
    assert rest == PrintInt(r.page) + "\t" + Columns(f[2..][1..], "");
    PageShows(r.sec, r.title, rest, t);
    assert rest[0] == PrintInt(r.page)[0];
  }

  lemma PageShows(sec: string, title: string, rest: string, t: string)
    requires rest != [] && (rest[0] == '-' || IsDigit(rest[0])) && (sec != "" ==> sec[0] != '#')
    ensures !Skipped((sec + "\t" + (title + "\t" + rest)) + t)
  {
    var line := (sec + "\t" + (title + "\t" + rest)) + t;
    assert line[|sec| + 1 + |title| + 1] == rest[0];
    assert line[0] == if sec == "" then '\t' else sec[0];
  }

  lemma HeadFields(r: Row, t: string)
    requires SafeHead(r)
    ensures Fields(Head(r) + t) == HeadColumns(r) + Fields(t)
  {
    PageIsSafe(r.page);
    ColumnsRead(HeadColumns(r), t);
    ColumnsAppend(HeadColumns(r), t);
  }

  /** The row of a line that starts with the head of `r`. */
  lemma HeadParses(r: Row, t: string)
    requires SafeHead(r)
    ensures var a := RowOf(Fields(Head(r) + t));
            a.sec == r.sec && a.title == r.title && a.page == r.page && a.status == r.status && a.reason == Fields(t)[0]
  {
    HeadFields(r, t);
    ParsePrinted(r.page, -1);
  }

  /** Where the first line of a written row ends. */
  lemma FirstLine(r: Row)
    requires SafeHead(r)
    ensures Pieces(LowBytes(RowLine(r)))[0] == Head(r) + FirstPart(LowBytes(Tail(r)))
    ensures Unbroken(Tail(r)) ==> |Pieces(LowBytes(RowLine(r)))| == 1
  {
    LineSplits(r);
    HeadIsClean(r);
    LowBytesAppend(Head(r), Tail(r));
    BytesStay(Head(r));
    var tail := LowBytes(Tail(r));
    FirstBreak(Head(r), tail);
    if Unbroken(Tail(r)) { TailUnbroken(Tail(r)); }
  }

  lemma FirstBreak(head: string, tail: string)
    requires forall i :: 0 <= i < |head| ==> head[i] != '\n'
    ensures IndexOf(head + tail, '\n') == |head| + IndexOf(tail, '\n')
    ensures (head + tail)[..|head| + IndexOf(tail, '\n')] == head + tail[..IndexOf(tail, '\n')]
  {
    NextHolds(tail, '\n', 0);
    NextIs(head + tail, '\n', 0, |head| + IndexOf(tail, '\n'));
  }

  /** What stays of a reason once it has been written and read back. */
  function ReadReason(reason: string): string {
    Fields(FirstPart(LowBytes(reason)))[0]
  }

  function FirstPart(s: string): string {
    s[..IndexOf(s, '\n')]
  }

  /** A safe reason stays whole. */
  lemma SafeReasonStays(reason: string)
    requires SafeField(reason)
    ensures ReadReason(reason) == reason
  {
    BytesStay(reason);
    NextIs(reason, '\n', 0, |reason|);
    WholePrefix(reason);
    FieldsLast(reason);
    SafeFieldKept(reason);
  }

  /** In general it is lost if only carriage returns stand before its first tab or newline. */
  lemma ReasonIsLost(reason: string)
    ensures ReadReason(reason) == "" <==>
              var part := FirstPart(LowBytes(reason)); forall i :: 0 <= i < IndexOf(part, '\t') ==> part[i] == '\r'
  {
    var part := FirstPart(LowBytes(reason));
    var field := part[..IndexOf(part, '\t')];
    FieldsHead(part);
    OnlyReturns(field);
  }

  lemma FieldsHead(line: string)
    ensures Fields(line)[0] == TrimCR(line[..IndexOf(line, '\t')])
  {
    WholePrefix(line);
  }

  lemma OnlyReturns(s: string)
    ensures TrimCR(s) == "" <==> forall i :: 0 <= i < |s| ==> s[i] == '\r'
  {
    TrimmedAre(s, |s|);
    TrimHolds(s, |s|);
    var k := TrimLength(s, |s|);
    assert k > 0 ==> s[k-1] != '\r';
  }

  lemma {:induction false} TrimmedAre(s: string, n: nat)
    requires n <= |s|
    ensures forall i :: TrimLength(s, n) <= i < n ==> s[i] == '\r'
  {
    if n > 0 && s[n-1] == '\r' { TrimmedAre(s, n - 1); }
  }

  /** The reason is read up to its own first newline or tab, whatever follows it in the line. */
  lemma TailReason(r: Row)
    ensures Fields(FirstPart(LowBytes(Tail(r))))[0] == ReadReason(r.reason)
  {
    var b, more := LowBytes(r.reason), LowBytes(r.behaviour);
    TailBytes(r);
    NextHolds(b, '\n', 0);
    if IndexOf(b, '\n') < |b| {
      PartOfBroken(b, "\t" + more);
    } else {
      WholePrefix(b);
      PartOfWhole(b, more);
    }
  }

  lemma TailBytes(r: Row)
    ensures LowBytes(Tail(r)) == LowBytes(r.reason) + ("\t" + LowBytes(r.behaviour))
  {
    LowBytesAppend(r.reason + "\t", r.behaviour);
    LowBytesAppend(r.reason, "\t");
    assert LowBytes("\t") == "\t";
    Associates(LowBytes(r.reason), "\t", LowBytes(r.behaviour));
  }

  lemma PartOfBroken(b: string, more: string)
    requires IndexOf(b, '\n') < |b|
    ensures FirstPart(b + more) == FirstPart(b)
  {
    var k := IndexOf(b, '\n');
    NextHolds(b, '\n', 0);
    NextIs(b + more, '\n', 0, k);
    assert (b + more)[..k] == b[..k];
  }

  lemma PartOfWhole(b: string, more: string)
    requires IndexOf(b, '\n') == |b|
    ensures Fields(FirstPart(b + ("\t" + more)))[0] == Fields(b)[0]
  {
    var line := FirstPart(b + ("\t" + more));
    NextHolds(b, '\n', 0);
    NextHolds(b + ("\t" + more), '\n', 0);
    assert IndexOf(b + ("\t" + more), '\n') > |b|;
    assert line[..|b|] == b && line[|b|] == '\t';
    SameFirstField(line, b);
  }

  lemma SameFirstField(line: string, b: string)
    requires |b| < |line| && line[..|b|] == b && line[|b|] == '\t'
    ensures Fields(line)[0] == Fields(b)[0]
  {
    var e := IndexOf(b, '\t');
    NextHolds(b, '\t', 0);
    forall i | 0 <= i < |b| ensures line[i] == b[i] { assert line[..|b|][i] == b[i]; }
    NextIs(line, '\t', 0, e);
    assert line[..e] == b[..e] by { assert line[..|b|][..e] == line[..e]; }
    FieldsHead(line);
    FieldsHead(b);
  }

  /** However its reason breaks it, a row's first line still gives its section, title, page and
      status, and as much of the reason as can be read; and when nothing in it breaks the line, it is
      all there is. */
  lemma RowRereads(r: Row)
    requires SafeHead(r)
    ensures Reread(r) != []
    ensures var a := Reread(r)[0];
            a.sec == r.sec && a.title == r.title && a.page == r.page && a.status == r.status &&
            a.reason == ReadReason(r.reason)
    ensures Unbroken(r.reason) && Unbroken(r.behaviour) ==> |Reread(r)| == 1
  {
    var t := FirstPart(LowBytes(Tail(r)));
    FirstLine(r);
    HeadIsRead(r, t);
    HeadParses(r, t);
    TailReason(r);
    FirstRow(Pieces(LowBytes(RowLine(r))));
    UnbrokenTail(r);
  }

  /** The further rows that newlines in a written row make of it. */
  function Created(r: Row): seq<Row> {
    if Reread(r) == [] then [] else Reread(r)[1..]
  }

  lemma SplitReread(r: Row)
    requires Reread(r) != []
    ensures Reread(r) == [Reread(r)[0]] + Created(r)
  {
  }

  lemma UnbrokenTail(r: Row)
    ensures Unbroken(r.reason) && Unbroken(r.behaviour) ==> Unbroken(Tail(r))
  {
  }

  lemma TailUnbroken(t: string)
    requires Unbroken(t)
    ensures IndexOf(LowBytes(t), '\n') == |t|
  {
    NextIs(LowBytes(t), '\n', 0, |t|);
  }

  lemma FirstRow(lines: seq<string>)
    requires lines != [] && !Skipped(lines[0])
    ensures var rows := LoadRows(RowsOf(lines));
            rows != [] && rows[0] == RowOf(Fields(lines[0])) && (|lines| == 1 ==> |rows| == 1)
  {
  }

  // ---- all of them ----

  /** There is a row with this section and this status. */
  ghost predicate HoldsRow(rows: seq<Row>, sec: string, status: string) {
    exists k :: 0 <= k < |rows| && rows[k].sec == sec && rows[k].status == status
  }

  lemma HoldsRowConcat(a: seq<Row>, b: seq<Row>, sec: string, status: string)
    requires HoldsRow(a, sec, status) || HoldsRow(b, sec, status)
    ensures HoldsRow(a + b, sec, status)
  {
    if HoldsRow(a, sec, status) {
      var k :| 0 <= k < |a| && a[k].sec == sec && a[k].status == status;
      assert (a + b)[k] == a[k];
    } else {
      var k :| 0 <= k < |b| && b[k].sec == sec && b[k].status == status;
      assert (a + b)[|a| + k] == b[k];
    }
  }

  lemma {:induction false} EveryRowRereads(rows: seq<Row>, i: nat)
    requires i < |rows| && SafeHead(rows[i])
    ensures HoldsRow(RereadAll(rows), rows[i].sec, rows[i].status)
  {
    if i == 0 { RowRereads(rows[0]); } else { EveryRowRereads(rows[1..], i - 1); }
    HoldsRowConcat(Reread(rows[0]), RereadAll(rows[1..]), rows[i].sec, rows[i].status);
  }

  lemma {:induction false} RereadAppend(rows: seq<Row>, r: Row)
    ensures RereadAll(rows + [r]) == RereadAll(rows) + Reread(r)
  {
    if rows == [] {
      assert (rows + [r])[1..] == [] && RereadAll([]) == [];
      assert RereadAll([r]) == Reread(r) + [];
    } else {
      RereadAppend(rows[1..], r);
      assert (rows + [r])[1..] == rows[1..] + [r];
      Associates(Reread(rows[0]), RereadAll(rows[1..]), Reread(r));
    }
  }

  // ---- the header ----

  /** The header of the written text is the header that was there, whatever the reasons hold: only the
      first row's head is asked to stay clear of it. */
  lemma HeaderIsKept(text: string, rows: seq<Row>)
    requires Bytes(text) && (rows != [] ==> SafeHead(rows[0]))
    ensures Header(Written(text, rows)) == Header(text)
  {
    var h, body := HeaderLines(Lines(text)), LowBytes(PrintRows(rows));
    HeaderIsBytes(text);
    BytesStay(Header(text));
    LowBytesAppend(Header(text), PrintRows(rows));
    HeaderReadsAsNothing(h, body);
    if rows != [] { BodyStarts(rows); }
    HeaderStops(h, Lines(body));
  }

  lemma BodyStarts(rows: seq<Row>)
    requires rows != [] && SafeHead(rows[0])
    ensures var lines := Lines(LowBytes(PrintRows(rows))); lines != [] && !Skipped(lines[0])
  {
    var line, rest := RowLine(rows[0]), PrintRows(rows[1..]);
    LowBytesAppend(line + "\n", rest);
    LowBytesAppend(line, "\n");
    assert LowBytes("\n") == "\n";
    LinesOfPieces(LowBytes(line), LowBytes(rest));
    FirstLine(rows[0]);
    HeadIsRead(rows[0], FirstPart(LowBytes(Tail(rows[0]))));
  }
}

/** What the lines, fields and rows of a table are, in terms of the text they are written in. */
module TableText {
  import opened Sequences
  import opened Decimals
  import opened Tsv
  import opened Ledgers

  ghost predicate Without(s: string, c: char) {
    forall i :: 0 <= i < |s| ==> s[i] != c
  }

  ghost predicate AllWithout(pieces: seq<string>, c: char) {
    forall k :: 0 <= k < |pieces| ==> Without(pieces[k], c)
  }

  // ---- lines ----

  /** Some lines, each ended, and one that is not: that last one counts unless it is empty. */
  lemma LinesAre(lines: seq<string>, last: string)
    requires AllWithout(lines, '\n') && Without(last, '\n')
    ensures last == "" ==> Lines(PrintLines(lines) + last) == lines
    ensures last != "" ==> Lines(PrintLines(lines) + last) == lines + [last]
  {
    forall i | 0 <= i < |lines| ensures forall k :: 0 <= k < |lines[i]| ==> lines[i][k] != '\n' {
      assert Without(lines[i], '\n');
    }
    PrintedLinesRead(lines, last);
    NextIs(last, '\n', 0, |last|);
  }

  /** Every text is made so. */
  lemma {:induction false} TextIsLines(text: string) returns (lines: seq<string>, last: string)
    ensures text == PrintLines(lines) + last && AllWithout(lines, '\n') && Without(last, '\n')
    decreases |text|
  {
    var e := IndexOf(text, '\n');
    NextHolds(text, '\n', 0);
    if e == |text| {
      lines, last := [], text;
    } else {
      var more, end := TextIsLines(text[e+1..]);
      lines, last := [text[..e]] + more, end;
      HeadTail(text[..e], more);
      LineAssociates(text[..e], PrintLines(more), end);
      assert text == text[..e] + "\n" + text[e+1..];
    }
  }

  // ---- fields ----

  /** Only the carriage returns at the end of a field are dropped. */
  lemma {:induction false} ReturnsDropped(s: string, ends: string)
    requires (s == "" || s[|s|-1] != '\r') && forall i :: 0 <= i < |ends| ==> ends[i] == '\r'
    ensures TrimCR(s + ends) == s
  {
    var t := s + ends;
    TrimmedTo(t, |s|, |t|);
    assert t[..|s|] == s;
  }

  lemma {:induction false} TrimmedTo(t: string, k: nat, n: nat)
    requires k <= n <= |t| && (k > 0 ==> t[k-1] != '\r') && forall i :: k <= i < n ==> t[i] == '\r'
    ensures TrimLength(t, n) == k
  {
    if n > k { TrimmedTo(t, k, n - 1); }
  }

  /** The fields of a line are the pieces between its tabs, trimmed. */
  lemma {:induction false} FieldsArePieces(pieces: seq<string>)
    requires pieces != [] && AllWithout(pieces, '\t')
    ensures |Fields(Tabbed(pieces))| == |pieces|
    ensures forall k :: 0 <= k < |pieces| ==> Fields(Tabbed(pieces))[k] == TrimCR(pieces[k])
  {
    assert Without(pieces[0], '\t');
    if |pieces| == 1 {
      FieldsLast(pieces[0]);
    } else {
      FieldsArePieces(pieces[1..]);
      FieldsCons(pieces[0], Tabbed(pieces[1..]));
    }
  }

  /** Every line is such pieces with a tab between one and the next. */
  lemma {:induction false} LineIsPieces(line: string) returns (pieces: seq<string>)
    ensures pieces != [] && AllWithout(pieces, '\t') && line == Tabbed(pieces)
    decreases |line|
  {
    var e := IndexOf(line, '\t');
    NextHolds(line, '\t', 0);
    if e == |line| {
      pieces := [line];
    } else {
      var more := LineIsPieces(line[e+1..]);
      pieces := [line[..e]] + more;
      HeadTail(line[..e], more);
      assert line == line[..e] + "\t" + line[e+1..];
    }
  }

  // ---- which lines are rows ----

  /** Nothing but spaces and carriage returns. */
  ghost predicate Bare(s: string) {
    forall i :: 0 <= i < |s| ==> s[i] == ' ' || s[i] == '\r'
  }

  ghost predicate AllBare(pieces: seq<string>) {
    forall k :: 0 <= k < |pieces| ==> Bare(pieces[k])
  }

  lemma BlankConcat(a: string, b: string)
    ensures Blank(a + b) <==> Blank(a) && Blank(b)
  {
    assert forall i :: 0 <= i < |a| ==> (a + b)[i] == a[i];
    assert forall i :: 0 <= i < |b| ==> b[i] == (a + b)[|a| + i];
  }

  lemma {:induction false} BlankIsBare(pieces: seq<string>)
    requires pieces != [] && AllWithout(pieces, '\t')
    ensures Blank(Tabbed(pieces)) <==> AllBare(pieces)
  {
    assert Without(pieces[0], '\t');
    assert Blank(pieces[0]) <==> Bare(pieces[0]);
    if |pieces| > 1 {
      BlankIsBare(pieces[1..]);
      BlankConcat(pieces[0] + "\t", Tabbed(pieces[1..]));
      BlankConcat(pieces[0], "\t");
      assert forall k :: 0 < k < |pieces| ==> pieces[k] == pieces[1..][k-1];
      assert forall k :: 0 <= k < |pieces[1..]| ==> pieces[1..][k] == pieces[k+1];
    }
  }

  /** A line is passed over exactly when it is a comment or nothing stands between its tabs. */
  lemma SkippedIs(pieces: seq<string>)
    requires pieces != [] && AllWithout(pieces, '\t')
    ensures Skipped(Tabbed(pieces)) <==> (pieces[0] != "" && pieces[0][0] == '#') || AllBare(pieces)
  {
    BlankIsBare(pieces);
    var line := Tabbed(pieces);
    assert line == "" ==> pieces == [""];
    if line != "" { assert line[0] == if pieces[0] == "" then '\t' else pieces[0][0]; }
  }

  /** Passing over a line changes nothing, and any other line is one row, in its place. */
  lemma {:induction false} RowsAt(lines: seq<string>, i: nat)
    requires i < |lines|
    ensures Skipped(lines[i]) ==> RowsOf(lines) == RowsOf(lines[..i]) + RowsOf(lines[i+1..])
    ensures !Skipped(lines[i]) ==> RowsOf(lines) == RowsOf(lines[..i]) + [Fields(lines[i])] + RowsOf(lines[i+1..])
  {
    assert lines == lines[..i] + ([lines[i]] + lines[i+1..]);
    RowsConcat(lines[..i], [lines[i]] + lines[i+1..]);
    RowsCons(lines[i], lines[i+1..]);
    if !Skipped(lines[i]) { Associates(RowsOf(lines[..i]), [Fields(lines[i])], RowsOf(lines[i+1..])); }
  }

  // ---- rows of the ledger ----

  /** The six columns, and nothing after them matters. */
  lemma SixColumns(sec: string, title: string, page: string, status: string, reason: string, behaviour: string,
                   more: seq<string>)
    ensures RowOf([sec, title, page, status, reason, behaviour] + more) ==
            Row(sec, title, ParseInt(page, -1), status, reason, behaviour)
  {
  }

  /** A missing column is an empty one, and an empty page is -1. */
  lemma MissingColumns(f: seq<string>)
    ensures RowOf(f + [""]) == RowOf(f)
    ensures |f| == 2 ==> RowOf(f).page == -1
  {
    assert ParseInt("", -1) == -1;
  }

  /** How a row is written. */
  lemma RowLineIs(r: Row)
    ensures RowLine(r) == r.sec + ("\t" + (r.title + ("\t" + (PrintInt(r.page)
              + ("\t" + (r.status + ("\t" + (r.reason + ("\t" + r.behaviour)))))))))
  {
    var f := [r.sec, r.title, PrintInt(r.page), r.status, r.reason, r.behaviour];
    TabbedStep(f, 0);
    TabbedStep(f, 1);
    TabbedStep(f, 2);
    TabbedStep(f, 3);
    TabbedStep(f, 4);
    assert f[0..] == f && f[5..] == [r.behaviour];
  }

  lemma TabbedStep(f: seq<string>, i: nat)
    requires i + 1 < |f|
    ensures Tabbed(f[i..]) == f[i] + ("\t" + Tabbed(f[i+1..]))
  {
    assert f[i..][1..] == f[i+1..];
  }

  /** Writing keeps the low eight bits of a character and no more. */
  lemma LowBytesAre(s: string, i: nat)
    requires i < |s|
    ensures LowBytes(s)[i] as int < 256 && (s[i] as int - LowBytes(s)[i] as int) % 256 == 0
  {
  }
}

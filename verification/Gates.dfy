/** The join between ledger and markers, the status rules, and the update path (GatesMain.java). */
module Gates {
  import opened Sequences
  import opened Tsv
  import opened Ledgers
  import opened Markers

  const COVERED := "COVERED"
  const NA := "N/A"
  const UNCOVERED := "UNCOVERED"

  datatype Finding =
    | ClaimedButNA(sec: string, who: string)
    | NotRecorded(sec: string, who: string, status: string)
    | NoTest(sec: string, reason: string)
    | NoSuchSection(sec: string, artifact: string)

  datatype Complaint =
    | CoveredWithoutIds(sec: string)
    | NAWithoutReason(sec: string)
    | NAForNow(sec: string, why: string)
    | BadStatus(sec: string, status: string)

  // ---- the join ----

  function RowFinding(r: Row, m: seq<Marker>): seq<Finding> {
    var claimed := Covers(m, r.sec);
    if claimed && r.status == NA then [ClaimedButNA(r.sec, By(m, r.sec))]
    else if claimed && r.status != COVERED then [NotRecorded(r.sec, By(m, r.sec), r.status)]
    else if !claimed && r.status == COVERED then [NoTest(r.sec, r.reason)]
    else []
  }

  function RowFindings(rows: seq<Row>, m: seq<Marker>): seq<Finding> {
    if rows == [] then [] else RowFindings(rows[..|rows|-1], m) + RowFinding(rows[|rows|-1], m)
  }

  predicate Listed(rows: seq<Row>, sec: string) {
    exists i :: 0 <= i < |rows| && rows[i].sec == sec
  }

  /** The markers naming a section the ledger does not have. */
  function Strays(rows: seq<Row>, m: seq<Marker>): seq<Finding> {
    if m == [] then []
    else
      var last := m[|m|-1];
      Strays(rows, m[..|m|-1]) + if Listed(rows, last.section) then [] else [NoSuchSection(last.section, last.artifact)]
  }

  function Findings(rows: seq<Row>, m: seq<Marker>): seq<Finding> {
    RowFindings(rows, m) + Strays(rows, m)
  }

  /** Ledger.indexOf. */
  method IndexOfSection(rows: seq<Row>, sec: string) returns (k: int)
    ensures -1 <= k < |rows| && (k >= 0 <==> Listed(rows, sec))
    ensures k >= 0 ==> rows[k].sec == sec && forall i :: 0 <= i < k ==> rows[i].sec != sec
  {
    for i := 0 to |rows|
      invariant forall j :: 0 <= j < i ==> rows[j].sec != sec
    {
      if rows[i].sec == sec { return i; }
    }
    return -1;
  }

  method JoinRow(r: Row, m: seq<Marker>) returns (found: seq<Finding>)
    ensures found == RowFinding(r, m)
  {
    var claimed := CoversLoop(m, r.sec);
    if claimed && r.status == NA {
      var who := ByLoop(m, r.sec);
      return [ClaimedButNA(r.sec, who)];
    } else if claimed && r.status != COVERED {
      var who := ByLoop(m, r.sec);
      return [NotRecorded(r.sec, who, r.status)];
    } else if !claimed && r.status == COVERED {
      return [NoTest(r.sec, r.reason)];
    }
    return [];
  }

  /** GatesMain.join: what it prints, and how many. */
  method Join(rows: seq<Row>, m: seq<Marker>) returns (fails: nat, found: seq<Finding>)
    ensures found == Findings(rows, m) && fails == |found|
  {
    found := [];
    for i := 0 to |rows|
      invariant found == RowFindings(rows[..i], m)
    {
      Snoc(rows, i);
      var one := JoinRow(rows[i], m);
      found := found + one;
    }
    WholePrefix(rows);
    ghost var first := found;
    for i := 0 to |m|
      invariant found == first + Strays(rows, m[..i])
    {
      Snoc(m, i);
      var k := IndexOfSection(rows, m[i].section);
      if k < 0 { found := found + [NoSuchSection(m[i].section, m[i].artifact)]; }
    }
    WholePrefix(m);
    fails := |found|;
  }

  // ---- status discipline ----

  function Lower(s: string): (t: string)
    ensures |t| == |s|
  {
    seq(|s|, i requires 0 <= i < |s| => LowerChar(s[i]))
  }

  function LowerChar(c: char): char {
    if 'A' <= c <= 'Z' then (c as int + 32) as char else c
  }

  predicate HoldsAt(s: string, phrase: string, i: nat) {
    i + |phrase| <= |s| && s[i..i+|phrase|] == phrase
  }

  predicate Holds(s: string, phrase: string) {
    exists i :: 0 <= i <= |s| && HoldsAt(s, phrase, i)
  }

  const PHRASES := ["not implemented", "unimplemented", "placeholder", "not written", "no such class",
                    "does not exist in the runtime"]

  predicate ImpliesUnwritten(why: string) {
    exists k :: 0 <= k < |PHRASES| && Holds(Lower(why), PHRASES[k])
  }

  function StatusOf(r: Row): seq<Complaint> {
    if r.status == COVERED then (if r.reason == "" then [CoveredWithoutIds(r.sec)] else [])
    else if r.status == NA then
      if r.reason == "" then [NAWithoutReason(r.sec)]
      else if ImpliesUnwritten(r.reason) then [NAForNow(r.sec, r.reason)]
      else []
    else if r.status != UNCOVERED then [BadStatus(r.sec, r.status)]
    else []
  }

  function Complaints(rows: seq<Row>): seq<Complaint> {
    if rows == [] then [] else Complaints(rows[..|rows|-1]) + StatusOf(rows[|rows|-1])
  }

  method LowerLoop(s: string) returns (t: string)
    ensures t == Lower(s)
  {
    t := "";
    for i := 0 to |s|
      invariant |t| == i && forall k :: 0 <= k < i ==> t[k] == LowerChar(s[k])
    {
      t := t + [LowerChar(s[i])];
    }
  }

  method Contains(s: string, phrase: string) returns (b: bool)
    ensures b == Holds(s, phrase)
  {
    var i := 0;
    while i + |phrase| <= |s|
      invariant 0 <= i && forall k :: 0 <= k < i ==> !HoldsAt(s, phrase, k)
    {
      if HoldsAt(s, phrase, i) { return true; }
      i := i + 1;
    }
    return false;
  }

  method Excuse(why: string) returns (b: bool)
    ensures b == ImpliesUnwritten(why)
  {
    var w := LowerLoop(why);
    for k := 0 to |PHRASES|
      invariant forall j :: 0 <= j < k ==> !Holds(w, PHRASES[j])
    {
      b := Contains(w, PHRASES[k]);
      if b { return; }
    }
    return false;
  }

  /** GatesMain.statusDiscipline. */
  method StatusDiscipline(rows: seq<Row>) returns (fails: nat, found: seq<Complaint>)
    ensures found == Complaints(rows) && fails == |found|
  {
    found := [];
    for i := 0 to |rows|
      invariant found == Complaints(rows[..i])
    {
      Snoc(rows, i);
      var r := rows[i];
      if r.status == COVERED {
        if |r.reason| == 0 { found := found + [CoveredWithoutIds(r.sec)]; }
      } else if r.status == NA {
        if |r.reason| == 0 {
          found := found + [NAWithoutReason(r.sec)];
        } else {
          var excuse := Excuse(r.reason);
          if excuse { found := found + [NAForNow(r.sec, r.reason)]; }
        }
      } else if r.status != UNCOVERED {
        found := found + [BadStatus(r.sec, r.status)];
      }
    }
    WholePrefix(rows);
    fails := |found|;
  }

  // ---- the update path ----

  function UpdatedRow(r: Row, m: seq<Marker>): Row {
    if r.status == NA then r
    else if Covers(m, r.sec) then r.(status := COVERED, reason := By(m, r.sec))
    else r.(status := UNCOVERED, reason := "")
  }

  function Updated(rows: seq<Row>, m: seq<Marker>): (u: seq<Row>)
    ensures |u| == |rows|
  {
    if rows == [] then [] else Updated(rows[..|rows|-1], m) + [UpdatedRow(rows[|rows|-1], m)]
  }

  /** How many rows an update changes. */
  function Changes(rows: seq<Row>, m: seq<Marker>): nat {
    if rows == [] then 0
    else Changes(rows[..|rows|-1], m) + if UpdatedRow(rows[|rows|-1], m) == rows[|rows|-1] then 0 else 1
  }

  lemma PrintSnoc(rows: seq<Row>, r: Row)
    ensures PrintRows(rows + [r]) == PrintRows(rows) + RowLine(r) + "\n"
  {
    if rows == [] {
      assert (rows + [r])[1..] == [] && PrintRows([r]) == RowLine(r) + "\n" + "";
    } else {
      PrintSnoc(rows[1..], r);
      assert (rows + [r])[1..] == rows[1..] + [r];
    }
  }

  method UpdateRow(r: Row, m: seq<Marker>) returns (u: Row, change: nat)
    ensures u == UpdatedRow(r, m) && change == if u == r then 0 else 1
  {
    var status, why := r.status, r.reason;
    change := 0;
    if status != NA {
      var claimed := CoversLoop(m, r.sec);
      var newStatus := if claimed then COVERED else UNCOVERED;
      var newWhy := "";
      if claimed { newWhy := ByLoop(m, r.sec); }
      if newStatus != status || newWhy != why { change := 1; }
      status, why := newStatus, newWhy;
    }
    u := r.(status := status, reason := why);
  }

  /** The text after `i` rows, before it is cut down to bytes. */
  function Printed(text: string, rows: seq<Row>, m: seq<Marker>, i: nat): string
    requires i <= |rows|
  {
    Header(text) + PrintRows(Updated(rows[..i], m))
  }

  lemma PrintStep(text: string, rows: seq<Row>, m: seq<Marker>, i: nat)
    requires i < |rows|
    ensures Printed(text, rows, m, i + 1) == Printed(text, rows, m, i) + (RowLine(UpdatedRow(rows[i], m)) + "\n")
    ensures Changes(rows[..i+1], m) == Changes(rows[..i], m) + if UpdatedRow(rows[i], m) == rows[i] then 0 else 1
  {
    assert rows[..i+1][..i] == rows[..i];
    PrintSnoc(Updated(rows[..i], m), UpdatedRow(rows[i], m));
  }

  /** GatesMain.rewrite: the text it writes, and how many rows it says it changed. */
  method Rewrite(rows: seq<Row>, m: seq<Marker>, text: string) returns (changed: nat, written: string)
    ensures changed == Changes(rows, m) && written == Written(text, Updated(rows, m))
  {
    var b := CopyHeader(text);
    changed := 0;
    for i := 0 to |rows|
      invariant b == Printed(text, rows, m, i) && changed == Changes(rows[..i], m)
    {
      PrintStep(text, rows, m, i);
      var u, change := UpdateRow(rows[i], m);
      changed := changed + change;
      b := b + (RowLine(u) + "\n");
    }
    WholePrefix(rows);
    written := Truncate(b);
  }

  method Truncate(s: string) returns (t: string)
    ensures t == LowBytes(s)
  {
    t := "";
    for i := 0 to |s|
      invariant |t| == i && forall k :: 0 <= k < i ==> t[k] == (s[k] as int % 256) as char
    {
      t := t + [(s[i] as int % 256) as char];
    }
  }

  /** The header copied from position `i` on. */
  function HeaderFrom(text: string, i: nat): string {
    PrintLines(HeaderLines(LinesFrom(text, i)))
  }

  lemma HeaderStep(text: string, i: nat, e: nat, line: string)
    requires i < |text| && e == Next(text, '\n', i) && line == text[i..e]
    ensures HeaderFrom(text, i) == if line != "" && line[0] != '#' then "" else line + "\n" + HeaderFrom(text, e + 1)
  {
    LinesStep(text, i);
    var lines := LinesFrom(text, i);
    assert lines[0] == line && lines[1..] == LinesFrom(text, e + 1);
    if line == "" || line[0] == '#' {
      var rest := HeaderLines(lines[1..]);
      assert ([line] + rest)[1..] == rest;
    }
  }

  /** What has been copied, with what will be. */
  function CopyOn(b: string, text: string, i: nat): string {
    b + HeaderFrom(text, i)
  }

  lemma CopyStep(b: string, text: string, i: nat, e: nat, line: string)
    requires i < |text| && e == Next(text, '\n', i) && line == text[i..e]
    ensures CopyOn(b, text, i) == if line != "" && line[0] != '#' then b else CopyOn(b + (line + "\n"), text, e + 1)
  {
    HeaderStep(text, i, e, line);
    Associates(b, line + "\n", HeaderFrom(text, e + 1));
  }

  lemma CopyStarts(text: string)
    ensures CopyOn("", text, 0) == Header(text)
  {
    LinesFromIs(text, 0);
    assert text[0..] == text;
  }

  method CopyHeader(text: string) returns (b: string)
    ensures b == Header(text)
  {
    b := "";
    var i := 0;
    CopyStarts(text);
    while i < |text|
      invariant 0 <= i <= |text| + 1
      invariant CopyOn(b, text, i) == Header(text)
      decreases |text| + 1 - i
    {
      var e := FindIndex(text, '\n', i);
      if e < 0 { e := |text|; }
      var line := text[i..e];
      CopyStep(b, text, i, e, line);
      if |line| > 0 && line[0] != '#' { return; }
      b := b + (line + "\n");
      i := e + 1;
    }
    assert HeaderFrom(text, i) == "";
  }
}

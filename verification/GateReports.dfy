/** What the join, the status rules and the update say, in terms of the rows, the claims and the words
    of the ledger alone. */
module GateReports {
  import opened Sequences
  import opened Sorting
  import opened Ledgers
  import opened Markers
  import opened Gates

  ghost predicate Claimed(m: seq<Marker>, sec: string) {
    exists j :: 0 <= j < |m| && m[j].section == sec
  }

  ghost predicate InLedger(rows: seq<Row>, sec: string) {
    exists i :: 0 <= i < |rows| && rows[i].sec == sec
  }

  // ---- the join ----

  /** Row `r` is reported as `f`. */
  ghost predicate RowReports(r: Row, m: seq<Marker>, f: Finding) {
    match f
    case ClaimedButNA(sec, who) => sec == r.sec && r.status == "N/A" && Claimed(m, sec) && who == By(m, sec)
    case NotRecorded(sec, who, status) =>
      && sec == r.sec && status == r.status && status != "N/A" && status != "COVERED"
      && Claimed(m, sec) && who == By(m, sec)
    case NoTest(sec, reason) => sec == r.sec && r.status == "COVERED" && reason == r.reason && !Claimed(m, sec)
    case NoSuchSection(_, _) => false
  }

  lemma RowReportIs(r: Row, m: seq<Marker>, f: Finding)
    ensures f in RowFinding(r, m) <==> RowReports(r, m, f)
  {
    assert Covers(m, r.sec) <==> Claimed(m, r.sec);
  }

  ghost predicate SomeRowReports(rows: seq<Row>, m: seq<Marker>, f: Finding) {
    exists i :: 0 <= i < |rows| && RowReports(rows[i], m, f)
  }

  lemma SomeRowSnoc(rows: seq<Row>, m: seq<Marker>, f: Finding)
    requires rows != []
    ensures SomeRowReports(rows, m, f) <==>
              SomeRowReports(rows[..|rows|-1], m, f) || RowReports(rows[|rows|-1], m, f)
  {
    var init := rows[..|rows|-1];
    if SomeRowReports(init, m, f) {
      var i :| 0 <= i < |init| && RowReports(init[i], m, f);
      assert rows[i] == init[i];
    }
    if i :| 0 <= i < |init| && RowReports(rows[i], m, f) { assert rows[i] == init[i]; }
  }

  lemma {:induction false} RowReportsAre(rows: seq<Row>, m: seq<Marker>, f: Finding)
    ensures f in RowFindings(rows, m) <==> SomeRowReports(rows, m, f)
  {
    if rows != [] {
      RowReportsAre(rows[..|rows|-1], m, f);
      RowReportIs(rows[|rows|-1], m, f);
      SomeRowSnoc(rows, m, f);
    }
  }

  /** Each marker of a section the ledger does not have is reported once, and no other. */
  lemma {:induction false} StraysAre(rows: seq<Row>, m: seq<Marker>, sec: string, artifact: string)
    ensures multiset(Strays(rows, m))[NoSuchSection(sec, artifact)] ==
            if InLedger(rows, sec) then 0 else multiset(m)[Marker(sec, artifact)]
    ensures forall f :: f in Strays(rows, m) ==> f.NoSuchSection?
  {
    if m != [] {
      StraysAre(rows, m[..|m|-1], sec, artifact);
      InitLast(m);
      assert Listed(rows, m[|m|-1].section) <==> InLedger(rows, m[|m|-1].section);
    }
  }

  /** The finding says what it should of a row or of a marker. */
  ghost predicate Reports(rows: seq<Row>, m: seq<Marker>, f: Finding) {
    || SomeRowReports(rows, m, f)
    || (f.NoSuchSection? && !InLedger(rows, f.sec) && exists j :: 0 <= j < |m| && m[j] == Marker(f.sec, f.artifact))
  }

  lemma FindingIs(rows: seq<Row>, m: seq<Marker>, f: Finding)
    ensures f in Findings(rows, m) <==> Reports(rows, m, f)
  {
    RowReportsAre(rows, m, f);
    if f.NoSuchSection? {
      StraysAre(rows, m, f.sec, f.artifact);
      assert f in Strays(rows, m) <==> f in multiset(Strays(rows, m));
      assert Marker(f.sec, f.artifact) in m <==> Marker(f.sec, f.artifact) in multiset(m);
    } else {
      StraysAre(rows, m, "", "");
    }
  }

  /** How often a marker is reported: as often as it is there, if the ledger lacks its section. */
  lemma StrayCount(rows: seq<Row>, m: seq<Marker>, sec: string, artifact: string)
    ensures multiset(Findings(rows, m))[NoSuchSection(sec, artifact)] ==
            if InLedger(rows, sec) then 0 else multiset(m)[Marker(sec, artifact)]
  {
    StraysAre(rows, m, sec, artifact);
    RowReportsAre(rows, m, NoSuchSection(sec, artifact));
    assert NoSuchSection(sec, artifact) !in multiset(RowFindings(rows, m));
  }

  /** A row is reported at most once. */
  lemma {:induction false} RowReportCount(rows: seq<Row>, m: seq<Marker>)
    ensures |RowFindings(rows, m)| <= |rows|
  {
    if rows != [] { RowReportCount(rows[..|rows|-1], m); }
  }

  ghost predicate Reconciled(rows: seq<Row>, m: seq<Marker>) {
    && (forall i :: 0 <= i < |rows| ==> (rows[i].status == "COVERED" <==> Claimed(m, rows[i].sec)))
    && (forall j :: 0 <= j < |m| ==> InLedger(rows, m[j].section))
  }

  lemma RowIsSilent(r: Row, m: seq<Marker>)
    ensures RowFinding(r, m) == [] <==> (r.status == "COVERED" <==> Claimed(m, r.sec))
  {
    assert Covers(m, r.sec) <==> Claimed(m, r.sec);
  }

  lemma {:induction false} RowsAreSilent(rows: seq<Row>, m: seq<Marker>)
    ensures RowFindings(rows, m) == [] <==>
              forall i :: 0 <= i < |rows| ==> (rows[i].status == "COVERED" <==> Claimed(m, rows[i].sec))
  {
    if rows != [] {
      var init := rows[..|rows|-1];
      RowsAreSilent(init, m);
      RowIsSilent(rows[|rows|-1], m);
      assert forall i :: 0 <= i < |init| ==> init[i] == rows[i];
    }
  }

  lemma {:induction false} MarkersAreSilent(rows: seq<Row>, m: seq<Marker>)
    ensures Strays(rows, m) == [] <==> forall j :: 0 <= j < |m| ==> InLedger(rows, m[j].section)
  {
    if m != [] {
      var init := m[..|m|-1];
      MarkersAreSilent(rows, init);
      assert Listed(rows, m[|m|-1].section) <==> InLedger(rows, m[|m|-1].section);
      assert forall j :: 0 <= j < |init| ==> init[j] == m[j];
    }
  }

  /** The join is silent exactly when the COVERED rows are the claimed ones and every marker names a row. */
  lemma SilentMeansReconciled(rows: seq<Row>, m: seq<Marker>)
    ensures Findings(rows, m) == [] <==> Reconciled(rows, m)
  {
    RowsAreSilent(rows, m);
    MarkersAreSilent(rows, m);
  }

  // ---- the status rules ----

  /** `s` is `t` but for the case of letters, which `t` may have lower. */
  ghost predicate SameLetters(s: string, t: string) {
    |s| == |t| && forall i :: 0 <= i < |s| ==> s[i] == t[i] || ('A' <= s[i] <= 'Z' && t[i] as int == s[i] as int + 32)
  }

  /** The phrases that describe what has been written rather than what can be observed. */
  predicate Phrase(p: string) {
    || p == "not implemented" || p == "unimplemented" || p == "placeholder" || p == "not written"
    || p == "no such class" || p == "does not exist in the runtime"
  }

  /** One of the phrases occurs in it, in whatever case. */
  ghost predicate Excuses(why: string) {
    exists a: string, p: string, b: string :: Phrase(p) && SameLetters(why, a + p + b)
  }

  lemma PhrasesAre(p: string)
    ensures Phrase(p) <==> exists k :: 0 <= k < |PHRASES| && p == PHRASES[k]
  {
    assert PHRASES[0] == "not implemented" && PHRASES[1] == "unimplemented" && PHRASES[2] == "placeholder";
    assert PHRASES[3] == "not written" && PHRASES[4] == "no such class";
    assert PHRASES[5] == "does not exist in the runtime";
  }

  ghost predicate NoCapitals(p: string) {
    forall i :: 0 <= i < |p| ==> !('A' <= p[i] <= 'Z')
  }

  lemma PhraseIsLower(p: string)
    requires Phrase(p)
    ensures NoCapitals(p)
  {
  }

  lemma LowerIsSame(s: string)
    ensures SameLetters(s, Lower(s))
  {
  }

  lemma HeldInMiddle(s: string, p: string, i: nat)
    requires HoldsAt(s, p, i)
    ensures s == s[..i] + p + s[i+|p|..]
  {
  }

  lemma HeldWhereWritten(why: string, a: string, p: string, b: string)
    requires NoCapitals(p) && SameLetters(why, a + p + b)
    ensures HoldsAt(Lower(why), p, |a|)
  {
    var t := a + p + b;
    forall i | 0 <= i < |p| ensures Lower(why)[|a| + i] == p[i] { assert t[|a| + i] == p[i]; }
  }

  /** Case does not matter: a reason is an excuse exactly when it spells one of the phrases. */
  lemma ExcuseIs(why: string)
    ensures ImpliesUnwritten(why) <==> Excuses(why)
  {
    if ImpliesUnwritten(why) {
      var k :| 0 <= k < |PHRASES| && Holds(Lower(why), PHRASES[k]);
      var p := PHRASES[k];
      var i :| 0 <= i <= |Lower(why)| && HoldsAt(Lower(why), p, i);
      PhrasesAre(p);
      HeldInMiddle(Lower(why), p, i);
      LowerIsSame(why);
      assert SameLetters(why, Lower(why)[..i] + p + Lower(why)[i+|p|..]);
    }
    if Excuses(why) {
      var a: string, p: string, b: string :| Phrase(p) && SameLetters(why, a + p + b);
      PhraseIsLower(p);
      HeldWhereWritten(why, a, p, b);
      PhrasesAre(p);
      assert Holds(Lower(why), p);
    }
  }

  /** Row `r` is complained of as `c`. */
  ghost predicate RowDeserves(r: Row, c: Complaint) {
    match c
    case CoveredWithoutIds(sec) => sec == r.sec && r.status == "COVERED" && r.reason == ""
    case NAWithoutReason(sec) => sec == r.sec && r.status == "N/A" && r.reason == ""
    case NAForNow(sec, why) => sec == r.sec && r.status == "N/A" && why == r.reason && why != "" && Excuses(why)
    case BadStatus(sec, status) =>
      sec == r.sec && status == r.status && status != "COVERED" && status != "N/A" && status != "UNCOVERED"
  }

  /** Which rows get which complaint. */
  lemma {:induction false} ComplaintIs(rows: seq<Row>, c: Complaint)
    ensures c in Complaints(rows) <==> exists i :: 0 <= i < |rows| && RowDeserves(rows[i], c)
  {
    if rows != [] {
      var init := rows[..|rows|-1];
      ComplaintIs(init, c);
      RowComplaintIs(rows[|rows|-1], c);
      assert forall i :: 0 <= i < |init| ==> init[i] == rows[i];
    }
  }

  lemma RowComplaintIs(r: Row, c: Complaint)
    ensures c in StatusOf(r) <==> RowDeserves(r, c)
  {
    ExcuseIs(r.reason);
  }

  // ---- the update ----

  /** An N/A row stays; a claimed one is COVERED by its claimants; any other is UNCOVERED for no reason. */
  lemma UpdatedRowIs(r: Row, m: seq<Marker>)
    ensures var u := UpdatedRow(r, m);
            && (r.status == "N/A" ==> u == r)
            && (r.status != "N/A" && Claimed(m, r.sec) ==> u.status == "COVERED" && u.reason == By(m, r.sec))
            && (r.status != "N/A" && !Claimed(m, r.sec) ==> u.status == "UNCOVERED" && u.reason == "")
            && u.sec == r.sec && u.title == r.title && u.page == r.page && u.behaviour == r.behaviour
  {
    assert Covers(m, r.sec) <==> Claimed(m, r.sec);
  }

  /** The update goes row by row, in place. */
  lemma {:induction false} UpdatedAt(rows: seq<Row>, m: seq<Marker>, i: nat)
    requires i < |rows|
    ensures Updated(rows, m)[i] == UpdatedRow(rows[i], m)
  {
    if i < |rows| - 1 { UpdatedAt(rows[..|rows|-1], m, i); }
  }

  /** The rows an update gives another status or another reason. */
  ghost function Moved(rows: seq<Row>, m: seq<Marker>): set<nat> {
    set i: nat | i < |rows| && Updated(rows, m)[i] != rows[i]
  }

  /** What the update says it changed: how many rows it moved. */
  lemma {:induction false} ChangesAreMoved(rows: seq<Row>, m: seq<Marker>)
    ensures Changes(rows, m) == |Moved(rows, m)|
  {
    if rows != [] {
      var n := |rows| - 1;
      ChangesAreMoved(rows[..n], m);
      UpdatedAt(rows, m, n);
      forall i: nat | i < n ensures Updated(rows, m)[i] == Updated(rows[..n], m)[i] {
        UpdatedAt(rows, m, i);
        UpdatedAt(rows[..n], m, i);
      }
      assert Moved(rows[..n], m) == Moved(rows, m) - {n};
    }
  }

  // ---- who is named for a section ----

  /** Names in a row: one alone stands as it is, and a comma parts any two. */
  lemma {:induction false} CommasBetween(a: seq<string>, b: seq<string>)
    requires a != [] && b != []
    ensures JoinCommas(a + b) == JoinCommas(a) + "," + JoinCommas(b)
  {
    var init, last := b[..|b|-1], b[|b|-1];
    LastOfConcat(a, b);
    if init == [] {
      assert a + b == a + [last] && a + init == a;
    } else {
      CommasBetween(a, init);
      Associates(JoinCommas(a) + ",", JoinCommas(init), "," + last);
      Associates(JoinCommas(a) + "," + JoinCommas(init), ",", last);
      Associates(JoinCommas(init), ",", last);
    }
  }

  lemma OneName(name: string)
    ensures JoinCommas([]) == "" && JoinCommas([name]) == name
  {
  }

  /** The recorded text names each claimant as often as it claims the section, and nobody else, in the
      order of their names. */
  lemma ByNames(m: seq<Marker>, sec: string) returns (names: seq<string>)
    ensures By(m, sec) == JoinCommas(names) && SortedBy(Textual, names)
    ensures forall a :: multiset(names)[a] == multiset(m)[Marker(sec, a)]
  {
    names := Sort(Textual, Claimants(m, sec));
    var xs := set x | x in Claimants(m, sec);
    TextOrders(xs);
    SortSorts(Textual, Claimants(m, sec), xs);
    SortKeeps(Textual, Claimants(m, sec));
    forall a ensures multiset(names)[a] == multiset(m)[Marker(sec, a)] { ClaimantsCount(m, sec, a); }
  }
}

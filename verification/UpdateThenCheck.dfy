/** What the checks say about a ledger the update path has just written. */
module UpdateThenCheck {
  import opened Sequences
  import opened Sorting
  import opened Tsv
  import opened Ledgers
  import opened Markers
  import opened Gates
  import opened Rereading

  /** The ledger file after an update, as the next run loads it. */
  function After(text: string, m: seq<Marker>): seq<Row> {
    LoadText(Written(text, Updated(LoadText(text), m)))
  }

  // ---- the rows of an update ----

  lemma {:induction false} UpdatedAt(rows: seq<Row>, m: seq<Marker>, i: nat)
    requires i < |rows|
    ensures Updated(rows, m)[i] == UpdatedRow(rows[i], m)
  {
    if i < |rows| - 1 { UpdatedAt(rows[..|rows|-1], m, i); }
  }

  /** The count of changed rows is zero exactly when there is nothing to change. */
  lemma {:induction false} NoChanges(rows: seq<Row>, m: seq<Marker>)
    ensures Changes(rows, m) == 0 <==> Updated(rows, m) == rows
    ensures Changes(rows, m) == 0 <==> forall i :: 0 <= i < |rows| ==> UpdatedRow(rows[i], m) == rows[i]
  {
    if rows != [] {
      NoChanges(rows[..|rows|-1], m);
      assert rows == rows[..|rows|-1] + [rows[|rows|-1]];
    }
  }

  lemma {:induction false} UpdateTwice(rows: seq<Row>, m: seq<Marker>)
    ensures Updated(Updated(rows, m), m) == Updated(rows, m)
  {
    if rows != [] {
      var init := Updated(rows[..|rows|-1], m);
      assert Updated(rows, m)[..|rows|-1] == init;
      UpdateTwice(rows[..|rows|-1], m);
    }
  }

  /** The transcription is not the update's to change. */
  lemma UpdateKeepsTranscription(rows: seq<Row>, m: seq<Marker>, i: nat)
    requires i < |rows|
    ensures var u := Updated(rows, m)[i];
            u.sec == rows[i].sec && u.title == rows[i].title && u.page == rows[i].page &&
            u.behaviour == rows[i].behaviour
    ensures rows[i].status == NA ==> Updated(rows, m)[i] == rows[i]
    ensures Updated(rows, m)[i].status == NA <==> rows[i].status == NA
  {
    UpdatedAt(rows, m, i);
  }

  /** The two paths agree row by row: the check is silent about a row with a legal status exactly
      when the update would leave its status, and no claimed row is N/A. */
  lemma CheckAgreesWithUpdate(r: Row, m: seq<Marker>)
    ensures RowFinding(r, m) == [] && r.status in {COVERED, NA, UNCOVERED}
       <==> UpdatedRow(r, m).status == r.status && !(r.status == NA && Covers(m, r.sec))
  {
  }

  // ---- the round trip ----

  /** What the update records in the reason column reads back as it is written. */
  ghost predicate SafeClaims(rows: seq<Row>, m: seq<Marker>) {
    forall i :: 0 <= i < |rows| && rows[i].status != NA && Covers(m, rows[i].sec) ==> SafeField(By(m, rows[i].sec))
  }

  lemma UpdateIsSafe(text: string, m: seq<Marker>, i: nat)
    requires Bytes(text) && i < |LoadText(text)|
    ensures var r := LoadText(text)[i];
            SafeRow(UpdatedRow(r, m)) <==> (r.status != NA && Covers(m, r.sec) ==> SafeField(By(m, r.sec)))
    ensures var r := LoadText(text)[i];
            SafeHead(UpdatedRow(r, m)) && Unbroken(r.reason) && Unbroken(r.behaviour)
  {
    LoadedRowsAreSafe(text);
    SafeRowUpdates(LoadText(text)[i], m);
  }

  lemma StatusesAreSafe()
    ensures SafeField(COVERED) && SafeField(UNCOVERED) && SafeField("")
  {
  }

  lemma SafeRowUpdates(r: Row, m: seq<Marker>)
    requires SafeRow(r)
    ensures SafeRow(UpdatedRow(r, m)) <==> (r.status != NA && Covers(m, r.sec) ==> SafeField(By(m, r.sec)))
    ensures SafeHead(UpdatedRow(r, m)) && Unbroken(r.reason) && Unbroken(r.behaviour)
  {
    SafeIsUnbroken(r.reason);
    SafeIsUnbroken(r.behaviour);
    StatusesAreSafe();
    var u := UpdatedRow(r, m);
    assert u.sec == r.sec && u.title == r.title && u.page == r.page && u.behaviour == r.behaviour;
  }

  lemma SafeIsUnbroken(s: string)
    requires SafeField(s)
    ensures Unbroken(s)
  {
  }

  /** For every ledger file and every marker set, the file written reads back as exactly the updated
      rows if and only if the claims are safe to write. */
  lemma UpdateReadsBack(text: string, m: seq<Marker>)
    requires Bytes(text)
    ensures After(text, m) == Updated(LoadText(text), m) <==> SafeClaims(LoadText(text), m)
  {
    var rows := LoadText(text);
    WrittenReadsBack(text, Updated(rows, m));
    forall i | 0 <= i < |rows|
      ensures SafeRow(Updated(rows, m)[i]) <==>
                (rows[i].status != NA && Covers(m, rows[i].sec) ==> SafeField(By(m, rows[i].sec)))
    {
      UpdatedAt(rows, m, i);
      UpdateIsSafe(text, m, i);
    }
  }

  ghost predicate FieldChars(s: string) {
    forall i :: 0 <= i < |s| ==> FieldChar(s[i])
  }

  lemma {:induction false} JoinedIsSafe(a: seq<string>)
    ensures FieldChars(JoinCommas(a)) <==> forall k :: 0 <= k < |a| ==> FieldChars(a[k])
    ensures SafeField(JoinCommas(a)) <==>
              (forall k :: 0 <= k < |a| ==> FieldChars(a[k])) && (a != [] ==> TrimCR(a[|a|-1]) == a[|a|-1])
  {
    if |a| > 1 {
      var init, last := a[..|a|-1], a[|a|-1];
      JoinedIsSafe(init);
      CommaBetween(JoinCommas(init), last);
      assert (forall k :: 0 <= k < |a| ==> FieldChars(a[k])) <==>
               (forall k :: 0 <= k < |init| ==> FieldChars(init[k])) && FieldChars(last) by {
        assert forall k :: 0 <= k < |init| ==> init[k] == a[k];
      }
    }
  }

  lemma CharsBetween(s: string, t: string)
    ensures FieldChars(s + "," + t) <==> FieldChars(s) && FieldChars(t)
  {
    var u := s + "," + t;
    assert forall i :: 0 <= i < |s| ==> u[i] == s[i];
    assert forall i :: 0 <= i < |t| ==> t[i] == u[|s| + 1 + i];
  }

  lemma CommaBetween(s: string, t: string)
    ensures FieldChars(s + "," + t) <==> FieldChars(s) && FieldChars(t)
    ensures SafeField(s + "," + t) <==> FieldChars(s) && FieldChars(t) && TrimCR(t) == t
  {
    var u := s + "," + t;
    CharsBetween(s, t);
    assert u[|u|-1] == if t == [] then ',' else t[|t|-1];
  }

  /** A claim is safe to write exactly when its artifacts are spelt with field characters and the
      greatest of them does not end in a carriage return. */
  lemma SafeClaimIs(m: seq<Marker>, sec: string)
    ensures var sorted := Sort(Textual, Claimants(m, sec));
            SafeField(By(m, sec)) <==>
              (forall a :: a in Claimants(m, sec) ==> FieldChars(a)) &&
              (sorted != [] ==> TrimCR(sorted[|sorted|-1]) == sorted[|sorted|-1])
  {
    var sorted := Sort(Textual, Claimants(m, sec));
    JoinedIsSafe(sorted);
    SortKeeps(Textual, Claimants(m, sec));
    SameElements(sorted, Claimants(m, sec));
  }

  // ---- the join after an update ----

  /** The contradictions an update leaves standing: claimed rows a human marked N/A. */
  function ClaimedNAs(rows: seq<Row>, m: seq<Marker>): seq<Finding> {
    if rows == [] then []
    else
      var r := rows[|rows|-1];
      ClaimedNAs(rows[..|rows|-1], m) +
      if r.status == NA && Covers(m, r.sec) then [ClaimedButNA(r.sec, By(m, r.sec))] else []
  }

  /** No recorded claim holds a character that writes a newline. */
  ghost predicate UnbrokenClaims(rows: seq<Row>, m: seq<Marker>) {
    forall i :: 0 <= i < |rows| && rows[i].status != NA && Covers(m, rows[i].sec) ==> Unbroken(By(m, rows[i].sec))
  }

  // What the reload finds, row by row: the row itself, and whatever newlines in its claim make of it.

  function JoinAfterRow(r: Row, m: seq<Marker>): seq<Finding> {
    (if r.status == NA && Covers(m, r.sec) then [ClaimedButNA(r.sec, By(m, r.sec))] else [])
    + RowFindings(Created(UpdatedRow(r, m)), m)
  }

  function JoinAfter(rows: seq<Row>, m: seq<Marker>): seq<Finding> {
    if rows == [] then [] else JoinAfter(rows[..|rows|-1], m) + JoinAfterRow(rows[|rows|-1], m)
  }

  function AllCreated(rows: seq<Row>, m: seq<Marker>): seq<Row> {
    if rows == [] then [] else AllCreated(rows[..|rows|-1], m) + Created(UpdatedRow(rows[|rows|-1], m))
  }

  ghost predicate AllSafe(rows: seq<Row>) {
    forall i :: 0 <= i < |rows| ==> SafeRow(rows[i])
  }

  lemma {:induction false} RowFindingsConcat(a: seq<Row>, b: seq<Row>, m: seq<Marker>)
    ensures RowFindings(a + b, m) == RowFindings(a, m) + RowFindings(b, m)
  {
    if b == [] {
      assert a + b == a;
    } else {
      RowFindingsConcat(a, b[..|b|-1], m);
      LastOfConcat(a, b);
      Associates(RowFindings(a, m), RowFindings(b[..|b|-1], m), RowFinding(b[|b|-1], m));
    }
  }

  lemma OneFinding(r: Row, m: seq<Marker>)
    ensures RowFindings([r], m) == RowFinding(r, m)
  {
    assert [r][..0] == [] && RowFindings([], m) == [];
  }

  lemma RowJoins(r: Row, m: seq<Marker>)
    requires SafeRow(r)
    ensures RowFindings(Reread(UpdatedRow(r, m)), m) == JoinAfterRow(r, m)
  {
    var u := UpdatedRow(r, m);
    SafeRowUpdates(r, m);
    RowRereads(u);
    var a := Reread(u)[0];
    SplitReread(u);
    RowFindingsConcat([a], Created(u), m);
    OneFinding(a, m);
  }

  lemma {:induction false} RowsJoin(rows: seq<Row>, m: seq<Marker>)
    requires AllSafe(rows)
    ensures RowFindings(RereadAll(Updated(rows, m)), m) == JoinAfter(rows, m)
  {
    if rows != [] {
      var init, r := rows[..|rows|-1], rows[|rows|-1];
      RowsJoin(init, m);
      RereadAppend(Updated(init, m), UpdatedRow(r, m));
      RowFindingsConcat(RereadAll(Updated(init, m)), Reread(UpdatedRow(r, m)), m);
      RowJoins(r, m);
    }
  }

  lemma ListedConcat(a: seq<Row>, b: seq<Row>, sec: string)
    ensures Listed(a + b, sec) <==> Listed(a, sec) || Listed(b, sec)
  {
    if Listed(a, sec) {
      var i :| 0 <= i < |a| && a[i].sec == sec;
      assert (a + b)[i].sec == sec;
    }
    if Listed(b, sec) {
      var i :| 0 <= i < |b| && b[i].sec == sec;
      assert (a + b)[|a| + i].sec == sec;
    }
  }

  lemma ListedOne(r: Row, sec: string)
    ensures Listed([r], sec) <==> r.sec == sec
  {
    assert [r][0] == r;
  }

  lemma RowListed(r: Row, m: seq<Marker>, sec: string)
    requires SafeRow(r)
    ensures Listed(Reread(UpdatedRow(r, m)), sec) <==> r.sec == sec || Listed(Created(UpdatedRow(r, m)), sec)
  {
    var u := UpdatedRow(r, m);
    SafeRowUpdates(r, m);
    RowRereads(u);
    SplitReread(u);
    ListedConcat([Reread(u)[0]], Created(u), sec);
    ListedOne(Reread(u)[0], sec);
  }

  lemma {:induction false} RowsListed(rows: seq<Row>, m: seq<Marker>, sec: string)
    requires AllSafe(rows)
    ensures Listed(RereadAll(Updated(rows, m)), sec) <==> Listed(rows, sec) || Listed(AllCreated(rows, m), sec)
  {
    if rows != [] {
      var init, r := rows[..|rows|-1], rows[|rows|-1];
      var u := UpdatedRow(r, m);
      RowsListed(init, m, sec);
      RereadAppend(Updated(init, m), u);
      ListedConcat(RereadAll(Updated(init, m)), Reread(u), sec);
      RowListed(r, m, sec);
      InitLast(rows);
      ListedConcat(init, [r], sec);
      ListedOne(r, sec);
      ListedConcat(AllCreated(init, m), Created(u), sec);
    }
  }

  lemma {:induction false} StraysDependOnSections(rows: seq<Row>, u: seq<Row>, m: seq<Marker>)
    requires forall sec :: Listed(u, sec) <==> Listed(rows, sec)
    ensures Strays(u, m) == Strays(rows, m)
  {
    if m != [] { StraysDependOnSections(rows, u, m[..|m|-1]); }
  }

  /** After an update and a reload the join reports exactly the claimed N/A rows, the markers naming
      sections still unknown, and the findings about the rows that newlines in a claim have created. */
  lemma UpdateThenJoin(text: string, m: seq<Marker>)
    requires Bytes(text)
    ensures var rows := LoadText(text);
            Findings(After(text, m), m) == JoinAfter(rows, m) + Strays(rows + AllCreated(rows, m), m)
  {
    var rows := LoadText(text);
    LoadedRowsAreSafe(text);
    WrittenRereads(text, Updated(rows, m));
    RowsJoin(rows, m);
    forall sec ensures Listed(RereadAll(Updated(rows, m)), sec) <==> Listed(rows + AllCreated(rows, m), sec) {
      RowsListed(rows, m, sec);
      ListedConcat(rows, AllCreated(rows, m), sec);
    }
    StraysDependOnSections(rows + AllCreated(rows, m), After(text, m), m);
  }

  lemma UnbrokenCreatesNothing(r: Row, m: seq<Marker>)
    requires SafeRow(r) && (r.status != NA && Covers(m, r.sec) ==> Unbroken(By(m, r.sec)))
    ensures Created(UpdatedRow(r, m)) == []
  {
    SafeRowUpdates(r, m);
    RowRereads(UpdatedRow(r, m));
  }

  lemma {:induction false} UnbrokenJoin(rows: seq<Row>, m: seq<Marker>)
    requires AllSafe(rows) && UnbrokenClaims(rows, m)
    ensures JoinAfter(rows, m) == ClaimedNAs(rows, m) && AllCreated(rows, m) == []
  {
    if rows != [] {
      UnbrokenJoin(rows[..|rows|-1], m);
      UnbrokenCreatesNothing(rows[|rows|-1], m);
    }
  }

  /** Where no claim writes a newline, these are the claimed N/A rows and the unknown sections alone: the
      update writes what the join would have asked for. */
  lemma UnbrokenUpdateThenJoin(text: string, m: seq<Marker>)
    requires Bytes(text) && UnbrokenClaims(LoadText(text), m)
    ensures Findings(After(text, m), m) == ClaimedNAs(LoadText(text), m) + Strays(LoadText(text), m)
  {
    UpdateThenJoin(text, m);
    LoadedRowsAreSafe(text);
    UnbrokenJoin(LoadText(text), m);
    assert LoadText(text) + [] == LoadText(text);
  }

  // ---- the header after an update ----

  /** The leading comments survive every update. */
  lemma UpdateKeepsHeader(text: string, m: seq<Marker>)
    requires Bytes(text)
    ensures Header(Written(text, Updated(LoadText(text), m))) == Header(text)
  {
    if LoadText(text) != [] {
      UpdatedAt(LoadText(text), m, 0);
      UpdateIsSafe(text, m, 0);
    }
    HeaderIsKept(text, Updated(LoadText(text), m));
  }

  // ---- the second update ----

  /** A second update changes no row if and only if the claims are safe, and then it writes the
      same text again. */
  lemma SecondUpdate(text: string, m: seq<Marker>)
    requires Bytes(text)
    ensures Changes(After(text, m), m) == 0 <==> SafeClaims(LoadText(text), m)
    ensures SafeClaims(LoadText(text), m) ==>
              var w := Written(text, Updated(LoadText(text), m)); Written(w, Updated(LoadText(w), m)) == w
  {
    var rows := LoadText(text);
    var u := Updated(rows, m);
    NoChanges(After(text, m), m);
    if SafeClaims(rows, m) {
      UpdateReadsBack(text, m);
      UpdateTwice(rows, m);
      WrittenReadsBack(text, u);
      UpdateKeepsHeader(text, m);
    } else {
      var i :| 0 <= i < |rows| && rows[i].status != NA && Covers(m, rows[i].sec) && !SafeField(By(m, rows[i].sec));
      UnsafeClaimChanges(text, m, i);
    }
  }

  /** A claim that cannot be written is found changed again by the next update. */
  lemma UnsafeClaimChanges(text: string, m: seq<Marker>, i: nat)
    requires Bytes(text) && i < |LoadText(text)|
    requires var r := LoadText(text)[i]; r.status != NA && Covers(m, r.sec) && !SafeField(By(m, r.sec))
    ensures Changes(After(text, m), m) != 0
  {
    var rows := LoadText(text);
    var u := Updated(rows, m);
    UpdatedAt(rows, m, i);
    UpdateIsSafe(text, m, i);
    WrittenRereads(text, u);
    EveryRowRereads(u, i);
    var after := After(text, m);
    assert HoldsRow(after, rows[i].sec, COVERED);
    var k :| 0 <= k < |after| && after[k].sec == rows[i].sec && after[k].status == COVERED;
    LoadedRowsAreSafe(Written(text, u));
    assert SafeField(after[k].reason);
    assert UpdatedRow(after[k], m) != after[k];
    NoChanges(after, m);
  }

  // ---- the status rules after an update ----

  /** What is left to complain about: an N/A row as ever, a claimed row whose reason is lost, and whatever
      newlines in the claim have created. */
  function LeftOverRow(r: Row, m: seq<Marker>): seq<Complaint> {
    (if r.status == NA then StatusOf(r)
     else if Covers(m, r.sec) && ReadReason(By(m, r.sec)) == "" then [CoveredWithoutIds(r.sec)]
     else [])
    + Complaints(Created(UpdatedRow(r, m)))
  }

  function LeftOver(rows: seq<Row>, m: seq<Marker>): seq<Complaint> {
    if rows == [] then [] else LeftOver(rows[..|rows|-1], m) + LeftOverRow(rows[|rows|-1], m)
  }

  lemma {:induction false} ComplaintsConcat(a: seq<Row>, b: seq<Row>)
    ensures Complaints(a + b) == Complaints(a) + Complaints(b)
  {
    if b == [] {
      assert a + b == a;
    } else {
      ComplaintsConcat(a, b[..|b|-1]);
      LastOfConcat(a, b);
      Associates(Complaints(a), Complaints(b[..|b|-1]), StatusOf(b[|b|-1]));
    }
  }

  lemma OneComplaint(r: Row)
    ensures Complaints([r]) == StatusOf(r)
  {
    assert [r][..0] == [] && Complaints([]) == [];
  }

  lemma RowComplaints(r: Row, m: seq<Marker>)
    requires SafeRow(r)
    ensures Complaints(Reread(UpdatedRow(r, m))) == LeftOverRow(r, m)
  {
    var u := UpdatedRow(r, m);
    SafeRowUpdates(r, m);
    RowRereads(u);
    SafeReasonStays(r.reason);
    var a := Reread(u)[0];
    SplitReread(u);
    ComplaintsConcat([a], Created(u));
    OneComplaint(a);
  }

  lemma {:induction false} RowsComplaints(rows: seq<Row>, m: seq<Marker>)
    requires AllSafe(rows)
    ensures Complaints(RereadAll(Updated(rows, m))) == LeftOver(rows, m)
  {
    if rows != [] {
      var init, r := rows[..|rows|-1], rows[|rows|-1];
      RowsComplaints(init, m);
      RereadAppend(Updated(init, m), UpdatedRow(r, m));
      ComplaintsConcat(RereadAll(Updated(init, m)), Reread(UpdatedRow(r, m)));
      RowComplaints(r, m);
    }
  }

  predicate AboutNA(c: Complaint) {
    c.NAWithoutReason? || c.NAForNow?
  }

  /** A claimed row, not N/A, keeps something of its reason. */
  ghost predicate KeepsReason(r: Row, m: seq<Marker>) {
    r.status != NA && Covers(m, r.sec) ==> ReadReason(By(m, r.sec)) != ""
  }

  ghost predicate AllAboutNA(cs: seq<Complaint>) {
    forall c :: c in cs ==> AboutNA(c)
  }

  lemma AboutConcat(a: seq<Complaint>, b: seq<Complaint>)
    ensures AllAboutNA(a + b) <==> AllAboutNA(a) && AllAboutNA(b)
  {
    assert forall c :: c in a + b <==> c in a || c in b;
  }

  lemma RowIsAboutNA(r: Row, m: seq<Marker>)
    requires Created(UpdatedRow(r, m)) == []
    ensures AllAboutNA(LeftOverRow(r, m)) <==> KeepsReason(r, m)
  {
    assert Complaints([]) == [];
    if !KeepsReason(r, m) {
      assert CoveredWithoutIds(r.sec) in LeftOverRow(r, m) && !AboutNA(CoveredWithoutIds(r.sec));
    }
  }

  ghost predicate AllKeepReasons(rows: seq<Row>, m: seq<Marker>) {
    forall i :: 0 <= i < |rows| ==> KeepsReason(rows[i], m)
  }

  lemma KeepReasonsSnoc(rows: seq<Row>, m: seq<Marker>)
    requires rows != []
    ensures AllKeepReasons(rows, m) <==> AllKeepReasons(rows[..|rows|-1], m) && KeepsReason(rows[|rows|-1], m)
  {
    var init := rows[..|rows|-1];
    assert forall i :: 0 <= i < |init| ==> init[i] == rows[i];
  }

  lemma {:induction false} OnlyAboutNA(rows: seq<Row>, m: seq<Marker>)
    requires AllSafe(rows) && UnbrokenClaims(rows, m)
    ensures AllAboutNA(LeftOver(rows, m)) <==> AllKeepReasons(rows, m)
  {
    if rows != [] {
      var init, r := rows[..|rows|-1], rows[|rows|-1];
      OnlyAboutNA(init, m);
      UnbrokenCreatesNothing(r, m);
      RowIsAboutNA(r, m);
      AboutConcat(LeftOver(init, m), LeftOverRow(r, m));
      KeepReasonsSnoc(rows, m);
    }
  }

  /** After an update and a reload the status rules complain of the N/A rows they complained of, of the
      claimed rows whose reason does not survive, and of the rows created by newlines. */
  lemma UpdateThenStatus(text: string, m: seq<Marker>)
    requires Bytes(text)
    ensures Complaints(After(text, m)) == LeftOver(LoadText(text), m)
  {
    LoadedRowsAreSafe(text);
    WrittenRereads(text, Updated(LoadText(text), m));
    RowsComplaints(LoadText(text), m);
  }

  /** Where no claim writes a newline they fail only on N/A rows, if and only if every other claimed row
      keeps something of its reason. */
  lemma StatusFailsOnlyOnNA(text: string, m: seq<Marker>)
    requires Bytes(text) && UnbrokenClaims(LoadText(text), m)
    ensures AllAboutNA(Complaints(After(text, m))) <==> AllKeepReasons(LoadText(text), m)
  {
    UpdateThenStatus(text, m);
    LoadedRowsAreSafe(text);
    OnlyAboutNA(LoadText(text), m);
  }

  /** A safe claim is kept whole, so it is lost only if a single artifact without a name makes it. */
  lemma SafeClaimKeepsReason(r: Row, m: seq<Marker>)
    requires r.status != NA && Covers(m, r.sec) && SafeField(By(m, r.sec))
    ensures KeepsReason(r, m) <==> Claimants(m, r.sec) != [""]
  {
    SafeReasonStays(By(m, r.sec));
    CoveredMeansClaimed(m, r.sec);
    ByIsEmpty(m, r.sec);
  }

  /** An artifact without a name, or named by a carriage return, keeps nothing of it: the claim leaves a
      COVERED row with no ids. */
  lemma LostNames(sec: string, name: string)
    requires name == "" || name == "\r"
    ensures ReadReason(By([Marker(sec, name)], sec)) == ""
  {
    var m := [Marker(sec, name)];
    assert m[..0] == [];
    assert Claimants(m, sec) == [name];
    OneClaimant(name);
    ReasonIsLost(name);
    assert LowBytes(name) == name;
  }

  lemma OneClaimant(name: string)
    ensures JoinCommas(Sort(Textual, [name])) == name
  {
    assert [name][..0] == [] && Sort(Textual, []) == [];
    assert Insert(Textual, [], name) == [name];
  }
}

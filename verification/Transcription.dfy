/** The transcription checks: local rules on each row, and the shape of the whole they amount to
    (GatesMain.transcription, Ledger.java). */
module Transcription {
  import opened Sequences
  import opened JavaInts
  import opened Decimals
  import opened Tsv
  import opened SectionNumbers
  import opened Ledgers
  import opened Gates

  /** Where each chapter starts; the last entry is where the body ends. */
  const CHAPTER_START := [0, 1, 7, 11, 29, 51, 77, 113, 127, 183, 193, 201, 215, 237,
                          263, 301, 383, 399, 419, 433, 455, 615, 665, 767]

  // ---- the checks ----

  datatype Fault =
    | EmptyTitle(sec: string)
    | PageBack(sec: string, page: int, after: int)
    | Hole(sec: string, expected: string)
    | BadChapter(sec: string, chapter: int)
    | PageOutside(sec: string, page: int, chapter: int)
    | NoRows(chapter: int)

  /** The largest page so far, or 0. */
  function TopPage(rows: seq<Row>): (p: int)
    ensures p >= 0
    ensures forall i :: 0 <= i < |rows| ==> rows[i].page <= p
  {
    if rows == [] then 0 else Max(TopPage(rows[..|rows|-1]), rows[|rows|-1].page)
  }

  predicate InChapter(page: int, ch: int)
    requires 1 <= ch <= 22
  {
    CHAPTER_START[ch] <= page <= CHAPTER_START[ch+1] - 1
  }

  function TitleFaults(r: Row): seq<Fault> {
    if r.title == "" then [EmptyTitle(r.sec)] else []
  }

  function PageFaults(r: Row, top: int): seq<Fault> {
    if r.page < top then [PageBack(r.sec, r.page, top)] else []
  }

  function SiblingFaults(rows: seq<Row>, sec: string): seq<Fault> {
    if ParentOf(sec) != "" && LeafOf(sec) > 1 && !Listed(rows, Sibling(ParentOf(sec), LeafOf(sec) - 1))
    then [Hole(sec, Sibling(ParentOf(sec), LeafOf(sec) - 1))] else []
  }

  function ChapterFaults(r: Row): seq<Fault> {
    var ch := ChapterOf(r.sec);
    if ch < 1 || ch > 22 then [BadChapter(r.sec, ch)]
    else if !InChapter(r.page, ch) then [PageOutside(r.sec, r.page, ch)]
    else []
  }

  function FaultsAt(rows: seq<Row>, i: nat): seq<Fault>
    requires i < |rows|
  {
    var r := rows[i];
    TitleFaults(r) + PageFaults(r, TopPage(rows[..i])) + SiblingFaults(rows, r.sec) + ChapterFaults(r)
  }

  function RowLists(rows: seq<Row>): (lists: seq<seq<Fault>>)
    ensures |lists| == |rows|
  {
    seq(|rows|, i requires 0 <= i < |rows| => FaultsAt(rows, i))
  }

  predicate Seen(rows: seq<Row>, ch: int) {
    exists i :: 0 <= i < |rows| && ChapterOf(rows[i].sec) == ch
  }

  function MissingChapters(rows: seq<Row>, c: nat): seq<Fault> {
    if c == 0 then [] else MissingChapters(rows, c - 1) + if Seen(rows, c) then [] else [NoRows(c)]
  }

  function Faults(rows: seq<Row>): seq<Fault> {
    Flat(RowLists(rows)) + MissingChapters(rows, 22)
  }

  // ---- the loop ----

  method CheckSiblings(rows: seq<Row>, sec: string) returns (found: seq<Fault>)
    ensures found == SiblingFaults(rows, sec)
  {
    var parent, leaf := ParentOf(sec), LeafOf(sec);
    if |parent| > 0 && leaf > 1 {
      var prev := Sibling(parent, leaf - 1);
      var k := IndexOfSection(rows, prev);
      if k < 0 { return [Hole(sec, prev)]; }
    }
    return [];
  }

  /** The chapters met so far are marked. */
  ghost predicate Marked(seen: seq<bool>, rows: seq<Row>) {
    |seen| == 24 && forall c :: 1 <= c <= 22 ==> (seen[c] <==> Seen(rows, c))
  }

  method CheckChapter(r: Row, seen: array<bool>, ghost before: seq<Row>) returns (found: seq<Fault>)
    requires Marked(seen[..], before)
    modifies seen
    ensures Marked(seen[..], before + [r]) && found == ChapterFaults(r)
  {
    var ch := ChapterOf(r.sec);
    SeenStep(before, r);
    if ch < 1 || ch > 22 {
      found := [BadChapter(r.sec, ch)];
    } else {
      seen[ch] := true;
      found := if InChapter(r.page, ch) then [] else [PageOutside(r.sec, r.page, ch)];
    }
  }

  lemma SeenStep(rows: seq<Row>, r: Row)
    ensures forall c :: Seen(rows + [r], c) <==> Seen(rows, c) || ChapterOf(r.sec) == c
  {
    var all := rows + [r];
    forall c ensures Seen(all, c) <==> Seen(rows, c) || ChapterOf(r.sec) == c {
      if Seen(rows, c) {
        var i :| 0 <= i < |rows| && ChapterOf(rows[i].sec) == c;
        assert ChapterOf(all[i].sec) == c;
      }
      if ChapterOf(r.sec) == c { assert ChapterOf(all[|rows|].sec) == c; }
    }
  }

  /** One row. */
  method CheckRow(rows: seq<Row>, i: nat, prevPage: int, seen: array<bool>) returns (found: seq<Fault>)
    requires i < |rows| && prevPage == TopPage(rows[..i]) && Marked(seen[..], rows[..i])
    modifies seen
    ensures Marked(seen[..], rows[..i] + [rows[i]]) && found == FaultsAt(rows, i)
  {
    var r := rows[i];
    var siblings := CheckSiblings(rows, r.sec);
    var chapter := CheckChapter(r, seen, rows[..i]);
    found := TitleFaults(r) + PageFaults(r, prevPage) + siblings + chapter;
  }

  /** GatesMain.transcription. */
  method Check(rows: seq<Row>) returns (fails: nat, found: seq<Fault>)
    ensures found == Faults(rows) && fails == |found|
  {
    found := [];
    var prevPage := 0;
    var seen := new bool[24](_ => false);
    for i := 0 to |rows|
      invariant found == Flat(RowLists(rows)[..i]) && prevPage == TopPage(rows[..i]) && Marked(seen[..], rows[..i])
    {
      Snoc(rows, i);
      Snoc(RowLists(rows), i);
      var here := CheckRow(rows, i, prevPage, seen);
      found := found + here;
      if rows[i].page > prevPage { prevPage := rows[i].page; }
    }
    WholePrefix(rows);
    WholePrefix(RowLists(rows));
    var missing := CheckMissing(rows, seen);
    found := found + missing;
    fails := |found|;
  }

  method CheckMissing(ghost rows: seq<Row>, seen: array<bool>) returns (found: seq<Fault>)
    requires Marked(seen[..], rows)
    ensures found == MissingChapters(rows, 22)
  {
    found := [];
    for c := 1 to 23
      invariant found == MissingChapters(rows, c - 1)
    {
      if !seen[c] { found := found + [NoRows(c)]; }
    }
  }

  // ---- the shape of the whole ----

  function Chapters(rows: seq<Row>): (cs: seq<int>)
    ensures |cs| == |rows|
  {
    seq(|rows|, i requires 0 <= i < |rows| => ChapterOf(rows[i].sec))
  }

  function Pages(rows: seq<Row>): (ps: seq<int>)
    ensures |ps| == |rows|
  {
    seq(|rows|, i requires 0 <= i < |rows| => rows[i].page)
  }

  ghost predicate Sorted(ps: seq<int>) {
    forall i, j :: 0 <= i <= j < |ps| ==> ps[i] <= ps[j]
  }

  /** Every list of siblings runs from 1 to its largest leaf without a gap. */
  ghost predicate Gapless(rows: seq<Row>) {
    forall i, k :: 0 <= i < |rows| && ParentOf(rows[i].sec) != "" && 1 <= k < LeafOf(rows[i].sec)
      ==> Listed(rows, Sibling(ParentOf(rows[i].sec), k))
  }

  /** The first entry of chapter `c` or later. */
  function BlockStart(cs: seq<int>, c: int): (k: nat)
    ensures k <= |cs| && (k < |cs| ==> cs[k] >= c)
    ensures forall i :: 0 <= i < k ==> cs[i] < c
  {
    if cs == [] || cs[0] >= c then 0 else 1 + BlockStart(cs[1..], c)
  }

  /** The entries fall into 22 blocks, one a chapter and in order, none empty, each on its own pages. */
  ghost predicate InBlocks(cs: seq<int>, ps: seq<int>)
    requires |cs| == |ps|
  {
    && BlockStart(cs, 1) == 0 && BlockStart(cs, 23) == |cs|
    && (forall c :: 1 <= c <= 22 ==> BlockStart(cs, c) < BlockStart(cs, c + 1))
    && (forall c, i :: 1 <= c <= 22 && BlockStart(cs, c) <= i < BlockStart(cs, c + 1) ==>
          cs[i] == c && InChapter(ps[i], c))
  }

  /** The three invariants and the titles, said of the whole ledger at once. */
  ghost predicate WellTranscribed(rows: seq<Row>) {
    && (forall i :: 0 <= i < |rows| ==> rows[i].title != "")
    && Sorted(Pages(rows))
    && Gapless(rows)
    && InBlocks(Chapters(rows), Pages(rows))
  }

  // ---- pages and chapters, as numbers ----

  ghost predicate Anchored(cs: seq<int>, ps: seq<int>)
    requires |cs| == |ps|
  {
    forall i :: 0 <= i < |cs| ==> 1 <= cs[i] <= 22 && InChapter(ps[i], cs[i])
  }

  lemma {:induction false} StartsIncrease(a: int, b: int)
    requires 0 <= a <= b <= 23
    ensures CHAPTER_START[a] <= CHAPTER_START[b]
    decreases b - a
  {
    if a < b { StartsIncrease(a + 1, b); }
  }

  /** Chapters own disjoint pages, so sorted pages put the chapters in order. */
  lemma ChaptersSorted(cs: seq<int>, ps: seq<int>)
    requires |cs| == |ps| && Anchored(cs, ps) && Sorted(ps)
    ensures Sorted(cs)
  {
    forall i, j | 0 <= i <= j < |cs| ensures cs[i] <= cs[j] {
      if cs[i] > cs[j] { StartsIncrease(cs[j] + 1, cs[i]); }
    }
  }

  lemma BlockHolds(cs: seq<int>, c: int, i: nat)
    requires Sorted(cs) && i < |cs|
    ensures BlockStart(cs, c) <= i < BlockStart(cs, c + 1) <==> cs[i] == c
  {
  }

  lemma BlockIsThere(cs: seq<int>, c: int)
    requires Sorted(cs) && c in cs
    ensures BlockStart(cs, c) < BlockStart(cs, c + 1)
  {
    var i :| 0 <= i < |cs| && cs[i] == c;
    BlockHolds(cs, c, i);
  }

  lemma Blocks(cs: seq<int>, ps: seq<int>)
    requires |cs| == |ps| && Anchored(cs, ps) && Sorted(ps)
    requires forall c :: 1 <= c <= 22 ==> c in cs
    ensures InBlocks(cs, ps)
  {
    ChaptersSorted(cs, ps);
    forall c | 1 <= c <= 22 ensures BlockStart(cs, c) < BlockStart(cs, c + 1) {
      BlockIsThere(cs, c);
    }
    forall c, i | 1 <= c <= 22 && BlockStart(cs, c) <= i < BlockStart(cs, c + 1)
      ensures cs[i] == c && InChapter(ps[i], c)
    {
      BlockHolds(cs, c, i);
    }
  }

  /** Every entry lies in the block of some chapter. */
  lemma {:induction false} BlockOf(cs: seq<int>, i: nat, c: int) returns (b: int)
    requires BlockStart(cs, 1) == 0 && 1 <= c <= 23 && i < |cs| && i < BlockStart(cs, c)
    ensures 1 <= b <= 22 && BlockStart(cs, b) <= i < BlockStart(cs, b + 1)
    decreases c
  {
    if BlockStart(cs, c - 1) <= i { b := c - 1; } else { b := BlockOf(cs, i, c - 1); }
  }

  lemma BlocksAnchor(cs: seq<int>, ps: seq<int>)
    requires |cs| == |ps| && InBlocks(cs, ps)
    ensures Anchored(cs, ps) && forall c :: 1 <= c <= 22 ==> c in cs
  {
    forall i | 0 <= i < |cs| ensures 1 <= cs[i] <= 22 && InChapter(ps[i], cs[i]) {
      var b := BlockOf(cs, i, 23);
    }
    forall c | 1 <= c <= 22 ensures c in cs {
      assert BlockStart(cs, c) < BlockStart(cs, c + 1);
      assert cs[BlockStart(cs, c)] == c;
    }
  }

  /** No page lies below the top of the pages before it: the loop's way of saying sorted. */
  ghost predicate Climbing(rows: seq<Row>) {
    forall i :: 0 <= i < |rows| ==> rows[i].page >= TopPage(rows[..i])
  }

  lemma {:induction false} TopIs(rows: seq<Row>, top: int)
    requires top >= 0 && forall i :: 0 <= i < |rows| ==> rows[i].page <= top
    ensures TopPage(rows) <= top
  {
    if rows != [] { TopIs(rows[..|rows|-1], top); }
  }

  lemma ClimbingIsSorted(rows: seq<Row>)
    requires forall i :: 0 <= i < |rows| ==> rows[i].page >= 0
    ensures Climbing(rows) <==> Sorted(Pages(rows))
  {
    var ps := Pages(rows);
    if Climbing(rows) {
      forall i, j | 0 <= i <= j < |ps| ensures ps[i] <= ps[j] {
        if i < j { assert rows[..j][i] == rows[i]; }
      }
    }
    if Sorted(ps) {
      forall i | 0 <= i < |rows| ensures rows[i].page >= TopPage(rows[..i]) {
        forall k | 0 <= k < i ensures rows[..i][k].page <= rows[i].page { assert ps[k] <= ps[i]; }
        TopIs(rows[..i], rows[i].page);
      }
    }
  }

  // ---- siblings ----

  ghost predicate NoHoles(rows: seq<Row>) {
    forall i :: 0 <= i < |rows| ==> SiblingFaults(rows, rows[i].sec) == []
  }

  /** One sibling asks for the one before it. */
  lemma StepDown(rows: seq<Row>, parent: string, leaf: int)
    requires NoHoles(rows) && parent != "" && 1 < leaf && IsInt(leaf) && Listed(rows, Sibling(parent, leaf))
    ensures Listed(rows, Sibling(parent, leaf - 1))
  {
    SiblingIs(parent, leaf);
  }

  lemma {:induction false} AllTheWayDown(rows: seq<Row>, parent: string, leaf: int, k: int)
    requires NoHoles(rows) && parent != "" && 1 <= k <= leaf && IsInt(leaf) && Listed(rows, Sibling(parent, leaf))
    ensures Listed(rows, Sibling(parent, k))
    decreases leaf
  {
    if k < leaf {
      StepDown(rows, parent, leaf);
      AllTheWayDown(rows, parent, leaf - 1, k);
    }
  }

  /** So the local rule about the previous sibling closes every gap below. */
  lemma NoHolesIsGapless(rows: seq<Row>)
    ensures NoHoles(rows) <==> Gapless(rows)
  {
    if NoHoles(rows) {
      forall i, k | 0 <= i < |rows| && ParentOf(rows[i].sec) != "" && 1 <= k < LeafOf(rows[i].sec)
        ensures Listed(rows, Sibling(ParentOf(rows[i].sec), k))
      {
        LeafIsInt(rows[i].sec);
        assert SiblingFaults(rows, rows[i].sec) == [];
        AllTheWayDown(rows, ParentOf(rows[i].sec), LeafOf(rows[i].sec) - 1, k);
      }
    }
    if Gapless(rows) {
      forall i | 0 <= i < |rows| ensures SiblingFaults(rows, rows[i].sec) == [] { GaplessStep(rows, i); }
    }
  }

  lemma GaplessStep(rows: seq<Row>, i: nat)
    requires Gapless(rows) && i < |rows|
    ensures SiblingFaults(rows, rows[i].sec) == []
  {
    var leaf := LeafOf(rows[i].sec);
    if leaf > 1 && ParentOf(rows[i].sec) != "" { assert Listed(rows, Sibling(ParentOf(rows[i].sec), leaf - 1)); }
  }

  // ---- the checks and the shape ----

  lemma NoFaultsAt(rows: seq<Row>, i: nat)
    requires i < |rows|
    ensures FaultsAt(rows, i) == [] <==>
              TitleFaults(rows[i]) == [] && PageFaults(rows[i], TopPage(rows[..i])) == []
              && SiblingFaults(rows, rows[i].sec) == [] && ChapterFaults(rows[i]) == []
  {
    FourEmpty(TitleFaults(rows[i]), PageFaults(rows[i], TopPage(rows[..i])),
              SiblingFaults(rows, rows[i].sec), ChapterFaults(rows[i]));
  }

  lemma TwoEmpty(a: seq<Fault>, b: seq<Fault>)
    ensures a + b == [] <==> a == [] && b == []
  {
  }

  lemma FourEmpty(a: seq<Fault>, b: seq<Fault>, c: seq<Fault>, d: seq<Fault>)
    ensures a + b + c + d == [] <==> a == [] && b == [] && c == [] && d == []
  {
  }

  lemma {:induction false} FlatEmpty(lists: seq<seq<Fault>>)
    ensures Flat(lists) == [] <==> forall i :: 0 <= i < |lists| ==> lists[i] == []
  {
    if lists != [] {
      FlatEmpty(lists[..|lists|-1]);
      TwoEmpty(Flat(lists[..|lists|-1]), lists[|lists|-1]);
    }
  }

  lemma {:induction false} NoMissingChapters(rows: seq<Row>, n: nat)
    ensures MissingChapters(rows, n) == [] <==> forall c :: 1 <= c <= n ==> Seen(rows, c)
  {
    if n > 0 { NoMissingChapters(rows, n - 1); }
  }

  lemma SeenIs(rows: seq<Row>, c: int)
    ensures Seen(rows, c) <==> c in Chapters(rows)
  {
    if Seen(rows, c) {
      var i :| 0 <= i < |rows| && ChapterOf(rows[i].sec) == c;
      assert Chapters(rows)[i] == c;
    }
  }

  /** What silence means, check by check. */
  lemma SilentIs(rows: seq<Row>)
    ensures Faults(rows) == [] <==>
              && (forall i :: 0 <= i < |rows| ==> TitleFaults(rows[i]) == [])
              && (forall i :: 0 <= i < |rows| ==> PageFaults(rows[i], TopPage(rows[..i])) == [])
              && NoHoles(rows)
              && (forall i :: 0 <= i < |rows| ==> ChapterFaults(rows[i]) == [])
              && forall c :: 1 <= c <= 22 ==> Seen(rows, c)
  {
    var lists := RowLists(rows);
    FlatEmpty(lists);
    NoMissingChapters(rows, 22);
    forall i | 0 <= i < |rows|
      ensures lists[i] == [] <==>
              TitleFaults(rows[i]) == [] && PageFaults(rows[i], TopPage(rows[..i])) == []
              && SiblingFaults(rows, rows[i].sec) == [] && ChapterFaults(rows[i]) == []
    {
      NoFaultsAt(rows, i);
    }
  }

  lemma AnchoredIs(rows: seq<Row>)
    ensures Anchored(Chapters(rows), Pages(rows)) <==> forall i :: 0 <= i < |rows| ==> ChapterFaults(rows[i]) == []
  {
    var cs, ps := Chapters(rows), Pages(rows);
    forall i | 0 <= i < |rows| ensures ChapterFaults(rows[i]) == [] <==> 1 <= cs[i] <= 22 && InChapter(ps[i], cs[i]) {
    }
  }

  lemma PagesArePositive(rows: seq<Row>)
    requires Anchored(Chapters(rows), Pages(rows))
    ensures forall i :: 0 <= i < |rows| ==> rows[i].page >= 0
  {
    forall i | 0 <= i < |rows| ensures rows[i].page >= 0 {
      assert Pages(rows)[i] == rows[i].page;
      StartsIncrease(0, Chapters(rows)[i]);
    }
  }

  /** The checks are silent exactly when the whole ledger has its shape. */
  lemma SilentMeansWellTranscribed(rows: seq<Row>)
    ensures Faults(rows) == [] <==> WellTranscribed(rows)
  {
    var cs, ps := Chapters(rows), Pages(rows);
    SilentIs(rows);
    AnchoredIs(rows);
    NoHolesIsGapless(rows);
    forall c | 1 <= c <= 22 ensures Seen(rows, c) <==> c in cs { SeenIs(rows, c); }
    assert Climbing(rows) <==> forall i :: 0 <= i < |rows| ==> PageFaults(rows[i], TopPage(rows[..i])) == [];
    if Anchored(cs, ps) {
      PagesArePositive(rows);
      ClimbingIsSorted(rows);
      if Sorted(ps) && forall c :: 1 <= c <= 22 ==> c in cs { Blocks(cs, ps); }
    }
    if InBlocks(cs, ps) { BlocksAnchor(cs, ps); }
  }

  // ---- which faults are reported ----

  /** How many pages each chapter has. */
  const LENGTHS := [6, 4, 18, 22, 26, 36, 14, 56, 10, 8, 14, 22, 26, 38, 82, 16, 20, 14, 22, 160, 50, 102]

  function PagesBefore(ch: nat): nat
    requires 1 <= ch <= 23
  {
    if ch == 1 then 0 else PagesBefore(ch - 1) + LENGTHS[ch-2]
  }

  /** The chapters follow one another from page 1 to page 766, each as long as it is. */
  lemma {:induction false} StartIs(ch: nat)
    requires 1 <= ch <= 23
    ensures CHAPTER_START[ch] == PagesBefore(ch) + 1
  {
    if ch > 1 {
      StartIs(ch - 1);
      StartStep(ch);
    }
  }

  lemma StartStep(ch: nat)
    requires 1 < ch <= 23
    ensures CHAPTER_START[ch] == CHAPTER_START[ch-1] + LENGTHS[ch-2]
  {
  }

  /** `top` is the largest of 0 and the pages before row `i`. */
  ghost predicate IsTop(rows: seq<Row>, i: nat, top: int)
    requires i <= |rows|
  {
    && top >= 0 && (forall k :: 0 <= k < i ==> rows[k].page <= top)
    && (top == 0 || exists k :: 0 <= k < i && rows[k].page == top)
  }

  lemma {:induction false} TopIsReached(rows: seq<Row>)
    ensures TopPage(rows) == 0 || exists k :: 0 <= k < |rows| && rows[k].page == TopPage(rows)
  {
    if rows != [] {
      var init := rows[..|rows|-1];
      TopIsReached(init);
      if TopPage(rows) == TopPage(init) && TopPage(rows) != 0 {
        var k :| 0 <= k < |init| && init[k].page == TopPage(init);
        assert rows[k].page == TopPage(rows);
      }
    }
  }

  lemma TopIsTop(rows: seq<Row>, i: nat, top: int)
    requires i <= |rows|
    ensures IsTop(rows, i, top) <==> top == TopPage(rows[..i])
  {
    var before := rows[..i];
    TopIsReached(before);
    assert forall k :: 0 <= k < i ==> before[k] == rows[k];
  }

  // What each fault says of its row.

  ghost predicate IsEmptyTitle(r: Row, f: Fault) {
    f == EmptyTitle(r.sec) && r.title == ""
  }

  ghost predicate IsPageBack(rows: seq<Row>, i: nat, f: Fault)
    requires i < |rows|
  {
    f.PageBack? && f.sec == rows[i].sec && f.page == rows[i].page && f.page < f.after && IsTop(rows, i, f.after)
  }

  ghost predicate IsHole(rows: seq<Row>, sec: string, f: Fault) {
    && f.Hole? && f.sec == sec && ParentOf(sec) != "" && LeafOf(sec) > 1
    && f.expected == ParentOf(sec) + "." + PrintInt(LeafOf(sec) - 1)
    && forall k :: 0 <= k < |rows| ==> rows[k].sec != f.expected
  }

  ghost predicate IsChapterFault(r: Row, f: Fault) {
    var ch := ChapterOf(r.sec);
    if 1 <= ch <= 22 then
      f == PageOutside(r.sec, r.page, ch) && !(PagesBefore(ch) < r.page <= PagesBefore(ch) + LENGTHS[ch-1])
    else f == BadChapter(r.sec, ch)
  }

  /** Row `i` has this fault. */
  ghost predicate HasFault(rows: seq<Row>, i: nat, f: Fault)
    requires i < |rows|
  {
    || IsEmptyTitle(rows[i], f) || IsPageBack(rows, i, f)
    || IsHole(rows, rows[i].sec, f) || IsChapterFault(rows[i], f)
  }

  lemma RowFaultIs(rows: seq<Row>, i: nat, f: Fault)
    requires i < |rows|
    ensures f in FaultsAt(rows, i) <==> HasFault(rows, i, f)
  {
    var r := rows[i];
    FourLists(TitleFaults(r), PageFaults(r, TopPage(rows[..i])), SiblingFaults(rows, r.sec), ChapterFaults(r), f);
    TitleFaultIs(r, f);
    PageFaultIs(rows, i, f);
    HoleIs(rows, r.sec, f);
    ChapterFaultIs(r, f);
  }

  lemma TitleFaultIs(r: Row, f: Fault)
    ensures f in TitleFaults(r) <==> IsEmptyTitle(r, f)
  {
  }

  lemma PageFaultIs(rows: seq<Row>, i: nat, f: Fault)
    requires i < |rows|
    ensures f in PageFaults(rows[i], TopPage(rows[..i])) <==> IsPageBack(rows, i, f)
  {
    if f.PageBack? { TopIsTop(rows, i, f.after); }
  }

  lemma HoleIs(rows: seq<Row>, sec: string, f: Fault)
    ensures f in SiblingFaults(rows, sec) <==> IsHole(rows, sec, f)
  {
  }

  lemma ChapterFaultIs(r: Row, f: Fault)
    ensures f in ChapterFaults(r) <==> IsChapterFault(r, f)
  {
    if 1 <= ChapterOf(r.sec) <= 22 { InChapterIs(r.page, ChapterOf(r.sec)); }
  }

  lemma InChapterIs(page: int, ch: int)
    requires 1 <= ch <= 22
    ensures InChapter(page, ch) <==> PagesBefore(ch) < page <= PagesBefore(ch) + LENGTHS[ch-1]
  {
    StartIs(ch);
    StartIs(ch + 1);
  }

  lemma FourLists(a: seq<Fault>, b: seq<Fault>, c: seq<Fault>, d: seq<Fault>, f: Fault)
    ensures f in a + b + c + d <==> f in a || f in b || f in c || f in d
  {
  }

  lemma {:induction false} FlatMember(lists: seq<seq<Fault>>, f: Fault)
    ensures f in Flat(lists) <==> exists i :: 0 <= i < |lists| && f in lists[i]
  {
    if lists != [] {
      var init := lists[..|lists|-1];
      FlatMember(init, f);
      assert forall i :: 0 <= i < |init| ==> init[i] == lists[i];
    }
  }

  lemma {:induction false} MissingChapterIs(rows: seq<Row>, n: nat, f: Fault)
    ensures f in MissingChapters(rows, n) <==> f.NoRows? && 1 <= f.chapter <= n && !Seen(rows, f.chapter)
  {
    if n > 0 { MissingChapterIs(rows, n - 1, f); }
  }

  /** Exactly these faults are reported: those of the rows, and the chapters no row belongs to. */
  lemma FaultIs(rows: seq<Row>, f: Fault)
    ensures f in Faults(rows) <==>
              (exists i :: 0 <= i < |rows| && HasFault(rows, i, f))
              || (f.NoRows? && 1 <= f.chapter <= 22
                  && forall i :: 0 <= i < |rows| ==> ChapterOf(rows[i].sec) != f.chapter)
  {
    var lists := RowLists(rows);
    FlatMember(lists, f);
    MissingChapterIs(rows, 22, f);
    forall i | 0 <= i < |rows| ensures f in lists[i] <==> HasFault(rows, i, f) { RowFaultIs(rows, i, f); }
  }
}

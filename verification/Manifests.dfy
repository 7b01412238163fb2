/** The section manifest: which root snippets cite which section, written by the generator and
    counted by the cardinality gate (GenMain.manifest, GatesMain.distinctFor). */
module Manifests {
  import opened Sequences
  import opened Snippets
  import opened Sorting
  import opened Tsv
  import opened Ledgers

  datatype Cite = Cite(section: string, id: string)

  function CiteLine(c: Cite): string {
    c.section + "\t" + c.id
  }

  /** `s` cites the section of `c` under the id of `c`. */
  predicate CitedBy(s: Snippet, c: Cite) {
    s.id == c.id && c.section in s.sections
  }

  // ---- writing ----

  function Add(seen: seq<string>, line: string): seq<string> {
    if line in seen then seen else seen + [line]
  }

  /** The lines once the first `n` citations of `s` are entered. */
  function Entered(seen: seq<string>, s: Snippet, n: nat): seq<string>
    requires n <= |s.sections|
  {
    if n == 0 then seen else Add(Entered(seen, s, n - 1), CiteLine(Cite(s.sections[n-1], s.id)))
  }

  function EnteredAll(seen: seq<string>, cited: seq<Snippet>): seq<string> {
    if cited == [] then seen
    else
      var last := cited[|cited|-1];
      Entered(EnteredAll(seen, cited[..|cited|-1]), last, |last.sections|)
  }

  function Roots(all: seq<Tree>): (roots: seq<Snippet>)
    ensures |roots| == |all| && forall i :: 0 <= i < |all| ==> roots[i] == all[i].snip
  {
    seq(|all|, i requires 0 <= i < |all| => all[i].snip)
  }

  function ManifestLines(all: seq<Tree>, rejects: seq<Snippet>): seq<string> {
    Sort(Textual, EnteredAll(EnteredAll([], Roots(all)), rejects))
  }

  /** GenMain.manifest, below the comment lines that head it. */
  function Manifest(heading: seq<string>, all: seq<Tree>, rejects: seq<Snippet>): string {
    PrintLines(heading + ManifestLines(all, rejects))
  }

  method Enter(seen: seq<string>, s: Snippet) returns (lines: seq<string>)
    ensures lines == Entered(seen, s, |s.sections|)
  {
    lines := seen;
    for j := 0 to |s.sections|
      invariant lines == Entered(seen, s, j)
    {
      var line := s.sections[j] + "\t" + s.id;
      if line !in lines { lines := lines + [line]; }
    }
  }

  lemma PrintLinesSnoc(lines: seq<string>, line: string)
    ensures PrintLines(lines + [line]) == PrintLines(lines) + line + "\n"
  {
    if lines == [] {
      assert (lines + [line])[1..] == [] && PrintLines([line]) == line + "\n" + "";
    } else {
      PrintLinesSnoc(lines[1..], line);
      assert (lines + [line])[1..] == lines[1..] + [line];
    }
  }

  method WriteManifest(heading: seq<string>, all: seq<Tree>, rejects: seq<Snippet>) returns (text: string)
    ensures text == Manifest(heading, all, rejects)
  {
    var seen: seq<string> := [];
    var roots := Roots(all);
    for i := 0 to |all|
      invariant seen == EnteredAll([], roots[..i])
    {
      Snoc(roots, i);
      seen := Enter(seen, all[i].snip);
    }
    WholePrefix(roots);
    ghost var first := seen;
    for i := 0 to |rejects|
      invariant seen == EnteredAll(first, rejects[..i])
    {
      Snoc(rejects, i);
      seen := Enter(seen, rejects[i]);
    }
    WholePrefix(rejects);
    var lines := new string[|seen|](k requires 0 <= k < |seen| => seen[k]);
    assert lines[..] == seen;
    InsertionSort(lines, Textual);
    text := PrintAll(heading, lines[..]);
  }

  method PrintAll(heading: seq<string>, lines: seq<string>) returns (text: string)
    ensures text == PrintLines(heading + lines)
  {
    text := PrintLines(heading);
    assert heading + lines[..0] == heading;
    for i := 0 to |lines|
      invariant text == PrintLines(heading + lines[..i])
    {
      Snoc(lines, i);
      assert heading + lines[..i+1] == (heading + lines[..i]) + [lines[i]];
      PrintLinesSnoc(heading + lines[..i], lines[i]);
      text := text + lines[i] + "\n";
    }
    WholePrefix(lines);
  }

  // ---- what is in it ----

  ghost predicate Cites(cited: seq<Snippet>, c: Cite) {
    exists s :: s in cited && CitedBy(s, c)
  }

  ghost predicate IsCiteLine(cited: seq<Snippet>, line: string) {
    exists c :: Cites(cited, c) && line == CiteLine(c)
  }

  lemma {:induction false} EnteredIs(seen: seq<string>, s: Snippet, n: nat, line: string)
    requires n <= |s.sections|
    ensures line in Entered(seen, s, n) <==>
              line in seen || exists j :: 0 <= j < n && line == CiteLine(Cite(s.sections[j], s.id))
    ensures Distinct(seen) ==> Distinct(Entered(seen, s, n))
  {
    if n > 0 { EnteredIs(seen, s, n - 1, line); }
  }

  lemma {:induction false} EnteredAllIs(seen: seq<string>, cited: seq<Snippet>, line: string)
    ensures line in EnteredAll(seen, cited) <==> line in seen || IsCiteLine(cited, line)
    ensures Distinct(seen) ==> Distinct(EnteredAll(seen, cited))
  {
    if cited != [] {
      var init, last := cited[..|cited|-1], cited[|cited|-1];
      EnteredAllIs(seen, init, line);
      EnteredIs(EnteredAll(seen, init), last, |last.sections|, line);
      LastCites(cited, line);
    }
  }

  lemma LastCites(cited: seq<Snippet>, line: string)
    requires cited != []
    ensures var s := cited[|cited|-1];
            IsCiteLine(cited, line) <==>
              IsCiteLine(cited[..|cited|-1], line)
              || exists j :: 0 <= j < |s.sections| && line == CiteLine(Cite(s.sections[j], s.id))
  {
    var init, s := cited[..|cited|-1], cited[|cited|-1];
    if IsCiteLine(init, line) {
      var c :| Cites(init, c) && line == CiteLine(c);
      assert Cites(cited, c);
    }
    if j :| 0 <= j < |s.sections| && line == CiteLine(Cite(s.sections[j], s.id)) {
      var c := Cite(s.sections[j], s.id);
      assert s in cited && CitedBy(s, c);
      assert Cites(cited, c);
    }
    if IsCiteLine(cited, line) {
      var c :| Cites(cited, c) && line == CiteLine(c);
      var t :| t in cited && CitedBy(t, c);
      if t in init { assert Cites(init, c); } else {
        var j :| 0 <= j < |s.sections| && s.sections[j] == c.section;
        assert c == Cite(s.sections[j], s.id);
      }
    }
  }

  /** Every root or rejection citing a section has its line, in sorted order and only once, and
      there is no other line. */
  lemma ManifestIsExact(all: seq<Tree>, rejects: seq<Snippet>)
    ensures Distinct(ManifestLines(all, rejects)) && SortedBy(Textual, ManifestLines(all, rejects))
    ensures forall line :: line in ManifestLines(all, rejects) <==> IsCiteLine(Roots(all) + rejects, line)
  {
    var first := EnteredAll([], Roots(all));
    var seen := EnteredAll(first, rejects);
    EnteredAllIs([], Roots(all), "");
    EnteredAllIs(first, rejects, "");
    SortedDistinct(seen);
    forall line ensures line in ManifestLines(all, rejects) <==> IsCiteLine(Roots(all) + rejects, line) {
      EnteredAllIs([], Roots(all), line);
      EnteredAllIs(first, rejects, line);
      BothCite(Roots(all), rejects, line);
    }
  }

  lemma BothCite(a: seq<Snippet>, b: seq<Snippet>, line: string)
    ensures IsCiteLine(a + b, line) <==> IsCiteLine(a, line) || IsCiteLine(b, line)
  {
    forall c ensures Cites(a + b, c) <==> Cites(a, c) || Cites(b, c) {
      assert forall s :: s in a + b <==> s in a || s in b;
    }
  }

  lemma SortedDistinct(s: seq<string>)
    requires Distinct(s)
    ensures Distinct(Sort(Textual, s)) && SortedBy(Textual, Sort(Textual, s))
    ensures forall x :: x in Sort(Textual, s) <==> x in s
  {
    var xs := set x | x in s;
    var r := Sort(Textual, s);
    TextOrders(xs);
    SortSorts(Textual, s, xs);
    SortKeeps(Textual, s);
    SameElements(r, s);
    forall i, j | 0 <= i < j < |r| ensures r[i] != r[j] { OnceEach(s, r, i, j); }
  }

  lemma OnceEach(s: seq<string>, r: seq<string>, i: nat, j: nat)
    requires Distinct(s) && multiset(r) == multiset(s) && i < j < |r|
    ensures r[i] != r[j]
  {
    if r[i] == r[j] {
      CountTwice(r, i, j);
      CountOnce(s, r[i]);
    }
  }

  lemma CountTwice(r: seq<string>, i: nat, j: nat)
    requires i < j < |r| && r[i] == r[j]
    ensures multiset(r)[r[i]] >= 2
  {
    assert r == r[..j] + r[j..];
    assert r[..j][i] == r[i] && r[j..][0] == r[j];
    assert multiset(r) == multiset(r[..j]) + multiset(r[j..]);
    assert r[i] in multiset(r[..j]) && r[j] in multiset(r[j..]);
  }

  lemma {:induction false} CountOnce(s: seq<string>, x: string)
    requires Distinct(s)
    ensures multiset(s)[x] <= 1
  {
    if s != [] {
      CountOnce(s[..|s|-1], x);
      assert s == s[..|s|-1] + [s[|s|-1]];
      if s[|s|-1] == x { assert x !in s[..|s|-1]; }
    }
  }

  // ---- counting ----

  /** The ids a manifest lists for a section. */
  function IdsFor(man: seq<seq<string>>, sec: string): set<string> {
    set i | 0 <= i < |man| && |man[i]| >= 2 && man[i][0] == sec :: man[i][1]
  }

  lemma IdsForSnoc(man: seq<seq<string>>, sec: string, i: nat)
    requires i < |man|
    ensures IdsFor(man[..i+1], sec) ==
            IdsFor(man[..i], sec) + if |man[i]| >= 2 && man[i][0] == sec then {man[i][1]} else {}
  {
    var a, b := man[..i], man[..i+1];
    assert b[i] == man[i];
    forall id | id in IdsFor(a, sec) ensures id in IdsFor(b, sec) {
      var k :| 0 <= k < |a| && |a[k]| >= 2 && a[k][0] == sec && a[k][1] == id;
      assert b[k] == a[k];
    }
    forall id | id in IdsFor(b, sec)
      ensures id in IdsFor(a, sec) || (|man[i]| >= 2 && man[i][0] == sec && id == man[i][1])
    {
      var k :| 0 <= k < |b| && |b[k]| >= 2 && b[k][0] == sec && b[k][1] == id;
      if k < i { assert a[k] == b[k]; }
    }
  }

  lemma {:induction false} DistinctSize(s: seq<string>)
    requires Distinct(s)
    ensures |set x | x in s| == |s|
  {
    if s != [] {
      var init, last := s[..|s|-1], s[|s|-1];
      DistinctSize(init);
      assert last !in init;
      assert (set x | x in s) == (set x | x in init) + {last};
    }
  }

  /** GatesMain.distinctFor counts the ids. */
  method DistinctFor(man: seq<seq<string>>, sec: string) returns (n: nat)
    ensures n == |IdsFor(man, sec)|
  {
    var seen: seq<string> := [];
    for i := 0 to |man|
      invariant Distinct(seen) && (set x | x in seen) == IdsFor(man[..i], sec)
    {
      IdsForSnoc(man, sec, i);
      if |man[i]| < 2 { continue; }
      if man[i][0] != sec { continue; }
      seen := AddId(seen, man[i][1]);
    }
    WholePrefix(man);
    DistinctSize(seen);
    n := |seen|;
  }

  method AddId(seen: seq<string>, id: string) returns (more: seq<string>)
    requires Distinct(seen)
    ensures Distinct(more) && (set x | x in more) == (set x | x in seen) + {id}
  {
    more := if id in seen then seen else seen + [id];
  }

  // ---- end to end ----

  /** A citation that survives being written and read. */
  ghost predicate SafeCite(c: Cite) {
    && SafeField(c.section) && SafeField(c.id)
    && (c.section != "" ==> c.section[0] != '#')
    && !(Blank(c.section) && Blank(c.id))
  }

  ghost predicate AllSafe(cited: seq<Snippet>) {
    forall c :: Cites(cited, c) ==> SafeCite(c)
  }

  /** The ids that cite a section. */
  ghost function Citers(cited: seq<Snippet>, sec: string): set<string> {
    set s | s in cited && sec in s.sections :: s.id
  }

  lemma CitersAre(cited: seq<Snippet>, sec: string, id: string)
    ensures id in Citers(cited, sec) <==> Cites(cited, Cite(sec, id))
  {
    if Cites(cited, Cite(sec, id)) {
      var s :| s in cited && CitedBy(s, Cite(sec, id));
    }
    if id in Citers(cited, sec) {
      var s :| s in cited && sec in s.sections && s.id == id;
      assert CitedBy(s, Cite(sec, id));
    }
  }

  lemma {:induction false} RowsComeFromLines(lines: seq<string>, f: seq<string>)
    ensures f in RowsOf(lines) <==> exists k :: 0 <= k < |lines| && !Skipped(lines[k]) && Fields(lines[k]) == f
  {
    if lines != [] {
      RowsComeFromLines(lines[1..], f);
      assert forall k :: 0 < k < |lines| ==> lines[k] == lines[1..][k-1];
      assert forall k :: 0 <= k < |lines[1..]| ==> lines[1..][k] == lines[k+1];
    }
  }

  lemma BlankBetween(a: string, b: string)
    ensures Blank(a + "\t" + b) <==> Blank(a) && Blank(b)
  {
    var line := a + "\t" + b;
    assert forall i :: 0 <= i < |a| ==> line[i] == a[i];
    assert forall i :: 0 <= i < |b| ==> b[i] == line[|a| + 1 + i];
  }

  lemma CiteLineReads(c: Cite)
    requires SafeField(c.section) && SafeField(c.id)
    ensures Fields(CiteLine(c)) == [c.section, c.id]
    ensures Skipped(CiteLine(c)) <==> (c.section != "" && c.section[0] == '#') || (Blank(c.section) && Blank(c.id))
    ensures PlainLine(CiteLine(c))
  {
    FieldStep(c.section, c.id);
    FieldsLast(c.id);
    SafeFieldKept(c.id);
    var line := CiteLine(c);
    assert line[0] == if c.section == "" then '\t' else c.section[0];
    BlankBetween(c.section, c.id);
    CiteLineIsPlain(c);
  }

  lemma CiteLineIsPlain(c: Cite)
    requires SafeField(c.section) && SafeField(c.id)
    ensures PlainLine(CiteLine(c))
  {
  }

  /** Bytes without a newline. */
  ghost predicate PlainLine(line: string) {
    Bytes(line) && forall i :: 0 <= i < |line| ==> line[i] != '\n'
  }

  ghost predicate Heading(line: string) {
    line != "" && line[0] == '#' && PlainLine(line)
  }

  ghost predicate Headed(heading: seq<string>) {
    forall k :: 0 <= k < |heading| ==> Heading(heading[k])
  }

  /** The file as the gate reads it. */
  ghost function ReadBack(heading: seq<string>, all: seq<Tree>, rejects: seq<Snippet>): seq<seq<string>> {
    Rows(LowBytes(Manifest(heading, all, rejects)))
  }

  ghost predicate FieldsSafe(cited: seq<Snippet>) {
    forall c :: Cites(cited, c) ==> SafeField(c.section) && SafeField(c.id)
  }

  /** The rows of the file are the citations whose lines are not skipped. */
  lemma RowsAreCites(heading: seq<string>, all: seq<Tree>, rejects: seq<Snippet>, f: seq<string>)
    requires Headed(heading) && FieldsSafe(Roots(all) + rejects)
    ensures f in ReadBack(heading, all, rejects) <==>
            exists c :: Cites(Roots(all) + rejects, c) && !Skipped(CiteLine(c)) && f == [c.section, c.id]
  {
    var cited, lines := Roots(all) + rejects, ManifestLines(all, rejects);
    ManifestIsExact(all, rejects);
    forall k | 0 <= k < |lines| ensures PlainLine(lines[k]) {
      assert IsCiteLine(cited, lines[k]);
      var c :| Cites(cited, c) && lines[k] == CiteLine(c);
      CiteLineReads(c);
    }
    UnderHeading(heading, lines);
    RowsComeFromLines(lines, f);
    if f in RowsOf(lines) {
      var k :| 0 <= k < |lines| && !Skipped(lines[k]) && Fields(lines[k]) == f;
      assert IsCiteLine(cited, lines[k]);
      var c :| Cites(cited, c) && lines[k] == CiteLine(c);
      CiteLineReads(c);
    }
    if c :| Cites(cited, c) && !Skipped(CiteLine(c)) && f == [c.section, c.id] {
      CiteLineReads(c);
      assert IsCiteLine(cited, CiteLine(c));
    }
  }

  ghost predicate AllPlain(lines: seq<string>) {
    forall k :: 0 <= k < |lines| ==> PlainLine(lines[k])
  }

  lemma PlainLinesRead(lines: seq<string>)
    requires AllPlain(lines)
    ensures Rows(LowBytes(PrintLines(lines))) == RowsOf(lines)
  {
    forall k | 0 <= k < |lines| ensures Bytes(lines[k]) && forall i :: 0 <= i < |lines[k]| ==> lines[k][i] != '\n' {
      assert PlainLine(lines[k]);
    }
    LinesBytes(lines);
    BytesStay(PrintLines(lines));
    PrintedLinesRead(lines, "");
    EmptyEnd(PrintLines(lines), lines);
  }

  lemma EmptyEnd(text: string, lines: seq<string>)
    ensures text + "" == text && lines + Lines("") == lines
  {
  }

  lemma PlainConcat(a: seq<string>, b: seq<string>)
    requires AllPlain(a) && AllPlain(b)
    ensures AllPlain(a + b)
  {
    forall k | 0 <= k < |a + b| ensures PlainLine((a + b)[k]) {
      assert (a + b)[k] == if k < |a| then a[k] else b[k-|a|];
    }
  }

  /** The heading is read as nothing, and plain lines as themselves. */
  lemma UnderHeading(heading: seq<string>, lines: seq<string>)
    requires Headed(heading) && AllPlain(lines)
    ensures Rows(LowBytes(PrintLines(heading + lines))) == RowsOf(lines)
  {
    forall k | 0 <= k < |heading| ensures PlainLine(heading[k]) && Skipped(heading[k]) { assert Heading(heading[k]); }
    PlainConcat(heading, lines);
    PlainLinesRead(heading + lines);
    RowsConcat(heading, lines);
    RowsOfSkipped(heading);
  }

  /** What any row read back is made of. */
  lemma ReadRowIsSafe(text: string, f: seq<string>)
    requires Bytes(text) && f in Rows(text)
    ensures f != [] && forall k :: 0 <= k < |f| ==> SafeField(f[k])
    ensures f[0] != "" ==> f[0][0] != '#'
  {
    RowsComeFromLines(Lines(text), f);
    LinesHoldNoNewline(text);
    var k :| 0 <= k < |Lines(text)| && !Skipped(Lines(text)[k]) && Fields(Lines(text)[k]) == f;
    FieldsAreSafe(Lines(text)[k]);
    FirstField(Lines(text)[k]);
  }

  lemma IdsAre(man: seq<seq<string>>, sec: string, id: string)
    ensures id in IdsFor(man, sec) <==> exists f :: f in man && |f| >= 2 && f[0] == sec && f[1] == id
  {
    if f :| f in man && |f| >= 2 && f[0] == sec && f[1] == id {
      var i :| 0 <= i < |man| && man[i] == f;
    }
    if id in IdsFor(man, sec) {
      var i :| 0 <= i < |man| && |man[i]| >= 2 && man[i][0] == sec && man[i][1] == id;
      assert man[i] in man;
    }
  }

  /** The gate counts, for every section, exactly the root and rejection ids citing it, if and only
      if every citation is one that can be written. */
  lemma CountsAreCitations(heading: seq<string>, all: seq<Tree>, rejects: seq<Snippet>)
    requires Headed(heading)
    ensures (forall sec :: IdsFor(ReadBack(heading, all, rejects), sec) == Citers(Roots(all) + rejects, sec))
       <==> AllSafe(Roots(all) + rejects)
  {
    var cited := Roots(all) + rejects;
    if AllSafe(cited) {
      forall sec ensures IdsFor(ReadBack(heading, all, rejects), sec) == Citers(cited, sec) {
        forall id ensures id in IdsFor(ReadBack(heading, all, rejects), sec) <==> id in Citers(cited, sec) {
          SafeIdsAreCiters(heading, all, rejects, sec, id);
        }
      }
    }
    if forall sec :: IdsFor(ReadBack(heading, all, rejects), sec) == Citers(cited, sec) {
      CountedIsSafe(heading, all, rejects);
    }
  }

  lemma SafeIdsAreCiters(heading: seq<string>, all: seq<Tree>, rejects: seq<Snippet>, sec: string, id: string)
    requires Headed(heading) && AllSafe(Roots(all) + rejects)
    ensures id in IdsFor(ReadBack(heading, all, rejects), sec) <==> id in Citers(Roots(all) + rejects, sec)
  {
    var cited, man := Roots(all) + rejects, ReadBack(heading, all, rejects);
    IdsAre(man, sec, id);
    CitersAre(cited, sec, id);
    if f :| f in man && |f| >= 2 && f[0] == sec && f[1] == id {
      RowsAreCites(heading, all, rejects, f);
    }
    if Cites(cited, Cite(sec, id)) {
      CiteLineReads(Cite(sec, id));
      RowsAreCites(heading, all, rejects, [sec, id]);
      assert [sec, id] in man;
    }
  }

  lemma CountedIsSafe(heading: seq<string>, all: seq<Tree>, rejects: seq<Snippet>)
    requires Headed(heading)
    requires forall sec :: IdsFor(ReadBack(heading, all, rejects), sec) == Citers(Roots(all) + rejects, sec)
    ensures AllSafe(Roots(all) + rejects)
  {
    var cited, man := Roots(all) + rejects, ReadBack(heading, all, rejects);
    forall c | Cites(cited, c)
      ensures SafeField(c.section) && SafeField(c.id) && (c.section != "" ==> c.section[0] != '#')
    {
      var f := CountedRow(heading, all, rejects, c);
    }
    forall c | Cites(cited, c) ensures !(Blank(c.section) && Blank(c.id)) {
      var f := CountedRow(heading, all, rejects, c);
      RowsAreCites(heading, all, rejects, f);
      CiteLineReads(c);
    }
  }

  lemma CountedRow(heading: seq<string>, all: seq<Tree>, rejects: seq<Snippet>, c: Cite) returns (f: seq<string>)
    requires forall sec :: IdsFor(ReadBack(heading, all, rejects), sec) == Citers(Roots(all) + rejects, sec)
    requires Cites(Roots(all) + rejects, c)
    ensures f in ReadBack(heading, all, rejects) && |f| >= 2 && f[0] == c.section && f[1] == c.id
    ensures SafeField(c.section) && SafeField(c.id) && (c.section != "" ==> c.section[0] != '#')
  {
    var man := ReadBack(heading, all, rejects);
    CitersAre(Roots(all) + rejects, c.section, c.id);
    assert c.id in IdsFor(man, c.section);
    IdsAre(man, c.section, c.id);
    f :| f in man && |f| >= 2 && f[0] == c.section && f[1] == c.id;
    ReadRowIsSafe(LowBytes(Manifest(heading, all, rejects)), f);
  }
}

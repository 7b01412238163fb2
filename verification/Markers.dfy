/** The `// JLS <section>` claims of the corpus and who makes them (Markers.java). */
module Markers {
  import opened Options
  import opened Sequences
  import opened Sections
  import opened Sorting
  import opened Tsv

  datatype Marker = Marker(section: string, artifact: string)

  // ---- one line ----

  function SkipBlanks(s: string): string {
    if s != [] && (s[0] == ' ' || s[0] == '\t') then SkipBlanks(s[1..]) else s
  }

  function SkipSpaces(s: string): string {
    if s != [] && s[0] == ' ' then SkipSpaces(s[1..]) else s
  }

  predicate SectionChar(c: char) {
    '0' <= c <= '9' || c == '.'
  }

  function SectionPrefix(s: string): string {
    if s != [] && SectionChar(s[0]) then [s[0]] + SectionPrefix(s[1..]) else []
  }

  function StripDots(s: string): string {
    if s != [] && s[|s|-1] == '.' then StripDots(s[..|s|-1]) else s
  }

  predicate StartsWith(s: string, head: string) {
    |head| <= |s| && s[..|head|] == head
  }

  /** What is claimed after the marker's keyword. */
  function SectionOf(rest: string): Option<string> {
    var s := StripDots(SectionPrefix(SkipSpaces(rest)));
    if s == "" then None else Some(s)
  }

  /** The section a line claims: the marker must be the whole comment's opening. */
  function Claim(line: string): Option<string> {
    var a := SkipBlanks(line);
    if !StartsWith(a, "//") then None
    else
      var b := SkipSpaces(a[2..]);
      if !StartsWith(b, "JLS") then None
      else if |b| == 3 || b[3] != ' ' then None
      else SectionOf(b[3..])
  }

  /** A section as Emit writes it: digits and dots, and no dot at the end. */
  predicate Markable(sec: string) {
    sec != "" && sec[|sec|-1] != '.' && forall i :: 0 <= i < |sec| ==> SectionChar(sec[i])
  }

  // ---- which lines claim ----

  ghost predicate AllOf(s: string, c: char, d: char) {
    forall i :: 0 <= i < |s| ==> s[i] == c || s[i] == d
  }

  /** A claim of `sec`: blanks, two slashes, spaces, the keyword, a space or more, digits and dots that do
      not end in a dot, then dots that do not count, and whatever follows the number. */
  ghost predicate Claims(line: string, sec: string) {
    exists w: string, s: string, t: string, dots: string, rest: string ::
      line == w + ("//" + (s + ("JLS" + (t + (sec + dots + rest))))) && IsClaim(w, s, t, sec, dots, rest)
  }

  ghost predicate IsClaim(w: string, s: string, t: string, sec: string, dots: string, rest: string) {
    && AllOf(w, ' ', '\t') && AllOf(s, ' ', ' ') && AllOf(t, ' ', ' ') && t != ""
    && Markable(sec) && AllOf(dots, '.', '.') && (rest == "" || !SectionChar(rest[0]))
  }

  lemma {:induction false} BlanksSkipped(w: string, x: string)
    requires AllOf(w, ' ', '\t') && (x == "" || (x[0] != ' ' && x[0] != '\t'))
    ensures SkipBlanks(w + x) == x
  {
    if w == "" {
      assert w + x == x;
    } else {
      BlanksSkipped(w[1..], x);
      FirstOfConcat(w, x);
    }
  }

  lemma {:induction false} SpacesSkipped(w: string, x: string)
    requires AllOf(w, ' ', ' ') && (x == "" || x[0] != ' ')
    ensures SkipSpaces(w + x) == x
  {
    if w == "" {
      assert w + x == x;
    } else {
      SpacesSkipped(w[1..], x);
      FirstOfConcat(w, x);
    }
  }

  lemma {:induction false} NumberTaken(n: string, rest: string)
    requires (forall i :: 0 <= i < |n| ==> SectionChar(n[i])) && (rest == "" || !SectionChar(rest[0]))
    ensures SectionPrefix(n + rest) == n
  {
    if n == "" {
      assert n + rest == rest;
    } else {
      NumberTaken(n[1..], rest);
      FirstOfConcat(n, rest);
      assert n == [n[0]] + n[1..];
    }
  }

  lemma {:induction false} DotsStripped(sec: string, dots: string)
    requires AllOf(dots, '.', '.') && (sec == "" || sec[|sec|-1] != '.')
    ensures StripDots(sec + dots) == sec
  {
    if dots == "" {
      assert sec + dots == sec;
    } else {
      DotsStripped(sec, dots[..|dots|-1]);
      LastOfConcat(sec, dots);
    }
  }

  lemma Begins(head: string, x: string)
    ensures StartsWith(head + x, head) && (head + x)[|head|..] == x
  {
  }

  lemma NumberIsRead(t: string, sec: string, dots: string, rest: string)
    requires AllOf(t, ' ', ' ') && Markable(sec) && AllOf(dots, '.', '.') && (rest == "" || !SectionChar(rest[0]))
    ensures SectionOf(t + (sec + dots + rest)) == Some(sec)
  {
    var n := sec + dots;
    forall i | 0 <= i < |n| ensures SectionChar(n[i]) { assert n[i] == if i < |sec| then sec[i] else dots[i-|sec|]; }
    assert (n + rest)[0] == sec[0] && SectionChar(sec[0]);
    SpacesSkipped(t, n + rest);
    NumberTaken(n, rest);
    DotsStripped(sec, dots);
  }

  lemma ClaimIsRead(w: string, s: string, t: string, sec: string, dots: string, rest: string)
    requires IsClaim(w, s, t, sec, dots, rest)
    ensures Claim(w + ("//" + (s + ("JLS" + (t + (sec + dots + rest)))))) == Some(sec)
  {
    var number := t + (sec + dots + rest);
    var keyword := "JLS" + number;
    var slashes := "//" + (s + keyword);
    BlanksSkipped(w, slashes);
    Begins("//", s + keyword);
    SpacesSkipped(s, keyword);
    Begins("JLS", number);
    assert number[0] == t[0] == ' ' && keyword[3] == number[0];
    NumberIsRead(t, sec, dots, rest);
  }

  /** The marker Emit writes for a section is a claim of exactly that section. */
  lemma EmittedMarkerIsClaimed(sec: string)
    requires Markable(sec)
    ensures Claim("// JLS " + sec) == Some(sec)
  {
    ClaimIsRead("", " ", " ", sec, "", "");
    Plainly(sec);
  }

  lemma Plainly(sec: string)
    ensures "" + ("//" + (" " + ("JLS" + (" " + (sec + "" + ""))))) == "// JLS " + sec
  {
  }

  // The other way: what each step passes over.

  lemma {:induction false} BlanksBefore(s: string) returns (w: string)
    ensures s == w + SkipBlanks(s) && AllOf(w, ' ', '\t')
  {
    if s != "" && (s[0] == ' ' || s[0] == '\t') {
      var v := BlanksBefore(s[1..]);
      w := [s[0]] + v;
      assert s == [s[0]] + s[1..];
    } else {
      w := "";
    }
  }

  lemma {:induction false} SpacesBefore(s: string) returns (w: string)
    ensures s == w + SkipSpaces(s) && AllOf(w, ' ', ' ')
    ensures s != "" && s[0] == ' ' ==> w != ""
    ensures SkipSpaces(s) == "" || SkipSpaces(s)[0] != ' '
  {
    if s != "" && s[0] == ' ' {
      var v := SpacesBefore(s[1..]);
      w := [s[0]] + v;
      assert s == [s[0]] + s[1..];
    } else {
      w := "";
    }
  }

  lemma {:induction false} AfterNumber(s: string) returns (rest: string)
    ensures s == SectionPrefix(s) + rest && (rest == "" || !SectionChar(rest[0]))
    ensures forall i :: 0 <= i < |SectionPrefix(s)| ==> SectionChar(SectionPrefix(s)[i])
  {
    if s != "" && SectionChar(s[0]) {
      rest := AfterNumber(s[1..]);
      assert s == [s[0]] + s[1..];
    } else {
      rest := s;
    }
  }

  lemma {:induction false} DotsAfter(s: string) returns (dots: string)
    ensures s == StripDots(s) + dots && AllOf(dots, '.', '.')
    ensures StripDots(s) != "" ==> StripDots(s)[|StripDots(s)|-1] != '.'
  {
    if s != "" && s[|s|-1] == '.' {
      var d := DotsAfter(s[..|s|-1]);
      dots := d + ['.'];
      InitLast(s);
      Associates(StripDots(s), d, ['.']);
    } else {
      dots := "";
    }
  }

  lemma NumberWasRead(x: string, sec: string) returns (t: string, dots: string, rest: string)
    requires x != "" && x[0] == ' ' && SectionOf(x) == Some(sec)
    ensures x == t + (sec + dots + rest) && IsClaim("", "", t, sec, dots, rest)
  {
    t := SpacesBefore(x);
    var n := SectionPrefix(SkipSpaces(x));
    rest := AfterNumber(SkipSpaces(x));
    dots := DotsAfter(n);
    assert n == sec + dots;
    forall i | 0 <= i < |sec| ensures SectionChar(sec[i]) { assert sec[i] == n[i]; }
  }

  lemma SplitHead(s: string, head: string)
    requires StartsWith(s, head)
    ensures s == head + s[|head|..]
  {
  }

  lemma ClaimWasRead(line: string, sec: string)
    requires Claim(line) == Some(sec)
    ensures Claims(line, sec)
  {
    var w := BlanksBefore(line);
    var a := SkipBlanks(line);
    SplitHead(a, "//");
    var s := SpacesBefore(a[2..]);
    var b := SkipSpaces(a[2..]);
    SplitHead(b, "JLS");
    assert b[3..][0] == b[3];
    var t, dots, rest := NumberWasRead(b[3..], sec);
    assert line == w + ("//" + (s + ("JLS" + (t + (sec + dots + rest)))));
    assert IsClaim(w, s, t, sec, dots, rest);
  }

  /** A line claims a section exactly when it has that form: leading blanks and trailing dots do not
      matter, and nothing may stand before the keyword but the slashes and spaces. */
  lemma ClaimIs(line: string, sec: string)
    ensures Claim(line) == Some(sec) <==> Claims(line, sec)
  {
    if Claim(line) == Some(sec) { ClaimWasRead(line, sec); }
    if Claims(line, sec) {
      var w: string, s: string, t: string, dots: string, rest: string :|
        line == w + ("//" + (s + ("JLS" + (t + (sec + dots + rest))))) && IsClaim(w, s, t, sec, dots, rest);
      ClaimIsRead(w, s, t, sec, dots, rest);
    }
  }

  // ---- a file ----

  /** The markers after one line: a pair already there is not listed again. */
  function Noted(marks: seq<Marker>, line: string, artifact: string): seq<Marker> {
    match Claim(line)
    case None => marks
    case Some(sec) => if Marker(sec, artifact) in marks then marks else marks + [Marker(sec, artifact)]
  }

  /** The markers after some lines of an artifact. */
  function Collected(marks: seq<Marker>, lines: seq<string>, artifact: string): seq<Marker>
    decreases |lines|
  {
    if lines == [] then marks else Collected(Noted(marks, lines[0], artifact), lines[1..], artifact)
  }

  /** What one file adds: the sections its lines claim, and nothing is ever listed twice. */
  lemma {:induction false} CollectedIsExact(marks: seq<Marker>, lines: seq<string>, artifact: string, m: Marker)
    ensures m in Collected(marks, lines, artifact) <==>
            m in marks || (m.artifact == artifact && exists i :: 0 <= i < |lines| && Claim(lines[i]) == Some(m.section))
    ensures Distinct(marks) ==> Distinct(Collected(marks, lines, artifact))
    decreases |lines|
  {
    if lines != [] {
      CollectedIsExact(Noted(marks, lines[0], artifact), lines[1..], artifact, m);
      assert forall i :: 0 < i < |lines| ==> lines[i] == lines[1..][i-1];
      assert forall i :: 0 <= i < |lines[1..]| ==> lines[1..][i] == lines[i+1];
    }
  }

  // ---- the loops ----

  method ClaimLoop(line: string) returns (sec: Option<string>)
    ensures sec == Claim(line)
  {
    var p := 0;
    assert line[0..] == line;
    while p < |line| && (line[p] == ' ' || line[p] == '\t')
      invariant 0 <= p <= |line| && SkipBlanks(line[p..]) == SkipBlanks(line)
    {
      assert line[p..][1..] == line[p+1..];
      p := p + 1;
    }
    var a := line[p..];
    if p + 2 > |line| || line[p] != '/' || line[p+1] != '/' {
      assert !StartsWith(a, "//");
      return None;
    }
    assert a[..2] == "//";
    p := p + 2;
    ghost var q := p;
    assert a[2..] == line[p..];
    while p < |line| && line[p] == ' '
      invariant q <= p <= |line| && SkipSpaces(line[p..]) == SkipSpaces(line[q..])
    {
      assert line[p..][1..] == line[p+1..];
      p := p + 1;
    }
    var b := line[p..];
    if !StartsWith(b, "JLS") { return None; }
    p := p + 3;
    assert b[3..] == line[p..];
    if p >= |line| || line[p] != ' ' { return None; }
    sec := SectionAt(line, p);
  }

  lemma SkipStep(line: string, p: nat)
    requires p < |line| && line[p] == ' '
    ensures SkipSpaces(line[p..]) == SkipSpaces(line[p+1..])
  {
    assert line[p..][1..] == line[p+1..];
  }

  lemma SpacesEnd(line: string, p: nat)
    requires p <= |line| && (p < |line| ==> line[p] != ' ')
    ensures SkipSpaces(line[p..]) == line[p..]
  {
  }

  lemma {:induction false} PrefixIs(line: string, s: nat, p: nat)
    requires s <= p <= |line| && forall k :: s <= k < p ==> SectionChar(line[k])
    requires p < |line| ==> !SectionChar(line[p])
    ensures SectionPrefix(line[s..]) == line[s..p]
    decreases p - s
  {
    if s < p {
      PrefixIs(line, s + 1, p);
      assert line[s..][1..] == line[s+1..] && line[s..p] == [line[s]] + line[s+1..p];
    }
  }

  method StripDotsLoop(s: string) returns (r: string)
    ensures r == StripDots(s)
  {
    r := s;
    while r != "" && r[|r|-1] == '.'
      invariant StripDots(r) == StripDots(s)
      decreases |r|
    {
      r := r[..|r|-1];
    }
  }

  method SectionAt(line: string, from: nat) returns (sec: Option<string>)
    requires from <= |line|
    ensures sec == SectionOf(line[from..])
  {
    var p := from;
    while p < |line| && line[p] == ' '
      invariant from <= p <= |line| && SkipSpaces(line[p..]) == SkipSpaces(line[from..])
    {
      SkipStep(line, p);
      p := p + 1;
    }
    SpacesEnd(line, p);
    var s := p;
    while p < |line| && SectionChar(line[p])
      invariant s <= p <= |line| && forall k :: s <= k < p ==> SectionChar(line[k])
    {
      p := p + 1;
    }
    PrefixIs(line, s, p);
    if p == s { return None; }
    var number := StripDotsLoop(line[s..p]);
    return if number == "" then None else Some(number);
  }

  method Has(marks: seq<Marker>, m: Marker) returns (b: bool)
    ensures b == (m in marks)
  {
    for i := 0 to |marks|
      invariant m !in marks[..i]
    {
      Snoc(marks, i);
      if marks[i] == m { return true; }
    }
    WholePrefix(marks);
    return false;
  }

  /** The markers once the rest of the text, from position `i`, is read too. */
  function CollectedFrom(marks: seq<Marker>, text: string, i: nat, artifact: string): seq<Marker> {
    Collected(marks, LinesFrom(text, i), artifact)
  }

  lemma CollectStep(marks: seq<Marker>, text: string, i: nat, e: nat, line: string, artifact: string)
    requires i < |text| && e == Next(text, '\n', i) && line == text[i..e]
    ensures CollectedFrom(marks, text, i, artifact) ==
            CollectedFrom(Noted(marks, line, artifact), text, e + 1, artifact)
  {
    LinesStep(text, i);
    assert ([line] + LinesFrom(text, e + 1))[1..] == LinesFrom(text, e + 1);
  }

  lemma CollectStarts(marks: seq<Marker>, text: string, artifact: string)
    ensures CollectedFrom(marks, text, 0, artifact) == Collected(marks, Lines(text), artifact)
  {
    LinesFromIs(text, 0);
    assert text[0..] == text;
  }

  lemma CollectEnds(marks: seq<Marker>, text: string, i: nat, artifact: string)
    requires i >= |text|
    ensures CollectedFrom(marks, text, i, artifact) == marks
  {
  }

  method Note(marks: seq<Marker>, line: string, artifact: string) returns (r: seq<Marker>)
    ensures r == Noted(marks, line, artifact)
  {
    var sec := ClaimLoop(line);
    if sec.None? { return marks; }
    var has := Has(marks, Marker(sec.value, artifact));
    return if has then marks else marks + [Marker(sec.value, artifact)];
  }

  /** Takes in the line at position `i`; the next one starts at `next`. */
  method CollectLine(text: string, i: nat, artifact: string, marks: seq<Marker>) returns (next: nat, r: seq<Marker>)
    requires i < |text|
    ensures i < next <= |text| + 1
    ensures CollectedFrom(r, text, next, artifact) == CollectedFrom(marks, text, i, artifact)
  {
    var e := FindIndex(text, '\n', i);
    if e < 0 { e := |text|; }
    var line := text[i..e];
    r := Note(marks, line, artifact);
    CollectStep(marks, text, i, e, line, artifact);
    next := e + 1;
  }

  method Collect(text: string, artifact: string, marks: seq<Marker>) returns (r: seq<Marker>)
    ensures r == Collected(marks, Lines(text), artifact)
  {
    r := marks;
    var i := 0;
    CollectStarts(marks, text, artifact);
    while i < |text|
      invariant 0 <= i <= |text| + 1
      invariant CollectedFrom(r, text, i, artifact) == CollectedFrom(marks, text, 0, artifact)
      decreases |text| + 1 - i
    {
      i, r := CollectLine(text, i, artifact, r);
    }
    CollectEnds(r, text, i, artifact);
  }

  // ---- who claims a section ----

  predicate Covers(m: seq<Marker>, sec: string) {
    exists i :: 0 <= i < |m| && m[i].section == sec
  }

  function Claimants(m: seq<Marker>, sec: string): seq<string> {
    if m == [] then []
    else
      var last := m[|m|-1];
      Claimants(m[..|m|-1], sec) + if last.section == sec then [last.artifact] else []
  }

  function JoinCommas(a: seq<string>): string {
    if a == [] then ""
    else if |a| == 1 then a[0]
    else JoinCommas(a[..|a|-1]) + "," + a[|a|-1]
  }

  /** The artifacts claiming a section, sorted and comma-joined. */
  function By(m: seq<Marker>, sec: string): string {
    JoinCommas(Sort(Textual, Claimants(m, sec)))
  }

  method CoversLoop(m: seq<Marker>, sec: string) returns (b: bool)
    ensures b == Covers(m, sec)
  {
    for i := 0 to |m|
      invariant forall k :: 0 <= k < i ==> m[k].section != sec
    {
      if m[i].section == sec { return true; }
    }
    return false;
  }

  method ClaimantsLoop(m: seq<Marker>, sec: string) returns (v: seq<string>)
    ensures v == Claimants(m, sec)
  {
    v := [];
    for i := 0 to |m|
      invariant v == Claimants(m[..i], sec)
    {
      Snoc(m, i);
      if m[i].section == sec { v := v + [m[i].artifact]; }
    }
    WholePrefix(m);
  }

  method JoinLoop(a: seq<string>) returns (s: string)
    ensures s == JoinCommas(a)
  {
    s := "";
    for i := 0 to |a|
      invariant s == JoinCommas(a[..i])
    {
      Snoc(a, i);
      s := if i > 0 then s + "," + a[i] else a[i];
    }
    WholePrefix(a);
  }

  method ByLoop(m: seq<Marker>, sec: string) returns (s: string)
    ensures s == By(m, sec)
  {
    var v := ClaimantsLoop(m, sec);
    var a := new string[|v|](k requires 0 <= k < |v| => v[k]);
    assert a[..] == v;
    InsertionSort(a, Textual);
    s := JoinLoop(a[..]);
  }

  lemma {:induction false} ClaimantsCount(m: seq<Marker>, sec: string, artifact: string)
    ensures multiset(Claimants(m, sec))[artifact] == multiset(m)[Marker(sec, artifact)]
  {
    if m != [] {
      ClaimantsCount(m[..|m|-1], sec, artifact);
      assert m == m[..|m|-1] + [m[|m|-1]];
    }
  }

  /** Directory order does not show: any arrangement of the same markers gives the same text. */
  lemma ByIgnoresOrder(m: seq<Marker>, n: seq<Marker>, sec: string)
    requires multiset(m) == multiset(n)
    ensures By(m, sec) == By(n, sec)
  {
    forall a ensures multiset(Claimants(m, sec))[a] == multiset(Claimants(n, sec))[a] {
      ClaimantsCount(m, sec, a);
      ClaimantsCount(n, sec, a);
    }
    var xs := set x | x in Claimants(m, sec);
    TextOrders(xs);
    SortIgnoresOrder(Textual, Claimants(m, sec), Claimants(n, sec), xs);
  }

  lemma {:induction false} CoveredMeansClaimed(m: seq<Marker>, sec: string)
    ensures Covers(m, sec) <==> Claimants(m, sec) != []
  {
    if m != [] {
      CoveredMeansClaimed(m[..|m|-1], sec);
      assert m == m[..|m|-1] + [m[|m|-1]];
      if Covers(m[..|m|-1], sec) {
        var i :| 0 <= i < |m| - 1 && m[..|m|-1][i].section == sec;
        assert m[i].section == sec;
      }
      if m[|m|-1].section == sec { assert Covers(m, sec); }
      if Covers(m, sec) && m[|m|-1].section != sec {
        var i :| 0 <= i < |m| && m[i].section == sec;
        assert m[..|m|-1][i].section == sec;
      }
    }
  }

  /** The recorded text is empty exactly when nobody claims the section, or a single artifact with
      an empty name does. */
  lemma ByIsEmpty(m: seq<Marker>, sec: string)
    ensures By(m, sec) == "" <==> Claimants(m, sec) == [] || Claimants(m, sec) == [""]
  {
    var c, s := Claimants(m, sec), Sort(Textual, Claimants(m, sec));
    if |s| == 1 {
      assert c == [c[0]];
      assert c[..0] == [] && s == Insert(Textual, [], c[0]) == [c[0]];
    }
  }
}

/** Comparing strings, and comparing dotted section numbers (String.compareTo, Emit.cmpSection). */
module Sections {
  import opened JavaInts
  import opened Decimals

  // ---- String.compareTo ----

  function CompareText(a: string, b: string): int {
    if a == [] || b == [] then |a| - |b|
    else if a[0] != b[0] then a[0] as int - b[0] as int
    else CompareText(a[1..], b[1..])
  }

  lemma {:induction false} CompareFlips(a: string, b: string)
    ensures CompareText(a, b) == -CompareText(b, a)
    ensures CompareText(a, b) == 0 <==> a == b
  {
    if a != [] && b != [] && a[0] == b[0] {
      CompareFlips(a[1..], b[1..]);
      assert a == [a[0]] + a[1..] && b == [b[0]] + b[1..];
    }
  }

  lemma {:induction false} CompareTransitive(a: string, b: string, c: string)
    requires CompareText(a, b) <= 0 && CompareText(b, c) <= 0
    ensures CompareText(a, c) <= 0
  {
    if a != [] && b != [] && c != [] && a[0] == b[0] == c[0] {
      CompareTransitive(a[1..], b[1..], c[1..]);
    }
  }

  // ---- dotted sections ----

  /** Emit.split: the parts between the dots, always at least one. */
  function Parts(s: string): (parts: seq<string>)
    ensures parts != []
  {
    if s == [] then [[]]
    else
      var rest := Parts(s[1..]);
      if s[0] == '.' then [[]] + rest else [[s[0]] + rest[0]] + rest[1..]
  }

  function JoinDots(parts: seq<string>): string
    requires parts != []
  {
    if |parts| == 1 then parts[0] else parts[0] + "." + JoinDots(parts[1..])
  }

  lemma {:induction false} JoinOfParts(s: string)
    ensures JoinDots(Parts(s)) == s
  {
    if s != [] {
      JoinOfParts(s[1..]);
      var rest := Parts(s[1..]);
      if s[0] == '.' {
        assert ([[]] + rest)[1..] == rest;
        assert [] + "." + JoinDots(rest) == s;
      } else {
        var all := [[s[0]] + rest[0]] + rest[1..];
        assert all[1..] == rest[1..];
        if |rest| > 1 {
          assert JoinDots(all) == [s[0]] + rest[0] + "." + JoinDots(rest[1..]);
          assert JoinDots(all) == [s[0]] + (rest[0] + "." + JoinDots(rest[1..]));
        }
        assert s == [s[0]] + s[1..];
      }
    }
  }

  /** Emit.asInt: -1 unless all digits, on a wrapping 32-bit int. */
  function AsInt(s: string): int {
    if s == [] || !AllDigits(s) then -1 else WrappingValue(s)
  }

  function WrappingValue(s: string): int
    requires AllDigits(s)
  {
    if s == [] then 0 else Wrap32(Wrap32(WrappingValue(s[..|s|-1]) * 10) + (s[|s|-1] - '0') as int)
  }

  function CompareParts(a: seq<string>, b: seq<string>): int {
    if a == [] || b == [] then (if |a| == |b| then 0 else if |a| < |b| then -1 else 1)
    else
      var m, n := AsInt(a[0]), AsInt(b[0]);
      if m >= 0 && n >= 0 then
        if m != n then (if m < n then -1 else 1) else CompareParts(a[1..], b[1..])
      else
        var c := CompareText(a[0], b[0]);
        if c != 0 then c else CompareParts(a[1..], b[1..])
  }

  function CompareSections(a: string, b: string): int {
    CompareParts(Parts(a), Parts(b))
  }

  // ---- canonical sections are ordered like their numbers ----

  /** No leading zeros, and short enough for an int. */
  predicate CanonicalPart(s: string) {
    Canonical(s) && |s| <= 9
  }

  ghost predicate CanonicalSection(s: string) {
    forall i :: 0 <= i < |Parts(s)| ==> CanonicalPart(Parts(s)[i])
  }

  function NumberOf(s: string): nat {
    if AllDigits(s) then NatOf(s) else 0
  }

  function Numbers(parts: seq<string>): (ns: seq<int>)
    ensures |ns| == |parts|
  {
    seq(|parts|, i requires 0 <= i < |parts| => NumberOf(parts[i]))
  }

  /** The lexicographic order on number sequences, a prefix first. */
  predicate LexLess(a: seq<int>, b: seq<int>) {
    b != [] && (a == [] || a[0] < b[0] || (a[0] == b[0] && LexLess(a[1..], b[1..])))
  }

  function Pow10(n: nat): nat {
    if n == 0 then 1 else 10 * Pow10(n - 1)
  }

  lemma {:induction false} ValueBound(s: string)
    requires AllDigits(s) && |s| <= 9
    ensures NatOf(s) < Pow10(|s|) <= 1_000_000_000
    ensures WrappingValue(s) == NatOf(s)
  {
    assert Pow10(3) == 1000 && Pow10(6) == 1_000_000 && Pow10(9) == 1_000_000_000 by {
      assert Pow10(2) == 100 && Pow10(4) == 10_000 && Pow10(5) == 100_000;
      assert Pow10(7) == 10_000_000 && Pow10(8) == 100_000_000;
    }
    if s != [] { ValueBound(s[..|s|-1]); WrapsKeep(NatOf(s[..|s|-1]) * 10); WrapsKeep(NatOf(s)); }
  }

  lemma {:induction false} PartsCompareLikeNumbers(a: seq<string>, b: seq<string>)
    requires forall i :: 0 <= i < |a| ==> CanonicalPart(a[i])
    requires forall i :: 0 <= i < |b| ==> CanonicalPart(b[i])
    ensures CompareParts(a, b) < 0 <==> LexLess(Numbers(a), Numbers(b))
    ensures CompareParts(a, b) > 0 <==> LexLess(Numbers(b), Numbers(a))
    ensures CompareParts(a, b) == 0 <==> a == b
  {
    if a != [] && b != [] {
      CanonicalParts(a[0], b[0]);
      assert Numbers(a)[1..] == Numbers(a[1..]) && Numbers(b)[1..] == Numbers(b[1..]);
      PartsCompareLikeNumbers(a[1..], b[1..]);
      SameHeadTail(a, b);
    }
  }

  lemma SameHeadTail(a: seq<string>, b: seq<string>)
    requires a != [] && b != []
    ensures a == b <==> a[0] == b[0] && a[1..] == b[1..]
  {
    if a[0] == b[0] && a[1..] == b[1..] { assert a == [a[0]] + a[1..] && b == [b[0]] + b[1..]; }
  }

  lemma CanonicalParts(s: string, t: string)
    requires CanonicalPart(s) && CanonicalPart(t)
    ensures AsInt(s) == NumberOf(s) && AsInt(t) == NumberOf(t) && (NumberOf(s) == NumberOf(t) <==> s == t)
  {
    ValueBound(s);
    ValueBound(t);
    DigitsOfCanonical(s);
    DigitsOfCanonical(t);
  }

  /** On canonical sections the comparison is the lexicographic order of the numbers. */
  lemma SectionsCompareLikeNumbers(a: string, b: string)
    requires CanonicalSection(a) && CanonicalSection(b)
    ensures CompareSections(a, b) < 0 <==> LexLess(Numbers(Parts(a)), Numbers(Parts(b)))
    ensures CompareSections(a, b) > 0 <==> LexLess(Numbers(Parts(b)), Numbers(Parts(a)))
    ensures CompareSections(a, b) == 0 <==> a == b
  {
    PartsCompareLikeNumbers(Parts(a), Parts(b));
    JoinOfParts(a);
    JoinOfParts(b);
  }

  lemma {:induction false} LexTransitive(a: seq<int>, b: seq<int>, c: seq<int>)
    requires !LexLess(b, a) && !LexLess(c, b)
    ensures !LexLess(c, a)
  {
    if a != [] && b != [] && c != [] && a[0] == b[0] == c[0] { LexTransitive(a[1..], b[1..], c[1..]); }
  }

  /** Off the canonical sections it need not be an order at all: numbers compare as numbers, but a
      number and a word compare as text, and the three comparisons below go round in a circle. */
  lemma SectionsCanCycle()
    ensures CompareSections("9", "10") < 0 && CompareSections("10", "1a") < 0 && CompareSections("1a", "9") < 0
  {
    PlainPart("9");
    PlainPart("10");
    PlainPart("1a");
    assert "9"[..0] == "" && "10"[..1] == "1" && "1"[..0] == "";
    assert AsInt("9") == 9;
    assert WrappingValue("1") == 1;
    assert AsInt("10") == 10;
    assert !IsDigit("1a"[1]);
    assert "10"[1..] == "0" && "1a"[1..] == "a";
    assert CompareText("0", "a") < 0;
  }

  lemma {:induction false} PlainPart(s: string)
    requires forall i :: 0 <= i < |s| ==> s[i] != '.'
    ensures Parts(s) == [s]
  {
    if s != [] {
      PlainPart(s[1..]);
      assert s == [s[0]] + s[1..];
    }
  }

  // ---- the loops ----

  method AsIntLoop(s: string) returns (r: int)
    ensures r == AsInt(s)
  {
    if |s| == 0 { return -1; }
    var v := 0;
    assert s[..0] == [];
    for i := 0 to |s|
      invariant AllDigits(s[..i]) && v == WrappingValue(s[..i])
    {
      var c := s[i];
      if c < '0' || c > '9' { return -1; }
      assert s[..i+1] == s[..i] + [c];
      assert s[..i+1][..i] == s[..i];
      v := Wrap32(Wrap32(v * 10) + (c - '0') as int);
    }
    assert s[..|s|] == s;
    return v;
  }

  function Dots(s: string): nat {
    if s == [] then 0 else (if s[0] == '.' then 1 else 0) + Dots(s[1..])
  }

  lemma {:induction false} PartsCount(s: string)
    ensures |Parts(s)| == Dots(s) + 1
  {
    if s != [] { PartsCount(s[1..]); }
  }

  /** Where the next dot is, if there is one. */
  lemma {:induction false} PartsAtDot(s: string, e: nat)
    requires e < |s| && s[e] == '.' && forall k :: 0 <= k < e ==> s[k] != '.'
    ensures Parts(s) == [s[..e]] + Parts(s[e+1..])
  {
    if e > 0 {
      PartsAtDot(s[1..], e - 1);
      assert s[1..][..e-1] == s[1..e] && s[1..][e..] == s[e+1..];
      assert s[..e] == [s[0]] + s[1..e];
      assert ([s[1..e]] + Parts(s[e+1..]))[1..] == Parts(s[e+1..]);
    }
  }

  /** The components between the dots: count them first, then cut at each dot in turn. */
  method SplitDots(s: string) returns (out: seq<string>)
    ensures out == Parts(s)
  {
    var parts := 1;
    for i := 0 to |s|
      invariant parts + Dots(s[i..]) == 1 + Dots(s)
    {
      assert s[i..][1..] == s[i+1..];
      if s[i] == '.' { parts := parts + 1; }
    }
    PartsCount(s);
    assert parts == |Parts(s)|;
    out := [];
    var start := 0;
    assert s[0..] == s;
    for k := 0 to parts - 1
      invariant 0 <= start <= |s| && out + Parts(s[start..]) == Parts(s) && |out| == k
    {
      ghost var rest := s[start..];
      PartsCount(rest);
      var dot := start;
      while dot < |s| && s[dot] != '.'
        invariant start <= dot <= |s| && forall i :: start <= i < dot ==> s[i] != '.'
      {
        dot := dot + 1;
      }
      if dot == |s| { PlainPart(rest); }
      DotStep(s, start, dot, out);
      out := out + [s[start..dot]];
      start := dot + 1;
    }
    PartsCount(s[start..]);
    NoDots(s[start..]);
    out := out + [s[start..]];
  }

  lemma DotStep(s: string, start: nat, dot: nat, out: seq<string>)
    requires start <= dot < |s| && s[dot] == '.' && forall i :: start <= i < dot ==> s[i] != '.'
    ensures out + Parts(s[start..]) == (out + [s[start..dot]]) + Parts(s[dot+1..])
  {
    var rest := s[start..];
    PartsAtDot(rest, dot - start);
    assert rest[..dot-start] == s[start..dot] && rest[dot-start+1..] == s[dot+1..];
  }

  lemma {:induction false} NoDots(s: string)
    requires Dots(s) == 0
    ensures Parts(s) == [s]
  {
    if s != [] {
      NoDots(s[1..]);
      assert s == [s[0]] + s[1..];
    }
  }

  /** The two component by component, on what both have, then the lengths. */
  method CompareSectionsLoop(a: string, b: string) returns (c: int)
    ensures c == CompareSections(a, b)
  {
    var pa := SplitDots(a);
    var pb := SplitDots(b);
    var n := if |pa| < |pb| then |pa| else |pb|;
    assert pa[0..] == pa && pb[0..] == pb;
    for i := 0 to n
      invariant CompareParts(pa[i..], pb[i..]) == CompareSections(a, b)
    {
      assert pa[i..][1..] == pa[i+1..] && pb[i..][1..] == pb[i+1..];
      var na := AsIntLoop(pa[i]);
      var nb := AsIntLoop(pb[i]);
      if na >= 0 && nb >= 0 {
        if na != nb { return if na < nb then -1 else 1; }
      } else {
        c := CompareText(pa[i], pb[i]);
        if c != 0 { return; }
      }
    }
    return if |pa| == |pb| then 0 else if |pa| < |pb| then -1 else 1;
  }
}

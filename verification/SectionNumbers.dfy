/** Chapter, parent and leaf of a dotted section number (Ledger.java). */
module SectionNumbers {
  import opened Sequences
  import opened JavaInts
  import opened Decimals
  import opened Tsv

  function LastIndexOf(s: string, c: char): (k: int)
    ensures -1 <= k < |s| && (k >= 0 ==> s[k] == c) && forall i :: k < i < |s| ==> s[i] != c
  {
    if s == [] then -1 else if s[|s|-1] == c then |s| - 1 else LastIndexOf(s[..|s|-1], c)
  }

  function ChapterOf(sec: string): int {
    ParseInt(sec[..IndexOf(sec, '.')], -1)
  }

  function ParentOf(sec: string): string {
    var dot := LastIndexOf(sec, '.');
    if dot < 0 then "" else sec[..dot]
  }

  function LeafOf(sec: string): int {
    ParseInt(sec[LastIndexOf(sec, '.') + 1..], -1)
  }

  function Sibling(parent: string, leaf: int): string {
    parent + "." + PrintInt(leaf)
  }

  // ---- what they yield ----

  predicate Dotless(s: string) {
    forall i :: 0 <= i < |s| ==> s[i] != '.'
  }

  lemma PrintedIsDotless(n: int)
    ensures Dotless(PrintInt(n))
  {
    var s := PrintInt(n);
    forall i | 0 <= i < |s| ensures s[i] != '.' {
      if n < 0 && i > 0 { assert s[i] == Digits(-n)[i-1]; }
    }
  }

  /** The chapter is what stands before the first dot. */
  lemma FirstComponent(head: string, rest: string)
    requires Dotless(head)
    ensures ChapterOf(head + "." + rest) == ParseInt(head, -1)
  {
    var s := head + "." + rest;
    NextIs(s, '.', 0, |head|);
    assert s[..|head|] == head;
  }

  /** The parent is what stands before the last dot, and the leaf what stands after it. */
  lemma LastComponent(parent: string, leaf: string)
    requires Dotless(leaf)
    ensures ParentOf(parent + "." + leaf) == parent && LeafOf(parent + "." + leaf) == ParseInt(leaf, -1)
  {
    var s := parent + "." + leaf;
    assert s[|parent|] == '.';
    forall i | |parent| < i < |s| ensures s[i] != '.' { assert s[i] == leaf[i - |parent| - 1]; }
    assert LastIndexOf(s, '.') == |parent|;
    assert s[..|parent|] == parent && s[|parent|+1..] == leaf;
  }

  /** Without a dot the section is its own chapter and leaf, and has no parent. */
  lemma OneComponent(s: string)
    requires Dotless(s)
    ensures ParentOf(s) == "" && LeafOf(s) == ParseInt(s, -1) && ChapterOf(s) == ParseInt(s, -1)
  {
    NextIs(s, '.', 0, |s|);
    WholePrefix(s);
    assert s[0..] == s;
  }

  /** The chapter of a section under chapter `c`, and of the chapter itself. */
  lemma ChapterIs(c: int, rest: string)
    requires IsInt(c)
    ensures ChapterOf(PrintInt(c) + "." + rest) == c && ChapterOf(PrintInt(c)) == c
    ensures ParentOf(PrintInt(c)) == "" && LeafOf(PrintInt(c)) == c
  {
    PrintedIsDotless(c);
    FirstComponent(PrintInt(c), rest);
    OneComponent(PrintInt(c));
    ParsePrinted(c, -1);
  }

  /** A section lies in the chapter of its parent. */
  lemma ChapterOfParent(sec: string)
    requires ParentOf(sec) != ""
    ensures ChapterOf(ParentOf(sec)) == ChapterOf(sec)
  {
    var dot := LastIndexOf(sec, '.');
    var parent, e := sec[..dot], IndexOf(sec, '.');
    NextHolds(sec, '.', 0);
    assert e <= dot;
    NextIs(parent, '.', 0, e);
    assert parent[..e] == sec[..e];
  }

  lemma SiblingIs(parent: string, leaf: int)
    requires IsInt(leaf)
    ensures ParentOf(Sibling(parent, leaf)) == parent && LeafOf(Sibling(parent, leaf)) == leaf
  {
    PrintedIsDotless(leaf);
    LastComponent(parent, PrintInt(leaf));
    ParsePrinted(leaf, -1);
  }

  lemma LeafIsInt(sec: string)
    ensures IsInt(LeafOf(sec))
  {
    ParsedIsInt(sec[LastIndexOf(sec, '.') + 1..], -1);
  }
}

/** Decimal integers as text: Integer.toString, String.trim and Integer.parseInt. */
module Decimals {
  import opened JavaInts
  import opened Options

  function Digit(d: nat): char
    requires d < 10
  {
    '0' + d as char
  }

  predicate IsDigit(c: char) {
    '0' <= c <= '9'
  }

  predicate AllDigits(s: string) {
    forall i :: 0 <= i < |s| ==> IsDigit(s[i])
  }

  function Digits(n: nat): (s: string)
    ensures s != [] && AllDigits(s)
  {
    if n < 10 then [Digit(n)] else Digits(n / 10) + [Digit(n % 10)]
  }

  function PrintInt(i: int): string {
    if i < 0 then "-" + Digits(-i) else Digits(i)
  }

  function NatOf(s: string): nat
    requires AllDigits(s)
  {
    if s == [] then 0 else NatOf(s[..|s|-1]) * 10 + (s[|s|-1] - '0') as int
  }

  lemma {:induction false} NatOfDigits(n: nat)
    ensures NatOf(Digits(n)) == n
  {
    if n >= 10 {
      NatOfDigits(n / 10);
      assert Digits(n)[..|Digits(n)|-1] == Digits(n / 10);
    } else {
      assert [Digit(n)][..0] == [];
    }
  }

  lemma DigitsInjective(m: nat, n: nat)
    requires Digits(m) == Digits(n)
    ensures m == n
  {
    NatOfDigits(m);
    NatOfDigits(n);
  }

  /** No leading zero, except in zero itself. */
  predicate Canonical(s: string) {
    s != [] && AllDigits(s) && (|s| > 1 ==> s[0] != '0')
  }

  lemma {:induction false} DigitsCanonical(n: nat)
    ensures Canonical(Digits(n))
    ensures n > 0 ==> Digits(n)[0] != '0'
  {
    if n >= 10 { DigitsCanonical(n / 10); }
  }

  /** A canonical numeral is the numeral of its value. */
  lemma {:induction false} DigitsOfCanonical(s: string)
    requires Canonical(s)
    ensures Digits(NatOf(s)) == s
  {
    var init, last := s[..|s|-1], (s[|s|-1] - '0') as int;
    if init == [] {
      assert NatOf(init) == 0;
      assert s == [s[0]];
    } else {
      DigitsOfCanonical(init);
      CanonicalIsPositive(init);
      assert (NatOf(init) * 10 + last) / 10 == NatOf(init);
      assert s == init + [s[|s|-1]];
    }
  }

  lemma {:induction false} CanonicalIsPositive(s: string)
    requires s != [] && AllDigits(s) && s[0] != '0'
    ensures NatOf(s) > 0
  {
    if |s| > 1 { CanonicalIsPositive(s[..|s|-1]); } else { assert s[..0] == []; }
  }

  // ---- String.trim and Integer.parseInt ----

  function TrimLeft(s: string): string {
    if s != [] && s[0] <= ' ' then TrimLeft(s[1..]) else s
  }

  function TrimRight(s: string): string {
    if s != [] && s[|s|-1] <= ' ' then TrimRight(s[..|s|-1]) else s
  }

  function Trim(s: string): string {
    TrimRight(TrimLeft(s))
  }

  /** Integer.parseInt: an optional minus, then at least one digit, within 32 bits. */
  function ParseJavaInt(s: string): Option<int> {
    var negative := s != [] && s[0] == '-';
    var body := if negative then s[1..] else s;
    if body == [] || !AllDigits(body) then None
    else
      var v: int := if negative then -(NatOf(body) as int) else NatOf(body);
      if IsInt(v) then Some(v) else None
  }

  /** Tsv.parseInt: trimmed, with a default for anything that is not an int. */
  function ParseInt(s: string, dflt: int): int {
    match ParseJavaInt(Trim(s))
    case Some(v) => v
    case None => dflt
  }

  lemma TrimKeeps(s: string)
    requires s != [] && s[0] > ' ' && s[|s|-1] > ' '
    ensures Trim(s) == s
  {
  }

  lemma ParsePrinted(i: int, dflt: int)
    requires IsInt(i)
    ensures ParseInt(PrintInt(i), dflt) == i
  {
    TrimKeeps(PrintInt(i));
    if i < 0 {
      NatOfDigits(-i);
      assert PrintInt(i)[1..] == Digits(-i);
    } else {
      NatOfDigits(i);
    }
  }

  lemma ParsedIsInt(s: string, dflt: int)
    requires IsInt(dflt)
    ensures IsInt(ParseInt(s, dflt))
  {
  }
}

/** What decides a comparison: the first place where two texts, or two sections, differ. */
module OrderLaws {
  import opened JavaInts
  import opened Decimals
  import opened Sections

  /** Texts: the codes of the first differing characters, or else the lengths. */
  lemma {:induction false} FirstDifference(a: string, b: string, k: nat)
    requires k <= |a| && k <= |b| && a[..k] == b[..k]
    requires k < |a| && k < |b| ==> a[k] != b[k]
    ensures k < |a| && k < |b| ==> CompareText(a, b) == a[k] as int - b[k] as int
    ensures k == |a| || k == |b| ==> CompareText(a, b) == |a| - |b|
  {
    if k > 0 {
      assert a[0] == a[..k][0] && b[0] == b[..k][0];
      assert a[1..][..k-1] == a[..k][1..] && b[1..][..k-1] == b[..k][1..];
      FirstDifference(a[1..], b[1..], k - 1);
    }
  }

  ghost predicate IsNumeral(s: string) {
    s != "" && forall i :: 0 <= i < |s| ==> '0' <= s[i] <= '9'
  }

  lemma {:induction false} WrapsAtTheEnd(s: string)
    requires AllDigits(s)
    ensures WrappingValue(s) == Wrap32(NatOf(s))
  {
    if s != "" {
      var n, d := NatOf(s[..|s|-1]), (s[|s|-1] - '0') as int;
      WrapsAtTheEnd(s[..|s|-1]);
      TenTimes(n);
      Wrap32Idempotent(n * 10, d);
    }
  }

  lemma TenTimes(n: int)
    ensures Wrap32(Wrap32(n) * 10) == Wrap32(n * 10)
  {
    var k := (n + TWO_31) / TWO_32;
    assert Wrap32(n) == n - k * TWO_32;
    WrapShifts(n * 10, -(10 * k));
  }

  lemma WrapShifts(x: int, k: int)
    ensures Wrap32(x + k * TWO_32) == Wrap32(x)
  {
  }

  /** A component's number: its value as a 32-bit int, or -1 if it is no numeral. */
  lemma ComponentIs(s: string)
    ensures IsNumeral(s) ==> AllDigits(s) && AsInt(s) == Wrap32(NatOf(s))
    ensures !IsNumeral(s) ==> AsInt(s) == -1
  {
    assert IsNumeral(s) <==> s != "" && AllDigits(s);
    if AllDigits(s) { WrapsAtTheEnd(s); }
  }

  /** Components that do not decide: the same text, or two numerals with the same number. */
  ghost predicate Same(p: string, q: string) {
    p == q || (AsInt(p) >= 0 && AsInt(p) == AsInt(q))
  }

  lemma NotSame(p: string, q: string)
    ensures AsInt(p) >= 0 && AsInt(q) >= 0 ==> (Same(p, q) <==> AsInt(p) == AsInt(q))
    ensures AsInt(p) < 0 || AsInt(q) < 0 ==> (Same(p, q) <==> CompareText(p, q) == 0)
  {
    CompareFlips(p, q);
  }

  /** Sections: the first components that are not the same decide, as numbers if both are numerals and
      as text otherwise; a section comes before what continues it. */
  lemma {:induction false} FirstComponent(a: seq<string>, b: seq<string>, k: nat)
    requires k <= |a| && k <= |b| && forall i :: 0 <= i < k ==> Same(a[i], b[i])
    requires k < |a| && k < |b| ==> !Same(a[k], b[k])
    ensures k < |a| && k < |b| ==>
              var m, n := AsInt(a[k]), AsInt(b[k]);
              CompareParts(a, b) ==
                if m >= 0 && n >= 0 then (if m < n then -1 else 1) else CompareText(a[k], b[k])
    ensures k == |a| && k < |b| ==> CompareParts(a, b) == -1
    ensures k < |a| && k == |b| ==> CompareParts(a, b) == 1
    ensures k == |a| == |b| ==> CompareParts(a, b) == 0
  {
    if a != [] && b != [] { NotSame(a[0], b[0]); }
    if k > 0 {
      assert Same(a[0], b[0]);
      forall i | 0 <= i < k - 1 ensures Same(a[1..][i], b[1..][i]) { assert Same(a[i+1], b[i+1]); }
      FirstComponent(a[1..], b[1..], k - 1);
    }
  }
}

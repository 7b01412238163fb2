/** Which texts Tsv.parseInt takes for an int, and for which one. */
module Numerals {
  import opened JavaInts
  import opened Options
  import opened Decimals
  import opened Sequences

  ghost predicate Spaces(s: string) {
    forall i :: 0 <= i < |s| ==> s[i] <= ' '
  }

  ghost predicate Zeros(s: string) {
    forall i :: 0 <= i < |s| ==> s[i] == '0'
  }

  /** The sign and the magnitude of a number. */
  ghost predicate Signed(sign: string, n: nat, v: int) {
    (sign == "" && v == n) || (sign == "-" && v + n == 0)
  }

  /** The text is a number, spaced, with leading zeros, or neither. */
  ghost predicate Reads(s: string, v: int) {
    exists a: string, sign: string, zeros: string, n: nat, b: string ::
      s == a + (sign + (zeros + Digits(n)) + b) && IsNumeral(a, sign, zeros, n, b, v)
  }

  ghost predicate IsNumeral(a: string, sign: string, zeros: string, n: nat, b: string, v: int) {
    Spaces(a) && Spaces(b) && Zeros(zeros) && Signed(sign, n, v)
  }

  lemma {:induction false} LeftTrimmed(a: string, x: string)
    requires Spaces(a) && (x == "" || x[0] > ' ')
    ensures TrimLeft(a + x) == x
  {
    if a == "" {
      assert a + x == x;
    } else {
      LeftTrimmed(a[1..], x);
      FirstOfConcat(a, x);
    }
  }

  lemma {:induction false} RightTrimmed(x: string, b: string)
    requires Spaces(b) && (x == "" || x[|x|-1] > ' ')
    ensures TrimRight(x + b) == x
  {
    if b == "" {
      assert x + b == x;
    } else {
      RightTrimmed(x, b[..|b|-1]);
      LastOfConcat(x, b);
    }
  }

  lemma {:induction false} LeftSpaces(s: string) returns (a: string)
    ensures s == a + TrimLeft(s) && Spaces(a)
  {
    if s != "" && s[0] <= ' ' {
      var rest := LeftSpaces(s[1..]);
      a := [s[0]] + rest;
    } else {
      a := "";
    }
  }

  lemma {:induction false} RightSpaces(s: string) returns (b: string)
    ensures s == TrimRight(s) + b && Spaces(b)
  {
    if s != "" && s[|s|-1] <= ' ' {
      var rest := RightSpaces(s[..|s|-1]);
      b := rest + [s[|s|-1]];
      InitLast(s);
      Associates(TrimRight(s), rest, [s[|s|-1]]);
    } else {
      b := "";
    }
  }

  lemma {:induction false} ZerosDoNotCount(zeros: string, s: string)
    requires Zeros(zeros) && AllDigits(s)
    ensures AllDigits(zeros + s) && NatOf(zeros + s) == NatOf(s)
  {
    if s != "" {
      ZerosDoNotCount(zeros, s[..|s|-1]);
      LastOfConcat(zeros, s);
    } else {
      assert zeros + s == zeros;
      NothingBut(zeros);
    }
  }

  lemma {:induction false} NothingBut(zeros: string)
    requires Zeros(zeros)
    ensures AllDigits(zeros) && NatOf(zeros) == 0
  {
    if zeros != "" { NothingBut(zeros[..|zeros|-1]); }
  }

  lemma {:induction false} LeadingZeros(s: string) returns (zeros: string)
    requires s != "" && AllDigits(s)
    ensures s == zeros + Digits(NatOf(s)) && Zeros(zeros)
  {
    if Canonical(s) {
      zeros := "";
      DigitsOfCanonical(s);
    } else {
      var rest := LeadingZeros(s[1..]);
      zeros := "0" + rest;
      assert s == "0" + s[1..];
      ZerosDoNotCount("0", s[1..]);
    }
  }

  /** What is left when the spaces are gone. */
  lemma NumeralTrimmed(a: string, sign: string, zeros: string, n: nat, b: string, v: int)
    requires IsNumeral(a, sign, zeros, n, b, v)
    ensures Trim(a + (sign + (zeros + Digits(n)) + b)) == sign + (zeros + Digits(n))
  {
    var m := sign + (zeros + Digits(n));
    ZerosDoNotCount(zeros, Digits(n));
    assert m[|m|-1] == Digits(n)[|Digits(n)|-1];
    assert m[0] == '-' || IsDigit(m[0]);
    assert (m + b)[0] == m[0];
    LeftTrimmed(a, m + b);
    RightTrimmed(m, b);
  }

  /** A numeral after a sign. */
  lemma SignedRead(sign: string, body: string, v: int)
    requires body != "" && AllDigits(body) && Signed(sign, NatOf(body), v)
    ensures ParseJavaInt(sign + body) == if IsInt(v) then Some(v) else None
  {
    if sign == "" {
      assert sign + body == body && IsDigit(body[0]);
    } else {
      HeadTail('-', body);
    }
  }

  lemma BodyRead(sign: string, zeros: string, n: nat, v: int)
    requires Zeros(zeros) && Signed(sign, n, v)
    ensures ParseJavaInt(sign + (zeros + Digits(n))) == if IsInt(v) then Some(v) else None
  {
    ZerosDoNotCount(zeros, Digits(n));
    NatOfDigits(n);
    SignedRead(sign, zeros + Digits(n), v);
  }

  lemma SignSplits(m: string, v: int) returns (sign: string, body: string)
    requires ParseJavaInt(m) == Some(v)
    ensures m == sign + body && body != "" && AllDigits(body) && Signed(sign, NatOf(body), v) && IsInt(v)
  {
    if m[0] == '-' {
      sign, body := "-", m[1..];
    } else {
      sign, body := "", m;
    }
  }

  lemma WasRead(s: string, v: int)
    requires ParseJavaInt(Trim(s)) == Some(v)
    ensures IsInt(v) && Reads(s, v)
  {
    var a := LeftSpaces(s);
    var b := RightSpaces(TrimLeft(s));
    var sign, body := SignSplits(Trim(s), v);
    var zeros := LeadingZeros(body);
    Spelled(s, a, sign, zeros, NatOf(body), b, v);
  }

  lemma Spelled(s: string, a: string, sign: string, zeros: string, n: nat, b: string, v: int)
    requires IsNumeral(a, sign, zeros, n, b, v) && s == a + (sign + (zeros + Digits(n)) + b)
    ensures Reads(s, v)
  {
  }

  /** A text is read as `v` exactly when it spells `v`, spaces and leading zeros aside, and `v` is an
      int; the default stands for every other text. */
  lemma ParsedExactly(s: string, v: int)
    ensures ParseJavaInt(Trim(s)) == Some(v) <==> IsInt(v) && Reads(s, v)
  {
    if ParseJavaInt(Trim(s)) == Some(v) { WasRead(s, v); }
    if IsInt(v) && Reads(s, v) {
      var a: string, sign: string, zeros: string, n: nat, b: string :|
        s == a + (sign + (zeros + Digits(n)) + b) && IsNumeral(a, sign, zeros, n, b, v);
      NumeralTrimmed(a, sign, zeros, n, b, v);
      BodyRead(sign, zeros, n, v);
    }
  }

  lemma ParseIntIs(s: string, dflt: int)
    ensures forall v :: IsInt(v) && Reads(s, v) ==> ParseInt(s, dflt) == v
    ensures (forall v :: IsInt(v) ==> !Reads(s, v)) ==> ParseInt(s, dflt) == dflt
  {
    forall v ensures ParseJavaInt(Trim(s)) == Some(v) <==> IsInt(v) && Reads(s, v) { ParsedExactly(s, v); }
  }
}

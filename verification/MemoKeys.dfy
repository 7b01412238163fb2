/** The memo key "type@depth" (Stitcher.stitch). */
module MemoKeys {
  import opened Decimals

  function Key(ty: string, depth: nat): string {
    ty + "@" + Digits(depth)
  }

  /** Digits hold no '@', so the key can be read back whatever the type name holds. */
  lemma KeyIsInjective(t1: string, d1: nat, t2: string, d2: nat)
    ensures Key(t1, d1) == Key(t2, d2) <==> t1 == t2 && d1 == d2
  {
    if Key(t1, d1) == Key(t2, d2) {
      var k, n1, n2 := Key(t1, d1), |t1|, |t2|;
      assert k[n1] == '@' && k[n2] == '@';
      assert forall i :: n1 < i < |k| ==> k[i] == Digits(d1)[i - n1 - 1];
      assert forall i :: n2 < i < |k| ==> k[i] == Digits(d2)[i - n2 - 1];
      assert n1 == n2;
      assert k[..n1] == t1 && k[..n2] == t2;
      assert k[n1+1..] == Digits(d1) && k[n2+1..] == Digits(d2);
      DigitsInjective(d1, d2);
    }
  }
}

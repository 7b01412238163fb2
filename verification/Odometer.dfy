/** Filling a snippet's holes in nested-loop order, hole 0 outermost (Stitcher.stitch, pass 3). */
module Odometer {
  import opened Saturating
  import opened Sequences

  function Lengths<T>(lists: seq<seq<T>>): (lens: seq<nat>)
    ensures |lens| == |lists|
  {
    seq(|lists|, i requires 0 <= i < |lists| => |lists[i]|)
  }

  /** One loop: each head in turn, in front of every tail. */
  function Prepend<T>(heads: seq<T>, tails: seq<seq<T>>): seq<seq<T>> {
    if heads == [] then []
    else
      seq(|tails|, i requires 0 <= i < |tails| => [heads[0]] + tails[i]) + Prepend(heads[1..], tails)
  }

  /** Every way to pick one entry of each list, as nested loops visit them. */
  function Tuples<T>(lists: seq<seq<T>>): seq<seq<T>> {
    if lists == [] then [[]] else Prepend(lists[0], Tuples(lists[1..]))
  }

  lemma {:induction false} PrependAt<T>(heads: seq<T>, tails: seq<seq<T>>)
    ensures |Prepend(heads, tails)| == |heads| * |tails|
    ensures |tails| > 0 ==> forall k :: 0 <= k < |heads| * |tails| ==>
              && k / |tails| < |heads|
              && Prepend(heads, tails)[k] == [heads[k / |tails|]] + tails[k % |tails|]
  {
    if heads != [] {
      PrependAt(heads[1..], tails);
      var n := |tails|;
      assert |heads| * n == n + |heads[1..]| * n;
      forall k | n > 0 && 0 <= k < |heads| * n
        ensures k / n < |heads| && Prepend(heads, tails)[k] == [heads[k / n]] + tails[k % n]
      {
        if k >= n {
          DivModShift(k, n);
          assert Prepend(heads, tails)[k] == Prepend(heads[1..], tails)[k - n];
          assert heads[1..][(k - n) / n] == heads[k / n];
        } else {
          DivModSmall(k, n);
        }
      }
    }
  }

  // ---- reading an index digit by digit ----

  lemma MulDistributes(a: int, b: int, c: int)
    ensures (a + b) * c == a * c + b * c
    ensures (a - b) * c == a * c - b * c
  {
  }

  lemma MulAtLeast(a: int, c: int)
    requires a >= 1 && c >= 0
    ensures a * c >= c
  {
  }

  lemma DivModUnique(k: nat, d: nat, q: nat, r: nat)
    requires r < d && k == q * d + r
    ensures k / d == q && k % d == r
  {
    var Q, R := k / d, k % d;
    assert Q * d + R == k;
    MulDistributes(Q, q, d);
    MulDistributes(q, Q, d);
    if Q > q {
      MulAtLeast(Q - q, d);
    } else if Q < q {
      MulAtLeast(q - Q, d);
    }
  }

  lemma DivModShift(k: nat, n: nat)
    requires 0 < n <= k
    ensures (k - n) / n == k / n - 1 && (k - n) % n == k % n
  {
    var q, r := k / n, k % n;
    assert q * n + r == k;
    MulDistributes(q, 1, n);
    DivModUnique(k - n, n, q - 1, r);
  }

  lemma DivModSmall(k: nat, n: nat)
    requires k < n
    ensures k / n == 0 && k % n == k
  {
  }

  /** Peeling the fastest digit off a two-digit reading. */
  lemma DivModNested(k: nat, n: nat, p: nat)
    requires n > 0 && p > 0
    ensures n * p > 0
    ensures k / (n * p) == (k / p) / n
    ensures (k % (n * p)) / p == (k / p) % n
    ensures (k % (n * p)) % p == k % p
  {
    var q, r := k / p, k % p;
    var a, b := q / n, q % n;
    var low := b * p + r;
    assert low < n * p by {
      MulDistributes(n, b, p);
      MulAtLeast(n - b, p);
    }
    assert k == a * (n * p) + low by {
      assert k == q * p + r;
      assert q == a * n + b;
      MulDistributes(a * n, b, p);
      MulAssociates(a, n, p);
    }
    DivModUnique(k, n * p, a, low);
    DivModUnique(low, p, b, r);
  }

  lemma MulAssociates(a: int, b: int, c: int)
    ensures (a * b) * c == a * (b * c)
  {
  }

  lemma {:induction false} TuplesCount<T>(lists: seq<seq<T>>)
    ensures |Tuples(lists)| == Product(Lengths(lists))
  {
    if lists != [] {
      TuplesCount(lists[1..]);
      PrependAt(lists[0], Tuples(lists[1..]));
      assert Lengths(lists)[1..] == Lengths(lists[1..]);
    }
  }

  ghost predicate Picks<T>(t: seq<T>, lists: seq<seq<T>>) {
    |t| == |lists| && forall i :: 0 <= i < |lists| ==> t[i] in lists[i]
  }

  /** The nested loops reach exactly the picks. */
  lemma {:induction false} PrependMember<T>(heads: seq<T>, tails: seq<seq<T>>, t: seq<T>)
    ensures t in Prepend(heads, tails) <==> |t| > 0 && t[0] in heads && t[1..] in tails
  {
    if heads != [] {
      PrependMember(heads[1..], tails, t);
      var first := seq(|tails|, i requires 0 <= i < |tails| => [heads[0]] + tails[i]);
      if t in first {
        var i :| 0 <= i < |first| && first[i] == t;
        assert t[1..] == tails[i];
      }
      if |t| > 0 && t[0] == heads[0] && t[1..] in tails {
        var i :| 0 <= i < |tails| && tails[i] == t[1..];
        assert first[i] == t;
      }
    }
  }

  lemma {:induction false} PrependDistinct<T>(heads: seq<T>, tails: seq<seq<T>>)
    requires Distinct(heads) && Distinct(tails)
    ensures Distinct(Prepend(heads, tails))
  {
    if heads != [] {
      PrependDistinct(heads[1..], tails);
      var first := seq(|tails|, i requires 0 <= i < |tails| => [heads[0]] + tails[i]);
      forall i, j | 0 <= i < j < |first| ensures first[i] != first[j] {
        assert first[i][1..] == tails[i] && first[j][1..] == tails[j];
      }
      forall t | t in first ensures t !in Prepend(heads[1..], tails) {
        PrependMember(heads[1..], tails, t);
      }
      DistinctConcat(first, Prepend(heads[1..], tails));
    }
  }

  /** The nested loops reach exactly the picks. */
  lemma {:induction false} TuplesAreAllPicks<T>(lists: seq<seq<T>>, t: seq<T>)
    ensures t in Tuples(lists) <==> Picks(t, lists)
  {
    if lists != [] {
      PrependMember(lists[0], Tuples(lists[1..]), t);
      if |t| > 0 {
        TuplesAreAllPicks(lists[1..], t[1..]);
        if Picks(t[1..], lists[1..]) && t[0] in lists[0] {
          forall i | 0 <= i < |lists| ensures t[i] in lists[i] {
            if i > 0 { assert t[1..][i-1] in lists[1..][i-1]; }
          }
        }
      }
    }
  }

  lemma {:induction false} TuplesAreDistinct<T>(lists: seq<seq<T>>)
    requires forall i :: 0 <= i < |lists| ==> Distinct(lists[i])
    ensures Distinct(Tuples(lists))
  {
    if lists != [] {
      TuplesAreDistinct(lists[1..]);
      PrependDistinct(lists[0], Tuples(lists[1..]));
    }
  }

  /** The `k`-th filling: a mixed-radix reading of `k`, the last hole its fastest digit. */
  method Filling<T(0)>(sub: seq<seq<T>>, k: nat) returns (kids: array<T>)
    requires k < |Tuples(sub)|
    ensures kids[..] == Tuples(sub)[k]
  {
    TuplesCount(sub);
    ProductPositive(Lengths(sub));
    var n := |sub|;
    kids := new T[n];
    var rem := k;
    assert sub[n..] == [];
    var i := n;
    while i > 0
      invariant 0 <= i <= n
      invariant |Tuples(sub[i..])| > 0
      invariant rem == k / |Tuples(sub[i..])|
      invariant kids[i..] == Tuples(sub[i..])[k % |Tuples(sub[i..])|]
    {
      i := i - 1;
      var f := sub[i];
      assert |f| == Lengths(sub)[i];
      ghost var p := |Tuples(sub[i+1..])|;
      assert sub[i..] == [f] + sub[i+1..] && sub[i..][1..] == sub[i+1..];
      PrependAt(f, Tuples(sub[i+1..]));
      DivModNested(k, |f|, p);
      ghost var tail := kids[i+1..];
      kids[i] := f[rem % |f|];
      rem := rem / |f|;
      assert kids[i+1..] == tail;
      assert kids[i..] == [f[(k / p) % |f|]] + tail;
    }
    assert sub[0..] == sub && kids[0..] == kids[..];
    DivModSmall(k, |Tuples(sub)|);
  }
}

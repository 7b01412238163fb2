/** Hole types nothing produces: when the enumerator refuses to run, and which type it names. */
module Demand {
  import opened Options
  import opened Snippets

  /** The first unproduced type met by the recursion of Stitcher.stitch, in evaluation order. */
  function Missing(lib: seq<Snippet>, ty: string, depth: nat): Option<string>
    decreases depth, 2
  {
    if !Produces(lib, ty) then Some(ty) else MissingAmong(lib, ByType(lib, ty), depth)
  }

  function MissingAmong(lib: seq<Snippet>, cands: seq<Snippet>, depth: nat): Option<string>
    decreases depth, 1, |cands|
  {
    if cands == [] then None
    else
      var n := |cands| - 1;
      var before := MissingAmong(lib, cands[..n], depth);
      if before.Some? then before else MissingIn(lib, cands[n].holes, depth)
  }

  function MissingIn(lib: seq<Snippet>, holes: seq<string>, depth: nat): Option<string>
    decreases depth, 0, |holes|
  {
    if holes == [] || depth == 0 then None
    else
      var n := |holes| - 1;
      var before := MissingIn(lib, holes[..n], depth);
      if before.Some? then before else Missing(lib, holes[n], depth - 1)
  }

  /** `want` is needed, directly or through holes, to enumerate `ty` at this depth. */
  ghost predicate Demanded(lib: seq<Snippet>, ty: string, depth: nat, want: string)
    decreases depth
  {
    || want == ty
    || (depth > 0 && exists s, h :: s in ByType(lib, ty) && h in s.holes && Demanded(lib, h, depth - 1, want))
  }

  lemma {:induction false} MissingAmongAt(lib: seq<Snippet>, cands: seq<Snippet>, depth: nat) returns (i: nat)
    requires MissingAmong(lib, cands, depth).Some?
    ensures i < |cands| && MissingAmong(lib, cands, depth) == MissingIn(lib, cands[i].holes, depth)
    ensures forall k :: 0 <= k < i ==> MissingIn(lib, cands[k].holes, depth) == None
  {
    var n := |cands| - 1;
    if MissingAmong(lib, cands[..n], depth).Some? {
      i := MissingAmongAt(lib, cands[..n], depth);
    } else {
      i := n;
      forall k | 0 <= k < n ensures MissingIn(lib, cands[k].holes, depth) == None {
        NoneAmong(lib, cands[..n], depth, k);
      }
    }
  }

  lemma {:induction false} MissingInAt(lib: seq<Snippet>, holes: seq<string>, depth: nat) returns (j: nat)
    requires MissingIn(lib, holes, depth).Some?
    ensures depth > 0 && j < |holes| && MissingIn(lib, holes, depth) == Missing(lib, holes[j], depth - 1)
    ensures forall k :: 0 <= k < j ==> Missing(lib, holes[k], depth - 1) == None
  {
    var n := |holes| - 1;
    if MissingIn(lib, holes[..n], depth).Some? {
      j := MissingInAt(lib, holes[..n], depth);
    } else {
      j := n;
      forall k | 0 <= k < n ensures Missing(lib, holes[k], depth - 1) == None { NoneIn(lib, holes[..n], depth, k); }
    }
  }

  lemma {:induction false} NoneAmong(lib: seq<Snippet>, cands: seq<Snippet>, depth: nat, i: nat)
    requires MissingAmong(lib, cands, depth) == None && i < |cands|
    ensures MissingIn(lib, cands[i].holes, depth) == None
  {
    if i < |cands| - 1 { NoneAmong(lib, cands[..|cands|-1], depth, i); }
  }

  lemma {:induction false} NoneIn(lib: seq<Snippet>, holes: seq<string>, depth: nat, j: nat)
    requires MissingIn(lib, holes, depth) == None && depth > 0 && j < |holes|
    ensures Missing(lib, holes[j], depth - 1) == None
  {
    if j < |holes| - 1 { NoneIn(lib, holes[..|holes|-1], depth, j); }
  }

  /** Where the missing type was met, one level down. */
  lemma MissingBelow(lib: seq<Snippet>, cands: seq<Snippet>, depth: nat) returns (s: Snippet, h: string)
    requires MissingAmong(lib, cands, depth).Some?
    ensures depth > 0 && s in cands && h in s.holes && Missing(lib, h, depth - 1) == MissingAmong(lib, cands, depth)
  {
    var i := MissingAmongAt(lib, cands, depth);
    s := cands[i];
    var j := MissingInAt(lib, s.holes, depth);
    h := s.holes[j];
  }

  /** The type named in the failure is really demanded and really unproduced. */
  lemma {:induction false} MissingIsDemanded(lib: seq<Snippet>, ty: string, depth: nat, u: string)
    requires Missing(lib, ty, depth) == Some(u)
    ensures Demanded(lib, ty, depth, u) && !Produces(lib, u)
    decreases depth
  {
    if Produces(lib, ty) {
      var s, h := MissingBelow(lib, ByType(lib, ty), depth);
      MissingIsDemanded(lib, h, depth - 1, u);
    }
  }

  lemma {:induction false} DemandedIsProduced(lib: seq<Snippet>, ty: string, depth: nat, want: string)
    requires Missing(lib, ty, depth) == None && Demanded(lib, ty, depth, want)
    ensures Produces(lib, want)
    decreases depth
  {
    if want != ty {
      var cands := ByType(lib, ty);
      var s, h :| s in cands && h in s.holes && Demanded(lib, h, depth - 1, want);
      NoneBelow(lib, cands, depth, s, h);
      DemandedIsProduced(lib, h, depth - 1, want);
    }
  }

  lemma NoneBelow(lib: seq<Snippet>, cands: seq<Snippet>, depth: nat, s: Snippet, h: string)
    requires MissingAmong(lib, cands, depth) == None && depth > 0 && s in cands && h in s.holes
    ensures Missing(lib, h, depth - 1) == None
  {
    var i :| 0 <= i < |cands| && cands[i] == s;
    var j :| 0 <= j < |s.holes| && s.holes[j] == h;
    NoneAmong(lib, cands, depth, i);
    NoneIn(lib, s.holes, depth, j);
  }

  /** The enumeration goes through exactly when every demanded type is produced. */
  lemma RunsIffSupplied(lib: seq<Snippet>, ty: string, depth: nat)
    ensures Missing(lib, ty, depth) == None <==> forall u :: Demanded(lib, ty, depth, u) ==> Produces(lib, u)
  {
    if Missing(lib, ty, depth) == None {
      forall u | Demanded(lib, ty, depth, u) ensures Produces(lib, u) { DemandedIsProduced(lib, ty, depth, u); }
    } else {
      MissingIsDemanded(lib, ty, depth, Missing(lib, ty, depth).value);
    }
  }
}

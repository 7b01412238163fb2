/** The registry of snippets, indexed by the type each yields (Registry.java). */
module Registries {
  import opened Options
  import opened Sequences
  import opened Snippets

  datatype RegisterError =
    | EmptyId
    | DuplicateId
    | NoType
    | UnusableHole(index: nat)
    | NoSection
    | RejectionWithHoles

  predicate UsableHole(h: string) {
    h != "" && h != "void"
  }

  ghost predicate WellFormed(s: Snippet) {
    s.id != "" && s.ty != "" && s.sections != [] && forall h :: h in s.holes ==> UsableHole(h)
  }

  function FirstUnusable(holes: seq<string>): (i: nat)
    ensures i <= |holes| && (i < |holes| ==> !UsableHole(holes[i]))
    ensures forall j :: 0 <= j < i ==> UsableHole(holes[j])
  {
    if holes == [] || !UsableHole(holes[0]) then 0 else 1 + FirstUnusable(holes[1..])
  }

  /** The first rule a snippet breaks, in the order they are tried. */
  function Refusal(s: Snippet, known: bool): Option<RegisterError> {
    if s.id == "" then Some(EmptyId)
    else if known then Some(DuplicateId)
    else if s.ty == "" then Some(NoType)
    else if FirstUnusable(s.holes) < |s.holes| then Some(UnusableHole(FirstUnusable(s.holes)))
    else if s.sections == [] then Some(NoSection)
    else if s.ty == REJECT && s.holes != [] then Some(RejectionWithHoles)
    else None
  }

  lemma NothingRefused(s: Snippet, known: bool)
    ensures Refusal(s, known) in {None, Some(RejectionWithHoles)} <==> WellFormed(s) && !known
  {
    var i := FirstUnusable(s.holes);
    if i < |s.holes| { assert s.holes[i] in s.holes; }
  }

  /** The types that can fill a hole, in the order each was first registered. */
  function TypesOf(lib: seq<Snippet>): seq<string> {
    if lib == [] then []
    else
      var init, last := TypesOf(lib[..|lib|-1]), lib[|lib|-1];
      if last.ty == REJECT || last.ty in init then init else init + [last.ty]
  }

  lemma {:induction false} TypesAreProduced(lib: seq<Snippet>)
    ensures forall ty :: ty in TypesOf(lib) <==> Produces(lib, ty)
    ensures Distinct(TypesOf(lib))
  {
    if lib != [] {
      TypesAreProduced(lib[..|lib|-1]);
    }
  }

  function RejectsOf(lib: seq<Snippet>): seq<Snippet> {
    if lib == [] then []
    else
      var last := lib[|lib|-1];
      RejectsOf(lib[..|lib|-1]) + if last.ty == REJECT && last.holes == [] then [last] else []
  }

  ghost predicate IdEntry(lib: seq<Snippet>, idMap: map<string, Snippet>, id: string) {
    if id in idMap then idMap[id] in lib && idMap[id].id == id && WellFormed(idMap[id])
    else forall s :: s in lib ==> s.id != id
  }

  ghost predicate IdTable(lib: seq<Snippet>, idMap: map<string, Snippet>) {
    UniqueIds(lib) && forall id :: IdEntry(lib, idMap, id)
  }

  ghost predicate TypeEntry(lib: seq<Snippet>, buckets: map<string, seq<Snippet>>, ty: string) {
    if Produces(lib, ty) then ty in buckets && buckets[ty] == ByType(lib, ty) else ty !in buckets
  }

  ghost predicate TypeTable(lib: seq<Snippet>, buckets: map<string, seq<Snippet>>) {
    forall ty :: TypeEntry(lib, buckets, ty)
  }

  datatype Tables = Tables(rejects: seq<Snippet>, typeOrder: seq<string>,
                           buckets: map<string, seq<Snippet>>, idMap: map<string, Snippet>)

  /** All the tables are views of the one registration order. */
  ghost predicate Views(lib: seq<Snippet>, tables: Tables) {
    match tables
    case Tables(rejects, typeOrder, buckets, idMap) =>
      && IdTable(lib, idMap)
      && TypeTable(lib, buckets)
      && rejects == RejectsOf(lib)
      && typeOrder == TypesOf(lib)
  }

  class Registry {
    var snippets: seq<Snippet>
    var rejects: seq<Snippet>
    var typeOrder: seq<string>
    var buckets: map<string, seq<Snippet>>
    var idMap: map<string, Snippet>

    ghost predicate Valid()
      reads this
    {
      Views(snippets, Tables(rejects, typeOrder, buckets, idMap))
    }

    constructor ()
      ensures Valid() && snippets == []
    {
      snippets, rejects, typeOrder, buckets, idMap := [], [], [], map[], map[];
    }

    /** Registry.byType: the bucket, or nothing. */
    function Bucket(ty: string): (cands: seq<Snippet>)
      requires Valid()
      reads this
      ensures cands == ByType(snippets, ty)
    {
      assert TypeEntry(snippets, buckets, ty);
      if ty in buckets then buckets[ty] else []
    }

    /** The checks before anything is entered. */
    method Refuse(s: Snippet) returns (err: Option<RegisterError>)
      requires Valid()
      ensures err == None <==> WellFormed(s) && s.id !in idMap
      ensures err.Some? ==> err == Refusal(s, s.id in idMap)
    {
      if s.id == "" { return Some(EmptyId); }
      if s.id in idMap { return Some(DuplicateId); }
      if s.ty == "" { return Some(NoType); }
      for i := 0 to |s.holes|
        invariant forall j :: 0 <= j < i ==> UsableHole(s.holes[j])
      {
        if s.holes[i] == "" || s.holes[i] == "void" {
          assert s.holes[i] in s.holes && !UsableHole(s.holes[i]);
          assert FirstUnusable(s.holes) == i;
          return Some(UnusableHole(i));
        }
      }
      assert FirstUnusable(s.holes) == |s.holes|;
      if s.sections == [] { return Some(NoSection); }
      return None;
    }

    /** A rejection goes to its own list, never into a type bucket. */
    method EnterRejection(s: Snippet) returns (err: Option<RegisterError>)
      requires Valid() && WellFormed(s) && s.ty == REJECT && s.id !in idMap
      modifies this
      ensures Valid() && snippets == old(snippets) + [s]
      ensures err == if s.holes == [] then None else Some(RejectionWithHoles)
    {
      RejectionViews(snippets, Tables(rejects, typeOrder, buckets, idMap), s);
      idMap := idMap[s.id := s];
      snippets := snippets + [s];
      if s.holes != [] {
        assert Views(snippets, Tables(rejects, typeOrder, buckets, idMap));
        return Some(RejectionWithHoles);
      }
      rejects := rejects + [s];
      assert Views(snippets, Tables(rejects, typeOrder, buckets, idMap));
      return None;
    }

    /** Everything else joins the bucket of its type. */
    method EnterTyped(s: Snippet)
      requires Valid() && WellFormed(s) && s.ty != REJECT && s.id !in idMap
      modifies this
      ensures Valid() && snippets == old(snippets) + [s]
    {
      ViewsGrow(snippets, Tables(rejects, typeOrder, buckets, idMap), s);
      FiledIs(buckets, s);
      idMap := idMap[s.id := s];
      snippets := snippets + [s];
      if s.ty !in buckets {
        buckets := buckets[s.ty := []];
        typeOrder := typeOrder + [s.ty];
      }
      buckets := buckets[s.ty := buckets[s.ty] + [s]];
    }

    /** A snippet is refused unless it is well-formed, its id is new, and it has no holes if it is
        a rejection. A refused one leaves the registry as it was, except that a rejection with
        holes is refused only after it has been entered among all snippets. */
    method Register(s: Snippet) returns (err: Option<RegisterError>)
      requires Valid()
      modifies this
      ensures Valid()
      ensures err == None <==>
        WellFormed(s) && (forall t :: t in old(snippets) ==> t.id != s.id) && (s.ty == REJECT ==> s.holes == [])
      ensures err == Refusal(s, exists t :: t in old(snippets) && t.id == s.id)
      ensures snippets == if err == None || err == Some(RejectionWithHoles) then old(snippets) + [s] else old(snippets)
    {
      err := Refuse(s);
      NewIds(snippets, idMap, s.id);
      NothingRefused(s, s.id in idMap);
      if err.Some? { return; }
      if s.ty == REJECT {
        err := EnterRejection(s);
      } else {
        EnterTyped(s);
      }
    }
  }

  lemma ViewsGrow(lib: seq<Snippet>, tables: Tables, s: Snippet)
    requires Views(lib, tables) && WellFormed(s) && s.id !in tables.idMap
    ensures Views(lib + [s], Tables(
                  if s.ty == REJECT && s.holes == [] then tables.rejects + [s] else tables.rejects,
                  if s.ty == REJECT || s.ty in tables.buckets then tables.typeOrder else tables.typeOrder + [s.ty],
                  Filed(tables.buckets, s),
                  tables.idMap[s.id := s]))
  {
    IdTableGrows(lib, tables.idMap, s);
    TypesGrow(lib, s);
    TypeTableGrows(lib, tables.buckets, s);
    assert TypeEntry(lib, tables.buckets, s.ty);
  }

  /** A rejection changes the ids and, without holes, the list of rejections. */
  lemma RejectionViews(lib: seq<Snippet>, tables: Tables, s: Snippet)
    requires Views(lib, tables) && WellFormed(s) && s.ty == REJECT && s.id !in tables.idMap
    ensures s.holes != [] ==> Views(lib + [s], tables.(idMap := tables.idMap[s.id := s]))
    ensures s.holes == [] ==>
              Views(lib + [s], tables.(rejects := tables.rejects + [s], idMap := tables.idMap[s.id := s]))
  {
    ViewsGrow(lib, tables, s);
  }

  lemma TypesGrow(lib: seq<Snippet>, s: Snippet)
    ensures RejectsOf(lib + [s]) == RejectsOf(lib) + if s.ty == REJECT && s.holes == [] then [s] else []
    ensures TypesOf(lib + [s]) == TypesOf(lib) + if s.ty == REJECT || Produces(lib, s.ty) then [] else [s.ty]
  {
    assert (lib + [s])[..|lib|] == lib;
    TypesAreProduced(lib);
  }

  lemma ByTypeGrows(lib: seq<Snippet>, s: Snippet, ty: string)
    ensures ByType(lib + [s], ty) == ByType(lib, ty) + if s.ty == ty && ty != REJECT then [s] else []
  {
    assert (lib + [s])[..|lib|] == lib;
  }

  lemma NewIds(lib: seq<Snippet>, idMap: map<string, Snippet>, id: string)
    requires IdTable(lib, idMap)
    ensures id !in idMap <==> forall t :: t in lib ==> t.id != id
  {
    assert IdEntry(lib, idMap, id);
  }

  lemma IdTableGrows(lib: seq<Snippet>, idMap: map<string, Snippet>, s: Snippet)
    requires IdTable(lib, idMap) && WellFormed(s) && s.id !in idMap
    ensures IdTable(lib + [s], idMap[s.id := s])
  {
    assert IdEntry(lib, idMap, s.id);
    var lib', idMap' := lib + [s], idMap[s.id := s];
    forall id ensures IdEntry(lib', idMap', id) {
      assert IdEntry(lib, idMap, id);
    }
  }

  /** The bucket table after a snippet of type `s.ty` has been filed. */
  function Filed(buckets: map<string, seq<Snippet>>, s: Snippet): map<string, seq<Snippet>> {
    if s.ty == REJECT then buckets
    else buckets[s.ty := (if s.ty in buckets then buckets[s.ty] else []) + [s]]
  }

  /** Filed by way of an empty bucket, if there was none. */
  lemma FiledIs(buckets: map<string, seq<Snippet>>, s: Snippet)
    requires s.ty != REJECT
    ensures s.ty in buckets ==> Filed(buckets, s) == buckets[s.ty := buckets[s.ty] + [s]]
    ensures s.ty !in buckets ==>
              var begun := buckets[s.ty := []];
              Filed(buckets, s) == begun[s.ty := begun[s.ty] + [s]]
  {
  }

  lemma TypeTableGrows(lib: seq<Snippet>, buckets: map<string, seq<Snippet>>, s: Snippet)
    requires TypeTable(lib, buckets)
    ensures TypeTable(lib + [s], Filed(buckets, s))
  {
    forall ty ensures TypeEntry(lib + [s], Filed(buckets, s), ty) {
      ByTypeGrows(lib, s, ty);
      assert TypeEntry(lib, buckets, ty);
    }
  }

  // ---- what is refused, and in which order things are kept ----

  /** Each refusal by its own condition: those tried before it do not hold. */
  lemma RefusalIs(s: Snippet, known: bool, i: nat)
    ensures Refusal(s, known) == Some(EmptyId) <==> s.id == ""
    ensures Refusal(s, known) == Some(DuplicateId) <==> s.id != "" && known
    ensures Refusal(s, known) == Some(NoType) <==> s.id != "" && !known && s.ty == ""
    ensures Refusal(s, known) == Some(UnusableHole(i)) <==>
              && s.id != "" && !known && s.ty != "" && i < |s.holes| && s.holes[i] in {"", "void"}
              && forall j :: 0 <= j < i ==> s.holes[j] !in {"", "void"}
    ensures Refusal(s, known) == Some(NoSection) <==>
              && s.id != "" && !known && s.ty != "" && s.sections == []
              && forall j :: 0 <= j < |s.holes| ==> s.holes[j] !in {"", "void"}
    ensures Refusal(s, known) == Some(RejectionWithHoles) <==>
              && s.id != "" && !known && s.ty == "reject" && s.sections != [] && s.holes != []
              && forall j :: 0 <= j < |s.holes| ==> s.holes[j] !in {"", "void"}
  {
    forall h: string ensures UsableHole(h) <==> h !in {"", "void"} {
    }
    var u := FirstUnusable(s.holes);
    assert u < |s.holes| ==> s.holes[u] in {"", "void"};
  }

  /** The rejections come in the order they were registered, whatever lies between. */
  lemma {:induction false} RejectsConcat(a: seq<Snippet>, b: seq<Snippet>)
    ensures RejectsOf(a + b) == RejectsOf(a) + RejectsOf(b)
  {
    if b == [] {
      assert a + b == a;
    } else {
      var init, last := b[..|b|-1], b[|b|-1];
      RejectsConcat(a, init);
      LastOfConcat(a, b);
      if last.ty == REJECT && last.holes == [] { Associates(RejectsOf(a), RejectsOf(init), [last]); }
    }
  }

  /** The rejections are the registered snippets of that type, if they take no holes. */
  lemma {:induction false} RejectsAre(lib: seq<Snippet>)
    ensures forall s :: s in RejectsOf(lib) <==> s in lib && s.ty == "reject" && s.holes == []
  {
    if lib != [] {
      RejectsAre(lib[..|lib|-1]);
      InitLast(lib);
    }
  }

  /** The types come in the order each was first produced: those of an early part of the library come
      first, and in the same order. */
  lemma {:induction false} EarlierTypesFirst(a: seq<Snippet>, b: seq<Snippet>)
    ensures TypesOf(a) <= TypesOf(a + b)
  {
    if b == [] {
      assert a + b == a;
    } else {
      EarlierTypesFirst(a, b[..|b|-1]);
      LastOfConcat(a, b);
    }
  }
}

/** The structure gate of a decoded wasm module (jav_module_struct.c), against the module production
    and the count conditions of section 5.5 of the WebAssembly Core Specification 3.0. */
module ModuleStruct {
  import opened JavaInts
  import opened Options
  import opened Sequences

  type u32 = x: int | 0 <= x < 0x1_0000_0000

  /** A section as the gate sees it: its id, its `count` leaf and, for the code section, the lengths
      of the run-length encoded groups of locals of each function. */
  datatype Section = Section(id: int, count: u32, bodies: seq<seq<u32>>)

  datatype Verdict = NoError | SectionOrder | FuncCodeLengths | DataCountLengths | TooManyLocals

  const CUSTOM := 0
  const FUNCTIONS := 3
  const CODE := 10
  const DATA := 11
  const DATA_COUNT := 12

  // ---- the grammar ----

  datatype Symbol = Customs | Optional(id: int)

  /** The non-custom sections in the order section 5.5.17 lists them. */
  const ORDER := [1, 2, 3, 4, 5, 13, 6, 7, 8, 9, 12, 10, 11]

  function ProductionOf(order: seq<int>): seq<Symbol> {
    if order == [] then [Customs] else [Customs, Optional(order[0])] + ProductionOf(order[1..])
  }

  /** The grammar's derivation relation on the sequence of section ids. */
  predicate Derives(production: seq<Symbol>, ids: seq<int>)
    decreases |production| + |ids|
  {
    if production == [] then ids == []
    else
      match production[0]
      case Customs => Derives(production[1..], ids) || (ids != [] && ids[0] == CUSTOM && Derives(production, ids[1..]))
      case Optional(id) =>
        Derives(production[1..], ids) || (ids != [] && ids[0] == id && Derives(production[1..], ids[1..]))
  }

  // ---- the scan ----

  /** section_rank: every other id ranks with the custom sections. */
  function Rank(id: int): (r: int)
    ensures -1 <= r < 13
  {
    match id
    case 1 => 0
    case 2 => 1
    case 3 => 2
    case 4 => 3
    case 5 => 4
    case 13 => 5
    case 6 => 6
    case 7 => 7
    case 8 => 8
    case 9 => 9
    case 12 => 10
    case 10 => 11
    case 11 => 12
    case _ => -1
  }

  lemma RankIsPosition(id: int)
    ensures Rank(id) >= 0 <==> id in ORDER
    ensures Rank(id) >= 0 ==> ORDER[Rank(id)] == id
    ensures Rank(id) < 0 && 0 <= id <= 13 ==> id == CUSTOM
    ensures forall j :: 0 <= j < 13 ==> Rank(ORDER[j]) == j
  {
  }

  /** The order is that of the ids, but for two sections that were numbered late: tags (13) come between
      memories (5) and globals (6), and the data count (12) between elements (9) and code (10). */
  lemma RanksFollowIds(a: int, b: int)
    ensures 1 <= a <= 11 && 1 <= b <= 11 ==> (Rank(a) < Rank(b) <==> a < b)
    ensures Rank(5) < Rank(13) < Rank(6) && Rank(9) < Rank(12) < Rank(10)
  {
  }

  /** The scan from the rank reached so far. */
  predicate Increasing(ids: seq<int>, last: int) {
    ids == [] ||
    var r := Rank(ids[0]);
    if r < 0 then Increasing(ids[1..], last) else r > last && Increasing(ids[1..], r)
  }

  // ---- the scan is the grammar ----

  /** The rest of the production once the sections before `k` are past. */
  function After(k: nat): seq<Symbol>
    requires k <= 13
  {
    ProductionOf(ORDER[k..])
  }

  lemma AfterStep(k: nat)
    requires k < 13
    ensures After(k)[1..] == [Optional(ORDER[k])] + After(k + 1)
    ensures After(k)[0] == Customs && After(k)[1..][0] == Optional(ORDER[k]) && After(k)[1..][1..] == After(k + 1)
  {
    assert ORDER[k..][1..] == ORDER[k+1..] && ORDER[k..][0] == ORDER[k];
  }

  /** One custom section more, or one optional section taken or passed over. */
  lemma DerivesStep(k: nat, ids: seq<int>)
    requires k < 13
    ensures Derives(After(k), ids) <==>
              Derives(After(k + 1), ids)
              || (ids != [] && ids[0] == CUSTOM && Derives(After(k), ids[1..]))
              || (ids != [] && ids[0] == ORDER[k] && Derives(After(k + 1), ids[1..]))
  {
    AfterStep(k);
  }

  lemma DerivesEnd(ids: seq<int>)
    ensures Derives(After(13), ids) <==> ids == [] || (ids[0] == CUSTOM && Derives(After(13), ids[1..]))
  {
    assert ORDER[13..] == [];
    assert After(13) == [Customs] && After(13)[1..] == [];
  }

  lemma {:induction false} DerivesNothing(k: nat)
    requires k <= 13
    ensures Derives(After(k), [])
    decreases 13 - k
  {
    if k < 13 {
      DerivesNothing(k + 1);
      DerivesStep(k, []);
    } else {
      DerivesEnd([]);
    }
  }

  lemma {:induction false} DerivesCustom(k: nat, ids: seq<int>)
    requires k <= 13 && ids != [] && ids[0] == CUSTOM
    ensures Derives(After(k), ids) <==> Derives(After(k), ids[1..])
    decreases 13 - k
  {
    if k < 13 {
      DerivesCustom(k + 1, ids);
      RankIsPosition(ORDER[k]);
      DerivesStep(k, ids);
      DerivesStep(k, ids[1..]);
    } else {
      DerivesEnd(ids);
    }
  }

  lemma {:induction false} DerivesRanked(k: nat, ids: seq<int>)
    requires k <= 13 && ids != [] && ids[0] in ORDER
    ensures Derives(After(k), ids) <==> Rank(ids[0]) >= k && Derives(After(Rank(ids[0]) + 1), ids[1..])
    decreases 13 - k
  {
    RankIsPosition(ids[0]);
    if k < 13 {
      DerivesRanked(k + 1, ids);
      DerivesStep(k, ids);
    } else {
      DerivesEnd(ids);
    }
  }

  lemma RankOrCustom(id: int)
    requires 0 <= id <= 13
    ensures Rank(id) < 0 ==> id == CUSTOM
    ensures Rank(id) >= 0 ==> id in ORDER
  {
    RankIsPosition(id);
  }

  lemma {:induction false} ScanFromIsGrammar(ids: seq<int>, last: int)
    requires -1 <= last < 13 && forall i :: 0 <= i < |ids| ==> 0 <= ids[i] <= 13
    ensures Increasing(ids, last) <==> Derives(After(last + 1), ids)
    decreases |ids|
  {
    if ids == [] {
      DerivesNothing(last + 1);
    } else {
      var r := Rank(ids[0]);
      RankOrCustom(ids[0]);
      if r < 0 {
        DerivesCustom(last + 1, ids);
        ScanFromIsGrammar(ids[1..], last);
      } else {
        DerivesRanked(last + 1, ids);
        ScanFromIsGrammar(ids[1..], r);
      }
    }
  }

  /** The decoder admits the ids 0 to 13; the scan takes any other for a custom section. */
  function Known(ids: seq<int>): (known: seq<int>)
    ensures |known| == |ids|
    ensures forall i :: 0 <= i < |ids| ==> 0 <= known[i] <= 13 && Rank(known[i]) == Rank(ids[i])
    ensures (forall i :: 0 <= i < |ids| ==> 0 <= ids[i] <= 13) ==> known == ids
  {
    seq(|ids|, i requires 0 <= i < |ids| => if 0 <= ids[i] <= 13 then ids[i] else CUSTOM)
  }

  lemma {:induction false} OnlyRanksMatter(a: seq<int>, b: seq<int>, last: int)
    requires |a| == |b| && forall i :: 0 <= i < |a| ==> Rank(a[i]) == Rank(b[i])
    ensures Increasing(a, last) == Increasing(b, last)
  {
    if a != [] { OnlyRanksMatter(a[1..], b[1..], if Rank(a[0]) < 0 then last else Rank(a[0])); }
  }

  /** For every sequence of section ids, the rank scan accepts exactly what the module production
      derives. */
  lemma ScanIsGrammar(ids: seq<int>)
    ensures Increasing(ids, -1) <==> Derives(ProductionOf(ORDER), Known(ids))
    ensures (forall i :: 0 <= i < |ids| ==> 0 <= ids[i] <= 13) ==>
            (Increasing(ids, -1) <==> Derives(ProductionOf(ORDER), ids))
  {
    OnlyRanksMatter(ids, Known(ids), -1);
    ScanFromIsGrammar(Known(ids), -1);
    assert ORDER[0..] == ORDER;
  }

  // ---- lookup ----

  function Ids(ss: seq<Section>): (ids: seq<int>)
    ensures |ids| == |ss| && forall i :: 0 <= i < |ss| ==> ids[i] == ss[i].id
  {
    seq(|ss|, i requires 0 <= i < |ss| => ss[i].id)
  }

  lemma {:induction false} RanksIncrease(ids: seq<int>, last: int, i: nat)
    requires Increasing(ids, last) && i < |ids| && Rank(ids[i]) >= 0
    ensures Rank(ids[i]) > last
    ensures forall j :: i < j < |ids| && Rank(ids[j]) >= 0 ==> Rank(ids[i]) < Rank(ids[j])
  {
    var next := if Rank(ids[0]) < 0 then last else Rank(ids[0]);
    if i > 0 {
      RanksIncrease(ids[1..], next, i - 1);
      assert forall j :: 0 < j < |ids| ==> ids[1..][j-1] == ids[j];
    } else {
      forall j | 0 < j < |ids| && Rank(ids[j]) >= 0 ensures Rank(ids[0]) < Rank(ids[j]) {
        RanksIncrease(ids[1..], next, j - 1);
      }
    }
  }

  /** In an accepted module no non-custom id occurs twice, so the first match is the only one. */
  lemma LookupIsUnambiguous(ss: seq<Section>, i: nat, j: nat)
    requires Increasing(Ids(ss), -1) && i < |ss| && j < |ss|
    requires ss[i].id == ss[j].id && ss[i].id in ORDER
    ensures i == j
  {
    RankIsPosition(ss[i].id);
    if i < j { RanksIncrease(Ids(ss), -1, i); } else if j < i { RanksIncrease(Ids(ss), -1, j); }
  }

  /** jav_view_find_section: the first section with the id. */
  method FindSection(ss: seq<Section>, id: int) returns (k: int)
    ensures -1 <= k < |ss| && (k >= 0 <==> id in Ids(ss))
    ensures k >= 0 ==> ss[k].id == id && forall i :: 0 <= i < k ==> ss[i].id != id
  {
    for i := 0 to |ss|
      invariant forall j :: 0 <= j < i ==> ss[j].id != id
    {
      if ss[i].id == id {
        assert Ids(ss)[i] == id;
        return i;
      }
    }
    return -1;
  }

  // ---- the count conditions, over all the sections there are ----

  /** How many entries the sections with this id hold together: an omitted section holds none. */
  function Total(ss: seq<Section>, id: int): nat {
    if ss == [] then 0 else (if ss[0].id == id then ss[0].count else 0) + Total(ss[1..], id)
  }

  function Sum(groups: seq<u32>): nat {
    if groups == [] then 0 else Sum(groups[..|groups|-1]) + groups[|groups|-1]
  }

  ghost predicate LengthsMatch(ss: seq<Section>) {
    Total(ss, FUNCTIONS) == Total(ss, CODE)
  }

  ghost predicate DataCountMatches(ss: seq<Section>) {
    DATA_COUNT in Ids(ss) ==> Total(ss, DATA_COUNT) == Total(ss, DATA)
  }

  ghost predicate LocalsFit(ss: seq<Section>) {
    forall i, d :: 0 <= i < |ss| && ss[i].id == CODE && 0 <= d < |ss[i].bodies| ==> Sum(ss[i].bodies[d]) < TWO_32
  }

  /** The verdict section 5.5 asks for, the first broken rule first. */
  ghost function Expected(ss: seq<Section>): Verdict {
    if !Derives(ProductionOf(ORDER), Known(Ids(ss))) then SectionOrder
    else if !LengthsMatch(ss) then FuncCodeLengths
    else if !DataCountMatches(ss) then DataCountLengths
    else if !LocalsFit(ss) then TooManyLocals
    else NoError
  }

  lemma {:induction false} AbsentHoldsNone(ss: seq<Section>, id: int)
    requires forall i :: 0 <= i < |ss| ==> ss[i].id != id
    ensures Total(ss, id) == 0
  {
    if ss != [] { AbsentHoldsNone(ss[1..], id); }
  }

  lemma {:induction false} OnlyOneHolds(ss: seq<Section>, id: int, k: nat)
    requires k < |ss| && forall i :: 0 <= i < |ss| ==> (ss[i].id == id <==> i == k)
    ensures Total(ss, id) == ss[k].count
  {
    if k == 0 { AbsentHoldsNone(ss[1..], id); } else { OnlyOneHolds(ss[1..], id, k - 1); }
  }

  // ---- the gate ----

  method ScanOrder(ss: seq<Section>) returns (ok: bool)
    ensures ok == Increasing(Ids(ss), -1)
  {
    var lastRank := -1;
    ghost var ids := Ids(ss);
    assert ids[0..] == ids;
    for i := 0 to |ss|
      invariant Increasing(ids[i..], lastRank) == Increasing(ids, -1)
    {
      assert ids[i..][1..] == ids[i+1..] && ids[i..][0] == ss[i].id;
      var r := Rank(ss[i].id);
      if r < 0 { continue; }
      if r <= lastRank { return false; }
      lastRank := r;
    }
    return true;
  }

  /** section_count, on a module whose order has been accepted. */
  method SectionCount(ss: seq<Section>, id: int, absent: int) returns (n: int)
    requires Increasing(Ids(ss), -1) && id in ORDER
    ensures n == if id in Ids(ss) then Total(ss, id) else absent
    ensures id !in Ids(ss) ==> Total(ss, id) == 0
  {
    var k := FindSection(ss, id);
    if k < 0 {
      AbsentIsAbsent(ss, id);
      return absent;
    }
    FoundIsTotal(ss, id, k);
    return ss[k].count;
  }

  lemma AbsentIsAbsent(ss: seq<Section>, id: int)
    requires id !in Ids(ss)
    ensures Total(ss, id) == 0
  {
    forall i | 0 <= i < |ss| ensures ss[i].id != id { assert Ids(ss)[i] == ss[i].id; }
    AbsentHoldsNone(ss, id);
  }

  lemma FoundIsTotal(ss: seq<Section>, id: int, k: nat)
    requires Increasing(Ids(ss), -1) && id in ORDER && k < |ss| && ss[k].id == id
    ensures Total(ss, id) == ss[k].count
  {
    forall i | 0 <= i < |ss| ensures ss[i].id == id <==> i == k {
      if ss[i].id == id { LookupIsUnambiguous(ss, i, k); }
    }
    OnlyOneHolds(ss, id, k);
  }

  lemma {:induction false} SumGrows(groups: seq<u32>, g: nat)
    requires g <= |groups|
    ensures Sum(groups[..g]) <= Sum(groups)
    decreases |groups| - g
  {
    if g < |groups| {
      assert groups[..g+1][..g] == groups[..g];
      SumGrows(groups, g + 1);
    } else {
      WholePrefix(groups);
    }
  }

  /** The running total of a function's locals, in 64 bits: it stops before it could wrap. */
  method LocalsOverflow(groups: seq<u32>) returns (over: bool)
    ensures over <==> Sum(groups) >= TWO_32
  {
    var total := 0;
    for g := 0 to |groups|
      invariant total == Sum(groups[..g]) < TWO_32
    {
      assert groups[..g+1][..g] == groups[..g];
      total := (total + groups[g]) % TWO_64;
      SumGrows(groups, g + 1);
      if total >= TWO_32 { return true; }
    }
    WholePrefix(groups);
    return false;
  }

  method AnyOverflow(bodies: seq<seq<u32>>) returns (over: bool)
    ensures over <==> exists d :: 0 <= d < |bodies| && Sum(bodies[d]) >= TWO_32
  {
    for d := 0 to |bodies|
      invariant forall e :: 0 <= e < d ==> Sum(bodies[e]) < TWO_32
    {
      over := LocalsOverflow(bodies[d]);
      if over { return; }
    }
    return false;
  }

  method CodeOverflows(ss: seq<Section>) returns (over: bool)
    requires Increasing(Ids(ss), -1)
    ensures over <==> !LocalsFit(ss)
  {
    var k := FindSection(ss, CODE);
    if k < 0 {
      forall i | 0 <= i < |ss| ensures ss[i].id != CODE { assert Ids(ss)[i] == ss[i].id; }
      return false;
    }
    forall i | 0 <= i < |ss| && ss[i].id == CODE ensures i == k { LookupIsUnambiguous(ss, i, k); }
    over := AnyOverflow(ss[k].bodies);
  }

  /** jav_module_struct: the verdict the specification asks for; a module without a section list is
      legal. */
  method JavModuleStruct(sections: Option<seq<Section>>) returns (v: Verdict)
    ensures v == if sections.None? then NoError else Expected(sections.value)
  {
    if sections.None? { return NoError; }
    var ss := sections.value;
    ScanIsGrammar(Ids(ss));
    var ordered := ScanOrder(ss);
    if !ordered { return SectionOrder; }
    var funcs := SectionCount(ss, FUNCTIONS, 0);
    var codes := SectionCount(ss, CODE, 0);
    if funcs != codes { return FuncCodeLengths; }
    var datacnt := SectionCount(ss, DATA_COUNT, -1);
    var datas := SectionCount(ss, DATA, 0);
    if datacnt >= 0 && datacnt != datas { return DataCountLengths; }
    var over := CodeOverflows(ss);
    return if over then TooManyLocals else NoError;
  }

  // ---- the verdict, by section numbers ----

  /** Function section 3 against code section 10; data count section 12, where there is one, against data
      section 11; and the locals of every body in a section 10. */
  lemma AcceptedIs(ss: seq<Section>)
    ensures Expected(ss) == NoError <==>
              && Derives(ProductionOf([1, 2, 3, 4, 5, 13, 6, 7, 8, 9, 12, 10, 11]), Known(Ids(ss)))
              && Total(ss, 3) == Total(ss, 10)
              && (12 in Ids(ss) ==> Total(ss, 12) == Total(ss, 11))
              && forall i, d :: 0 <= i < |ss| && ss[i].id == 10 && 0 <= d < |ss[i].bodies| ==>
                   Sum(ss[i].bodies[d]) < 0x1_0000_0000
  {
  }

  /** The errors in the order they are looked for. */
  lemma RefusedFor(ss: seq<Section>)
    ensures Expected(ss) == SectionOrder <==> !Derives(ProductionOf(ORDER), Known(Ids(ss)))
    ensures Expected(ss) == FuncCodeLengths ==> Total(ss, 3) != Total(ss, 10)
    ensures Expected(ss) == DataCountLengths ==>
              12 in Ids(ss) && Total(ss, 12) != Total(ss, 11) && Total(ss, 3) == Total(ss, 10)
    ensures Expected(ss) == TooManyLocals ==> Total(ss, 3) == Total(ss, 10) && !LocalsFit(ss)
  {
  }

  /** A module without a data count section is never refused for its data count, whatever its data. */
  lemma NoDataCountIsLegal(ss: seq<Section>)
    requires 12 !in Ids(ss)
    ensures Expected(ss) != DataCountLengths
  {
  }
}

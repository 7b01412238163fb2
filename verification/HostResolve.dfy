/** How a host import is resolved: the pair key, the index and the signature check (host_io.h). */
module HostResolve {
  import opened Options
  import opened Sequences

  type byte = x: int | 0 <= x < 256

  /** An import name: any bytes. */
  type Name = seq<byte>

  const KEY_MAX := 96

  // ---- the key ----

  /** hio_key: the module's length in two bytes, then both names; none when it does not fit. */
  function Key(mod: Name, fld: Name): Option<seq<byte>> {
    if |mod| > 0xffff || 2 + |mod| + |fld| > KEY_MAX then None
    else Some([|mod| % 256, |mod| / 256] + mod + fld)
  }

  predicate Fits(mod: Name, fld: Name) {
    2 + |mod| + |fld| <= KEY_MAX
  }

  lemma KeyExists(mod: Name, fld: Name)
    ensures Key(mod, fld).Some? <==> Fits(mod, fld)
    ensures Key(mod, fld).Some? ==> 2 <= |Key(mod, fld).value| <= KEY_MAX
  {
  }

  /** The key as bytes: it holds up to 94 bytes of names, and starts with the length of the first, low
      byte first. */
  lemma KeyBytes(mod: Name, fld: Name)
    ensures Key(mod, fld).Some? <==> |mod| + |fld| <= 94
    ensures Key(mod, fld).Some? ==>
              var q := Key(mod, fld).value;
              |q| >= 2 && q[0] + 256 * q[1] == |mod| && q[2..] == mod + fld
  {
    if Key(mod, fld).Some? { assert Key(mod, fld).value[2..] == mod + fld; }
  }

  /** No two pairs share a key, whatever bytes the names hold. */
  lemma KeyIsInjective(m: Name, f: Name, mod: Name, fld: Name)
    requires Key(m, f).Some? && Key(m, f) == Key(mod, fld)
    ensures m == mod && f == fld
  {
    var a, b := Key(m, f).value, Key(mod, fld).value;
    assert a[0] == |m| % 256 && a[1] == |m| / 256 && b[0] == |mod| % 256 && b[1] == |mod| / 256;
    assert |m| == |mod|;
    assert a[2..2+|m|] == m && b[2..2+|m|] == mod;
    assert a[2+|m|..] == f && b[2+|m|..] == fld;
  }

  /** Joining the names with a dot would not do. */
  lemma DotIsNotInjective()
    ensures exists m: Name, f: Name, mod: Name, fld: Name :: (m != mod || f != fld) && Dotted(m, f) == Dotted(mod, fld)
  {
    var m: Name, f: Name, mod: Name, fld: Name := [97, 46, 98], [99], [97], [98, 46, 99];
    assert Dotted(m, f) == Dotted(mod, fld);
  }

  function Dotted(mod: Name, fld: Name): Name {
    mod + [46] + fld
  }

  /** The name in a trap: the two names with a dot between. */
  lemma DottedIs(mod: Name, fld: Name)
    ensures Dotted(mod, fld) == mod + ['.' as int] + fld
  {
    assert '.' as int == 46;
  }

  // ---- the table and its index ----

  datatype Native = MonitorTrap | WithState(op: int) | Plain(fn: nat)

  /** A row of the contract; `sig` is empty where several shapes are admitted. */
  datatype Row = Row(mod: Name, fld: Name, sig: Option<string>, native: Native)

  predicate Names(r: Row, mod: Name, fld: Name) {
    r.mod == mod && r.fld == fld
  }

  /** The last row with this pair, plus one; 0 when there is none. */
  function LastRow(table: seq<Row>, mod: Name, fld: Name): (k: nat)
    ensures k <= |table|
    ensures k > 0 ==> Names(table[k-1], mod, fld)
    ensures forall i :: k <= i < |table| ==> !Names(table[i], mod, fld)
  {
    if table == [] then 0
    else if Names(table[|table|-1], mod, fld) then |table|
    else LastRow(table[..|table|-1], mod, fld)
  }

  /** What the index holds for a key: the pair's last row. */
  ghost predicate Indexes(index: map<seq<byte>, nat>, table: seq<Row>) {
    forall mod: Name, fld: Name :: Fits(mod, fld) ==> Slot(index, Key(mod, fld)) == LastRow(table, mod, fld)
  }

  /** bbq_dict_get: 0 when the key is not there. */
  function Slot(index: map<seq<byte>, nat>, key: Option<seq<byte>>): nat {
    if key.Some? && key.value in index then index[key.value] else 0
  }

  function Entered(index: map<seq<byte>, nat>, r: Row, row: nat): map<seq<byte>, nat> {
    match Key(r.mod, r.fld)
    case None => index
    case Some(q) => index[q := row]
  }

  lemma EnterKeeps(index: map<seq<byte>, nat>, table: seq<Row>, i: nat)
    requires i < |table| && Indexes(index, table[..i])
    ensures Indexes(Entered(index, table[i], i + 1), table[..i+1])
  {
    var r := table[i];
    assert table[..i+1][..i] == table[..i] && table[..i+1][i] == r;
    forall mod: Name, fld: Name | Fits(mod, fld)
      ensures Slot(Entered(index, r, i + 1), Key(mod, fld)) == LastRow(table[..i+1], mod, fld)
    {
      KeyExists(mod, fld);
      KeyExists(r.mod, r.fld);
      if Key(r.mod, r.fld) == Key(mod, fld) { KeyIsInjective(r.mod, r.fld, mod, fld); }
      assert Slot(index, Key(mod, fld)) == LastRow(table[..i], mod, fld);
    }
  }

  method BuildIndex(table: seq<Row>) returns (index: map<seq<byte>, nat>)
    ensures Indexes(index, table)
  {
    index := map[];
    for i := 0 to |table|
      invariant Indexes(index, table[..i])
    {
      EnterKeeps(index, table, i);
      var q := Key(table[i].mod, table[i].fld);
      if q.Some? { index := index[q.value := i + 1]; }
    }
    WholePrefix(table);
  }

  // ---- signatures ----

  /** I32, I64, F32, F64, V128 and the reference kinds from 128 on. */
  type Kind = byte
  const I32: Kind := 0
  const I64: Kind := 1
  const F32: Kind := 2
  const F64: Kind := 3
  const EXTERNREF: Kind := 128

  datatype FuncType = FuncType(params: seq<Kind>, results: seq<Kind>)

  predicate Admits(letter: char, k: Kind) {
    if letter == 'i' then k == I32
    else if letter == 'I' then k == I64
    else if letter == 'f' then k == F32
    else if letter == 'F' then k == F64
    else k >= EXTERNREF
  }

  /** Each letter admits the kind in its place, and there are as many. */
  ghost predicate AdmitsAll(letters: string, kinds: seq<Kind>) {
    |letters| == |kinds| && forall i :: 0 <= i < |letters| ==> Admits(letters[i], kinds[i])
  }

  /** The declared type is the contract's: "params:results", or no contract on the type at all. */
  ghost predicate SigAdmits(sig: Option<string>, ft: FuncType) {
    sig.None? ||
    exists ps: string, rs: string ::
      sig.value == ps + ":" + rs && ':' !in ps && AdmitsAll(ps, ft.params) && AdmitsAll(rs, ft.results)
  }

  predicate HasColon(sig: Option<string>) {
    sig.Some? ==> ':' in sig.value
  }

  // ---- a signature is a printed type ----

  /** The number types, 0 to 3, and the reference types from 128 on; 4 is the vector type. */
  predicate Printable(k: Kind) {
    0 <= k <= 3 || k >= 128
  }

  function Letter(k: Kind): char
    requires Printable(k)
  {
    if k == 0 then 'i' else if k == 1 then 'I' else if k == 2 then 'f' else if k == 3 then 'F' else 'r'
  }

  function Letters(ks: seq<Kind>): (s: string)
    requires forall i :: 0 <= i < |ks| ==> Printable(ks[i])
    ensures |s| == |ks| && forall i :: 0 <= i < |ks| ==> s[i] == Letter(ks[i])
  {
    seq(|ks|, i requires 0 <= i < |ks| => Letter(ks[i]))
  }

  ghost predicate AllPrintable(ks: seq<Kind>) {
    forall i :: 0 <= i < |ks| ==> Printable(ks[i])
  }

  ghost predicate SigLetters(s: string) {
    forall i :: 0 <= i < |s| ==> s[i] == 'i' || s[i] == 'I' || s[i] == 'f' || s[i] == 'F' || s[i] == 'r'
  }

  lemma AdmitsItsLetter(letters: string, ks: seq<Kind>)
    requires SigLetters(letters) && AllPrintable(ks)
    ensures AdmitsAll(letters, ks) <==> letters == Letters(ks)
  {
    forall i | 0 <= i < |letters| == |ks| ensures Admits(letters[i], ks[i]) <==> letters[i] == Letters(ks)[i] {
    }
  }

  /** A contract admits exactly the type it is the printed form of: parameters, a colon, results. */
  lemma SigIsPrinted(ps: string, rs: string, ft: FuncType)
    requires SigLetters(ps) && SigLetters(rs) && AllPrintable(ft.params) && AllPrintable(ft.results)
    ensures SigAdmits(Some(ps + ":" + rs), ft) <==> ps + ":" + rs == Letters(ft.params) + ":" + Letters(ft.results)
  {
    var sig, colon := ps + ":" + rs, |ps|;
    assert sig[..colon] == ps && sig[colon+1..] == rs;
    SigSplits(sig, colon, ft);
    AdmitsItsLetter(ps, ft.params);
    AdmitsItsLetter(rs, ft.results);
    if sig == Letters(ft.params) + ":" + Letters(ft.results) {
      SplitsOnce(sig, colon, Letters(ft.params), Letters(ft.results));
    }
  }

  /** A type with a vector among its values is admitted by no contract. */
  lemma VectorsAreRefused(sig: string, ft: FuncType)
    requires exists k :: k in ft.params + ft.results && 4 <= k < 128
    ensures !SigAdmits(Some(sig), ft)
  {
    var k :| k in ft.params + ft.results && 4 <= k < 128;
    forall letters: string, ks: seq<Kind> | k in ks ensures !AdmitsAll(letters, ks) {
      var i :| 0 <= i < |ks| && ks[i] == k;
      if |letters| == |ks| { assert !Admits(letters[i], ks[i]); }
    }
  }

  method Colon(sig: string) returns (k: nat)
    requires ':' in sig
    ensures k < |sig| && sig[k] == ':' && ':' !in sig[..k]
  {
    k := 0;
    while sig[k] != ':'
      invariant k < |sig| && ':' !in sig[..k]
      decreases |sig| - k
    {
      Snoc(sig, k);
      if k + 1 == |sig| { WholePrefix(sig); }
      k := k + 1;
    }
  }

  lemma SplitsOnce(sig: string, k: nat, ps: string, rs: string)
    requires k < |sig| && sig[k] == ':' && ':' !in sig[..k]
    requires sig == ps + ":" + rs && ':' !in ps
    ensures ps == sig[..k] && rs == sig[k+1..]
  {
    assert sig[|ps|] == ':';
    forall i | 0 <= i < |ps| ensures sig[i] in ps { assert sig[i] == ps[i]; }
    forall i | 0 <= i < k ensures sig[i] in sig[..k] { assert sig[i] == sig[..k][i]; }
    assert |ps| == k;
  }

  /** hio_sig_ok: one loop over the parameters and then the results. */
  method SigOk(ft: FuncType, sig: Option<string>) returns (ok: bool)
    requires HasColon(sig)
    ensures ok <==> SigAdmits(sig, ft)
  {
    if sig.None? { return true; }
    var s := sig.value;
    var colon := Colon(s);
    ghost var ps, rs := s[..colon], s[colon+1..];
    assert s == ps + ":" + rs;
    SigSplits(s, colon, ft);
    var np, nr := colon, |s| - colon - 1;
    if |ft.params| != np || |ft.results| != nr { return false; }
    for i := 0 to np + nr
      invariant forall j :: 0 <= j < i && j < np ==> Admits(ps[j], ft.params[j])
      invariant forall j :: 0 <= j < i - np ==> Admits(rs[j], ft.results[j])
    {
      var c := if i < np then s[i] else s[colon + 1 + (i - np)];
      var k := if i < np then ft.params[i] else ft.results[i - np];
      if !Admits(c, k) {
        assert i < np ==> c == ps[i];
        assert i >= np ==> c == rs[i - np];
        return false;
      }
    }
    return true;
  }

  lemma SigSplits(s: string, colon: nat, ft: FuncType)
    requires colon < |s| && s[colon] == ':' && ':' !in s[..colon]
    ensures SigAdmits(Some(s), ft) <==> AdmitsAll(s[..colon], ft.params) && AdmitsAll(s[colon+1..], ft.results)
  {
    if SigAdmits(Some(s), ft) {
      var ps: string, rs: string :|
        s == ps + ":" + rs && ':' !in ps && AdmitsAll(ps, ft.params) && AdmitsAll(rs, ft.results);
      SplitsOnce(s, colon, ps, rs);
    }
    assert s == s[..colon] + ":" + s[colon+1..];
  }

  // ---- resolution ----

  datatype Binding<F> = Bound(native: Native) | Hooked(f: F) | Trap(name: Name)

  /** The row that answers an import: the last with exactly this pair, if the key fits and the declared
      type is the row's. */
  ghost predicate Answers(table: seq<Row>, i: int, ft: FuncType, mod: Name, fld: Name) {
    && 0 <= i < |table| && Names(table[i], mod, fld)
    && (forall j :: i < j < |table| ==> !Names(table[j], mod, fld))
    && Fits(mod, fld) && SigAdmits(table[i].sig, ft)
  }

  class Resolver {
    const table: seq<Row>
    var index: Option<map<seq<byte>, nat>>

    ghost predicate Valid()
      reads this
    {
      && (forall i :: 0 <= i < |table| ==> HasColon(table[i].sig))
      && (index.Some? ==> Indexes(index.value, table))
    }

    constructor (rows: seq<Row>)
      requires forall i :: 0 <= i < |rows| ==> HasColon(rows[i].sig)
      ensures Valid() && table == rows && index == None
    {
      table := rows;
      index := None;
    }

    /** hio_index_build: once, on the first use. */
    method Build()
      requires Valid()
      modifies this
      ensures Valid() && index.Some? && (old(index).Some? ==> index == old(index))
    {
      if index.Some? { return; }
      var built := BuildIndex(table);
      index := Some(built);
    }

    /** exec_host_release. */
    method Release()
      requires Valid()
      modifies this
      ensures Valid() && index == None
    {
      index := None;
    }

    /** exec_host_for. `hook` is what the application's hook would answer for this import, if it
        has one. The index, whether built now or before, answers as a scan of the table would; then
        comes the hook, and then the stub that traps under the qualified name. */
    method Resolve<F>(ft: FuncType, mod: Name, fld: Name, hook: Option<F>) returns (b: Binding<F>)
      requires Valid()
      modifies this
      ensures Valid()
      ensures forall i :: Answers(table, i, ft, mod, fld) ==> b == Bound(table[i].native)
      ensures (forall i :: !Answers(table, i, ft, mod, fld)) ==>
                b == if hook.Some? then Hooked(hook.value) else Trap(Dotted(mod, fld))
    {
      var q := Key(mod, fld);
      KeyExists(mod, fld);
      if q.Some? {
        Build();
        var slot := Slot(index.value, q);
        assert slot == LastRow(table, mod, fld);
        if slot > 0 {
          var ok := SigOk(ft, table[slot - 1].sig);
          OneAnswer(table, ft, mod, fld);
          if ok { return Bound(table[slot - 1].native); }
        }
      }
      b := if hook.Some? then Hooked(hook.value) else Trap(Dotted(mod, fld));
    }
  }

  lemma OneAnswer(table: seq<Row>, ft: FuncType, mod: Name, fld: Name)
    ensures forall i :: Answers(table, i, ft, mod, fld) <==>
              i >= 0 && i + 1 == LastRow(table, mod, fld) && Fits(mod, fld) && SigAdmits(table[i].sig, ft)
  {
    var k: int := LastRow(table, mod, fld);
    forall i ensures Answers(table, i, ft, mod, fld) <==>
        i >= 0 && i + 1 == k && Fits(mod, fld) && SigAdmits(table[i].sig, ft)
    {
    }
  }

  /** Where no pair is listed twice, a fitting import is answered by a row if and only if that exact
      pair is a row and its signature admits the declared type. */
  lemma DistinctTableAnswers(table: seq<Row>, ft: FuncType, mod: Name, fld: Name, i: nat)
    requires forall j, k :: 0 <= j < k < |table| ==> !Names(table[k], table[j].mod, table[j].fld)
    requires i < |table|
    ensures Answers(table, i, ft, mod, fld) <==>
              Names(table[i], mod, fld) && Fits(mod, fld) && SigAdmits(table[i].sig, ft)
  {
  }
}

/** Generating suite definitions from a schema, and what loading them gives. */
module Generator {
  import opened Bytes
  import opened AnyValue
  import opened Schema
  import SchemaTypes
  import opened Restorer
  import opened RestorerLaws

  /** The raw definitions of the first `n` fields of a record. */
  function RawFields(record: Fields, named: Names, atoi: Atoi, n: nat): seq<Any>
    requires Acyclic(named, atoi) && n <= |FieldsOf(record, atoi)|
    decreases Ahead(record, named, atoi), Dict(record), n
  {
    if n == 0 then []
    else
      var init, f := RawFields(record, named, atoi, n - 1), FieldsOf(record, atoi)[n - 1];
      if Name(f) == "" then init
      else
        match Item(f, named)
        case None => init + [Str(Name(f))]
        case Some(child) =>
          ChildMeasure(record, f, child, named, atoi);
          init + [List([Str(Name(f)), List(RawFields(child, named, atoi, |FieldsOf(child, atoi)|))])]
  }

  /** The definitions that a record should load as. */
  function Typed(record: Fields, named: Names, atoi: Atoi, n: nat): seq<FieldDef>
    requires Acyclic(named, atoi) && n <= |FieldsOf(record, atoi)|
    decreases Ahead(record, named, atoi), Dict(record), n
  {
    if n == 0 then []
    else
      var init, f := Typed(record, named, atoi, n - 1), FieldsOf(record, atoi)[n - 1];
      if Name(f) == "" then init else init + [TypedField(record, f, named, atoi)]
  }

  function TypedField(record: Fields, f: Fields, named: Names, atoi: Atoi): FieldDef
    requires Acyclic(named, atoi) && f in FieldsOf(record, atoi) && Name(f) != ""
    decreases Ahead(record, named, atoi), Dict(record), 0
  {
    match Item(f, named)
    case None => Plain(Name(f))
    case Some(child) =>
      ChildMeasure(record, f, child, named, atoi);
      Nested(Name(f), Typed(child, named, atoi, |FieldsOf(child, atoi)|))
  }

  function Definitions(record: Fields, named: Names, atoi: Atoi): seq<FieldDef>
    requires Acyclic(named, atoi)
  {
    Typed(record, named, atoi, |FieldsOf(record, atoi)|)
  }

  /** All raw definitions of a record. */
  function RawRecord(record: Fields, named: Names, atoi: Atoi): seq<Any>
    requires Acyclic(named, atoi)
  {
    RawFields(record, named, atoi, |FieldsOf(record, atoi)|)
  }

  /** What a field becomes: its name, with the definitions of the record its type is an array of, if any. */
  ghost predicate FieldGiven(f: Fields, def: Any, named: Names, atoi: Atoi)
    requires Acyclic(named, atoi)
  {
    Get(f, "name").Str? && (
      || (exists c :: SchemaTypes.ArrayOf(Get(f, "type"), named, c) && def == List([Get(f, "name"), List(RawRecord(c, named, atoi))]))
      || ((forall c :: !SchemaTypes.ArrayOf(Get(f, "type"), named, c)) && def == Get(f, "name")))
  }

  /** `at` lists, in order, the fields among the first `n` that have a name. */
  ghost predicate NamedAt(fs: seq<Fields>, n: nat, at: seq<nat>)
    requires n <= |fs|
  {
    && (forall i, j | 0 <= i < j < |at| :: at[i] < at[j])
    && (forall i | 0 <= i < |at| :: at[i] < n)
    && (forall i: nat | i < n :: i in at <==> Get(fs[i], "name").Str? && Get(fs[i], "name") != Str(""))
  }

  ghost predicate GivenAt(fs: seq<Fields>, at: seq<nat>, defs: seq<Any>, named: Names, atoi: Atoi)
    requires Acyclic(named, atoi)
  {
    |defs| == |at| && forall i | 0 <= i < |at| :: at[i] < |fs| && FieldGiven(fs[at[i]], defs[i], named, atoi)
  }

  /** Every named field of the record, in the order of its sorted fields, and nothing else. */
  ghost predicate RecordDefs(record: Fields, defs: seq<Any>, named: Names, atoi: Atoi)
    requires Acyclic(named, atoi)
  {
    var fs := FieldsOf(record, atoi);
    exists at: seq<nat> :: NamedAt(fs, |fs|, at) && GivenAt(fs, at, defs, named, atoi)
  }

  lemma FieldIsGiven(f: Fields, named: Names, atoi: Atoi)
    requires Acyclic(named, atoi) && Name(f) != ""
    ensures FieldGiven(f, match Item(f, named) case None => Str(Name(f)) case Some(c) => List([Str(Name(f)), List(RawRecord(c, named, atoi))]), named, atoi)
  {
    hide Acyclic, Item, FieldsOf, RawFields;
    forall c ensures Item(f, named) == Some(c) <==> SchemaTypes.ArrayOf(Get(f, "type"), named, c) { SchemaTypes.ItemIff(f, named, c); }
  }

  lemma NamedLast(fs: seq<Fields>, n: nat, at: seq<nat>)
    requires n < |fs| && NamedAt(fs, n, at)
    ensures NamedAt(fs, n + 1, if Name(fs[n]) != "" then at + [n] else at)
  {
    var more := if Name(fs[n]) != "" then at + [n] else at;
    forall i: nat | i < n + 1 ensures i in more <==> Get(fs[i], "name").Str? && Get(fs[i], "name") != Str("") {
      if i < n { assert i in more <==> i in at; }
    }
  }

  lemma {:induction false} FieldsAreGiven(record: Fields, named: Names, atoi: Atoi, n: nat) returns (at: seq<nat>)
    requires Acyclic(named, atoi) && n <= |FieldsOf(record, atoi)|
    ensures NamedAt(FieldsOf(record, atoi), n, at) && GivenAt(FieldsOf(record, atoi), at, RawFields(record, named, atoi, n), named, atoi)
  {
    hide Acyclic, FieldsOf, Item, FieldGiven, NamedAt, Ahead;
    if n == 0 {
      at := [];
      NoneNamed(FieldsOf(record, atoi));
    } else {
      var f := FieldsOf(record, atoi)[n - 1];
      at := FieldsAreGiven(record, named, atoi, n - 1);
      NamedLast(FieldsOf(record, atoi), n - 1, at);
      if Name(f) != "" {
        FieldIsGiven(f, named, atoi);
        at := at + [n - 1];
      }
    }
  }

  lemma NoneNamed(fs: seq<Fields>)
    ensures NamedAt(fs, 0, [])
  {}

  method FieldDefs(record: Fields, named: Names, atoi: Atoi) returns (defs: seq<Any>)
    requires Acyclic(named, atoi)
    ensures defs == RawFields(record, named, atoi, |FieldsOf(record, atoi)|)
    ensures RecordDefs(record, defs, named, atoi)
    decreases Ahead(record, named, atoi), Dict(record)
  {
    hide FieldsOf, Item, Ahead, Acyclic, Name, NamedAt, GivenAt;
    ghost var at := FieldsAreGiven(record, named, atoi, |FieldsOf(record, atoi)|);
    var fields := FieldsOf(record, atoi);
    defs := [];
    for i := 0 to |fields|
      invariant defs == RawFields(record, named, atoi, i)
    {
      var field := fields[i];
      var name := Name(field);
      if name == "" { continue; }
      var child := Item(field, named);
      if child.Some? {
        ChildMeasure(record, field, child.value, named, atoi);
        var children := FieldDefs(child.value, named, atoi);
        defs := defs + [List([Str(name), List(children)])];
        continue;
      }
      defs := defs + [Str(name)];
    }
  }

  /** What is generated is the raw form of the definitions it should load as. */
  lemma {:induction false} GeneratedIsRaw(record: Fields, named: Names, atoi: Atoi, n: nat)
    requires Acyclic(named, atoi) && n <= |FieldsOf(record, atoi)|
    ensures RawFields(record, named, atoi, n) == RawDefs(Typed(record, named, atoi, n))
    decreases Ahead(record, named, atoi), Dict(record), n
  {
    hide FieldsOf, Item, Ahead, Acyclic, Name;
    if n > 0 {
      GeneratedIsRaw(record, named, atoi, n - 1);
      var f := FieldsOf(record, atoi)[n - 1];
      if Name(f) != "" {
        var init := Typed(record, named, atoi, n - 1);
        var def := TypedField(record, f, named, atoi);
        assert (init + [def])[..|init|] == init;
        if Item(f, named).Some? {
          var child := Item(f, named).value;
          ChildMeasure(record, f, child, named, atoi);
          GeneratedIsRaw(child, named, atoi, |FieldsOf(child, atoi)|);
        }
      }
    }
  }

  /** Generated definitions always load, as exactly the definitions of the record. */
  lemma GeneratedLoads(record: Fields, named: Names, atoi: Atoi)
    requires Acyclic(named, atoi)
    ensures ParseDefs(RawFields(record, named, atoi, |FieldsOf(record, atoi)|)) == Ok(Definitions(record, named, atoi))
  {
    GeneratedIsRaw(record, named, atoi, |FieldsOf(record, atoi)|);
    LoadsIff(RawDefs(Definitions(record, named, atoi)), Definitions(record, named, atoi));
  }

  // ---------- records with keys 0..n-1 ----------

  /** The keys of the fields are exactly 0..n-1, and their names are distinct and not empty. */
  ghost predicate KeysInOrder(fs: seq<Fields>, atoi: Atoi) {
    && (forall f | f in fs :: Name(f) != "" && MsgpackKey(f, atoi).Some? && 0 <= MsgpackKey(f, atoi).value < |fs|)
    && DistinctFields(fs, atoi)
  }

  predicate Apart(f: Fields, g: Fields, atoi: Atoi) { MsgpackKey(f, atoi) != MsgpackKey(g, atoi) && Name(f) != Name(g) }

  predicate Fresh(f: Fields, fs: seq<Fields>, atoi: Atoi) { forall g | g in fs :: Apart(f, g, atoi) }

  /** No two fields share a key or a name. */
  predicate DistinctFields(fs: seq<Fields>, atoi: Atoi) {
    fs == [] || (Fresh(fs[0], fs[1..], atoi) && DistinctFields(fs[1..], atoi))
  }

  lemma {:induction false} DistinctAt(fs: seq<Fields>, atoi: Atoi, i: nat, j: nat)
    requires DistinctFields(fs, atoi) && i < j < |fs|
    ensures Apart(fs[i], fs[j], atoi)
  {
    hide Apart;
    if i > 0 { DistinctAt(fs[1..], atoi, i - 1, j - 1); } else { assert fs[j] in fs[1..]; }
  }

  lemma {:induction false} InsertDistinct(f: Fields, fs: seq<Fields>, atoi: Atoi)
    requires DistinctFields(fs, atoi) && Fresh(f, fs, atoi)
    ensures DistinctFields(Insert(f, fs, atoi), atoi)
  {
    hide Less, MsgpackKey, Name;
    if fs != [] && Less(fs[0], f, atoi) {
      var rest := Insert(f, fs[1..], atoi);
      InsertDistinct(f, fs[1..], atoi);
      assert Apart(f, fs[0], atoi);
      forall g | g in rest ensures Apart(fs[0], g, atoi) {
        assert g in multiset(rest);
        if g != f { assert g in fs[1..]; }
      }
      assert ([fs[0]] + rest)[1..] == rest;
    } else {
      assert ([f] + fs)[1..] == fs;
    }
  }

  lemma {:induction false} SortDistinct(fs: seq<Fields>, atoi: Atoi)
    requires DistinctFields(fs, atoi)
    ensures DistinctFields(StableSort(fs, atoi), atoi)
  {
    if fs != [] {
      var rest := StableSort(fs[1..], atoi);
      SortDistinct(fs[1..], atoi);
      forall g | g in rest ensures g in fs[1..] { assert g in multiset(rest); }
      InsertDistinct(fs[0], rest, atoi);
    }
  }

  /** Numbers that increase strictly and fit below their count are 0, 1, 2, ... */
  lemma {:induction false} Counting(ks: seq<int>, i: nat)
    requires i < |ks| && forall a, b :: 0 <= a < b < |ks| ==> ks[a] < ks[b]
    requires forall a :: 0 <= a < |ks| ==> 0 <= ks[a] < |ks|
    ensures ks[i] == i
  {
    AtLeast(ks, i);
    AtMost(ks, i);
  }

  lemma {:induction false} AtLeast(ks: seq<int>, i: nat)
    requires i < |ks| && forall a, b :: 0 <= a < b < |ks| ==> ks[a] < ks[b]
    requires forall a :: 0 <= a < |ks| ==> 0 <= ks[a]
    ensures ks[i] >= i
  {
    if i > 0 { AtLeast(ks, i - 1); }
  }

  lemma {:induction false} AtMost(ks: seq<int>, i: nat)
    requires i < |ks| && forall a, b :: 0 <= a < b < |ks| ==> ks[a] < ks[b]
    requires forall a :: 0 <= a < |ks| ==> ks[a] < |ks|
    ensures ks[i] <= i
    decreases |ks| - i
  {
    if i < |ks| - 1 { AtMost(ks, i + 1); }
  }

  /** After sorting, the field with key `i` stands at index `i`. */
  lemma SortedByKey(fs: seq<Fields>, atoi: Atoi, i: nat)
    requires KeysInOrder(fs, atoi) && i < |fs|
    ensures var r := StableSort(fs, atoi);
      |r| == |fs| && MsgpackKey(r[i], atoi) == Some(i) && Name(r[i]) != "" && DistinctFields(r, atoi)
  {
    hide MsgpackKey, Name, StableSort, Insert, Before;
    var r := StableSort(fs, atoi);
    assert |multiset(r)| == |multiset(fs)|;
    SortDistinct(fs, atoi);
    StableSortStable(fs, fs[0], atoi);
    forall a | 0 <= a < |r| ensures r[a] in fs { assert r[a] in multiset(r); }
    var ks := seq(|r|, a requires 0 <= a < |r| => MsgpackKey(r[a], atoi).value);
    forall a, b | 0 <= a < b < |r| ensures ks[a] < ks[b] {
      DistinctAt(r, atoi, a, b);
      assert !Less(r[b], r[a], atoi);
    }
    Counting(ks, i);
  }

  /** With every field named, a record has one definition for each field, in order. */
  lemma {:induction false} TypedAt(record: Fields, named: Names, atoi: Atoi, n: nat, i: nat)
    requires Acyclic(named, atoi) && i < n <= |FieldsOf(record, atoi)|
    requires forall f | f in FieldsOf(record, atoi) :: Name(f) != ""
    ensures |Typed(record, named, atoi, n)| == n
    ensures Typed(record, named, atoi, n)[i] == TypedField(record, FieldsOf(record, atoi)[i], named, atoi)
  {
    hide FieldsOf, Item, Ahead, Acyclic, TypedField;
    if n > 1 { TypedAt(record, named, atoi, n - 1, if i < n - 1 then i else 0); }
  }

  /** Position `i` of a row lands under the name of field `f`, and nested rows are restored by the
      definitions of their own record. */
  ghost predicate Lands(dict: Fields, row: seq<Any>, i: nat, f: Fields, named: Names, atoi: Atoi)
    requires Acyclic(named, atoi)
  {
    if !Held(row, i) then Name(f) !in dict
    else Name(f) in dict && dict[Name(f)] == LandedValue(row[i], f, named, atoi)
  }

  function LandedValue(v: Any, f: Fields, named: Names, atoi: Atoi): Any
    requires Acyclic(named, atoi)
  {
    match Item(f, named)
    case None => v
    case Some(child) => if v.List? then List(RestoreAll(v.items, Definitions(child, named, atoi))) else v
  }

  /** Any record with distinct field names: position `i` lands under the name of its i-th sorted field. */
  lemma KeyedAt(record: Fields, named: Names, atoi: Atoi, row: seq<Any>, i: nat)
    requires Acyclic(named, atoi) && i < |FieldsOf(record, atoi)| && DistinctFields(FieldsOf(record, atoi), atoi)
    requires forall f | f in FieldsOf(record, atoi) :: Name(f) != ""
    ensures var defs, f := Definitions(record, named, atoi), FieldsOf(record, atoi)[i];
      |defs| == |FieldsOf(record, atoi)| && defs[i].key == Name(f) && Lands(ToDict(row, defs, |defs|), row, i, f, named, atoi)
  {
    hide FieldsOf, Item, Ahead, Acyclic, MsgpackKey, Typed, ToDict;
    var defs, r := Definitions(record, named, atoi), FieldsOf(record, atoi);
    TypedAt(record, named, atoi, |r|, i);
    forall a, b | 0 <= a < b < |defs| ensures defs[a].key != defs[b].key {
      TypedAt(record, named, atoi, |r|, a);
      TypedAt(record, named, atoi, |r|, b);
      DistinctAt(r, atoi, a, b);
    }
    ToDictAt(row, defs, |defs|, i);
  }

  /** From schema to keyed row: the generated definitions load, the one at index `i` is that of the field
      with key `i`, and a row's value at position `i` lands under that field's name. */
  lemma SchemaToRow(record: Fields, named: Names, atoi: Atoi, row: seq<Any>, i: nat)
    requires Acyclic(named, atoi) && Get(record, "fields").List?
    requires KeysInOrder(FieldList(Get(record, "fields").items), atoi) && i < |FieldList(Get(record, "fields").items)|
    ensures var fs, defs := FieldList(Get(record, "fields").items), ParseDefs(RawFields(record, named, atoi, |FieldsOf(record, atoi)|));
      && defs.Ok? && |defs.value| == |fs|
      && forall f | f in fs && MsgpackKey(f, atoi) == Some(i) ::
           defs.value[i].key == Name(f) && Lands(ToDict(row, defs.value, |defs.value|), row, i, f, named, atoi)
    ensures exists f :: f in FieldList(Get(record, "fields").items) && MsgpackKey(f, atoi) == Some(i)
  {
    hide Item, Ahead, Acyclic, MsgpackKey, Typed, ToDict, StableSort, FieldList, Lands, Definitions;
    var fs, r := FieldList(Get(record, "fields").items), FieldsOf(record, atoi);
    GeneratedLoads(record, named, atoi);
    SortedByKey(fs, atoi, i);
    forall f | f in r ensures f in fs && Name(f) != "" { assert f in multiset(r); }
    assert r[i] in fs;
    forall f | f in fs && MsgpackKey(f, atoi) == Some(i) ensures f == r[i] {
      assert f in multiset(r);
      var j :| 0 <= j < |r| && r[j] == f;
      if j < i { DistinctAt(r, atoi, j, i); } else if i < j { DistinctAt(r, atoi, i, j); }
    }
    KeyedAt(record, named, atoi, row, i);
  }

  // ---------- a whole schema record ----------

  /** The structures of the first `n` fields of a top-level record: those that are arrays of records with
      any definitions; a later field of the same name wins. */
  function Structures(record: Fields, named: Names, atoi: Atoi, n: nat): map<string, seq<Any>>
    requires Acyclic(named, atoi) && n <= |FieldsOf(record, atoi)|
  {
    if n == 0 then map[]
    else
      var init, f := Structures(record, named, atoi, n - 1), FieldsOf(record, atoi)[n - 1];
      if Name(f) == "" || Item(f, named).None? then init
      else
        var child := Item(f, named).value;
        var defs := RawFields(child, named, atoi, |FieldsOf(child, atoi)|);
        if |defs| > 0 then init[Name(f) := defs] else init
  }

  lemma StructuresNone(record: Fields, named: Names, atoi: Atoi)
    requires Acyclic(named, atoi)
    ensures Structures(record, named, atoi, 0) == map[]
  {}

  lemma StructuresStep(record: Fields, named: Names, atoi: Atoi, i: nat)
    requires Acyclic(named, atoi) && i < |FieldsOf(record, atoi)|
    ensures var init, f := Structures(record, named, atoi, i), FieldsOf(record, atoi)[i];
      Structures(record, named, atoi, i + 1) ==
        if Name(f) == "" || Item(f, named).None? then init
        else
          var child := Item(f, named).value;
          var defs := RawFields(child, named, atoi, |FieldsOf(child, atoi)|);
          if |defs| > 0 then init[Name(f) := defs] else init
  {
    hide FieldsOf, Item, Ahead, Acyclic, Name, RawFields;
  }

  /** Field `i` of a record gives its name a structure: it is an array of records with any definitions. */
  predicate Compiles(record: Fields, i: nat, key: string, named: Names, atoi: Atoi)
    requires Acyclic(named, atoi) && i < |FieldsOf(record, atoi)|
  {
    var f := FieldsOf(record, atoi)[i];
    key != "" && Name(f) == key && Item(f, named).Some? && ItemDefs(record, i, named, atoi) != []
  }

  function ItemDefs(record: Fields, i: nat, named: Names, atoi: Atoi): seq<Any>
    requires Acyclic(named, atoi) && i < |FieldsOf(record, atoi)|
  {
    match Item(FieldsOf(record, atoi)[i], named)
    case None => []
    case Some(child) => RawFields(child, named, atoi, |FieldsOf(child, atoi)|)
  }

  /** Field `i` is the last of the first `n` that gives `key` a structure. */
  predicate LastCompiles(record: Fields, n: nat, i: nat, key: string, named: Names, atoi: Atoi)
    requires Acyclic(named, atoi) && n <= |FieldsOf(record, atoi)|
  {
    i < n && Compiles(record, i, key, named, atoi) && forall k | i < k < n :: !Compiles(record, k, key, named, atoi)
  }

  lemma CompilesStep(record: Fields, named: Names, atoi: Atoi, i: nat, key: string)
    requires Acyclic(named, atoi) && i < |FieldsOf(record, atoi)|
    ensures var init, next := Structures(record, named, atoi, i), Structures(record, named, atoi, i + 1);
      if Compiles(record, i, key, named, atoi) then key in next && next[key] == ItemDefs(record, i, named, atoi)
      else if key in init then key in next && next[key] == init[key]
      else key !in next
  {
    hide FieldsOf, Item, Ahead, Acyclic, Name, RawFields, Structures;
    StructuresStep(record, named, atoi, i);
  }

  /** The structure under a key is the definitions of the last field that gives one under that key. */
  lemma {:induction false} StructuresAt(record: Fields, named: Names, atoi: Atoi, n: nat, key: string)
    requires Acyclic(named, atoi) && n <= |FieldsOf(record, atoi)|
    ensures var all := Structures(record, named, atoi, n);
      if key in all then
        exists i: nat :: LastCompiles(record, n, i, key, named, atoi) && all[key] == ItemDefs(record, i, named, atoi)
      else forall i | 0 <= i < n :: !Compiles(record, i, key, named, atoi)
  {
    hide FieldsOf, Acyclic, Structures, Compiles, ItemDefs;
    StructuresNone(record, named, atoi);
    if n > 0 {
      CompilesStep(record, named, atoi, n - 1, key);
      StructuresAt(record, named, atoi, n - 1, key);
      if Compiles(record, n - 1, key, named, atoi) {
        assert LastCompiles(record, n, n - 1, key, named, atoi);
      } else if key in Structures(record, named, atoi, n) {
        var i: nat :| LastCompiles(record, n - 1, i, key, named, atoi)
          && Structures(record, named, atoi, n - 1)[key] == ItemDefs(record, i, named, atoi);
        assert LastCompiles(record, n, i, key, named, atoi);
      }
    }
  }

  /** Field `i` gives `key` these definitions: it has that name, and is an array of records with any. */
  ghost predicate GivesKey(record: Fields, i: nat, key: string, defs: seq<Any>, named: Names, atoi: Atoi)
    requires Acyclic(named, atoi)
  {
    i < |FieldsOf(record, atoi)| && var f := FieldsOf(record, atoi)[i];
    && key != "" && Get(f, "name") == Str(key) && defs != []
    && exists c :: SchemaTypes.ArrayOf(Get(f, "type"), named, c) && defs == RawRecord(c, named, atoi)
  }

  /** No later field gives the key anything. */
  ghost predicate LastGives(record: Fields, i: nat, key: string, defs: seq<Any>, named: Names, atoi: Atoi)
    requires Acyclic(named, atoi)
  {
    GivesKey(record, i, key, defs, named, atoi) && forall k, e | k > i :: !GivesKey(record, k, key, e, named, atoi)
  }

  /** A key has what the last field of that name gives it, and what it had if none gives it anything. */
  ghost predicate KeyGiven(record: Fields, key: string, given: map<string, seq<Any>>, after: map<string, seq<Any>>, named: Names, atoi: Atoi)
    requires Acyclic(named, atoi)
  {
    || (exists i, defs :: LastGives(record, i, key, defs, named, atoi) && key in after && after[key] == defs)
    || ((forall i, defs :: !GivesKey(record, i, key, defs, named, atoi))
        && (key in after <==> key in given) && (key in given ==> after[key] == given[key]))
  }

  lemma GivesIff(record: Fields, i: nat, key: string, defs: seq<Any>, named: Names, atoi: Atoi)
    requires Acyclic(named, atoi) && i < |FieldsOf(record, atoi)|
    ensures GivesKey(record, i, key, defs, named, atoi) <==> Compiles(record, i, key, named, atoi) && ItemDefs(record, i, named, atoi) == defs
  {
    hide Acyclic, Item, FieldsOf, RawFields;
    var f := FieldsOf(record, atoi)[i];
    forall c ensures Item(f, named) == Some(c) <==> SchemaTypes.ArrayOf(Get(f, "type"), named, c) { SchemaTypes.ItemIff(f, named, c); }
  }

  lemma KeyIsGiven(record: Fields, key: string, given: map<string, seq<Any>>, named: Names, atoi: Atoi)
    requires Acyclic(named, atoi)
    ensures KeyGiven(record, key, given, given + Structures(record, named, atoi, |FieldsOf(record, atoi)|), named, atoi)
  {
    hide Acyclic, FieldsOf, Structures, Compiles, ItemDefs, GivesKey;
    var n := |FieldsOf(record, atoi)|;
    var all := Structures(record, named, atoi, n);
    StructuresAt(record, named, atoi, n, key);
    GivesWithin(record, key, named, atoi);
    forall i: nat, defs | i < n
      ensures GivesKey(record, i, key, defs, named, atoi) <==> Compiles(record, i, key, named, atoi) && ItemDefs(record, i, named, atoi) == defs {
      GivesIff(record, i, key, defs, named, atoi);
    }
    if key in all {
      var i: nat :| LastCompiles(record, n, i, key, named, atoi) && all[key] == ItemDefs(record, i, named, atoi);
      assert LastGives(record, i, key, all[key], named, atoi);
    }
  }

  lemma KeysAreGiven(record: Fields, given: map<string, seq<Any>>, named: Names, atoi: Atoi)
    requires Acyclic(named, atoi)
    ensures forall key :: KeyGiven(record, key, given, given + Structures(record, named, atoi, |FieldsOf(record, atoi)|), named, atoi)
  {
    hide Acyclic, FieldsOf, Structures, KeyGiven;
    forall key { KeyIsGiven(record, key, given, named, atoi); }
  }

  lemma GivesWithin(record: Fields, key: string, named: Names, atoi: Atoi)
    requires Acyclic(named, atoi)
    ensures forall i: nat, defs :: GivesKey(record, i, key, defs, named, atoi) ==> i < |FieldsOf(record, atoi)|
  {
    hide Acyclic, FieldsOf;
  }

  /** Adds the structures of one record to those `given`. */
  method CollectRecordFields(record: Fields, named: Names, atoi: Atoi, given: map<string, seq<Any>>) returns (structures: map<string, seq<Any>>)
    requires Acyclic(named, atoi)
    ensures structures == given + Structures(record, named, atoi, |FieldsOf(record, atoi)|)
    ensures forall key :: KeyGiven(record, key, given, structures, named, atoi)
  {
    hide FieldsOf, Item, Ahead, Acyclic, Name, RawFields, Structures, KeyGiven;
    structures := given;
    var fields := FieldsOf(record, atoi);
    StructuresNone(record, named, atoi);
    assert given + map[] == given;
    for i := 0 to |fields|
      invariant structures == given + Structures(record, named, atoi, i)
    {
      StructuresStep(record, named, atoi, i);
      ghost var init := Structures(record, named, atoi, i);
      var field := fields[i];
      var name := Name(field);
      if name == "" { continue; }
      var itemRecord := Item(field, named);
      if itemRecord.None? { continue; }
      var defs := FieldDefs(itemRecord.value, named, atoi);
      if |defs| > 0 {
        assert given + init[name := defs] == (given + init)[name := defs];
        structures := structures[name := defs];
      }
    }
    KeysAreGiven(record, given, named, atoi);
  }

  /** Whatever the schema generates, NewFromDefinitions takes: every structure is the raw form of the
      definitions of the item record of some field of that name. */
  lemma {:induction false} StructuresLoad(record: Fields, named: Names, atoi: Atoi, n: nat, key: string)
    requires Acyclic(named, atoi) && n <= |FieldsOf(record, atoi)|
    ensures key in Structures(record, named, atoi, n) ==> exists f ::
      && f in FieldsOf(record, atoi) && Name(f) == key && Item(f, named).Some?
      && ParseDefs(Structures(record, named, atoi, n)[key]) == Ok(Definitions(Item(f, named).value, named, atoi))
  {
    hide FieldsOf, Item, Ahead, Acyclic, Name;
    if n == 0 { return; }
    var f := FieldsOf(record, atoi)[n - 1];
    if Name(f) == key && Structures(record, named, atoi, n) != Structures(record, named, atoi, n - 1) {
      GeneratedLoads(Item(f, named).value, named, atoi);
    } else {
      StructuresLoad(record, named, atoi, n - 1, key);
    }
  }
}

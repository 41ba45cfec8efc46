/** The walk over a whole schema: it gathers the named records, then compiles the top-level ones. Keys of an
    object are visited in no particular order, elements of a list in theirs; later visits win. */
module SchemaWalk {
  import opened Bytes
  import opened AnyValue
  import opened Schema
  import opened Restorer
  import opened Generator

  type Compiled = map<string, seq<Any>>

  // ---------- what each walk may leave ----------

  predicate IsNamed(r: Fields, name: string) { IsRecord(r) && name != "" && Get(r, "name") == Str(name) }

  /** Some record in `raw` has this name. */
  predicate HasName(raw: Any, name: string) {
    match raw
    case Dict(m) => IsNamed(m, name) || exists k | k in m :: HasName(m[k], name)
    case List(items) => exists i | 0 <= i < |items| :: HasName(items[i], name)
    case _ => false
  }

  /** Some order of visits ends with `r` under this name: a child's record wins over the object's own, and
      the last element of a list wins over those before. */
  predicate MayName(raw: Any, name: string, r: Fields) {
    match raw
    case Dict(m) =>
      (exists k | k in m :: MayName(m[k], name, r))
      || (r == m && IsNamed(m, name) && forall k | k in m :: !HasName(m[k], name))
    case List(items) => exists i | 0 <= i < |items| :: MayName(items[i], name, r) && forall j | i < j < |items| :: !HasName(items[j], name)
    case _ => false
  }

  /** `after` is `before` with the names of `raw` added, each for a record that it may stand for. */
  ghost predicate NamedFrom(raw: Any, before: Names, after: Names) {
    forall x :: NameFrom(x, raw, before, after)
  }

  ghost predicate NameFrom(x: string, raw: Any, before: Names, after: Names) {
    if HasName(raw, x) then x in after && MayName(raw, x, after[x]) else Same(x, before, after)
  }

  predicate Same<T(==)>(x: string, before: map<string, T>, after: map<string, T>) {
    (x in after <==> x in before) && (x in before ==> after[x] == before[x])
  }

  function AllStructures(r: Fields, named: Names, atoi: Atoi): Compiled
    requires Acyclic(named, atoi)
  {
    Structures(r, named, atoi, |FieldsOf(r, atoi)|)
  }

  /** Some top-level record in `raw` gives the key a structure. */
  predicate HasKey(raw: Any, key: string, named: Names, atoi: Atoi)
    requires Acyclic(named, atoi)
  {
    match raw
    case Dict(m) =>
      if IsRecord(m) then key in AllStructures(m, named, atoi)
      else if "fields" in m then HasKey(m["fields"], key, named, atoi)
      else exists k | k in m :: HasKey(m[k], key, named, atoi)
    case List(items) => exists i | 0 <= i < |items| :: HasKey(items[i], key, named, atoi)
    case _ => false
  }

  /** Some order of visits ends with `defs` under this key. */
  predicate MayGive(raw: Any, key: string, defs: seq<Any>, named: Names, atoi: Atoi)
    requires Acyclic(named, atoi)
  {
    match raw
    case Dict(m) =>
      if IsRecord(m) then key in AllStructures(m, named, atoi) && AllStructures(m, named, atoi)[key] == defs
      else if "fields" in m then MayGive(m["fields"], key, defs, named, atoi)
      else exists k | k in m :: MayGive(m[k], key, defs, named, atoi)
    case List(items) =>
      exists i | 0 <= i < |items| ::
        MayGive(items[i], key, defs, named, atoi) && forall j | i < j < |items| :: !HasKey(items[j], key, named, atoi)
    case _ => false
  }

  /** `after` is `before` with the structures of the top-level records of `raw` added. */
  ghost predicate CompiledFrom(raw: Any, before: Compiled, after: Compiled, named: Names, atoi: Atoi)
    requires Acyclic(named, atoi)
  {
    forall key :: KeyFrom(key, raw, before, after, named, atoi)
  }

  ghost predicate KeyFrom(key: string, raw: Any, before: Compiled, after: Compiled, named: Names, atoi: Atoi)
    requires Acyclic(named, atoi)
  {
    if HasKey(raw, key, named, atoi) then key in after && MayGive(raw, key, after[key], named, atoi) else Same(key, before, after)
  }

  // ---------- one visit after another ----------

  /** The children under `keys` are visited, in some order, after the object itself left `own`. */
  ghost predicate SomeKeys(x: string, m: Fields, keys: set<string>, own: Names, now: Names)
    requires keys <= m.Keys
  {
    if exists k | k in keys :: HasName(m[k], x) then x in now && exists k | k in keys :: MayName(m[k], x, now[x])
    else Same(x, own, now)
  }

  lemma SomeKeysStep(x: string, m: Fields, keys: set<string>, k: string, own: Names, now: Names, next: Names)
    requires keys <= m.Keys && k in m && k !in keys && SomeKeys(x, m, keys, own, now) && NameFrom(x, m[k], now, next)
    ensures SomeKeys(x, m, keys + {k}, own, next)
  {
    hide HasName, MayName;
  }

  lemma AllKeys(x: string, m: Fields, before: Names, own: Names, now: Names)
    requires SomeKeys(x, m, m.Keys, own, now)
    requires if IsNamed(m, x) then x in own && own[x] == m else Same(x, before, own)
    ensures NameFrom(x, Dict(m), before, now)
  {
    hide IsNamed;
    assert HasName(Dict(m), x) <==> IsNamed(m, x) || exists k | k in m :: HasName(m[k], x);
    if IsNamed(m, x) && forall k | k in m :: !HasName(m[k], x) {
      assert MayName(Dict(m), x, m);
    } else if k :| k in m && x in now && MayName(m[k], x, now[x]) {
      assert MayName(Dict(m), x, now[x]);
    }
  }

  /** Elements `0..i` are visited, in order. */
  ghost predicate SomeItems(x: string, items: seq<Any>, i: nat, before: Names, now: Names)
    requires i <= |items|
  {
    NameFrom(x, List(items[..i]), before, now)
  }

  lemma SomeItemsStep(x: string, items: seq<Any>, i: nat, before: Names, now: Names, next: Names)
    requires i < |items| && SomeItems(x, items, i, before, now) && NameFrom(x, items[i], now, next)
    ensures SomeItems(x, items, i + 1, before, next)
  {
    var init, more := items[..i], items[..i + 1];
    assert more == init + [items[i]];
    assert HasName(List(more), x) <==> HasName(List(init), x) || HasName(items[i], x);
    if HasName(items[i], x) {
      assert more[i] == items[i];
    } else if HasName(List(init), x) {
      var j :| 0 <= j < i && MayName(init[j], x, now[x]) && forall k | j < k < i :: !HasName(init[k], x);
      assert more[j] == init[j] && forall k | j < k < i + 1 :: !HasName(more[k], x);
    }
  }

  ghost predicate SomeGiven(key: string, m: Fields, keys: set<string>, before: Compiled, now: Compiled, named: Names, atoi: Atoi)
    requires Acyclic(named, atoi) && keys <= m.Keys
  {
    if exists k | k in keys :: HasKey(m[k], key, named, atoi) then
      key in now && exists k | k in keys :: MayGive(m[k], key, now[key], named, atoi)
    else Same(key, before, now)
  }

  lemma SomeGivenStep(key: string, m: Fields, keys: set<string>, k: string, before: Compiled, now: Compiled, next: Compiled, named: Names, atoi: Atoi)
    requires Acyclic(named, atoi) && keys <= m.Keys && k in m && k !in keys
    requires SomeGiven(key, m, keys, before, now, named, atoi) && KeyFrom(key, m[k], now, next, named, atoi)
    ensures SomeGiven(key, m, keys + {k}, before, next, named, atoi)
  {
    hide HasKey, MayGive, Acyclic;
  }

  lemma AllGiven(key: string, m: Fields, before: Compiled, now: Compiled, named: Names, atoi: Atoi)
    requires Acyclic(named, atoi) && !IsRecord(m) && "fields" !in m && SomeGiven(key, m, m.Keys, before, now, named, atoi)
    ensures KeyFrom(key, Dict(m), before, now, named, atoi)
  {
    hide Acyclic, IsRecord, AllStructures;
    assert HasKey(Dict(m), key, named, atoi) <==> exists k | k in m :: HasKey(m[k], key, named, atoi);
    if k :| k in m && key in now && MayGive(m[k], key, now[key], named, atoi) {
      assert MayGive(Dict(m), key, now[key], named, atoi);
    }
  }

  lemma RecordGiven(key: string, m: Fields, before: Compiled, named: Names, atoi: Atoi)
    requires Acyclic(named, atoi) && IsRecord(m)
    ensures KeyFrom(key, Dict(m), before, before + AllStructures(m, named, atoi), named, atoi)
  {
    hide Acyclic, IsRecord, AllStructures;
  }

  lemma FieldsGiven(key: string, m: Fields, before: Compiled, now: Compiled, named: Names, atoi: Atoi)
    requires Acyclic(named, atoi) && !IsRecord(m) && "fields" in m && KeyFrom(key, m["fields"], before, now, named, atoi)
    ensures KeyFrom(key, Dict(m), before, now, named, atoi)
  {
    hide Acyclic, IsRecord, AllStructures;
  }

  ghost predicate ItemsGiven(key: string, items: seq<Any>, i: nat, before: Compiled, now: Compiled, named: Names, atoi: Atoi)
    requires Acyclic(named, atoi) && i <= |items|
  {
    KeyFrom(key, List(items[..i]), before, now, named, atoi)
  }

  lemma ItemsGivenStep(key: string, items: seq<Any>, i: nat, before: Compiled, now: Compiled, next: Compiled, named: Names, atoi: Atoi)
    requires Acyclic(named, atoi) && i < |items|
    requires ItemsGiven(key, items, i, before, now, named, atoi) && KeyFrom(key, items[i], now, next, named, atoi)
    ensures ItemsGiven(key, items, i + 1, before, next, named, atoi)
  {
    hide Acyclic, IsRecord, AllStructures;
    var init, more := items[..i], items[..i + 1];
    assert more == init + [items[i]];
    assert HasKey(List(more), key, named, atoi) <==> HasKey(List(init), key, named, atoi) || HasKey(items[i], key, named, atoi);
    if HasKey(items[i], key, named, atoi) {
      assert more[i] == items[i];
    } else if HasKey(List(init), key, named, atoi) {
      var j :| 0 <= j < i && MayGive(init[j], key, now[key], named, atoi) && forall k | j < k < i :: !HasKey(init[k], key, named, atoi);
      assert more[j] == init[j] && forall k | j < k < i + 1 :: !HasKey(more[k], key, named, atoi);
    }
  }

  // ---------- the walks ----------

  class SchemaGenerator {
    const atoi: Atoi
    var namedRecords: Names

    constructor (atoi: Atoi)
      ensures this.atoi == atoi && namedRecords == map[]
    {
      this.atoi, namedRecords := atoi, map[];
    }

    method CollectNamedRecords(raw: Any)
      modifies this
      ensures NamedFrom(raw, old(namedRecords), namedRecords)
      decreases raw
    {
      hide HasName, MayName, NameFrom, SomeKeys, SomeItems;
      ghost var before := namedRecords;
      match raw
      case Dict(v) =>
        if IsRecord(v) && Get(v, "name").Str? && Get(v, "name").s != "" {
          namedRecords := namedRecords[Get(v, "name").s := v];
        }
        ghost var own := namedRecords;
        var rest := v.Keys;
        NothingVisited(v, [], own);
        ghost var visited: set<string> := {};
        while rest != {}
          invariant visited !! rest && visited + rest == v.Keys
          invariant forall x :: SomeKeys(x, v, visited, own, namedRecords)
          decreases rest
        {
          var k :| k in rest;
          ghost var now := namedRecords;
          CollectNamedRecords(v[k]);
          ghost var more := visited + {k};
          forall x ensures SomeKeys(x, v, more, own, namedRecords) {
            SomeKeysStep(x, v, visited, k, own, now, namedRecords);
          }
          rest, visited := rest - {k}, more;
        }
        forall x ensures NameFrom(x, raw, before, namedRecords) { AllKeys(x, v, before, own, namedRecords); }
      case List(v) =>
        NothingVisited(map[], v, before);
        for i := 0 to |v|
          invariant forall x :: SomeItems(x, v, i, before, namedRecords)
        {
          ghost var now := namedRecords;
          CollectNamedRecords(v[i]);
          ghost var done := i + 1;
          forall x ensures SomeItems(x, v, done, before, namedRecords) { SomeItemsStep(x, v, i, before, now, namedRecords); }
        }
        ItemsVisited(v, before, namedRecords);
      case _ => LeafVisited(raw, before);
    }

    method CollectTopLevelStructures(raw: Any, given: Compiled) returns (structures: Compiled)
      requires Acyclic(namedRecords, atoi)
      ensures CompiledFrom(raw, given, structures, namedRecords, atoi)
      decreases raw
    {
      hide Acyclic, IsRecord, AllStructures, HasKey, MayGive, KeyFrom, SomeGiven, ItemsGiven;
      structures := given;
      match raw
      case Dict(v) =>
        if IsRecord(v) {
          structures := CollectRecordFields(v, namedRecords, atoi, given);
          AllOf(v, namedRecords, atoi);
          forall key ensures KeyFrom(key, raw, given, structures, namedRecords, atoi) { RecordGiven(key, v, given, namedRecords, atoi); }
          return;
        }
        if "fields" in v {
          structures := CollectTopLevelStructures(v["fields"], given);
          forall key ensures KeyFrom(key, raw, given, structures, namedRecords, atoi) {
            FieldsGiven(key, v, given, structures, namedRecords, atoi);
          }
          return;
        }
        var rest := v.Keys;
        NothingGiven(v, [], given, namedRecords, atoi);
        ghost var visited: set<string> := {};
        while rest != {}
          invariant visited !! rest && visited + rest == v.Keys
          invariant forall key :: SomeGiven(key, v, visited, given, structures, namedRecords, atoi)
          decreases rest
        {
          var k :| k in rest;
          ghost var now := structures;
          structures := CollectTopLevelStructures(v[k], structures);
          ghost var more := visited + {k};
          forall key ensures SomeGiven(key, v, more, given, structures, namedRecords, atoi) {
            SomeGivenStep(key, v, visited, k, given, now, structures, namedRecords, atoi);
          }
          rest, visited := rest - {k}, more;
        }
        forall key ensures KeyFrom(key, raw, given, structures, namedRecords, atoi) {
          AllGiven(key, v, given, structures, namedRecords, atoi);
        }
      case List(v) =>
        NothingGiven(map[], v, given, namedRecords, atoi);
        for i := 0 to |v|
          invariant forall key :: ItemsGiven(key, v, i, given, structures, namedRecords, atoi)
        {
          ghost var now := structures;
          structures := CollectTopLevelStructures(v[i], structures);
          ghost var done := i + 1;
          forall key ensures ItemsGiven(key, v, done, given, structures, namedRecords, atoi) {
            ItemsGivenStep(key, v, i, given, now, structures, namedRecords, atoi);
          }
        }
        AllItemsGiven(v, given, structures, namedRecords, atoi);
      case _ => LeafGiven(raw, given, namedRecords, atoi);
    }
  }

  lemma NothingVisited(m: Fields, items: seq<Any>, now: Names)
    ensures forall x :: SomeKeys(x, m, {}, now, now) && SomeItems(x, items, 0, now, now)
  {}

  lemma ItemsVisited(items: seq<Any>, before: Names, now: Names)
    requires forall x :: SomeItems(x, items, |items|, before, now)
    ensures NamedFrom(List(items), before, now)
  {
    hide NameFrom;
    assert items[..|items|] == items;
    forall x ensures NameFrom(x, List(items), before, now) { assert SomeItems(x, items, |items|, before, now); }
  }

  lemma LeafVisited(raw: Any, before: Names)
    requires !raw.Dict? && !raw.List?
    ensures NamedFrom(raw, before, before)
  {}

  lemma AllOf(m: Fields, named: Names, atoi: Atoi)
    requires Acyclic(named, atoi)
    ensures AllStructures(m, named, atoi) == Structures(m, named, atoi, |FieldsOf(m, atoi)|)
  {}

  lemma NothingGiven(m: Fields, items: seq<Any>, now: Compiled, named: Names, atoi: Atoi)
    requires Acyclic(named, atoi)
    ensures forall key :: SomeGiven(key, m, {}, now, now, named, atoi) && ItemsGiven(key, items, 0, now, now, named, atoi)
  {
    hide Acyclic;
  }

  lemma AllItemsGiven(items: seq<Any>, before: Compiled, now: Compiled, named: Names, atoi: Atoi)
    requires Acyclic(named, atoi) && forall key :: ItemsGiven(key, items, |items|, before, now, named, atoi)
    ensures CompiledFrom(List(items), before, now, named, atoi)
  {
    hide Acyclic, KeyFrom;
    assert items[..|items|] == items;
    forall key ensures KeyFrom(key, List(items), before, now, named, atoi) {
      assert ItemsGiven(key, items, |items|, before, now, named, atoi);
    }
  }

  lemma LeafGiven(raw: Any, before: Compiled, named: Names, atoi: Atoi)
    requires Acyclic(named, atoi) && !raw.Dict? && !raw.List?
    ensures CompiledFrom(raw, before, before, named, atoi)
  {
    hide Acyclic;
  }

  /** What a walk may give is the structure of a record, and so it loads. */
  lemma {:induction false} GivenLoads(raw: Any, key: string, defs: seq<Any>, named: Names, atoi: Atoi)
    requires Acyclic(named, atoi)
    ensures MayGive(raw, key, defs, named, atoi) ==> ParseDefs(defs).Ok?
    decreases raw
  {
    hide Acyclic, IsRecord, ParseDefs, HasKey, Structures, FieldsOf;
    match raw
    case Dict(m) =>
      if IsRecord(m) {
        AllOf(m, named, atoi);
        StructuresLoad(m, named, atoi, |FieldsOf(m, atoi)|, key);
      } else if "fields" in m {
        GivenLoads(m["fields"], key, defs, named, atoi);
      } else {
        forall k | k in m ensures MayGive(m[k], key, defs, named, atoi) ==> ParseDefs(defs).Ok? {
          GivenLoads(m[k], key, defs, named, atoi);
        }
      }
    case List(items) =>
      forall i | 0 <= i < |items| ensures MayGive(items[i], key, defs, named, atoi) ==> ParseDefs(defs).Ok? {
        GivenLoads(items[i], key, defs, named, atoi);
      }
    case _ =>
  }

  // ---------- which records the walks meet, by ways down the schema ----------

  /** `c` is held by `v`. On the top-level walk nothing below a record counts, and of an object with `fields`
      only those. */
  predicate Step(top: bool, c: Any, v: Any) {
    match v
    case Dict(m) => (exists k | k in m :: m[k] == c) && (top ==> Get(m, "type") != Str("record") && ("fields" in m ==> c == m["fields"]))
    case List(items) => c in items
    case _ => false
  }

  predicate Way(top: bool, way: seq<Any>) { forall i | 0 <= i < |way| - 1 :: Step(top, way[i + 1], way[i]) }

  /** Some way from `raw` ends at the object. */
  ghost predicate Found(top: bool, raw: Any, m: Fields) {
    exists way :: |way| > 0 && Way(top, way) && way[0] == raw && way[|way| - 1] == Dict(m)
  }

  lemma FoundHere(top: bool, m: Fields)
    ensures Found(top, Dict(m), m)
  {
    var way := [Dict(m)];
    assert Way(top, way) && way[0] == Dict(m) && way[|way| - 1] == Dict(m);
  }

  lemma FoundBelow(top: bool, c: Any, raw: Any, m: Fields)
    requires Step(top, c, raw) && Found(top, c, m)
    ensures Found(top, raw, m)
  {
    hide Step;
    var way :| |way| > 0 && Way(top, way) && way[0] == c && way[|way| - 1] == Dict(m);
    var longer := [raw] + way;
    assert Way(top, longer) by {
      forall i | 0 <= i < |longer| - 1 ensures Step(top, longer[i + 1], longer[i]) {
        if i > 0 { assert Step(top, way[i - 1 + 1], way[i - 1]); }
      }
    }
  }

  lemma FoundStep(top: bool, raw: Any, m: Fields) returns (c: Any)
    requires Found(top, raw, m) && raw != Dict(m)
    ensures Step(top, c, raw) && Found(top, c, m)
  {
    hide Step;
    var way :| |way| > 0 && Way(top, way) && way[0] == raw && way[|way| - 1] == Dict(m);
    c := way[1];
    var rest := way[1..];
    assert Step(top, way[0 + 1], way[0]);
    forall i | 0 <= i < |rest| - 1 ensures Step(top, rest[i + 1], rest[i]) { assert Step(top, way[i + 1 + 1], way[i + 1]); }
    assert Way(top, rest) && rest[0] == c && rest[|rest| - 1] == Dict(m);
  }

  /** A record of this name, somewhere in `raw`. */
  ghost predicate FoundNamed(raw: Any, name: string, m: Fields) {
    Found(false, raw, m) && Get(m, "type") == Str("record") && Get(m, "name") == Str(name) && name != ""
  }

  lemma {:induction false} NamedIsFound(raw: Any, name: string)
    ensures HasName(raw, name) ==> exists m :: FoundNamed(raw, name, m)
    decreases raw
  {
    hide Found;
    if HasName(raw, name) {
      if raw.Dict? && IsNamed(raw.m, name) {
        FoundHere(false, raw.m);
        assert FoundNamed(raw, name, raw.m);
      } else {
        var c: Any;
        if raw.Dict? {
          var k :| k in raw.m && HasName(raw.m[k], name);
          c := raw.m[k];
        } else {
          var i :| 0 <= i < |raw.items| && HasName(raw.items[i], name);
          c := raw.items[i];
        }
        NamedIsFound(c, name);
        var m :| FoundNamed(c, name, m);
        FoundBelow(false, c, raw, m);
        assert FoundNamed(raw, name, m);
      }
    }
  }

  lemma {:induction false} FoundIsNamed(raw: Any, name: string, m: Fields)
    requires FoundNamed(raw, name, m)
    ensures HasName(raw, name)
    decreases raw
  {
    hide Found;
    if raw != Dict(m) {
      var c := FoundStep(false, raw, m);
      FoundIsNamed(c, name, m);
    }
  }

  /** The record that a name may be left with is a record of that name. */
  lemma {:induction false} MayNameIsFound(raw: Any, name: string, r: Fields)
    requires MayName(raw, name, r)
    ensures FoundNamed(raw, name, r)
    decreases raw
  {
    hide Found, HasName;
    if raw.Dict? && r == raw.m && IsNamed(raw.m, name) {
      FoundHere(false, r);
    } else {
      var c: Any;
      if raw.Dict? {
        var k :| k in raw.m && MayName(raw.m[k], name, r);
        c := raw.m[k];
      } else {
        var i :| 0 <= i < |raw.items| && MayName(raw.items[i], name, r);
        c := raw.items[i];
      }
      MayNameIsFound(c, name, r);
      FoundBelow(false, c, raw, r);
    }
  }

  /** In a list, the last element with a record of the name decides which record the name stands for. */
  lemma LastDecides(items: seq<Any>, name: string, i: nat, m: Fields, r: Fields)
    requires i < |items| && FoundNamed(items[i], name, m) && forall j, n | i < j < |items| :: !FoundNamed(items[j], name, n)
    ensures MayName(List(items), name, r) <==> MayName(items[i], name, r)
  {
    hide HasName, FoundNamed;
    FoundIsNamed(items[i], name, m);
    forall j | i < j < |items| ensures !HasName(items[j], name) { NamedIsFound(items[j], name); }
    if MayName(List(items), name, r) {
      var j :| 0 <= j < |items| && MayName(items[j], name, r) && forall k | j < k < |items| :: !HasName(items[k], name);
      MayNameIsFound(items[j], name, r);
      FoundIsNamed(items[j], name, r);
      assert j == i;
    }
  }

  /** A record inside another of the same name decides before it. */
  lemma InnerDecides(m: Fields, name: string, k: string, n: Fields, r: Fields)
    requires k in m && FoundNamed(m[k], name, n)
    ensures MayName(Dict(m), name, r) <==> exists c | c in m :: MayName(m[c], name, r)
  {
    FoundIsNamed(m[k], name, n);
  }

  /** The names gathered are those of the records anywhere in the schema, each for such a record. */
  lemma NamesAreFound(raw: Any, named: Names)
    requires NamedFrom(raw, map[], named)
    ensures forall x :: x in named <==> exists m :: FoundNamed(raw, x, m)
    ensures forall x | x in named :: FoundNamed(raw, x, named[x])
  {
    hide HasName, MayName, FoundNamed;
    forall x
      ensures x in named <==> exists m :: FoundNamed(raw, x, m)
      ensures x in named ==> FoundNamed(raw, x, named[x])
    {
      assert NameFrom(x, raw, map[], named);
      NamedIsFound(raw, x);
      forall m | FoundNamed(raw, x, m) ensures HasName(raw, x) { FoundIsNamed(raw, x, m); }
      if x in named { MayNameIsFound(raw, x, named[x]); }
    }
  }

  /** A top-level record that gives the key a structure. */
  ghost predicate FoundKey(raw: Any, key: string, m: Fields, named: Names, atoi: Atoi)
    requires Acyclic(named, atoi)
  {
    Found(true, raw, m) && Get(m, "type") == Str("record") && key in AllStructures(m, named, atoi)
  }

  lemma {:induction false} FoundIsKey(raw: Any, key: string, m: Fields, named: Names, atoi: Atoi)
    requires Acyclic(named, atoi) && FoundKey(raw, key, m, named, atoi)
    ensures HasKey(raw, key, named, atoi)
    decreases raw
  {
    hide Found, Acyclic, AllStructures;
    if raw != Dict(m) {
      var c := FoundStep(true, raw, m);
      FoundIsKey(c, key, m, named, atoi);
    }
  }

  lemma {:induction false} GivenIsFound(raw: Any, key: string, defs: seq<Any>, named: Names, atoi: Atoi) returns (m: Fields)
    requires Acyclic(named, atoi) && MayGive(raw, key, defs, named, atoi)
    ensures FoundKey(raw, key, m, named, atoi) && AllStructures(m, named, atoi)[key] == defs
    decreases raw
  {
    hide Found, Acyclic, AllStructures, HasKey;
    if raw.Dict? && IsRecord(raw.m) {
      m := raw.m;
      FoundHere(true, m);
    } else {
      var c: Any;
      if raw.Dict? && "fields" in raw.m {
        c := raw.m["fields"];
      } else if raw.Dict? {
        var k :| k in raw.m && MayGive(raw.m[k], key, defs, named, atoi);
        c := raw.m[k];
      } else {
        var i :| 0 <= i < |raw.items| && MayGive(raw.items[i], key, defs, named, atoi);
        c := raw.items[i];
      }
      m := GivenIsFound(c, key, defs, named, atoi);
      FoundBelow(true, c, raw, m);
    }
  }

  lemma {:induction false} KeyIsFound(raw: Any, key: string, named: Names, atoi: Atoi) returns (m: Fields)
    requires Acyclic(named, atoi) && HasKey(raw, key, named, atoi)
    ensures FoundKey(raw, key, m, named, atoi)
    decreases raw
  {
    hide Found, Acyclic, AllStructures;
    if raw.Dict? && IsRecord(raw.m) {
      m := raw.m;
      FoundHere(true, m);
    } else {
      var c: Any;
      if raw.Dict? && "fields" in raw.m {
        c := raw.m["fields"];
      } else if raw.Dict? {
        var k :| k in raw.m && HasKey(raw.m[k], key, named, atoi);
        c := raw.m[k];
      } else {
        var i :| 0 <= i < |raw.items| && HasKey(raw.items[i], key, named, atoi);
        c := raw.items[i];
      }
      m := KeyIsFound(c, key, named, atoi);
      FoundBelow(true, c, raw, m);
    }
  }

  /** In a list, the last element with a structure for the key decides which structure it has. */
  lemma LastGives(items: seq<Any>, key: string, i: nat, m: Fields, defs: seq<Any>, named: Names, atoi: Atoi)
    requires Acyclic(named, atoi) && i < |items| && FoundKey(items[i], key, m, named, atoi)
    requires forall j, n | i < j < |items| :: !FoundKey(items[j], key, n, named, atoi)
    ensures MayGive(List(items), key, defs, named, atoi) <==> MayGive(items[i], key, defs, named, atoi)
  {
    hide FoundKey, Acyclic, AllStructures, HasKey;
    FoundIsKey(items[i], key, m, named, atoi);
    forall j | i < j < |items| ensures !HasKey(items[j], key, named, atoi) {
      if HasKey(items[j], key, named, atoi) { var n := KeyIsFound(items[j], key, named, atoi); }
    }
    if MayGive(List(items), key, defs, named, atoi) {
      var j :| 0 <= j < |items| && MayGive(items[j], key, defs, named, atoi) && forall k | j < k < |items| :: !HasKey(items[k], key, named, atoi);
      var n := GivenIsFound(items[j], key, defs, named, atoi);
      FoundIsKey(items[j], key, n, named, atoi);
      assert j == i;
    }
  }

  /** Every structure is the one that some top-level record gives its key, and none is missing. */
  lemma StructuresAreFound(raw: Any, structures: Compiled, named: Names, atoi: Atoi)
    requires Acyclic(named, atoi) && CompiledFrom(raw, map[], structures, named, atoi)
    ensures forall key :: key in structures <==> exists m :: FoundKey(raw, key, m, named, atoi)
    ensures forall key | key in structures ::
      exists m :: FoundKey(raw, key, m, named, atoi) && AllStructures(m, named, atoi)[key] == structures[key]
  {
    hide Acyclic, HasKey, MayGive, Found, AllStructures;
    forall key
      ensures key in structures <==> exists m :: FoundKey(raw, key, m, named, atoi)
      ensures key in structures ==> exists m :: FoundKey(raw, key, m, named, atoi) && AllStructures(m, named, atoi)[key] == structures[key]
    {
      assert KeyFrom(key, raw, map[], structures, named, atoi);
      forall m | FoundKey(raw, key, m, named, atoi) ensures HasKey(raw, key, named, atoi) { FoundIsKey(raw, key, m, named, atoi); }
      if key in structures { var m := GivenIsFound(raw, key, structures[key], named, atoi); }
    }
  }

  /** GenerateSuiteStructures on a parsed schema: each name stands for a record that some order of visits
      leaves it, each key has the structure that some order leaves it, and everything loads. Acyclicity is
      asked of exactly the choices of records that the walk can make. */
  method GenerateSuiteStructures(raw: Any, atoi: Atoi) returns (structures: Compiled, ghost named: Names)
    requires forall names :: NamedFrom(raw, map[], names) ==> Acyclic(names, atoi)
    ensures NamedFrom(raw, map[], named) && Acyclic(named, atoi) && CompiledFrom(raw, map[], structures, named, atoi)
    ensures forall key | key in structures :: ParseDefs(structures[key]).Ok?
    ensures forall x :: x in named <==> exists m :: FoundNamed(raw, x, m)
    ensures forall x | x in named :: FoundNamed(raw, x, named[x])
    ensures forall key :: key in structures <==> exists m :: FoundKey(raw, key, m, named, atoi)
    ensures forall key | key in structures ::
      exists m :: FoundKey(raw, key, m, named, atoi) && AllStructures(m, named, atoi)[key] == structures[key]
  {
    hide Acyclic, NamedFrom, Structures, FieldsOf, HasKey, MayGive, ParseDefs;
    var g := new SchemaGenerator(atoi);
    g.CollectNamedRecords(raw);
    named := g.namedRecords;
    structures := g.CollectTopLevelStructures(raw, map[]);
    NamesAreFound(raw, named);
    StructuresAreFound(raw, structures, named, atoi);
    hide FoundNamed, FoundKey;
    forall key | key in structures ensures ParseDefs(structures[key]).Ok? {
      assert KeyFrom(key, raw, map[], structures, named, atoi);
      GivenLoads(raw, key, structures[key], named, atoi);
    }
  }
}

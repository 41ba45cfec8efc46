/** The suite restorer: rows in compact positional form become keyed rows. */
module Restorer {
  import opened Bytes
  import opened AnyValue

  /** One position of a row: a plain value, or a nested array of rows with definitions of its own. */
  datatype FieldDef = Plain(key: string) | Nested(key: string, children: seq<FieldDef>)

  // ---------- loading definitions ----------

  function ParseDef(raw: Any): Result<FieldDef>
    decreases raw, 0
  {
    match raw
    case Str(s) => Ok(Plain(s))
    case List(v) =>
      if |v| != 2 || !v[0].Str? || !v[1].List? then Err
      else
        var children := ParseDefs(v[1].items);
        if children.Err? then Err else Ok(Nested(v[0].s, children.value))
    case _ => Err
  }

  function ParseDefs(raw: seq<Any>): Result<seq<FieldDef>>
    decreases raw, 1
  {
    if raw == [] then Ok([])
    else
      var init, last := ParseDefs(raw[..|raw| - 1]), ParseDef(raw[|raw| - 1]);
      if init.Err? || last.Err? then Err else Ok(init.value + [last.value])
  }

  method ParseFieldDefs(raw: seq<Any>) returns (r: Result<seq<FieldDef>>)
    ensures r == ParseDefs(raw)
    decreases raw
  {
    var result: seq<FieldDef> := [];
    for i := 0 to |raw|
      invariant ParseDefs(raw[..i]) == Ok(result)
    {
      assert raw[..i + 1][..i] == raw[..i];
      var elem := raw[i];
      match elem {
        case Str(s) =>
          result := result + [Plain(s)];
        case List(v) =>
          if |v| != 2 || !v[0].Str? || !v[1].List? { BadPrefix(raw, i + 1); return Err; }
          var children := ParseFieldDefs(v[1].items);
          if children.Err? { BadPrefix(raw, i + 1); return Err; }
          result := result + [Nested(v[0].s, children.value)];
        case _ =>
          BadPrefix(raw, i + 1);
          return Err;
      }
    }
    assert raw[..|raw|] == raw;
    return Ok(result);
  }

  lemma {:induction false} BadPrefix(raw: seq<Any>, n: nat)
    requires n <= |raw| && ParseDefs(raw[..n]).Err?
    ensures ParseDefs(raw).Err?
  {
    if n < |raw| {
      assert raw[..|raw| - 1][..n] == raw[..n];
      BadPrefix(raw[..|raw| - 1], n);
    } else {
      assert raw[..n] == raw;
    }
  }

  /** The raw form of typed definitions. */
  function RawDef(d: FieldDef): Any {
    match d
    case Plain(key) => Str(key)
    case Nested(key, children) => List([Str(key), List(RawDefs(children))])
  }

  function RawDefs(defs: seq<FieldDef>): (raw: seq<Any>)
    ensures |raw| == |defs|
  {
    if defs == [] then [] else RawDefs(defs[..|defs| - 1]) + [RawDef(defs[|defs| - 1])]
  }

  /** Definitions load exactly from their raw form, so every load can be undone. */
  lemma {:induction false} LoadsIff(raw: seq<Any>, defs: seq<FieldDef>)
    ensures ParseDefs(raw) == Ok(defs) <==> raw == RawDefs(defs)
    decreases raw, 1
  {
    hide ParseDef, RawDef;
    if raw != [] && defs != [] {
      var n, k := |raw| - 1, |defs| - 1;
      LoadsIff(raw[..n], defs[..k]);
      LoadsDefIff(raw[n], defs[k]);
      assert raw == raw[..n] + [raw[n]] && defs == defs[..k] + [defs[k]];
      LastSame(RawDefs(defs[..k]), RawDef(defs[k]), raw[..n], raw[n]);
      if ParseDefs(raw[..n]).Ok? && ParseDef(raw[n]).Ok? {
        LastSame(ParseDefs(raw[..n]).value, ParseDef(raw[n]).value, defs[..k], defs[k]);
      }
    }
  }

  lemma LastSame<T>(xs: seq<T>, x: T, ys: seq<T>, y: T)
    ensures xs + [x] == ys + [y] <==> xs == ys && x == y
  {
    if xs + [x] == ys + [y] {
      assert (xs + [x])[..|xs|] == xs && (ys + [y])[..|ys|] == ys && (xs + [x])[|xs|] == x && (ys + [y])[|ys|] == y;
    }
  }

  lemma {:induction false} LoadsDefIff(raw: Any, d: FieldDef)
    ensures ParseDef(raw) == Ok(d) <==> raw == RawDef(d)
    decreases raw, 0
  {
    if raw.List? && |raw.items| == 2 && raw.items[1].List? && d.Nested? {
      LoadsIff(raw.items[1].items, d.children);
      assert raw.items == [raw.items[0], raw.items[1]];
    }
  }

  // ---------- what restoring computes ----------

  function RestoreItem(item: Any, defs: seq<FieldDef>): Any
    decreases defs, 2, 0
  {
    match item
    case List(row) => Dict(ToDict(row, defs, |defs|))
    case Dict(m) => Dict(FixDict(m, defs, |defs|))
    case _ => item
  }

  function RestoreAll(items: seq<Any>, defs: seq<FieldDef>): (r: seq<Any>)
    ensures |r| == |items|
    decreases defs, 3, items
  {
    if items == [] then [] else RestoreAll(items[..|items| - 1], defs) + [RestoreItem(items[|items| - 1], defs)]
  }

  /** What stands under a definition's key for the value `v`. */
  function Cell(v: Any, def: FieldDef): Any
    decreases def, 0, 0
  {
    if def.Nested? && v.List? then List(RestoreAll(v.items, def.children)) else v
  }

  /** arrayToDict, by the first `n` definitions. */
  function ToDict(row: seq<Any>, defs: seq<FieldDef>, n: nat): Fields
    requires n <= |defs|
    decreases defs, 1, n
  {
    if n == 0 then map[]
    else
      var dict, i := ToDict(row, defs, n - 1), n - 1;
      if i >= |row| || row[i].Nil? then dict else dict[defs[i].key := Cell(row[i], defs[i])]
  }

  /** restoreNestedInDict, by the first `n` definitions. */
  function FixDict(m: Fields, defs: seq<FieldDef>, n: nat): Fields
    requires n <= |defs|
    decreases defs, 1, n
  {
    if n == 0 then m
    else
      var fixed, def := FixDict(m, defs, n - 1), defs[n - 1];
      if def.Plain? || def.key !in fixed then fixed else fixed[def.key := Cell(fixed[def.key], def)]
  }

  /** The `changed` flag of restoreSlice and of restoreNestedInDict. */
  predicate ItemChanged(item: Any, defs: seq<FieldDef>)
    decreases defs, 2, 0
  {
    item.List? || (item.Dict? && DictChanged(item.m, defs, |defs|))
  }

  predicate AnyChanged(items: seq<Any>, defs: seq<FieldDef>)
    decreases defs, 3, items
  {
    items != [] && (AnyChanged(items[..|items| - 1], defs) || ItemChanged(items[|items| - 1], defs))
  }

  predicate DictChanged(m: Fields, defs: seq<FieldDef>, n: nat)
    requires n <= |defs|
    decreases defs, 1, n
  {
    n > 0 && (
      || DictChanged(m, defs, n - 1)
      || var fixed, def := FixDict(m, defs, n - 1), defs[n - 1];
         def.Nested? && def.key in fixed && fixed[def.key].List?
         && (AnyChanged(fixed[def.key].items, def.children) || |fixed[def.key].items| > 0))
  }

  // ---------- when something changes ----------

  lemma {:induction false} RestoreAllAt(items: seq<Any>, defs: seq<FieldDef>, i: nat)
    requires i < |items|
    ensures RestoreAll(items, defs)[i] == RestoreItem(items[i], defs)
  {
    if i < |items| - 1 { RestoreAllAt(items[..|items| - 1], defs, i); }
  }

  lemma {:induction false} FixDictKeys(m: Fields, defs: seq<FieldDef>, n: nat)
    requires n <= |defs|
    ensures FixDict(m, defs, n).Keys == m.Keys
  {
    if n > 0 { FixDictKeys(m, defs, n - 1); }
  }

  predicate Rows(v: Any) { v.List? && v.items != [] }

  /** A nested definition has this key. */
  predicate Nests(defs: seq<FieldDef>, n: nat, key: string)
    requires n <= |defs|
  {
    exists j | 0 <= j < n :: defs[j].Nested? && defs[j].key == key
  }

  lemma {:induction false} FixDictRows(m: Fields, defs: seq<FieldDef>, n: nat, key: string)
    requires n <= |defs| && key in m
    ensures key in FixDict(m, defs, n) && (Rows(FixDict(m, defs, n)[key]) <==> Rows(m[key]))
  {
    if n > 0 { FixDictRows(m, defs, n - 1, key); }
  }

  lemma {:induction false} DictChangedIff(m: Fields, defs: seq<FieldDef>, n: nat)
    requires n <= |defs|
    ensures DictChanged(m, defs, n) <==> exists key | key in m :: Nests(defs, n, key) && Rows(m[key])
  {
    hide AnyChanged;
    if n > 0 {
      DictChangedIff(m, defs, n - 1);
      var fixed, def := FixDict(m, defs, n - 1), defs[n - 1];
      FixDictKeys(m, defs, n - 1);
      assert forall key :: Nests(defs, n, key) <==> Nests(defs, n - 1, key) || (def.Nested? && def.key == key);
      if def.key in m { FixDictRows(m, defs, n - 1, def.key); }
      NothingChanged(if def.Nested? then def.children else []);
    }
  }

  lemma NothingChanged(defs: seq<FieldDef>)
    ensures !AnyChanged([], defs)
  {}

  lemma {:induction false} AnyChangedIff(items: seq<Any>, defs: seq<FieldDef>)
    ensures AnyChanged(items, defs) <==> exists j | 0 <= j < |items| :: ItemChanged(items[j], defs)
  {
    hide ItemChanged;
    if items != [] {
      var init := items[..|items| - 1];
      AnyChangedIff(init, defs);
      assert forall j | 0 <= j < |init| :: init[j] == items[j];
    }
  }

  /** A row, or a keyed row with a list that is not empty under a nested key. */
  predicate Restorable(item: Any, defs: seq<FieldDef>) {
    item.List? || (item.Dict? && exists key | key in item.m :: Nests(defs, |defs|, key) && Rows(item.m[key]))
  }

  lemma AnyChangedMeans(items: seq<Any>, defs: seq<FieldDef>)
    ensures AnyChanged(items, defs) <==> exists i | 0 <= i < |items| :: Restorable(items[i], defs)
  {
    hide AnyChanged, Nests, Rows, DictChanged;
    AnyChangedIff(items, defs);
    forall i | 0 <= i < |items| ensures ItemChanged(items[i], defs) <==> Restorable(items[i], defs) {
      if items[i].Dict? { DictChangedIff(items[i].m, defs, |defs|); }
    }
  }

  // ---------- the loops ----------

  /** A map that is changed in place: a payload, or a row already keyed. */
  class KeyedData {
    var data: Fields

    constructor (data: Fields)
      ensures this.data == data
    {
      this.data := data;
    }
  }

  method RestoreSliceChanged(items: seq<Any>, defs: seq<FieldDef>) returns (result: seq<Any>, changed: bool)
    ensures result == RestoreAll(items, defs) && changed == AnyChanged(items, defs)
    decreases defs, 3
  {
    result, changed := [], false;
    for i := 0 to |items|
      invariant result == RestoreAll(items[..i], defs) && changed == AnyChanged(items[..i], defs)
    {
      assert items[..i + 1][..i] == items[..i];
      match items[i] {
        case List(v) =>
          var dict := ArrayToDict(v, defs);
          result := result + [Dict(dict)];
          changed := true;
        case Dict(v) =>
          var row := new KeyedData(v);
          var nested := RestoreNestedInDictChanged(row, defs);
          if nested { changed := true; }
          result := result + [Dict(row.data)];
        case _ =>
          result := result + [items[i]];
      }
    }
    assert items[..|items|] == items;
  }

  method ArrayToDict(arr: seq<Any>, defs: seq<FieldDef>) returns (dict: Fields)
    ensures dict == ToDict(arr, defs, |defs|)
    decreases defs, 2
  {
    dict := map[];
    for i := 0 to |defs|
      invariant dict == ToDict(arr, defs, i)
    {
      var def := defs[i];
      if i >= |arr| || arr[i].Nil? { continue; }
      if def.Nested? {
        if arr[i].List? {
          var sub, _ := RestoreSliceChanged(arr[i].items, def.children);
          dict := dict[def.key := List(sub)];
        } else {
          dict := dict[def.key := arr[i]];
        }
      } else {
        dict := dict[def.key := arr[i]];
      }
    }
  }

  method RestoreNestedInDictChanged(row: KeyedData, defs: seq<FieldDef>) returns (changed: bool)
    modifies row
    ensures row.data == FixDict(old(row.data), defs, |defs|) && changed == DictChanged(old(row.data), defs, |defs|)
    decreases defs, 2
  {
    changed := false;
    for i := 0 to |defs|
      invariant row.data == FixDict(old(row.data), defs, i) && changed == DictChanged(old(row.data), defs, i)
    {
      var def := defs[i];
      if def.Plain? { continue; }
      if def.key !in row.data { continue; }
      var v := row.data[def.key];
      if v.List? {
        var restored, nestedChanged := RestoreSliceChanged(v.items, def.children);
        row.data := row.data[def.key := List(restored)];
        if nestedChanged || |v.items| > 0 { changed := true; }
      } else {
        assert row.data[def.key := v] == row.data;
      }
    }
  }

  // ---------- a whole payload ----------

  type Definitions = map<string, seq<FieldDef>>

  /** The payload's field `k` after restoring. */
  function RestoredField(v: Any, defs: seq<FieldDef>): Any {
    if v.List? then List(RestoreAll(v.items, defs)) else v
  }

  function RestoredPayload(data: Fields, fields: Definitions): Fields {
    map k | k in data :: if k in fields then RestoredField(data[k], fields[k]) else data[k]
  }

  /** Only defined lists change, and each item of one is restored in its place. */
  ghost predicate ListsRestored(before: Fields, after: Fields, fields: Definitions) {
    && after.Keys == before.Keys
    && (forall k | k in before && !(k in fields && before[k].List?) :: after[k] == before[k])
    && (forall k | k in before && k in fields && before[k].List? ::
          && after[k].List? && |after[k].items| == |before[k].items|
          && forall i | 0 <= i < |before[k].items| :: after[k].items[i] == RestoreItem(before[k].items[i], fields[k]))
  }

  /** The defined lists in which some item is a row, or keyed with nested rows. */
  ghost function RestorableFields(data: Fields, fields: Definitions): set<string> {
    set k | k in fields && k in data && data[k].List? && exists i | 0 <= i < |data[k].items| :: Restorable(data[k].items[i], fields[k])
  }

  lemma PayloadRestored(data: Fields, fields: Definitions)
    ensures ListsRestored(data, RestoredPayload(data, fields), fields)
    ensures ReportedFields(data, fields) == RestorableFields(data, fields)
  {
    hide RestoreAll, RestoreItem, AnyChanged, Restorable;
    forall k | k in data && k in fields && data[k].List?
      ensures AnyChanged(data[k].items, fields[k]) <==> exists i | 0 <= i < |data[k].items| :: Restorable(data[k].items[i], fields[k]) {
      AnyChangedMeans(data[k].items, fields[k]);
    }
    forall k, i | k in data && k in fields && data[k].List? && 0 <= i < |data[k].items|
      ensures RestoreAll(data[k].items, fields[k])[i] == RestoreItem(data[k].items[i], fields[k]) {
      RestoreAllAt(data[k].items, fields[k], i);
    }
  }

  /** The fields that a run reports as restored. */
  function ReportedFields(data: Fields, fields: Definitions): set<string> {
    set k | k in fields && k in data && data[k].List? && AnyChanged(data[k].items, fields[k])
  }

  class SuiteRestorer {
    const fields: Definitions

    constructor (fields: Definitions)
      ensures this.fields == fields
    {
      this.fields := fields;
    }

    /** Fields are visited in no particular order; every order leaves the same payload and the same report. */
    method RestoreFieldsWithReport(payload: KeyedData) returns (restoredFields: nat, failedFields: seq<string>)
      modifies payload
      ensures payload.data == RestoredPayload(old(payload.data), fields)
      ensures restoredFields == |ReportedFields(old(payload.data), fields)| && failedFields == []
      ensures ListsRestored(old(payload.data), payload.data, fields)
      ensures restoredFields == |RestorableFields(old(payload.data), fields)|
    {
      hide RestoreAll, AnyChanged, ListsRestored, RestorableFields;
      PayloadRestored(payload.data, fields);
      ghost var given := payload.data;
      ghost var reported: set<string> := {};
      var rest := fields.Keys;
      restoredFields, failedFields := 0, [];
      while rest != {}
        invariant rest <= fields.Keys && payload.data.Keys == given.Keys
        invariant forall k | k in given ::
          payload.data[k] == if k in fields && k !in rest then RestoredField(given[k], fields[k]) else given[k]
        invariant reported == set k | k in ReportedFields(given, fields) && k !in rest
        invariant restoredFields == |reported|
        decreases rest
      {
        var field :| field in rest;
        rest := rest - {field};
        if field !in payload.data { continue; }
        var v := payload.data[field];
        if !v.List? { continue; }
        var restored, changed := RestoreSliceChanged(v.items, fields[field]);
        payload.data := payload.data[field := List(restored)];
        if changed {
          restoredFields := restoredFields + 1;
          reported := reported + {field};
        }
      }
      assert reported == ReportedFields(given, fields);
    }
  }

  /** NewFromDefinitions: definitions load if every field's definitions do. */
  method NewFromDefinitions(raw: map<string, seq<Any>>) returns (r: Result<Definitions>)
    ensures r.Ok? <==> forall k | k in raw :: ParseDefs(raw[k]).Ok?
    ensures r.Ok? ==> r.value.Keys == raw.Keys && forall k | k in raw :: ParseDefs(raw[k]) == Ok(r.value[k])
  {
    var fields: Definitions := map[];
    var rest := raw.Keys;
    while rest != {}
      invariant rest <= raw.Keys && fields.Keys == raw.Keys - rest
      invariant forall k | k in fields :: ParseDefs(raw[k]) == Ok(fields[k])
      decreases rest
    {
      var fieldName :| fieldName in rest;
      var parsed := ParseFieldDefs(raw[fieldName]);
      if parsed.Err? { return Err; }
      fields := fields[fieldName := parsed.value];
      rest := rest - {fieldName};
    }
    return Ok(fields);
  }
}

/** Restoring is idempotent and confluent, and loses nothing but padding. */
module RestorerLaws {
  import opened AnyValue
  import opened Restorer

  /** No two definitions share a key, at any level. */
  predicate DistinctKeys(defs: seq<FieldDef>)
    decreases defs
  {
    && DistinctHere(defs)
    && (forall i | 0 <= i < |defs| :: defs[i].Nested? ==> DistinctKeys(defs[i].children))
  }

  predicate DistinctHere(defs: seq<FieldDef>) { forall i, j :: 0 <= i < j < |defs| ==> defs[i].key != defs[j].key }

  // ---------- rows and keyed rows, position by position ----------

  /** Position `i` of a row holds a value that a definition keeps. */
  predicate Held(row: seq<Any>, i: nat) { i < |row| && !row[i].Nil? }

  lemma {:induction false} ToDictAt(row: seq<Any>, defs: seq<FieldDef>, n: nat, i: nat)
    requires DistinctHere(defs) && i < |defs| && n <= |defs|
    ensures var d := ToDict(row, defs, n);
      if i < n && Held(row, i) then defs[i].key in d && d[defs[i].key] == Cell(row[i], defs[i]) else defs[i].key !in d
  {
    if n > 0 { ToDictAt(row, defs, n - 1, i); }
  }

  lemma {:induction false} ToDictKeys(row: seq<Any>, defs: seq<FieldDef>, n: nat, key: string)
    requires n <= |defs| && key in ToDict(row, defs, n)
    ensures exists i :: 0 <= i < n && Held(row, i) && defs[i].key == key
  {
    var i := n - 1;
    if Held(row, i) && defs[i].key == key {
    } else {
      ToDictKeys(row, defs, n - 1, key);
    }
  }

  lemma {:induction false} FixDictAt(m: Fields, defs: seq<FieldDef>, n: nat, i: nat)
    requires DistinctHere(defs) && i < |defs| && n <= |defs| && defs[i].key in m
    ensures defs[i].key in FixDict(m, defs, n)
    ensures FixDict(m, defs, n)[defs[i].key] == if i < n then Cell(m[defs[i].key], defs[i]) else m[defs[i].key]
  {
    hide RestoreAll;
    FixDictKeys(m, defs, n);
    if n > 0 {
      FixDictKeys(m, defs, n - 1);
      FixDictAt(m, defs, n - 1, i);
    }
  }

  lemma {:induction false} FixDictElse(m: Fields, defs: seq<FieldDef>, n: nat, key: string)
    requires n <= |defs| && key in m && forall i :: 0 <= i < |defs| ==> defs[i].key != key
    ensures key in FixDict(m, defs, n) && FixDict(m, defs, n)[key] == m[key]
  {
    FixDictKeys(m, defs, n);
    if n > 0 {
      FixDictKeys(m, defs, n - 1);
      FixDictElse(m, defs, n - 1, key);
    }
  }

  // ---------- partly restored data ----------

  /** `y` is the item `x` with some of the rows in it, at any level, already brought to keyed form. */
  ghost predicate Partly(x: Any, y: Any, defs: seq<FieldDef>)
    decreases defs, 1
  {
    match x
    case List(xs) => (y.List? && PartlyRow(xs, y.items, defs)) || (y.Dict? && PartlyKeyed(xs, y.m, defs))
    case Dict(m) => y.Dict? && PartlyDict(m, y.m, defs)
    case _ => y == x
  }

  ghost predicate PartlyAll(xs: seq<Any>, ys: seq<Any>, defs: seq<FieldDef>)
    decreases defs, 2
  {
    |xs| == |ys| && forall i | 0 <= i < |xs| :: Partly(xs[i], ys[i], defs)
  }

  ghost predicate PartlyCell(v: Any, w: Any, def: FieldDef)
    decreases def, 0
  {
    if def.Nested? && v.List? then w.List? && PartlyAll(v.items, w.items, def.children) else w == v
  }

  /** A row that is still a row. */
  ghost predicate PartlyRow(xs: seq<Any>, ys: seq<Any>, defs: seq<FieldDef>)
    decreases defs, 0
  {
    |xs| == |ys| && forall i | 0 <= i < |xs| :: if i < |defs| then PartlyCell(xs[i], ys[i], defs[i]) else ys[i] == xs[i]
  }

  /** A row that became keyed. */
  ghost predicate PartlyKeyed(xs: seq<Any>, m: Fields, defs: seq<FieldDef>)
    decreases defs, 0
  {
    && (forall i | 0 <= i < |defs| :: Held(xs, i) ==> defs[i].key in m && PartlyCell(xs[i], m[defs[i].key], defs[i]))
    && (forall key | key in m :: exists i :: 0 <= i < |defs| && Held(xs, i) && defs[i].key == key)
  }

  /** An item that was keyed from the start. */
  ghost predicate PartlyDict(m: Fields, n: Fields, defs: seq<FieldDef>)
    decreases defs, 0
  {
    && n.Keys == m.Keys
    && (forall i | 0 <= i < |defs| :: defs[i].key in m ==> PartlyCell(m[defs[i].key], n[defs[i].key], defs[i]))
    && (forall key | key in m && (forall i :: 0 <= i < |defs| ==> defs[i].key != key) :: n[key] == m[key])
  }

  /** Whatever was restored beforehand, restoring the rest gives the same. */
  lemma {:induction false} Confluent(x: Any, y: Any, defs: seq<FieldDef>)
    requires DistinctKeys(defs) && Partly(x, y, defs)
    ensures RestoreItem(y, defs) == RestoreItem(x, defs)
    decreases defs, 1
  {
    var n := |defs|;
    match x
    case List(xs) =>
      if y.List? { ConfluentRow(xs, y.items, defs, n); } else { ConfluentKeyed(xs, y.m, defs); }
    case Dict(m) => ConfluentDict(m, y.m, defs);
    case _ =>
  }

  lemma {:induction false} ConfluentAll(xs: seq<Any>, ys: seq<Any>, defs: seq<FieldDef>)
    requires DistinctKeys(defs) && PartlyAll(xs, ys, defs)
    ensures RestoreAll(ys, defs) == RestoreAll(xs, defs)
    decreases defs, 2
  {
    forall i | 0 <= i < |xs| ensures RestoreAll(ys, defs)[i] == RestoreAll(xs, defs)[i] {
      RestoreAllAt(xs, defs, i);
      RestoreAllAt(ys, defs, i);
      Confluent(xs[i], ys[i], defs);
    }
  }

  lemma {:induction false} ConfluentCell(v: Any, w: Any, def: FieldDef)
    requires (def.Nested? ==> DistinctKeys(def.children)) && PartlyCell(v, w, def)
    ensures Cell(w, def) == Cell(v, def) && (w.Nil? <==> v.Nil?)
    decreases def, 0
  {
    if def.Nested? && v.List? { ConfluentAll(v.items, w.items, def.children); }
  }

  lemma {:induction false} ConfluentRow(xs: seq<Any>, ys: seq<Any>, defs: seq<FieldDef>, n: nat)
    requires DistinctKeys(defs) && PartlyRow(xs, ys, defs) && n <= |defs|
    ensures ToDict(ys, defs, n) == ToDict(xs, defs, n)
    decreases defs, 0, n
  {
    if n > 0 {
      ConfluentRow(xs, ys, defs, n - 1);
      if n - 1 < |xs| { ConfluentCell(xs[n - 1], ys[n - 1], defs[n - 1]); }
    }
  }

  lemma {:induction false} ConfluentKeyed(xs: seq<Any>, m: Fields, defs: seq<FieldDef>)
    requires DistinctKeys(defs) && PartlyKeyed(xs, m, defs)
    ensures FixDict(m, defs, |defs|) == ToDict(xs, defs, |defs|)
    decreases defs, 0
  {
    var n := |defs|;
    var fixed, dict := FixDict(m, defs, n), ToDict(xs, defs, n);
    FixDictKeys(m, defs, n);
    forall key | key in dict ensures key in fixed {
      ToDictKeys(xs, defs, n, key);
    }
    forall key | key in fixed ensures key in dict && fixed[key] == dict[key] {
      var i :| 0 <= i < n && Held(xs, i) && defs[i].key == key;
      ToDictAt(xs, defs, n, i);
      FixDictAt(m, defs, n, i);
      ConfluentCell(xs[i], m[key], defs[i]);
    }
  }

  lemma {:induction false} ConfluentDict(m: Fields, k: Fields, defs: seq<FieldDef>)
    requires DistinctKeys(defs) && PartlyDict(m, k, defs)
    ensures FixDict(k, defs, |defs|) == FixDict(m, defs, |defs|)
    decreases defs, 0
  {
    var n := |defs|;
    var a, b := FixDict(k, defs, n), FixDict(m, defs, n);
    FixDictKeys(m, defs, n);
    FixDictKeys(k, defs, n);
    forall key | key in a ensures a[key] == b[key] {
      if i :| 0 <= i < n && defs[i].key == key {
        FixDictAt(m, defs, n, i);
        FixDictAt(k, defs, n, i);
        ConfluentCell(m[key], k[key], defs[i]);
      } else {
        FixDictElse(m, defs, n, key);
        FixDictElse(k, defs, n, key);
      }
    }
  }

  // ---------- a restored item is a partly restored item, and so is the item itself ----------

  lemma {:induction false} RestoredIsPartly(x: Any, defs: seq<FieldDef>)
    requires DistinctKeys(defs)
    ensures Partly(x, RestoreItem(x, defs), defs) && Partly(x, x, defs)
    decreases defs, 1
  {
    var n := |defs|;
    match x
    case List(xs) =>
      var dict := ToDict(xs, defs, n);
      forall i | 0 <= i < n && i < |xs| ensures PartlyCell(xs[i], Cell(xs[i], defs[i]), defs[i]) && PartlyCell(xs[i], xs[i], defs[i]) {
        CellIsPartly(xs[i], defs[i]);
      }
      forall i | 0 <= i < n && Held(xs, i) ensures defs[i].key in dict && PartlyCell(xs[i], dict[defs[i].key], defs[i]) {
        ToDictAt(xs, defs, n, i);
      }
      forall key | key in dict ensures exists i :: 0 <= i < n && Held(xs, i) && defs[i].key == key {
        ToDictKeys(xs, defs, n, key);
      }
    case Dict(m) =>
      var fixed := FixDict(m, defs, n);
      FixDictKeys(m, defs, n);
      forall i | 0 <= i < n && defs[i].key in m
        ensures PartlyCell(m[defs[i].key], fixed[defs[i].key], defs[i]) && PartlyCell(m[defs[i].key], m[defs[i].key], defs[i]) {
        FixDictAt(m, defs, n, i);
        CellIsPartly(m[defs[i].key], defs[i]);
      }
      forall key | key in m && (forall i :: 0 <= i < |defs| ==> defs[i].key != key) ensures fixed[key] == m[key] {
        FixDictElse(m, defs, n, key);
      }
    case _ =>
  }

  lemma {:induction false} CellIsPartly(v: Any, def: FieldDef)
    requires def.Nested? ==> DistinctKeys(def.children)
    ensures PartlyCell(v, Cell(v, def), def) && PartlyCell(v, v, def)
    decreases def, 0
  {
    if def.Nested? && v.List? {
      forall i | 0 <= i < |v.items|
        ensures Partly(v.items[i], RestoreAll(v.items, def.children)[i], def.children) && Partly(v.items[i], v.items[i], def.children) {
        RestoreAllAt(v.items, def.children, i);
        RestoredIsPartly(v.items[i], def.children);
      }
    }
  }

  /** Restoring a payload twice is restoring it once, if keys are distinct at every level. */
  lemma Idempotent(data: Fields, fields: Definitions)
    requires forall k | k in fields :: DistinctKeys(fields[k])
    ensures RestoredPayload(RestoredPayload(data, fields), fields) == RestoredPayload(data, fields)
  {
    forall k | k in data && k in fields && data[k].List?
      ensures RestoreAll(RestoreAll(data[k].items, fields[k]), fields[k]) == RestoreAll(data[k].items, fields[k]) {
      var items, defs := data[k].items, fields[k];
      forall i | 0 <= i < |items| ensures Partly(items[i], RestoreAll(items, defs)[i], defs) {
        RestoreAllAt(items, defs, i);
        RestoredIsPartly(items[i], defs);
      }
      ConfluentAll(items, RestoreAll(items, defs), defs);
    }
  }

  /** Rows that `pick` names, brought to keyed form beforehand. */
  function RestoreSome(items: seq<Any>, defs: seq<FieldDef>, pick: nat -> bool): (r: seq<Any>)
    ensures |r| == |items|
  {
    seq(|items|, i requires 0 <= i < |items| => if pick(i) then RestoreItem(items[i], defs) else items[i])
  }

  /** Converting any rows beforehand does not change the result. */
  lemma AnyOrder(items: seq<Any>, defs: seq<FieldDef>, pick: nat -> bool)
    requires DistinctKeys(defs)
    ensures RestoreAll(RestoreSome(items, defs, pick), defs) == RestoreAll(items, defs)
  {
    forall i | 0 <= i < |items| ensures Partly(items[i], RestoreSome(items, defs, pick)[i], defs) {
      RestoredIsPartly(items[i], defs);
    }
    ConfluentAll(items, RestoreSome(items, defs, pick), defs);
  }

  /** Keys that repeat may break this: a plain definition may put back what a nested one will restore. */
  lemma DuplicateKeysRestoreTwice()
    ensures var defs := [Nested("a", [Plain("b")]), Plain("a")];
      var row := List([Nil, List([List([Int(7)])])]);
      RestoreItem(RestoreItem(row, defs), defs) != RestoreItem(row, defs)
  {
    var defs := [Nested("a", [Plain("b")]), Plain("a")];
    var inner := List([List([Int(7)])]);
    var row := [Nil, inner];
    var sub := [Plain("b")];
    assert ToDict(row, defs, 0) == map[];
    assert ToDict(row, defs, 1) == map[];
    assert ToDict(row, defs, 2) == map["a" := inner];
    var once: Fields := map["a" := inner];
    assert RestoreItem(List(row), defs) == Dict(once);
    assert FixDict(once, defs, 0) == once;
    assert inner.items[..0] == [];
    assert RestoreAll([], sub) == [];
    assert RestoreAll(inner.items, sub) == [RestoreItem(List([Int(7)]), sub)];
    assert FixDict(once, defs, 1) == map["a" := List([RestoreItem(List([Int(7)]), sub)])];
    assert FixDict(once, defs, 2) == FixDict(once, defs, 1);
    assert RestoreItem(List([Int(7)]), sub).Dict?;
  }

  // ---------- the changed flag ----------

  /** What is reported unchanged is unchanged. Not the other way round: see SecondReport. */
  lemma {:induction false} UnchangedItem(item: Any, defs: seq<FieldDef>)
    requires !ItemChanged(item, defs)
    ensures RestoreItem(item, defs) == item
    decreases defs, 2, 0
  {
    if item.Dict? { UnchangedDict(item.m, defs, |defs|); }
  }

  lemma {:induction false} UnchangedDict(m: Fields, defs: seq<FieldDef>, n: nat)
    requires n <= |defs| && !DictChanged(m, defs, n)
    ensures FixDict(m, defs, n) == m
    decreases defs, 1, n
  {
    if n > 0 {
      UnchangedDict(m, defs, n - 1);
      var def := defs[n - 1];
      if def.Nested? && def.key in m && m[def.key].List? {
        assert m[def.key].items == [];
        assert RestoreAll([], def.children) == [];
      }
    }
  }

  lemma {:induction false} UnchangedAll(items: seq<Any>, defs: seq<FieldDef>)
    requires !AnyChanged(items, defs)
    ensures RestoreAll(items, defs) == items
  {
    hide RestoreItem, ItemChanged;
    if items != [] {
      var init, last := items[..|items| - 1], items[|items| - 1];
      assert AnyChanged(items, defs) <==> AnyChanged(init, defs) || ItemChanged(last, defs);
      assert RestoreAll(items, defs) == RestoreAll(init, defs) + [RestoreItem(last, defs)];
      hide AnyChanged, RestoreAll;
      UnchangedAll(init, defs);
      UnchangedItem(last, defs);
    }
  }

  /** Position `i` of a row is the last one with its key that holds a value. */
  predicate Wins(row: seq<Any>, defs: seq<FieldDef>, i: nat, n: nat)
    requires n <= |defs|
  {
    i < n && Held(row, i) && forall k | i < k < n :: Held(row, k) ==> defs[k].key != defs[i].key
  }

  /** Under a nested key, the item has a list that is not empty. */
  predicate HasRows(item: Any, defs: seq<FieldDef>) {
    match item
    case List(row) => exists i | 0 <= i < |defs| :: Wins(row, defs, i, |defs|) && Nests(defs, |defs|, defs[i].key) && Rows(row[i])
    case Dict(m) => exists key | key in m :: Nests(defs, |defs|, key) && Rows(m[key])
    case _ => false
  }

  /** A keyed row has, under each key, the cell of the winning position. */
  lemma {:induction false} ToDictWins(row: seq<Any>, defs: seq<FieldDef>, n: nat, key: string, v: Any)
    requires n <= |defs|
    ensures key in ToDict(row, defs, n) && ToDict(row, defs, n)[key] == v
      <==> exists i: nat :: Wins(row, defs, i, n) && defs[i].key == key && Cell(row[i], defs[i]) == v
  {
    hide Cell;
    if n > 0 {
      ToDictWins(row, defs, n - 1, key, v);
      var last := n - 1;
      assert Held(row, last) ==> Wins(row, defs, last, n);
      assert forall i: nat :: i < last ==>
        (Wins(row, defs, i, n) <==> Wins(row, defs, i, last) && !(Held(row, last) && defs[last].key == defs[i].key));
    }
  }

  /** Restoring an item again reports a change exactly if it has nested rows, converted long since or not. */
  lemma SecondChange(item: Any, defs: seq<FieldDef>)
    ensures ItemChanged(RestoreItem(item, defs), defs) <==> HasRows(item, defs)
  {
    hide Nests, Rows;
    var n := |defs|;
    match item
    case List(row) =>
      var dict := ToDict(row, defs, n);
      DictChangedIff(dict, defs, n);
      forall key | key in dict
        ensures Rows(dict[key]) <==> exists i: nat :: Wins(row, defs, i, n) && defs[i].key == key && Rows(row[i]) {
        OneWinner(row, defs, key);
      }
      forall i: nat | Wins(row, defs, i, n) ensures defs[i].key in dict {
        ToDictWins(row, defs, n, defs[i].key, Cell(row[i], defs[i]));
      }
    case Dict(m) =>
      var fixed := FixDict(m, defs, n);
      DictChangedIff(fixed, defs, n);
      FixDictKeys(m, defs, n);
      forall key | key in m ensures Rows(fixed[key]) <==> Rows(m[key]) { FixDictRows(m, defs, n, key); }
    case _ =>
  }

  lemma OneWinner(row: seq<Any>, defs: seq<FieldDef>, key: string)
    requires key in ToDict(row, defs, |defs|)
    ensures Rows(ToDict(row, defs, |defs|)[key]) <==>
      exists i: nat :: Wins(row, defs, i, |defs|) && defs[i].key == key && Rows(row[i])
  {
    var v := ToDict(row, defs, |defs|)[key];
    ToDictWins(row, defs, |defs|, key, v);
    var i: nat :| Wins(row, defs, i, |defs|) && defs[i].key == key && Cell(row[i], defs[i]) == v;
    assert forall k: nat :: Wins(row, defs, k, |defs|) && defs[k].key == key ==> k == i;
  }

  /** A second restore changes nothing, and yet reports the field exactly if some item has nested rows. */
  lemma SecondReport(items: seq<Any>, defs: seq<FieldDef>)
    ensures AnyChanged(RestoreAll(items, defs), defs) <==> exists j | 0 <= j < |items| :: HasRows(items[j], defs)
  {
    hide ItemChanged, HasRows, RestoreItem, AnyChanged, RestoreAll;
    AnyChangedIff(RestoreAll(items, defs), defs);
    forall j | 0 <= j < |items|
      ensures ItemChanged(RestoreAll(items, defs)[j], defs) <==> HasRows(items[j], defs) {
      RestoreAllAt(items, defs, j);
      SecondChange(items[j], defs);
    }
  }

  // ---------- flattening back ----------

  /** The row that a keyed row came from, read off by the definitions. */
  function Flatten(dict: Fields, defs: seq<FieldDef>): (row: seq<Any>)
    ensures |row| == |defs|
    decreases defs, 1
  {
    seq(|defs|, i requires 0 <= i < |defs| =>
      if defs[i].key in dict then FlattenCell(dict[defs[i].key], defs[i]) else Nil)
  }

  function FlattenCell(v: Any, def: FieldDef): Any
    decreases def, 0
  {
    if def.Nested? && v.List? then
      List(seq(|v.items|, i requires 0 <= i < |v.items| =>
        if v.items[i].Dict? then List(Flatten(v.items[i].m, def.children)) else v.items[i]))
    else v
  }

  /** The row cut to the number of definitions and padded with nil, at every level. */
  function Padded(row: seq<Any>, defs: seq<FieldDef>): (r: seq<Any>)
    ensures |r| == |defs|
    decreases defs, 1
  {
    seq(|defs|, i requires 0 <= i < |defs| => if i < |row| then PaddedCell(row[i], defs[i]) else Nil)
  }

  function PaddedCell(v: Any, def: FieldDef): Any
    decreases def, 0
  {
    if def.Nested? && v.List? then
      List(seq(|v.items|, i requires 0 <= i < |v.items| =>
        if v.items[i].List? then List(Padded(v.items[i].items, def.children)) else v.items[i]))
    else v
  }

  /** Nested rows are still positional, at every level. */
  predicate Positional(row: seq<Any>, defs: seq<FieldDef>)
    decreases defs, 1
  {
    forall i | 0 <= i < |row| && i < |defs| :: PositionalCell(row[i], defs[i])
  }

  predicate PositionalCell(v: Any, def: FieldDef)
    decreases def, 0
  {
    def.Nested? && v.List? ==>
      forall x | x in v.items :: !x.Dict? && (x.List? ==> Positional(x.items, def.children))
  }

  /** Flattening what arrayToDict made gives the row back, up to padding. */
  lemma {:induction false} FlattenToDict(row: seq<Any>, defs: seq<FieldDef>)
    requires DistinctKeys(defs) && Positional(row, defs)
    ensures Flatten(ToDict(row, defs, |defs|), defs) == Padded(row, defs)
    decreases defs, 1
  {
    forall i | 0 <= i < |defs| ensures Flatten(ToDict(row, defs, |defs|), defs)[i] == Padded(row, defs)[i] {
      ToDictAt(row, defs, |defs|, i);
      if Held(row, i) { FlattenCellBack(row[i], defs[i]); }
    }
  }

  lemma {:induction false} FlattenCellBack(v: Any, def: FieldDef)
    requires (def.Nested? ==> DistinctKeys(def.children)) && PositionalCell(v, def)
    ensures FlattenCell(Cell(v, def), def) == PaddedCell(v, def)
    decreases def, 0
  {
    if def.Nested? && v.List? {
      var all := RestoreAll(v.items, def.children);
      forall i | 0 <= i < |v.items| ensures FlattenCell(Cell(v, def), def).items[i] == PaddedCell(v, def).items[i] {
        RestoreAllAt(v.items, def.children, i);
        assert v.items[i] in v.items;
        if v.items[i].List? { FlattenToDict(v.items[i].items, def.children); }
      }
    }
  }
}

/** Exactly which definitions restore idempotently. */
module RestoreTwice {
  import opened AnyValue
  import opened Restorer
  import opened RestorerLaws

  /** What the definitions `c` restored, `d` leaves alone: every key that `d` nests, `c` has, and nests it
      each time, with definitions whose work those of `d` leave alone in turn. */
  predicate Absorbs(c: seq<FieldDef>, d: seq<FieldDef>) {
    forall j | 0 <= j < |d| && d[j].Nested? ::
      && (exists i | 0 <= i < |c| :: c[i].key == d[j].key)
      && forall i | 0 <= i < |c| && c[i].key == d[j].key :: c[i].Nested? && Absorbs(c[i].children, d[j].children)
  }

  lemma {:induction false} DistinctAbsorb(defs: seq<FieldDef>)
    requires DistinctKeys(defs)
    ensures Absorbs(defs, defs)
  {
    forall j | 0 <= j < |defs| && defs[j].Nested? ensures Absorbs(defs[j].children, defs[j].children) {
      DistinctAbsorb(defs[j].children);
    }
  }

  // ---------- absorbed definitions change nothing ----------

  /** The value under a key of a keyed row comes from one position. */
  lemma {:induction false} ToDictFrom(row: seq<Any>, c: seq<FieldDef>, n: nat, key: string) returns (i: nat)
    requires n <= |c| && key in ToDict(row, c, n)
    ensures i < n && i < |row| && c[i].key == key && ToDict(row, c, n)[key] == Cell(row[i], c[i])
  {
    i := n - 1;
    if !(Held(row, i) && c[i].key == key) { i := ToDictFrom(row, c, n - 1, key); }
  }

  /** A list under a nested key of a restored keyed row was last restored by some nested definition of it. */
  lemma {:induction false} FixDictFrom(m: Fields, c: seq<FieldDef>, n: nat, i: nat) returns (k: nat, v: Any)
    requires i < n <= |c| && c[i].Nested? && c[i].key in m
    ensures k < n && c[k].Nested? && c[k].key == c[i].key
    ensures c[i].key in FixDict(m, c, n) && FixDict(m, c, n)[c[i].key] == Cell(v, c[k])
  {
    FixDictKeys(m, c, n - 1);
    if c[n - 1].Nested? && c[n - 1].key == c[i].key {
      k, v := n - 1, FixDict(m, c, n - 1)[c[i].key];
    } else {
      k, v := FixDictFrom(m, c, n - 1, i);
    }
  }

  lemma {:induction false} CellAgain(v: Any, a: FieldDef, b: FieldDef)
    requires a.Nested? && b.Nested? && Absorbs(a.children, b.children)
    ensures Cell(Cell(v, a), b) == Cell(v, a)
    decreases b, 0
  {
    if v.List? {
      var once := RestoreAll(v.items, a.children);
      forall i | 0 <= i < |once| ensures RestoreAll(once, b.children)[i] == once[i] {
        RestoreAllAt(v.items, a.children, i);
        RestoreAllAt(once, b.children, i);
        AbsorbedItem(v.items[i], a.children, b.children);
      }
      assert RestoreAll(once, b.children) == once;
    }
  }

  lemma {:induction false} AbsorbedItem(x: Any, c: seq<FieldDef>, d: seq<FieldDef>)
    requires Absorbs(c, d)
    ensures RestoreItem(RestoreItem(x, c), d) == RestoreItem(x, c)
    decreases d, 2
  {
    if x.List? {
      AbsorbedDict(x, ToDict(x.items, c, |c|), c, d, |d|);
    } else if x.Dict? {
      AbsorbedDict(x, FixDict(x.m, c, |c|), c, d, |d|);
    }
  }

  lemma {:induction false} AbsorbedDict(x: Any, y: Fields, c: seq<FieldDef>, d: seq<FieldDef>, n: nat)
    requires Absorbs(c, d) && n <= |d| && RestoreItem(x, c) == Dict(y)
    ensures FixDict(y, d, n) == y
    decreases d, 1, n
  {
    if n > 0 {
      AbsorbedDict(x, y, c, d, n - 1);
      var def := d[n - 1];
      if def.Nested? && def.key in y {
        if x.List? {
          var i := ToDictFrom(x.items, c, |c|, def.key);
          CellAgain(x.items[i], c[i], def);
        } else {
          FixDictKeys(x.m, c, |c|);
          var i :| 0 <= i < |c| && c[i].key == def.key;
          var k, v := FixDictFrom(x.m, c, |c|, i);
          CellAgain(v, c[k], def);
        }
      }
    }
  }

  // ---------- definitions that are not absorbed change something ----------

  /** Following `path` through lists of one item ends at an item that is a row or keyed. */
  predicate Open(v: Any, path: seq<string>)
    decreases |path|
  {
    if path == [] then v.List? || v.Dict?
    else v.Dict? && path[0] in v.m && v.m[path[0]].List? && |v.m[path[0]].items| == 1 && Open(v.m[path[0]].items[0], path[1..])
  }

  /** It ends at a keyed item. */
  predicate Keyed(v: Any, path: seq<string>)
    requires Open(v, path)
    decreases |path|
  {
    if path == [] then v.Dict? else Keyed(v.m[path[0]].items[0], path[1..])
  }

  /** Nested definitions lead along `path`. */
  predicate Leads(d: seq<FieldDef>, path: seq<string>)
    decreases |path|
  {
    path == [] || exists j | 0 <= j < |d| :: d[j].Nested? && d[j].key == path[0] && Leads(d[j].children, path[1..])
  }

  /** Restoring keeps a path open and a keyed end keyed, and keys the end that its definitions lead to. */
  lemma {:induction false} RestoreOpen(v: Any, path: seq<string>, d: seq<FieldDef>)
    requires Open(v, path)
    ensures Open(RestoreItem(v, d), path)
    ensures Keyed(v, path) || Leads(d, path) ==> Keyed(RestoreItem(v, d), path)
    decreases |path|, 1
  {
    if path != [] { FixOpen(v.m, path, d, |d|); }
  }

  lemma {:induction false} FixOpen(m: Fields, path: seq<string>, d: seq<FieldDef>, n: nat)
    requires path != [] && Open(Dict(m), path) && n <= |d|
    ensures Open(Dict(FixDict(m, d, n)), path)
    ensures Keyed(Dict(m), path) || Leads(d[..n], path) ==> Keyed(Dict(FixDict(m, d, n)), path)
    decreases |path|, 0, n
  {
    if n > 0 {
      FixOpen(m, path, d, n - 1);
      var fixed, def := FixDict(m, d, n - 1), d[n - 1];
      assert d[..n] == d[..n - 1] + [def];
      if def.Nested? && def.key == path[0] {
        var items := fixed[def.key].items;
        RestoreAllAt(items, def.children, 0);
        RestoreOpen(items[0], path[1..], def.children);
      }
    }
  }

  function Alone(i: nat, v: Any): (row: seq<Any>)
    ensures |row| == i + 1 && row[i] == v && forall j :: 0 <= j < i ==> row[j] == Nil
  {
    seq(i, _ => Nil) + [v]
  }

  /** A row with one value becomes a keyed row with one key. */
  lemma {:induction false} AloneDict(i: nat, v: Any, c: seq<FieldDef>, n: nat)
    requires i < |c| && n <= |c| && !v.Nil?
    ensures ToDict(Alone(i, v), c, n) == if i < n then map[c[i].key := Cell(v, c[i])] else map[]
  {
    if n > 0 { AloneDict(i, v, c, n - 1); }
  }

  /** An item of which `c` leaves a row that `d` turns into a keyed one. */
  lemma {:induction false} Unabsorbed(c: seq<FieldDef>, d: seq<FieldDef>) returns (x: Any, path: seq<string>)
    requires !Absorbs(c, d)
    ensures Leads(d, path) && Open(RestoreItem(x, c), path) && !Keyed(RestoreItem(x, c), path)
    decreases d
  {
    var rows := List([List([])]);
    var j :| 0 <= j < |d| && d[j].Nested? && !(
      && (exists i | 0 <= i < |c| :: c[i].key == d[j].key)
      && forall i | 0 <= i < |c| && c[i].key == d[j].key :: c[i].Nested? && Absorbs(c[i].children, d[j].children));
    var key := d[j].key;
    path := [key];
    if forall i | 0 <= i < |c| :: c[i].key != key {
      x := Dict(map[key := rows]);
      FixDictElse(x.m, c, |c|, key);
    } else {
      var i :| 0 <= i < |c| && c[i].key == key && !(c[i].Nested? && Absorbs(c[i].children, d[j].children));
      if c[i].Plain? {
        x := List(Alone(i, rows));
        AloneDict(i, rows, c, |c|);
      } else {
        var y, rest := Unabsorbed(c[i].children, d[j].children);
        x := List(Alone(i, List([y])));
        AloneDict(i, List([y]), c, |c|);
        RestoreAllAt([y], c[i].children, 0);
        path := [key] + rest;
        assert path[1..] == rest;
      }
    }
  }

  // ---------- the exact condition ----------

  /** Restoring any item by `d` after `c` is restoring it by `c`, exactly if `d` is absorbed. */
  lemma AbsorbsIff(c: seq<FieldDef>, d: seq<FieldDef>)
    ensures (forall x :: RestoreItem(RestoreItem(x, c), d) == RestoreItem(x, c)) <==> Absorbs(c, d)
  {
    if Absorbs(c, d) {
      forall x ensures RestoreItem(RestoreItem(x, c), d) == RestoreItem(x, c) { AbsorbedItem(x, c, d); }
    } else {
      var x, path := Unabsorbed(c, d);
      RestoreOpen(RestoreItem(x, c), path, d);
    }
  }

  /** Definitions restore every item idempotently exactly if they absorb themselves. */
  lemma IdempotentIff(defs: seq<FieldDef>)
    ensures (forall x :: RestoreItem(RestoreItem(x, defs), defs) == RestoreItem(x, defs)) <==> Absorbs(defs, defs)
  {
    AbsorbsIff(defs, defs);
  }

  lemma AllAgain(items: seq<Any>, defs: seq<FieldDef>)
    requires Absorbs(defs, defs)
    ensures RestoreAll(RestoreAll(items, defs), defs) == RestoreAll(items, defs)
  {
    var once := RestoreAll(items, defs);
    forall i | 0 <= i < |items| ensures RestoreAll(once, defs)[i] == once[i] {
      RestoreAllAt(items, defs, i);
      RestoreAllAt(once, defs, i);
      AbsorbedItem(items[i], defs, defs);
    }
  }

  lemma PayloadAgain(data: Fields, fields: Definitions)
    requires forall k | k in fields :: Absorbs(fields[k], fields[k])
    ensures RestoredPayload(RestoredPayload(data, fields), fields) == RestoredPayload(data, fields)
  {
    hide Absorbs, RestoreAll;
    forall k | k in data && k in fields && data[k].List?
      ensures RestoreAll(RestoreAll(data[k].items, fields[k]), fields[k]) == RestoreAll(data[k].items, fields[k]) {
      AllAgain(data[k].items, fields[k]);
    }
  }

  lemma PayloadDiffers(fields: Definitions, k: string, x: Any)
    requires k in fields && RestoreItem(RestoreItem(x, fields[k]), fields[k]) != RestoreItem(x, fields[k])
    ensures var data: Fields := map[k := List([x])];
      RestoredPayload(RestoredPayload(data, fields), fields) != RestoredPayload(data, fields)
  {
    hide RestoreItem, RestoreAll;
    var data: Fields := map[k := List([x])];
    var once := RestoreAll([x], fields[k]);
    RestoreAllAt([x], fields[k], 0);
    RestoreAllAt(once, fields[k], 0);
    assert RestoredPayload(data, fields)[k] == List(once);
    assert RestoredPayload(RestoredPayload(data, fields), fields)[k] == List(RestoreAll(once, fields[k]));
  }

  /** A whole payload: restoring twice is restoring once, for every payload, exactly if the definitions of
      every field absorb themselves. */
  lemma PayloadIdempotentIff(fields: Definitions)
    ensures (forall data: Fields :: RestoredPayload(RestoredPayload(data, fields), fields) == RestoredPayload(data, fields))
      <==> (forall k | k in fields :: Absorbs(fields[k], fields[k]))
  {
    hide Absorbs, RestoreItem, RestoredPayload;
    if forall k | k in fields :: Absorbs(fields[k], fields[k]) {
      forall data: Fields ensures RestoredPayload(RestoredPayload(data, fields), fields) == RestoredPayload(data, fields) {
        PayloadAgain(data, fields);
      }
    } else {
      var k :| k in fields && !Absorbs(fields[k], fields[k]);
      IdempotentIff(fields[k]);
      var x :| RestoreItem(RestoreItem(x, fields[k]), fields[k]) != RestoreItem(x, fields[k]);
      PayloadDiffers(fields, k, x);
    }
  }

  /** Rows may be converted beforehand, whichever they are and whatever the list, under the same condition. */
  lemma AnyOrderIff(defs: seq<FieldDef>)
    ensures (forall items, pick :: RestoreAll(RestoreSome(items, defs, pick), defs) == RestoreAll(items, defs)) <==> Absorbs(defs, defs)
  {
    hide Absorbs, RestoreItem, RestoreAll;
    if Absorbs(defs, defs) {
      forall items, pick ensures RestoreAll(RestoreSome(items, defs, pick), defs) == RestoreAll(items, defs) {
        var some := RestoreSome(items, defs, pick);
        forall i | 0 <= i < |items| ensures RestoreAll(some, defs)[i] == RestoreAll(items, defs)[i] {
          RestoreAllAt(items, defs, i);
          RestoreAllAt(some, defs, i);
          AbsorbedItem(items[i], defs, defs);
        }
      }
    } else {
      IdempotentIff(defs);
      var x :| RestoreItem(RestoreItem(x, defs), defs) != RestoreItem(x, defs);
      var items, pick := [x], (i: nat) => true;
      var some := RestoreSome(items, defs, pick);
      RestoreAllAt(items, defs, 0);
      RestoreAllAt(some, defs, 0);
      assert RestoreAll(some, defs)[0] != RestoreAll(items, defs)[0];
    }
  }
}

/** What types, keys and orders of a schema mean, told apart from how they are looked up. */
module SchemaTypes {
  import opened Bytes
  import opened AnyValue
  import opened Schema

  // ---------- which record a type denotes ----------

  /** Alternative `i` is the first that is not "null". */
  ghost predicate FirstAt(items: seq<Any>, i: nat) {
    i < |items| && items[i] != Str("null") && forall j | 0 <= j < i :: items[j] == Str("null")
  }

  /** `t` is what a type comes to: the first alternative of a union that is not "null". A union without one,
      and anything but a union, stands for itself. */
  ghost predicate Alternative(raw: Any, t: Any) {
    if raw.List? && exists i: nat :: FirstAt(raw.items, i) then exists i: nat :: FirstAt(raw.items, i) && raw.items[i] == t
    else t == raw
  }

  /** `short` is what follows the last dot of `name`. */
  ghost predicate ShortFor(name: string, short: string) {
    '.' !in short && |short| < |name| && name[|name| - |short| - 1] == '.' && name[|name| - |short|..] == short
  }

  /** A name stands for the record of exactly that name, else for the one of its short name. */
  ghost predicate Names(name: string, named: Schema.Names, c: Fields) {
    if name in named then named[name] == c else exists short :: ShortFor(name, short) && short in named && named[short] == c
  }

  /** A type denotes an inline record, or one by its name, the name standing alone or under "type". */
  ghost predicate Denotes(raw: Any, named: Schema.Names, c: Fields) {
    exists t :: Alternative(raw, t) && (
      || (t == Dict(c) && Get(c, "type") == Str("record"))
      || (exists name :: Names(name, named, c)
            && (t == Str(name) || (t.Dict? && name != "record" && Get(t.m, "type") == Str(name)))))
  }

  /** A type is an array whose items denote the record. */
  ghost predicate ArrayOf(raw: Any, named: Schema.Names, c: Fields) {
    exists t :: Alternative(raw, t) && t.Dict? && Get(t.m, "type") == Str("array") && Denotes(Get(t.m, "items"), named, c)
  }

  lemma {:induction false} FirstNonNullAt(items: seq<Any>, otherwise: Any, i: nat)
    requires FirstAt(items, i)
    ensures FirstNonNull(items, otherwise) == items[i]
  {
    if i > 0 {
      assert items[1..][i - 1] == items[i] && forall j | 0 <= j < i - 1 :: items[1..][j] == items[j + 1];
      FirstNonNullAt(items[1..], otherwise, i - 1);
    }
  }

  lemma {:induction false} FirstNonNullFrom(items: seq<Any>, otherwise: Any)
    ensures FirstNonNull(items, otherwise) == otherwise || exists i: nat :: FirstAt(items, i)
  {
    if items != [] {
      if items[0] == Str("null") {
        FirstNonNullFrom(items[1..], otherwise);
        if i: nat :| FirstAt(items[1..], i) { assert FirstAt(items, i + 1); }
      } else {
        assert FirstAt(items, 0);
      }
    }
  }

  lemma UnwrapIff(raw: Any, t: Any)
    ensures UnwrapNullable(raw) == t <==> Alternative(raw, t)
  {
    hide FirstNonNull, FirstAt;
    if raw.List? {
      FirstNonNullFrom(raw.items, raw);
      forall i: nat | FirstAt(raw.items, i) ensures i < |raw.items| && UnwrapNullable(raw) == raw.items[i] {
        FirstBound(raw.items, i);
        FirstNonNullAt(raw.items, raw, i);
      }
    }
  }

  lemma FirstBound(items: seq<Any>, i: nat)
    requires FirstAt(items, i)
    ensures i < |items|
  {}

  lemma {:induction false} AfterLastDotIff(name: string, short: string)
    ensures AfterLastDot(name) == Some(short) <==> ShortFor(name, short)
  {
    if name != "" {
      AfterLastDotIff(name[1..], short);
      if |short| < |name| - 1 {
        assert name[1..][|name| - 1 - |short|..] == name[|name| - |short|..];
        if AfterLastDot(name[1..]).None? && '.' in name[1..] { DotFound(name[1..]); }
      } else if |short| == |name| - 1 {
        assert name[|name| - |short|..] == name[1..];
        if '.' in name[1..] { DotFound(name[1..]); }
        if AfterLastDot(name[1..]).Some? { AfterLastDotIff(name[1..], AfterLastDot(name[1..]).value); DotThere(name[1..]); }
      }
      if AfterLastDot(name[1..]).Some? { DotThere(name[1..]); }
    }
  }

  lemma {:induction false} DotFound(name: string)
    requires '.' in name
    ensures AfterLastDot(name).Some?
  {
    if name[0] != '.' { DotFound(name[1..]); }
  }

  lemma {:induction false} DotThere(name: string)
    requires AfterLastDot(name).Some?
    ensures '.' in name && |AfterLastDot(name).value| < |name|
  {
    if AfterLastDot(name[1..]).Some? { DotThere(name[1..]); }
  }

  lemma LookupIff(name: string, named: Schema.Names, c: Fields)
    ensures Lookup(name, named) == Some(c) <==> Names(name, named, c)
  {
    hide AfterLastDot, ShortFor;
    forall short ensures AfterLastDot(name) == Some(short) <==> ShortFor(name, short) { AfterLastDotIff(name, short); }
  }

  lemma RecordIff(raw: Any, named: Schema.Names, c: Fields)
    ensures RecordFromType(raw, named) == Some(c) <==> Denotes(raw, named, c)
  {
    hide UnwrapNullable, Alternative, Lookup, Names;
    forall t ensures UnwrapNullable(raw) == t <==> Alternative(raw, t) { UnwrapIff(raw, t); }
    forall name ensures Lookup(name, named) == Some(c) <==> Names(name, named, c) { LookupIff(name, named, c); }
    var t := UnwrapNullable(raw);
    assert Alternative(raw, t);
    if t.Str? {
      assert Lookup(t.s, named) == Some(c) <==> Names(t.s, named, c);
    } else if t.Dict? && Get(t.m, "type").Str? {
      assert Lookup(Get(t.m, "type").s, named) == Some(c) <==> Names(Get(t.m, "type").s, named, c);
    }
  }

  /** The item record of a field is that which its type is an array of. */
  lemma ItemIff(field: Fields, named: Schema.Names, c: Fields)
    ensures Item(field, named) == Some(c) <==> ArrayOf(Get(field, "type"), named, c)
  {
    hide UnwrapNullable, Alternative, RecordFromType, Denotes;
    var raw := Get(field, "type");
    forall t ensures UnwrapNullable(raw) == t <==> Alternative(raw, t) { UnwrapIff(raw, t); }
    var t := UnwrapNullable(raw);
    if t.Dict? { RecordIff(Get(t.m, "items"), named, c); }
    assert Alternative(raw, t);
  }

  /** A name with dots means the record of the part behind the last one, unless it is a name itself. */
  lemma DottedName(ns: string, short: string, named: Schema.Names)
    requires '.' !in short && short in named && ns + "." + short !in named
    ensures RecordFromType(Str(ns + "." + short), named) == Some(named[short])
  {
    var name := ns + "." + short;
    assert ShortFor(name, short);
    LookupIff(name, named, named[short]);
  }

  /** Either way round, a union with "null" means what its other alternative means, if that is no union. */
  lemma NullableMeans(t: Any, named: Schema.Names)
    requires !t.List? && t != Str("null")
    ensures RecordFromType(List([Str("null"), t]), named) == RecordFromType(List([t, Str("null")]), named) == RecordFromType(t, named)
    ensures ArrayItemRecord(List([Str("null"), t]), named) == ArrayItemRecord(List([t, Str("null")]), named) == ArrayItemRecord(t, named)
  {
    var u, v := List([Str("null"), t]), List([t, Str("null")]);
    assert FirstAt(u.items, 1) && FirstAt(v.items, 0);
    UnwrapIff(u, t);
    UnwrapIff(v, t);
  }

  // ---------- keys, names and their order ----------

  /** What one spelling of the key says: nothing, so the other counts; or a key; or that there is none. */
  datatype Reading = Silent | Key(n: int) | NoKey

  ghost predicate ReadsAs(v: Any, atoi: Atoi, r: Reading) {
    match r
    case Silent => !v.Int? && !v.Number? && !v.Str?
    case Key(n) => v == Int(n) || (v.Str? && atoi(v.s) == Ok(n))
    case NoKey => v.Number? || (v.Str? && atoi(v.s).Err?)
  }

  /** `msgpack_key` decides if it says anything, else `msgpackKey`. */
  lemma MsgpackKeyIff(field: Fields, atoi: Atoi, k: Option<int>)
    ensures MsgpackKey(field, atoi) == k <==>
      exists r, s :: ReadsAs(Get(field, "msgpack_key"), atoi, r) && ReadsAs(Get(field, "msgpackKey"), atoi, s)
        && k == (if r.Key? then Some(r.n) else if r.Silent? && s.Key? then Some(s.n) else None)
  {
    var r, s := ReadingOf(Get(field, "msgpack_key"), atoi), ReadingOf(Get(field, "msgpackKey"), atoi);
    OneReading(Get(field, "msgpack_key"), atoi);
    OneReading(Get(field, "msgpackKey"), atoi);
    hide ReadsAs, Get;
    assert ReadsAs(Get(field, "msgpack_key"), atoi, r) && ReadsAs(Get(field, "msgpackKey"), atoi, s);
    assert MsgpackKey(field, atoi) == if r.Key? then Some(r.n) else if r.Silent? && s.Key? then Some(s.n) else None;
  }

  ghost function ReadingOf(v: Any, atoi: Atoi): Reading {
    match v
    case Int(n) => Key(n)
    case Str(s) => if atoi(s).Ok? then Key(atoi(s).value) else NoKey
    case Number(_) => NoKey
    case _ => Silent
  }

  lemma OneReading(v: Any, atoi: Atoi)
    ensures forall r :: ReadsAs(v, atoi, r) <==> r == ReadingOf(v, atoi)
  {}

  /** Strings are ordered by their first difference; a prefix comes first. */
  lemma {:induction false} BeforeIff(a: string, b: string)
    ensures Before(a, b) <==> exists k | 0 <= k <= |a| :: k < |b| && a[..k] == b[..k] && (k == |a| || a[k] < b[k])
  {
    if a != "" && b != "" {
      BeforeIff(a[1..], b[1..]);
      if k :| 0 <= k <= |a| && k < |b| && a[..k] == b[..k] && (k == |a| || a[k] < b[k]) {
        if k > 0 {
          assert a[..k][0] == b[..k][0] && a[1..][..k - 1] == a[..k][1..] && b[1..][..k - 1] == b[..k][1..];
        }
      }
      if a[0] == b[0] {
        if k :| 0 <= k <= |a[1..]| && k < |b[1..]| && a[1..][..k] == b[1..][..k] && (k == |a[1..]| || a[1..][k] < b[1..][k]) {
          assert a[..k + 1] == [a[0]] + a[1..][..k] && b[..k + 1] == [b[0]] + b[1..][..k];
        }
      } else if a[0] < b[0] {
        assert a[..0] == b[..0];
      }
    } else if b != "" {
      assert a[..0] == b[..0];
    }
  }

  /** Sorted fields: those with a key come first, by key; equal keys, and fields without one, go by name. */
  lemma SortedMeans(fs: seq<Fields>, atoi: Atoi, i: nat, j: nat)
    requires i < j < |StableSort(fs, atoi)|
    ensures var r := StableSort(fs, atoi); var k, l := MsgpackKey(r[i], atoi), MsgpackKey(r[j], atoi);
      && (l.Some? ==> k.Some? && k.value <= l.value)
      && (k == l ==> Name(r[i]) == Name(r[j]) || Before(Name(r[i]), Name(r[j])))
  {
    hide MsgpackKey, Before, Name;
    var r := StableSort(fs, atoi);
    StableSortStable(fs, r[i], atoi);
    BeforeOrder(Name(r[i]), Name(r[j]), Name(r[j]));
    assert !Less(r[j], r[i], atoi);
  }

  /** The fields of a list are its objects, in order. */
  lemma {:induction false} FieldListIs(items: seq<Any>, more: seq<Any>)
    ensures FieldList(items + more) == FieldList(items) + FieldList(more)
  {
    if items == [] {
      assert items + more == more;
    } else {
      var all, first := items + more, if items[0].Dict? then [items[0].m] else [];
      assert all[0] == items[0] && all[1..] == items[1..] + more;
      assert FieldList(all) == first + FieldList(all[1..]) && FieldList(items) == first + FieldList(items[1..]);
      FieldListIs(items[1..], more);
      hide FieldList;
      assert first + (FieldList(items[1..]) + FieldList(more)) == first + FieldList(items[1..]) + FieldList(more);
    }
  }

  lemma FieldListOne(x: Any)
    ensures FieldList([x]) == if x.Dict? then [x.m] else []
  {
    assert [x][1..] == [];
  }
}

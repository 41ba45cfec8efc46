/** The schema compiler: records of an Avro-like schema become suite definitions. */
module Schema {
  import opened Bytes
  import opened AnyValue

  /** Named records of a schema. */
  type Names = map<string, Fields>

  predicate IsRecord(m: Fields) { Get(m, "type") == Str("record") }

  /** The first alternative that is not "null"; the value itself if there is none. */
  function UnwrapNullable(raw: Any): Any {
    if raw.List? then FirstNonNull(raw.items, raw) else raw
  }

  function FirstNonNull(items: seq<Any>, otherwise: Any): Any {
    if items == [] then otherwise
    else if items[0] == Str("null") then FirstNonNull(items[1..], otherwise)
    else items[0]
  }

  /** What follows the last dot; nothing if there is no dot. */
  function AfterLastDot(s: string): Option<string> {
    if s == "" then None
    else
      match AfterLastDot(s[1..])
      case Some(t) => Some(t)
      case None => if s[0] == '.' then Some(s[1..]) else None
  }

  function Lookup(name: string, named: Names): Option<Fields> {
    if name in named then Some(named[name])
    else
      match AfterLastDot(name)
      case None => None
      case Some(short) => if short in named then Some(named[short]) else None
  }

  function RecordFromType(raw: Any, named: Names): Option<Fields> {
    match UnwrapNullable(raw)
    case Dict(m) =>
      if IsRecord(m) then Some(m)
      else if Get(m, "type").Str? then Lookup(Get(m, "type").s, named)
      else None
    case Str(s) => Lookup(s, named)
    case _ => None
  }

  function ArrayItemRecord(raw: Any, named: Names): Option<Fields> {
    match UnwrapNullable(raw)
    case Dict(m) => if Get(m, "type") == Str("array") then RecordFromType(Get(m, "items"), named) else None
    case _ => None
  }

  // ---------- the order of fields ----------

  /** strconv.Atoi: unseen library code. */
  type Atoi = string -> Result<int>

  /** A key that is neither a number nor a string passes the turn to the other spelling. */
  function MsgpackKey(field: Fields, atoi: Atoi): Option<int> {
    var a := Get(field, "msgpack_key");
    if a.Int? then Some(a.n)
    else if a.Number? then None
    else if a.Str? then (if atoi(a.s).Ok? then Some(atoi(a.s).value) else None)
    else
      var b := Get(field, "msgpackKey");
      if b.Int? then Some(b.n)
      else if b.Str? && atoi(b.s).Ok? then Some(atoi(b.s).value)
      else None
  }

  function Name(field: Fields): string {
    if Get(field, "name").Str? then Get(field, "name").s else ""
  }

  /** Lexicographic order of strings. */
  predicate Before(a: string, b: string) {
    b != "" && (a == "" || a[0] < b[0] || (a[0] == b[0] && Before(a[1..], b[1..])))
  }

  predicate Less(f: Fields, g: Fields, atoi: Atoi) {
    var i, j := MsgpackKey(f, atoi), MsgpackKey(g, atoi);
    if i.Some? && j.Some? && i.value != j.value then i.value < j.value
    else if i.Some? != j.Some? then i.Some?
    else Before(Name(f), Name(g))
  }

  lemma {:induction false} BeforeOrder(a: string, b: string, c: string)
    ensures !Before(a, a)
    ensures Before(a, b) && Before(b, c) ==> Before(a, c)
    ensures Before(a, b) || Before(b, a) || a == b
  {
    if a != "" && b != "" && c != "" {
      BeforeOrder(a[1..], b[1..], c[1..]);
      assert a == [a[0]] + a[1..] && b == [b[0]] + b[1..];
    } else if a != "" && b != "" {
      BeforeOrder(a[1..], b[1..], "");
      assert a == [a[0]] + a[1..] && b == [b[0]] + b[1..];
    } else if a != "" {
      BeforeOrder(a[1..], "", "");
    }
  }

  /** The comparator is a strict weak order: irreflexive, transitive, and so is being incomparable. */
  lemma LessStrictWeak(f: Fields, g: Fields, h: Fields, atoi: Atoi)
    ensures !Less(f, f, atoi)
    ensures Less(f, g, atoi) && Less(g, h, atoi) ==> Less(f, h, atoi)
    ensures Less(f, h, atoi) ==> Less(f, g, atoi) || Less(g, h, atoi)
  {
    BeforeOrder(Name(f), Name(g), Name(h));
    BeforeOrder(Name(f), Name(h), Name(g));
    BeforeOrder(Name(g), Name(h), Name(f));
  }

  // ---------- a stable sort ----------

  function Insert(f: Fields, fs: seq<Fields>, atoi: Atoi): (r: seq<Fields>)
    ensures multiset(r) == multiset{f} + multiset(fs)
  {
    if fs == [] then [f]
    else if Less(fs[0], f, atoi) then
      assert fs == [fs[0]] + fs[1..];
      [fs[0]] + Insert(f, fs[1..], atoi)
    else [f] + fs
  }

  /** sort.SliceStable */
  function StableSort(fs: seq<Fields>, atoi: Atoi): (r: seq<Fields>)
    ensures multiset(r) == multiset(fs)
  {
    if fs == [] then []
    else
      assert fs == [fs[0]] + fs[1..];
      Insert(fs[0], StableSort(fs[1..], atoi), atoi)
  }

  predicate Sorted(fs: seq<Fields>, atoi: Atoi) {
    forall i, j :: 0 <= i < j < |fs| ==> !Less(fs[j], fs[i], atoi)
  }

  /** The fields that the comparator cannot tell from `f`, in order. */
  function Peers(f: Fields, fs: seq<Fields>, atoi: Atoi): seq<Fields> {
    if fs == [] then []
    else
      var rest := Peers(f, fs[1..], atoi);
      if Less(f, fs[0], atoi) || Less(fs[0], f, atoi) then rest else [fs[0]] + rest
  }

  /** No field of `fs` comes before `f`. */
  predicate Least(f: Fields, fs: seq<Fields>, atoi: Atoi) { forall g | g in fs :: !Less(g, f, atoi) }

  lemma SortedCons(f: Fields, fs: seq<Fields>, atoi: Atoi)
    ensures Sorted([f] + fs, atoi) <==> Sorted(fs, atoi) && Least(f, fs, atoi)
  {
    hide Less;
    var all := [f] + fs;
    if Sorted(all, atoi) {
      forall i, j | 0 <= i < j < |fs| ensures !Less(fs[j], fs[i], atoi) { assert !Less(all[j + 1], all[i + 1], atoi); }
      forall g | g in fs ensures !Less(g, f, atoi) {
        var k :| 0 <= k < |fs| && fs[k] == g;
        assert !Less(all[k + 1], all[0], atoi);
      }
    }
  }

  lemma {:induction false} InsertSorted(f: Fields, fs: seq<Fields>, atoi: Atoi)
    requires Sorted(fs, atoi)
    ensures Sorted(Insert(f, fs, atoi), atoi)
  {
    hide Less, Sorted, Least;
    if fs == [] {
      SortedCons(f, [], atoi);
      assert Sorted([], atoi) && Least(f, [], atoi) && [f] + [] == [f] by { EmptySorted(f, atoi); }
    } else {
      assert fs == [fs[0]] + fs[1..];
      SortedCons(fs[0], fs[1..], atoi);
      LessStrictWeak(f, fs[0], f, atoi);
      if Less(fs[0], f, atoi) {
        InsertSorted(f, fs[1..], atoi);
        InsertLeast(fs[0], f, fs[1..], atoi);
        SortedCons(fs[0], Insert(f, fs[1..], atoi), atoi);
      } else {
        LeastBelow(f, fs, atoi);
        SortedCons(f, fs, atoi);
      }
    }
  }

  lemma EmptySorted(f: Fields, atoi: Atoi)
    ensures Sorted([], atoi) && Least(f, [], atoi)
  {}

  lemma InsertLeast(g: Fields, f: Fields, fs: seq<Fields>, atoi: Atoi)
    requires Least(g, fs, atoi) && !Less(f, g, atoi)
    ensures Least(g, Insert(f, fs, atoi), atoi)
  {
    hide Less, Insert;
    forall h | h in Insert(f, fs, atoi) ensures !Less(h, g, atoi) {
      assert h in multiset(Insert(f, fs, atoi));
      assert h == f || h in multiset(fs);
    }
  }

  lemma LeastBelow(f: Fields, fs: seq<Fields>, atoi: Atoi)
    requires fs != [] && Least(fs[0], fs[1..], atoi) && !Less(fs[0], f, atoi)
    ensures Least(f, fs, atoi)
  {
    hide Less;
    forall g | g in fs ensures !Less(g, f, atoi) {
      LessStrictWeak(g, fs[0], f, atoi);
      if g != fs[0] { assert fs == [fs[0]] + fs[1..] && g in fs[1..]; }
    }
  }

  lemma PeersCons(g: Fields, f: Fields, fs: seq<Fields>, atoi: Atoi)
    ensures var rest := Peers(g, fs, atoi);
      Peers(g, [f] + fs, atoi) == if Less(g, f, atoi) || Less(f, g, atoi) then rest else [f] + rest
  {
    hide Less;
    assert ([f] + fs)[1..] == fs;
  }

  lemma {:induction false} InsertStable(f: Fields, fs: seq<Fields>, g: Fields, atoi: Atoi)
    requires Sorted(fs, atoi)
    ensures Peers(g, Insert(f, fs, atoi), atoi) == Peers(g, [f] + fs, atoi)
  {
    hide Less, Sorted, Peers;
    if fs != [] && Less(fs[0], f, atoi) {
      var head, tail := fs[0], fs[1..];
      assert fs == [head] + tail;
      SortedCons(head, tail, atoi);
      InsertStable(f, tail, g, atoi);
      PeersCons(g, head, Insert(f, tail, atoi), atoi);
      PeersCons(g, head, tail, atoi);
      PeersCons(g, f, tail, atoi);
      PeersCons(g, f, fs, atoi);
      // head and f are told apart, so at most one of them is a peer of g
      LessStrictWeak(head, g, f, atoi);
    } else if fs == [] {
      assert [f] + fs == [f];
    }
  }

  /** The sort is a sort, and stable: fields that compare alike keep their order. */
  lemma {:induction false} StableSortStable(fs: seq<Fields>, g: Fields, atoi: Atoi)
    ensures Sorted(StableSort(fs, atoi), atoi)
    ensures Peers(g, StableSort(fs, atoi), atoi) == Peers(g, fs, atoi)
  {
    if fs != [] {
      var rest := StableSort(fs[1..], atoi);
      StableSortStable(fs[1..], g, atoi);
      InsertSorted(fs[0], rest, atoi);
      InsertStable(fs[0], rest, g, atoi);
      assert ([fs[0]] + rest)[1..] == rest;
    }
  }

  lemma PeersHead(f: Fields, fs: seq<Fields>, atoi: Atoi)
    requires fs != [] && !Less(f, fs[0], atoi) && !Less(fs[0], f, atoi)
    ensures Peers(f, fs, atoi) != [] && Peers(f, fs, atoi)[0] == fs[0]
  {}

  lemma PeersTail(f: Fields, fs: seq<Fields>, atoi: Atoi)
    requires fs != []
    ensures var all := Peers(f, fs, atoi);
      if Less(f, fs[0], atoi) || Less(fs[0], f, atoi) then Peers(f, fs[1..], atoi) == all
      else all != [] && Peers(f, fs[1..], atoi) == all[1..]
  {}

  lemma {:induction false} PeersIn(f: Fields, fs: seq<Fields>, g: Fields, atoi: Atoi)
    requires g in Peers(f, fs, atoi)
    ensures g in fs
  {
    if Peers(f, fs[1..], atoi) != [] && g in Peers(f, fs[1..], atoi) { PeersIn(f, fs[1..], g, atoi); }
  }

  /** There is only one stable sort: sorted fields with the same peers in the same order are the same. */
  lemma {:induction false} StableSortUnique(r: seq<Fields>, t: seq<Fields>, atoi: Atoi)
    requires Sorted(r, atoi) && Sorted(t, atoi)
    requires forall g :: Peers(g, r, atoi) == Peers(g, t, atoi)
    ensures r == t
  {
    if t != [] {
      LessStrictWeak(t[0], t[0], t[0], atoi);
      PeersHead(t[0], t, atoi);
      assert Peers(t[0], r, atoi) == Peers(t[0], t, atoi);
    }
    if r != [] {
      var x := r[0];
      LessStrictWeak(x, x, x, atoi);
      PeersHead(x, r, atoi);
      assert Peers(x, r, atoi) == Peers(x, t, atoi);
      PeersIn(x, t, x, atoi);
      var y := t[0];
      LessStrictWeak(y, y, y, atoi);
      PeersHead(y, t, atoi);
      assert Peers(y, r, atoi) == Peers(y, t, atoi);
      PeersIn(y, r, y, atoi);
      HeadLeast(r, y, atoi);
      HeadLeast(t, x, atoi);
      PeersHead(x, t, atoi);
      assert x == y;
      forall g ensures Peers(g, r[1..], atoi) == Peers(g, t[1..], atoi) {
        assert Peers(g, r, atoi) == Peers(g, t, atoi);
        PeersTail(g, r, atoi);
        PeersTail(g, t, atoi);
      }
      StableSortUnique(r[1..], t[1..], atoi);
    }
  }

  lemma HeadLeast(fs: seq<Fields>, g: Fields, atoi: Atoi)
    requires Sorted(fs, atoi) && g in fs
    ensures !Less(g, fs[0], atoi)
  {
    var i :| 0 <= i < |fs| && fs[i] == g;
    if i == 0 { LessStrictWeak(g, g, g, atoi); }
  }

  // ---------- the fields of a record ----------

  /** The keyed elements of a field list. */
  function FieldList(raw: seq<Any>): seq<Fields> {
    if raw == [] then []
    else (if raw[0].Dict? then [raw[0].m] else []) + FieldList(raw[1..])
  }

  function SortedFields(raw: Any, atoi: Atoi): seq<Fields> {
    if raw.List? then StableSort(FieldList(raw.items), atoi) else []
  }

  function FieldsOf(record: Fields, atoi: Atoi): seq<Fields> { SortedFields(Get(record, "fields"), atoi) }

  /** The item record of a named field, if the field is an array of records. */
  function Item(field: Fields, named: Names): Option<Fields> { ArrayItemRecord(Get(field, "type"), named) }

  lemma {:induction false} FieldListSmaller(raw: seq<Any>, f: Fields)
    requires f in FieldList(raw)
    ensures Dict(f) in raw
  {
    if !(raw[0].Dict? && raw[0].m == f) { FieldListSmaller(raw[1..], f); }
  }

  lemma FieldSmaller(record: Fields, atoi: Atoi, f: Fields)
    requires f in FieldsOf(record, atoi)
    ensures Dict(f) < Dict(record)
  {
    var raw := Get(record, "fields");
    assert f in multiset(StableSort(FieldList(raw.items), atoi));
    assert f in FieldList(raw.items);
    FieldListSmaller(raw.items, f);
    assert Dict(f) < raw < Dict(record);
  }

  lemma {:induction false} FirstNonNullIn(items: seq<Any>, otherwise: Any)
    ensures var r := FirstNonNull(items, otherwise); r == otherwise || r in items
  {
    if items != [] { FirstNonNullIn(items[1..], otherwise); }
  }

  lemma UnwrapSmaller(raw: Any)
    ensures UnwrapNullable(raw) == raw || UnwrapNullable(raw) < raw
  {
    if raw.List? {
      FirstNonNullIn(raw.items, raw);
      if UnwrapNullable(raw) in raw.items {
        assert forall x | x in raw.items :: x < raw;
      }
    }
  }

  /** An item record is a named one, or lies inside its field. */
  lemma ItemOrigin(field: Fields, named: Names)
    requires Item(field, named).Some?
    ensures var c := Item(field, named).value; (exists x :: x in named && named[x] == c) || Dict(c) < Dict(field)
  {
    var t := Get(field, "type");
    UnwrapSmaller(t);
    var m := UnwrapNullable(t).m;
    var u := Get(m, "items");
    UnwrapSmaller(u);
    if UnwrapNullable(u).Dict? && IsRecord(UnwrapNullable(u).m) {
      assert UnwrapNullable(u) == u || UnwrapNullable(u) < u;
      assert u < Dict(m) && (Dict(m) == t || Dict(m) < t) && t < Dict(field);
    }
  }

  // ---------- acyclic schemas ----------

  ghost predicate Child(r: Fields, c: Fields, named: Names, atoi: Atoi) {
    exists f :: f in FieldsOf(r, atoi) && Name(f) != "" && Item(f, named) == Some(c)
  }

  ghost predicate Path(p: seq<Fields>, named: Names, atoi: Atoi) {
    forall i :: 0 <= i < |p| - 1 ==> Child(p[i], p[i + 1], named, atoi)
  }

  ghost predicate PathTo(p: seq<Fields>, r: Fields, x: string, named: Names, atoi: Atoi) {
    |p| >= 2 && p[0] == r && x in named && p[|p| - 1] == named[x] && Path(p, named, atoi)
  }

  /** Record `r` reaches the record named `x` through array fields. */
  ghost predicate Reaches(r: Fields, x: string, named: Names, atoi: Atoi) {
    exists p :: PathTo(p, r, x, named, atoi)
  }

  /** No named record reaches itself through array fields. */
  ghost predicate Acyclic(named: Names, atoi: Atoi) {
    forall x | x in named :: !Reaches(named[x], x, named, atoi)
  }

  /** The named records still ahead of `r`. */
  ghost function Ahead(r: Fields, named: Names, atoi: Atoi): set<string> {
    set x | x in named && Reaches(r, x, named, atoi)
  }

  /** One step down leaves fewer names ahead, or as many and a smaller record: generation ends. */
  lemma ChildMeasure(r: Fields, f: Fields, c: Fields, named: Names, atoi: Atoi)
    requires Acyclic(named, atoi) && f in FieldsOf(r, atoi) && Name(f) != "" && Item(f, named) == Some(c)
    ensures Ahead(c, named, atoi) < Ahead(r, named, atoi) || (Ahead(c, named, atoi) <= Ahead(r, named, atoi) && Dict(c) < Dict(r))
  {
    assert Child(r, c, named, atoi);
    forall x | x in Ahead(c, named, atoi) ensures x in Ahead(r, named, atoi) {
      var p :| PathTo(p, c, x, named, atoi);
      var q := [r] + p;
      forall i | 0 <= i < |q| - 1 ensures Child(q[i], q[i + 1], named, atoi) {
        if i > 0 { assert Child(p[i - 1], p[i], named, atoi); }
      }
      assert PathTo(q, r, x, named, atoi);
    }
    ItemOrigin(f, named);
    if x :| x in named && named[x] == c {
      assert PathTo([r, c], r, x, named, atoi);
      assert x in Ahead(r, named, atoi) && x !in Ahead(c, named, atoi);
    } else {
      FieldSmaller(r, atoi, f);
    }
  }
}

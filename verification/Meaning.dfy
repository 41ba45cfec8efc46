/** What a wire tree means to the ordered decoder. */
module Meaning {
  import opened Bytes
  import opened Wire
  import opened Floats

  /** Decoded values. A float is the bits of a double. */
  datatype Value =
    | VNil
    | VBool(b: bool)
    | VInt(i: int)
    | VUint(n: nat)
    | VFloat(bits: nat)
    | VStr(s: seq<Byte>)
    | VBytes(d: seq<Byte>)
    | VArr(items: seq<Value>)
    | VMap(members: OrderedMap)

  /** Keys in the order of their first insertion, each with the value set last. */
  type OrderedMap = seq<(seq<Byte>, Value)>

  /** The text fmt gives to a key that is not a string: unseen library code. */
  type KeyText = Value -> seq<Byte>

  /** OrderedMap.Set: replace in place, or append. */
  function Put(om: OrderedMap, key: seq<Byte>, v: Value): OrderedMap {
    if om == [] then [(key, v)]
    else if om[0].0 == key then [(key, v)] + om[1..]
    else [om[0]] + Put(om[1..], key, v)
  }

  /** The map built by setting each pair in turn. */
  function PutAll(ps: seq<(seq<Byte>, Value)>): OrderedMap {
    if ps == [] then []
    else var last := |ps| - 1; Put(PutAll(ps[..last]), ps[last].0, ps[last].1)
  }

  function Mean(t: Tree, f: KeyText): Value
    decreases t, 0
  {
    match t
    case Nil => VNil
    case Bool(b) => VBool(b)
    case FixInt(i) => VInt(i)
    case UInt(w, n) => if w == W64 then VUint(n) else VInt(n)
    case SInt(_, i) => VInt(i)
    case Float(w, bits) => VFloat(Double(w, bits))
    case Str(_, d) => VStr(d)
    case Bin(_, d) => VBytes(d)
    case Ext(_, _, d) => VBytes(d)
    case Arr(_, kids) => VArr(MeanAll(kids, f))
    case Map(_, kids) => VMap(PutAll(Pairs(kids, f)))
  }

  function MeanAll(kids: seq<Tree>, f: KeyText): (vs: seq<Value>)
    ensures |vs| == |kids|
  {
    if kids == [] then [] else MeanAll(kids[..|kids| - 1], f) + [Mean(kids[|kids| - 1], f)]
  }

  function KeyOf(t: Tree, f: KeyText): seq<Byte>
    decreases t, 1
  {
    if t.Str? then t.data else f(Mean(t, f))
  }

  function Pairs(kids: seq<Tree>, f: KeyText): (ps: seq<(seq<Byte>, Value)>)
    ensures |ps| == |kids| / 2
  {
    var n := |kids|;
    if n < 2 then [] else Pairs(kids[..n - 2], f) + [(KeyOf(kids[n - 2], f), Mean(kids[n - 1], f))]
  }

  // ---------- the ordered map is a map: distinct keys, last value wins, first place kept ----------

  function Keys(om: OrderedMap): seq<seq<Byte>> {
    seq(|om|, i requires 0 <= i < |om| => om[i].0)
  }

  predicate Distinct<T(==)>(xs: seq<T>) { forall i, j :: 0 <= i < j < |xs| ==> xs[i] != xs[j] }

  lemma PutKeys(om: OrderedMap, key: seq<Byte>, v: Value)
    ensures Keys(Put(om, key, v)) == if key in Keys(om) then Keys(om) else Keys(om) + [key]
    ensures forall i :: 0 <= i < |om| ==> Put(om, key, v)[i] == if om[i].0 == key && key !in Keys(om)[..i] then (key, v) else om[i]
    ensures key !in Keys(om) ==> Put(om, key, v) == om + [(key, v)]
  {
    hide Keys, Put;
    PutKeysOnly(om, key, v);
    PutNew(om, key, v);
    forall i | 0 <= i < |om|
      ensures i < |Put(om, key, v)| && Put(om, key, v)[i] == if om[i].0 == key && key !in Keys(om)[..i] then (key, v) else om[i] {
      PutAt(om, key, v, i);
    }
  }

  lemma {:induction false} PutKeysOnly(om: OrderedMap, key: seq<Byte>, v: Value)
    ensures |Keys(om)| == |om|
    ensures Keys(Put(om, key, v)) == if key in Keys(om) then Keys(om) else Keys(om) + [key]
  {
    if om != [] {
      KeysCons(om, 0);
      if om[0].0 != key {
        PutKeysOnly(om[1..], key, v);
        KeysCons(Put(om, key, v), 0);
      }
    }
  }

  lemma {:induction false} PutNew(om: OrderedMap, key: seq<Byte>, v: Value)
    ensures key !in Keys(om) ==> Put(om, key, v) == om + [(key, v)]
  {
    if om != [] {
      KeysCons(om, 0);
      PutNew(om[1..], key, v);
    }
  }

  lemma {:induction false} PutAt(om: OrderedMap, key: seq<Byte>, v: Value, i: nat)
    requires i < |om|
    ensures |Keys(om)| == |om| && i < |Put(om, key, v)|
    ensures Put(om, key, v)[i] == if om[i].0 == key && key !in Keys(om)[..i] then (key, v) else om[i]
  {
    KeysCons(om, i);
    if i > 0 && om[0].0 != key {
      PutAt(om[1..], key, v, i - 1);
    } else if i > 0 {
      assert Keys(om)[..i][0] == key;
    }
  }

  lemma KeysCons(om: OrderedMap, i: nat)
    requires om != [] && i <= |om|
    ensures |Keys(om)| == |om| && Keys(om) == [om[0].0] + Keys(om[1..])
    ensures i > 0 ==> Keys(om)[..i] == [om[0].0] + Keys(om[1..])[..i - 1]
  {}

  /** Pair `p` is `(key, v)`, and no later pair has that key. */
  ghost predicate LastAt(ps: seq<(seq<Byte>, Value)>, p: nat, key: seq<Byte>, v: Value) {
    p < |ps| && ps[p] == (key, v) && forall q :: p < q < |ps| ==> ps[q].0 != key
  }

  lemma {:induction false} PutAllDistinct(ps: seq<(seq<Byte>, Value)>)
    ensures Distinct(Keys(PutAll(ps)))
  {
    if ps != [] {
      var last := |ps| - 1;
      PutAllDistinct(ps[..last]);
      PutKeys(PutAll(ps[..last]), ps[last].0, ps[last].1);
    }
  }

  lemma LastStep(ps: seq<(seq<Byte>, Value)>, p: nat, key: seq<Byte>, v: Value)
    requires ps != []
    ensures var last := |ps| - 1;
      LastAt(ps, p, key, v) <==> if p == last then ps[last] == (key, v) else ps[last].0 != key && LastAt(ps[..last], p, key, v)
    ensures LastAt(ps[..|ps| - 1], p, key, v) ==> p < |ps| - 1
  {
    var last := |ps| - 1;
    var init := ps[..last];
    if p < last {
      assert init[p] == ps[p];
      assert LastAt(ps, p, key, v) ==> ps[last].0 != key;
      assert forall q :: p < q < last ==> init[q] == ps[q];
    }
  }

  /** Setting pairs in turn keeps exactly the last pair set under each key. */
  lemma {:induction false} LastWins(ps: seq<(seq<Byte>, Value)>, key: seq<Byte>, v: Value)
    ensures (key, v) in PutAll(ps) <==> exists p: nat :: LastAt(ps, p, key, v)
  {
    hide LastAt, Put, Distinct, Keys;
    if ps == [] {
      NoLast(key, v);
    } else {
      var last := |ps| - 1;
      LastWins(ps[..last], key, v);
      PutAllDistinct(ps[..last]);
      PutMember(PutAll(ps[..last]), ps[last].0, ps[last].1, key, v);
      if ps[last] == (key, v) {
        LastStep(ps, last, key, v);
      } else if ps[last].0 != key && (key, v) in PutAll(ps[..last]) {
        var p: nat :| LastAt(ps[..last], p, key, v);
        LastStep(ps, p, key, v);
      } else if exists p: nat :: LastAt(ps, p, key, v) {
        var p: nat :| LastAt(ps, p, key, v);
        LastStep(ps, p, key, v);
      }
    }
  }

  lemma NoLast(key: seq<Byte>, v: Value)
    ensures !exists p: nat :: LastAt([], p, key, v)
  {}

  lemma {:induction false} PutMember(om: OrderedMap, k: seq<Byte>, x: Value, key: seq<Byte>, v: Value)
    requires Distinct(Keys(om))
    ensures (key, v) in Put(om, k, x) <==> if key == k then v == x else (key, v) in om
  {
    if om != [] {
      assert Keys(om) == [om[0].0] + Keys(om[1..]);
      assert Distinct(Keys(om[1..])) by {
        forall i, j | 0 <= i < j < |om[1..]| ensures Keys(om[1..])[i] != Keys(om[1..])[j] {
          assert Keys(om)[i + 1] != Keys(om)[j + 1];
        }
      }
      forall i | 0 < i < |om| ensures om[i].0 != om[0].0 {
        assert Keys(om)[0] != Keys(om)[i];
      }
      if om[0].0 != k {
        PutMember(om[1..], k, x, key, v);
      }
    }
  }
}

/** What the values of the wire are in terms of their bytes, and that they do not depend on the widths of
    the format. */
module WireValues {
  import opened Bytes
  import opened Wire
  import opened WireLaws
  import opened Meaning
  import opened Floats

  // ---------- numbers ----------

  /** The first byte counts most. */
  lemma {:induction false} FromHead(bs: seq<Byte>)
    requires bs != []
    ensures FromBigEndian(bs) == bs[0] * Pow256(|bs| - 1) + FromBigEndian(bs[1..])
  {
    if |bs| > 1 {
      var n := |bs| - 1;
      FromHead(bs[..n]);
      assert bs[..n][1..] == bs[1..][..n - 1];
      Spread(bs[0], Pow256(n - 1), FromBigEndian(bs[1..][..n - 1]));
    } else {
      assert bs[..0] == [];
    }
  }

  lemma Spread(b: int, p: int, x: int)
    ensures (b * p + x) * 256 == b * (256 * p) + x * 256
  {
    assert b * p * 256 == b * (256 * p);
  }

  /** `n` is the two's complement number that the bytes stand for. */
  predicate TwosComplement(bs: seq<Byte>, n: int) {
    bs != [] && if bs[0] < 0x80 then n == FromBigEndian(bs) else n + Pow256(|bs|) == FromBigEndian(bs)
  }

  lemma SignedIs(w: Width, bs: seq<Byte>)
    requires w != Fix && |bs| == w.Size()
    ensures TwosComplement(bs, Signed(w, FromBigEndian(bs)))
  {
    hide FromBigEndian;
    CapIsPower(w);
    FromHead(bs);
    EncodeDecode(bs[1..]);
    assert Pow256(w.Size()) == 256 * Pow256(w.Size() - 1);
    HalfOrMore(bs[0], Pow256(w.Size() - 1), FromBigEndian(bs[1..]));
  }

  lemma HalfOrMore(b: int, p: int, x: int)
    requires p >= 1 && 0 <= x < p
    ensures b * p + x < 128 * p <==> b < 128
  {
    if b < 128 { TimesUp(b, 127, p); } else { TimesUp(128, b, p); }
  }

  lemma TimesUp(a: int, b: int, p: int)
    requires a <= b && p >= 0
    ensures a * p <= b * p
  {
    assert (b - a) * p >= 0;
  }

  /** The value that a marker and the bytes behind it stand for, where the marker is that of a number. */
  ghost predicate NumberMeans(b: Byte, bs: seq<Byte>, v: Value) {
    && (b == 0xca ==> |bs| == 4 && v == VFloat(Widen(FromBigEndian(bs))))
    && (b == 0xcb ==> |bs| == 8 && v == VFloat(FromBigEndian(bs)))
    && (0xcc <= b <= 0xcf ==> |bs| == (if b == 0xcc then 1 else if b == 0xcd then 2 else if b == 0xce then 4 else 8))
    && (0xcc <= b <= 0xce ==> v == VInt(FromBigEndian(bs)))
    && (b == 0xcf ==> v == VUint(FromBigEndian(bs)))
    && (0xd0 <= b <= 0xd3 ==> |bs| == (if b == 0xd0 then 1 else if b == 0xd1 then 2 else if b == 0xd2 then 4 else 8))
    && (0xd0 <= b <= 0xd3 ==> v.VInt? && TwosComplement(bs, v.i))
  }

  lemma NumberAt(data: seq<Byte>, o: nat, f: KeyText)
    requires o < |data| && 0xca <= data[o] <= 0xd3 && ParseHead(data, o).Leaf?
    ensures var h := ParseHead(data, o);
      o < h.next <= |data| && NumberMeans(data[o], data[o + 1..h.next], Mean(h.t, f))
  {
    hide ParseHead, Widen, FromBigEndian, TwosComplement, Signed;
    NumberHead(data, o);
    var h := ParseHead(data, o);
    if 0xd0 <= data[o] { SignedIs(h.t.w, data[o + 1..h.next]); }
  }

  // ---------- the other leaves ----------

  /** The value of a leaf that is no number: a constant, the rest of the bytes, or the rest behind a length. */
  ghost predicate OtherMeans(b: Byte, bs: seq<Byte>, v: Value) {
    && (b <= 0x7f ==> bs == [] && v == VInt(b))
    && (b >= 0xe0 ==> bs == [] && v == VInt(b as int - 0x100))
    && (b == 0xc0 ==> bs == [] && v == VNil)
    && (b == 0xc2 ==> bs == [] && v == VBool(false))
    && (b == 0xc3 ==> bs == [] && v == VBool(true))
    && (0xa0 <= b <= 0xbf ==> |bs| == b - 0xa0 && v == VStr(bs))
    && (0xd9 <= b <= 0xdb ==> var w := (if b == 0xd9 then 1 else if b == 0xda then 2 else 4);
          |bs| >= w && FromBigEndian(bs[..w]) == |bs| - w && v == VStr(bs[w..]))
    && (0xc4 <= b <= 0xc6 ==> var w := (if b == 0xc4 then 1 else if b == 0xc5 then 2 else 4);
          |bs| >= w && FromBigEndian(bs[..w]) == |bs| - w && v == VBytes(bs[w..]))
    && (0xc7 <= b <= 0xc9 ==> var w := (if b == 0xc7 then 1 else if b == 0xc8 then 2 else 4);
          |bs| > w && FromBigEndian(bs[..w]) == |bs| - w - 1 && v == VBytes(bs[w + 1..]))
    && (0xd4 <= b <= 0xd8 ==>
          |bs| == 1 + (if b == 0xd4 then 1 else if b == 0xd5 then 2 else if b == 0xd6 then 4 else if b == 0xd7 then 8 else 16)
          && v == VBytes(bs[1..]))
  }

  lemma OtherAt(data: seq<Byte>, o: nat, f: KeyText)
    requires o < |data| && !(0xca <= data[o] <= 0xd3) && ParseHead(data, o).Leaf?
    ensures var h := ParseHead(data, o);
      o < h.next <= |data| && OtherMeans(data[o], data[o + 1..h.next], Mean(h.t, f))
  {
    var b, h := data[o], ParseHead(data, o);
    HeadAdvances(data, o);
    if b < 0xc0 || b >= 0xe0 {
      hide FromBigEndian;
      FixHead(data, o);
    } else if b < 0xc4 {
      hide FromBigEndian;
    } else {
      SizedOtherAt(data, o, f);
    }
  }

  lemma SizedOtherAt(data: seq<Byte>, o: nat, f: KeyText)
    requires o < |data| && 0xc4 <= data[o] < 0xdc && !(0xca <= data[o] <= 0xd3) && ParseHead(data, o).Leaf?
    ensures var h := ParseHead(data, o);
      o < h.next <= |data| && OtherMeans(data[o], data[o + 1..h.next], Mean(h.t, f))
  {
    hide ParseHead, FromBigEndian, Mean;
    HeadAdvances(data, o);
    var b := data[o];
    if 0xd4 <= b <= 0xd8 { FixExtAt(data, o, f); }
    else if 0xc7 <= b <= 0xc9 { ExtAtMeans(data, o, f); }
    else { TextAtMeans(data, o, f); }
  }

  lemma FixExtAt(data: seq<Byte>, o: nat, f: KeyText)
    requires o < |data| && 0xd4 <= data[o] <= 0xd8 && ParseHead(data, o).Leaf?
    ensures var h := ParseHead(data, o); o < h.next <= |data| && var bs := data[o + 1..h.next];
      |bs| == 1 + FixExtSize(data[o]) && Mean(h.t, f) == VBytes(bs[1..])
  {
    hide ParseHead, FixExtSize;
    SizedLeafHead(data, o);
  }

  lemma Front(data: seq<Byte>, a: nat, b: nat, w: nat)
    requires a + w <= b <= |data|
    ensures data[a..b][..w] == data[a..a + w]
  {}

  lemma ExtAtMeans(data: seq<Byte>, o: nat, f: KeyText)
    requires o < |data| && 0xc7 <= data[o] <= 0xc9 && ParseHead(data, o).Leaf?
    ensures var h, w := ParseHead(data, o), ByIndex(data[o] - 0xc7).Size(); o < h.next <= |data| && var bs := data[o + 1..h.next];
      |bs| > w && FromBigEndian(bs[..w]) == |bs| - w - 1 && Mean(h.t, f) == VBytes(bs[w + 1..])
  {
    hide ParseHead, FromBigEndian;
    SizedLeafHead(data, o);
    var w := ByIndex(data[o] - 0xc7).Size();
    Front(data, o + 1, ParseHead(data, o).next, w);
  }

  lemma TextAtMeans(data: seq<Byte>, o: nat, f: KeyText)
    requires o < |data| && (0xc4 <= data[o] <= 0xc6 || 0xd9 <= data[o] <= 0xdb) && ParseHead(data, o).Leaf?
    ensures var h, w := ParseHead(data, o), ByIndex(if data[o] <= 0xc6 then data[o] - 0xc4 else data[o] - 0xd9).Size();
      o < h.next <= |data| && var bs := data[o + 1..h.next];
      |bs| >= w && FromBigEndian(bs[..w]) == |bs| - w && Mean(h.t, f) == if data[o] <= 0xc6 then VBytes(bs[w..]) else VStr(bs[w..])
  {
    hide ParseHead, FromBigEndian;
    SizedLeafHead(data, o);
    var w := ByIndex(if data[o] <= 0xc6 then data[o] - 0xc4 else data[o] - 0xd9).Size();
    Front(data, o + 1, ParseHead(data, o).next, w);
  }

  predicate ContainerMarker(b: Byte) { 0x80 <= b <= 0x9f || 0xdc <= b < 0xe0 }

  lemma LeafHead(data: seq<Byte>, o: nat)
    ensures o < |data| && !ContainerMarker(data[o]) ==> !ParseHead(data, o).Open?
  {}

  /** Any value read at `o` that is no container is what its marker and bytes say. */
  lemma LeafAt(data: seq<Byte>, o: nat, depth: int, limit: int, f: KeyText)
    requires ParseValue(data, o, depth, limit).Done? && o < |data| && !ContainerMarker(data[o])
    ensures var p := ParseValue(data, o, depth, limit); o < p.next <= |data| && var bs, v := data[o + 1..p.next], Mean(p.t, f);
      NumberMeans(data[o], bs, v) && OtherMeans(data[o], bs, v)
  {
    hide ParseHead, NumberMeans, OtherMeans, Mean;
    ValueByHead(data, o, depth, limit);
    LeafHead(data, o);
    if 0xca <= data[o] <= 0xd3 {
      NumberAt(data, o, f);
      NumberIsNoOther(data[o], data[o + 1..ParseHead(data, o).next], Mean(ParseHead(data, o).t, f));
    } else {
      OtherAt(data, o, f);
      NumberIsNoOther(data[o], data[o + 1..ParseHead(data, o).next], Mean(ParseHead(data, o).t, f));
    }
  }

  lemma NumberIsNoOther(b: Byte, bs: seq<Byte>, v: Value)
    ensures if 0xca <= b <= 0xd3 then OtherMeans(b, bs, v) else NumberMeans(b, bs, v)
  {}

  /** The same of a leaf's own serialization. */
  lemma LeafSerialized(t: Tree, f: KeyText)
    requires WellFormed(t) && !IsNode(t)
    ensures var bs, v := Serialize(t), Mean(t, f);
      !ContainerMarker(bs[0]) && NumberMeans(bs[0], bs[1..], v) && OtherMeans(bs[0], bs[1..], v)
  {
    hide Mean, NumberMeans, OtherMeans, Head, ParseHead;
    var bs := Serialize(t);
    assert bs[0..|bs|] == bs;
    ValueComplete(bs, 0, 0, 0, t);
    ValueByHead(bs, 0, 0, 0);
    assert Serialize(t) == Head(t);
    NotOpen(bs, t);
    LeafAt(bs, 0, 0, 0, f);
  }

  lemma NotOpen(bs: seq<Byte>, t: Tree)
    requires NodeOk(t) && !IsNode(t) && bs == Head(t)
    ensures !ContainerMarker(bs[0])
  {
    hide BigEndian;
  }

  // ---------- containers ----------

  lemma {:induction false} MeanAllAt(kids: seq<Tree>, i: nat, f: KeyText)
    requires i < |kids|
    ensures MeanAll(kids, f)[i] == Mean(kids[i], f)
  {
    if i < |kids| - 1 { MeanAllAt(kids[..|kids| - 1], i, f); }
  }

  lemma {:induction false} PairsAt(kids: seq<Tree>, i: nat, f: KeyText)
    requires |kids| % 2 == 0 && i < |kids| / 2
    ensures Pairs(kids, f)[i] == (KeyOf(kids[2 * i], f), Mean(kids[2 * i + 1], f))
  {
    var n := |kids|;
    if 2 * i + 2 < n { PairsAt(kids[..n - 2], i, f); }
  }

  /** The value under a key is that of the last pair with the key. */
  lemma EntryIff(kids: seq<Tree>, f: KeyText, key: seq<Byte>, v: Value)
    requires |kids| % 2 == 0
    ensures (key, v) in PutAll(Pairs(kids, f)) <==>
      exists p: nat :: p < |kids| / 2 && KeyOf(kids[2 * p], f) == key && Mean(kids[2 * p + 1], f) == v && LastKey(kids, p, f)
  {
    hide PutAll, Pairs, KeyOf, Mean;
    var ps := Pairs(kids, f);
    forall p | 0 <= p < |ps| ensures ps[p] == (KeyOf(kids[2 * p], f), Mean(kids[2 * p + 1], f)) { PairsAt(kids, p, f); }
    LastWins(ps, key, v);
    if p: nat :| LastAt(ps, p, key, v) {
      assert LastKey(kids, p, f);
    }
    if p: nat :| p < |kids| / 2 && KeyOf(kids[2 * p], f) == key && Mean(kids[2 * p + 1], f) == v && LastKey(kids, p, f) {
      assert LastAt(ps, p, key, v);
    }
  }

  /** No pair behind pair `p` has its key. */
  ghost predicate LastKey(kids: seq<Tree>, p: nat, f: KeyText) {
    p < |kids| / 2 && forall q | p < q < |kids| / 2 :: KeyOf(kids[2 * q], f) != KeyOf(kids[2 * p], f)
  }

  // ---------- widths do not matter ----------

  /** The integer that a tree stands for; 64-bit unsigned ones are of a kind of their own. */
  function Integer(t: Tree): Option<int> {
    match t
    case FixInt(i) => Some(i)
    case SInt(_, i) => Some(i)
    case UInt(w, n) => if w == W64 then None else Some(n)
    case _ => None
  }

  /** The trees differ in the widths of integers, lengths and counts at most. */
  ghost predicate Alike(t: Tree, u: Tree) {
    match t
    case Nil => u == t
    case Bool(_) => u == t
    case FixInt(_) => Integer(u) == Integer(t)
    case SInt(_, _) => Integer(u) == Integer(t)
    case UInt(w, _) => if w == W64 then u == t else Integer(u) == Integer(t)
    case Float(_, _) => u == t
    case Str(_, d) => u.Str? && u.data == d
    case Bin(_, d) => u.Bin? && u.data == d
    case Ext(_, _, d) => u.Ext? && u.data == d
    case Arr(_, kids) => u.Arr? && AllAlike(kids, u.kids)
    case Map(_, kids) => u.Map? && AllAlike(kids, u.kids)
  }

  ghost predicate AllAlike(kids: seq<Tree>, others: seq<Tree>) {
    |kids| == |others| && forall i | 0 <= i < |kids| :: Alike(kids[i], others[i])
  }

  lemma {:induction false} AlikeMeans(t: Tree, u: Tree, f: KeyText)
    requires Alike(t, u)
    ensures Mean(t, f) == Mean(u, f)
    decreases t, 0
  {
    match t
    case Arr(_, kids) => AlikeAll(kids, u.kids, f);
    case Map(_, kids) => AlikePairs(kids, u.kids, f);
    case _ =>
  }

  lemma {:induction false} AlikeAll(kids: seq<Tree>, others: seq<Tree>, f: KeyText)
    requires AllAlike(kids, others)
    ensures MeanAll(kids, f) == MeanAll(others, f)
    decreases kids, 1
  {
    if kids != [] {
      var n := |kids| - 1;
      AlikeAll(kids[..n], others[..n], f);
      AlikeMeans(kids[n], others[n], f);
    }
  }

  lemma {:induction false} AlikePairs(kids: seq<Tree>, others: seq<Tree>, f: KeyText)
    requires AllAlike(kids, others)
    ensures Pairs(kids, f) == Pairs(others, f)
    decreases kids, 1
  {
    var n := |kids|;
    if n >= 2 {
      AlikePairs(kids[..n - 2], others[..n - 2], f);
      AlikeMeans(kids[n - 2], others[n - 2], f);
      AlikeMeans(kids[n - 1], others[n - 1], f);
    }
  }
}

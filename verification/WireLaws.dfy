/** The functional parser accepts exactly the serialized trees: soundness, completeness, exactness. */
module WireLaws {
  import opened Bytes
  import opened Wire

  lemma CapIsPower(w: Width)
    ensures Pow256(w.Size()) == w.Cap()
  {
    assert Pow256(1) == 256 && Pow256(2) == 0x1_0000;
    assert Pow256(3) == 0x100_0000 && Pow256(4) == 0x1_0000_0000;
    assert Pow256(5) == 0x100_0000_0000 && Pow256(6) == 0x1_0000_0000_0000;
    assert Pow256(7) == 0x100_0000_0000_0000 && Pow256(8) == 0x1_0000_0000_0000_0000;
  }

  lemma NumberSound(data: seq<Byte>, off: nat, w: Width)
    requires Has(data, off, w.Size())
    ensures Number(data, off, w) < w.Cap()
    ensures At(data, off, BigEndian(w.Size(), Number(data, off, w)))
  {
    hide Pow256, BigEndian, FromBigEndian;
    CapIsPower(w);
    EncodeDecode(data[off..off + w.Size()]);
  }

  lemma NumberComplete(data: seq<Byte>, off: nat, w: Width, v: nat)
    requires v < w.Cap() && At(data, off, BigEndian(w.Size(), v))
    ensures Has(data, off, w.Size()) && Number(data, off, w) == v
  {
    hide Pow256, BigEndian, FromBigEndian;
    CapIsPower(w);
    DecodeEncode(w.Size(), v);
  }

  /** What a head result claims is what the bytes say. */
  predicate Matches(data: seq<Byte>, off: nat, r: HeadResult) {
    match r
    case Bad => true
    case Leaf(t, next) => !IsNode(t) && NodeOk(t) && At(data, off, Head(t)) && next == off + |Head(t)|
    case Open(isMap, w, n, next) =>
      CountOk(w, n) && At(data, off, NodeHead(isMap, w, n)) && next == off + |NodeHead(isMap, w, n)|
  }

  lemma StrAtSound(data: seq<Byte>, off: nat, w: Width, n: nat)
    requires w != W64 && n < (if w == Fix then 32 else w.Cap()) && At(data, off, StrPre(w, n))
    ensures Matches(data, off, StrAt(data, off + |StrPre(w, n)|, w, n))
  {
    hide At, StrPre;
    var p := off + |StrPre(w, n)|;
    if Has(data, p, n) {
      AtExact(data, p, n);
      AtConcat(data, off, StrPre(w, n), data[p..p + n]);
    }
  }

  lemma BinAtSound(data: seq<Byte>, off: nat, w: Width, n: nat)
    requires w != Fix && w != W64 && n < w.Cap() && At(data, off, BinPre(w, n))
    ensures Matches(data, off, BinAt(data, off + |BinPre(w, n)|, w, n))
  {
    hide At, BinPre;
    var p := off + |BinPre(w, n)|;
    if Has(data, p, n) {
      AtExact(data, p, n);
      AtConcat(data, off, BinPre(w, n), data[p..p + n]);
    }
  }

  lemma ExtAtSound(data: seq<Byte>, off: nat, w: Width, n: nat)
    requires (if w == Fix then FixExtLength(n) else w != W64 && n < w.Cap()) && At(data, off, ExtPre(w, n))
    ensures Matches(data, off, ExtAt(data, off + |ExtPre(w, n)|, w, n))
  {
    hide At, ExtPre, FixExtLength;
    var p := off + |ExtPre(w, n)|;
    if Has(data, p, n + 1) {
      AtOne(data, p, data[p]);
      AtConcat(data, off, ExtPre(w, n), [data[p]]);
      AtExact(data, p + 1, n);
      AtConcat(data, off, ExtPre(w, n) + [data[p]], data[p + 1..p + 1 + n]);
    }
  }

  lemma SizedSound(data: seq<Byte>, off: nat, b: Byte)
    requires At(data, off, [b]) && 0xc4 <= b < 0xe0 && !(0xd4 <= b <= 0xd8)
    ensures Matches(data, off, ParseSized(data, off + 1, b, WidthOf(b)))
  {
    var o, w := off + 1, WidthOf(b);
    if Has(data, o, w.Size()) {
      var v := Number(data, o, w);
      NumberSound(data, o, w);
      var pre := [b] + BigEndian(w.Size(), v);
      AtConcat(data, off, [b], BigEndian(w.Size(), v));
      assert off + |pre| == o + w.Size();
      SizedCases(data, off, b, w, v, pre);
    }
  }

  /** Within its family, a marker's rank is its width's rank. */
  lemma WidthIndex(b: Byte)
    requires 0xc4 <= b < 0xe0 && !(0xd4 <= b <= 0xd8)
    ensures var w := WidthOf(b);
      && w != Fix
      && (b <= 0xc6 ==> w != W64 && b == 0xc4 + w.Index())
      && (0xc7 <= b <= 0xc9 ==> w != W64 && b == 0xc7 + w.Index())
      && (0xca <= b <= 0xcb ==> w == if b == 0xca then W32 else W64)
      && (0xcc <= b <= 0xcf ==> b == 0xcc + w.Index())
      && (0xd0 <= b <= 0xd3 ==> b == 0xd0 + w.Index())
      && (0xd9 <= b <= 0xdb ==> w != W64 && b == 0xd9 + w.Index())
      && (0xdc <= b ==> w == if b == 0xdc || b == 0xde then W16 else W32)
  {}

  predicate SizedPrefix(data: seq<Byte>, off: nat, b: Byte, w: Width, v: nat, pre: seq<Byte>) {
    0xc4 <= b < 0xe0 && !(0xd4 <= b <= 0xd8) && w == WidthOf(b)
    && Has(data, off + 1, w.Size()) && v == Number(data, off + 1, w) && v < w.Cap()
    && pre == [b] + BigEndian(w.Size(), v) && At(data, off, pre)
  }

  lemma SizedCases(data: seq<Byte>, off: nat, b: Byte, w: Width, v: nat, pre: seq<Byte>)
    requires SizedPrefix(data, off, b, w, v, pre)
    ensures Matches(data, off, ParseSized(data, off + 1, b, w))
  {
    hide At, BigEndian, Number, WidthOf, StrAt, BinAt, ExtAt;
    WidthIndex(b);
    if b <= 0xc6 { BinAtSound(data, off, w, v); }
    else if b <= 0xc9 { ExtAtSound(data, off, w, v); }
    else if b <= 0xd3 { SizedNumber(data, off, b, w, v, pre); }
    else if b <= 0xdb { StrAtSound(data, off, w, v); }
    else { assert NodeHead(b >= 0xde, w, v) == pre; }
  }

  lemma SizedNumber(data: seq<Byte>, off: nat, b: Byte, w: Width, v: nat, pre: seq<Byte>)
    requires 0xca <= b <= 0xd3 && SizedPrefix(data, off, b, w, v, pre)
    ensures Matches(data, off, ParseSized(data, off + 1, b, w))
  {
    hide At, BigEndian, Number, WidthOf, StrAt, BinAt, ExtAt;
    WidthIndex(b);
    if b <= 0xcb { assert Head(Float(w, v)) == pre; }
    else if b <= 0xcf { assert Head(UInt(w, v)) == pre; }
    else { assert Head(SInt(w, Signed(w, v))) == pre; }
  }

  lemma HeadSound(data: seq<Byte>, off: nat)
    ensures Matches(data, off, ParseHead(data, off))
  {
    hide At, StrAt, BinAt, ExtAt, ParseSized, WidthOf;
    if off < |data| {
      var b := data[off];
      AtOne(data, off, b);
      if 0xa0 <= b <= 0xbf { StrAtSound(data, off, Fix, b - 0xa0); }
      else if 0xd4 <= b <= 0xd8 { ExtAtSound(data, off, Fix, FixExtSize(b)); }
      else if 0xc4 <= b < 0xe0 { SizedSound(data, off, b); }
    }
  }

  // ---------- completeness of the head ----------

  /** What the parser must answer on the head of `t`. */
  function Expected(t: Tree, next: nat): HeadResult
    requires NodeOk(t)
  {
    if IsNode(t) then Open(t.Map?, t.w, Count(t), next) else Leaf(t, next)
  }

  lemma HeadComplete(data: seq<Byte>, off: nat, t: Tree)
    requires NodeOk(t) && At(data, off, Head(t))
    ensures ParseHead(data, off) == Expected(t, off + |Head(t)|)
  {
    hide At, BigEndian, Number, ParseSized, StrAt, BinAt, ExtAt;
    match t
    case Nil => AtOne(data, off, 0xc0);
    case Bool(b) => AtOne(data, off, if b then 0xc3 else 0xc2);
    case FixInt(i) => AtOne(data, off, if i < 0 then i + 256 else i);
    case UInt(_, _) => NumericComplete(data, off, t);
    case SInt(_, _) => NumericComplete(data, off, t);
    case Float(_, _) => NumericComplete(data, off, t);
    case Str(w, d) => StrComplete(data, off, t);
    case Bin(w, d) => BinComplete(data, off, t);
    case Ext(w, tag, d) => ExtComplete(data, off, t);
    case Arr(w, kids) => NodeComplete(data, off, false, w, Count(t));
    case Map(w, kids) => NodeComplete(data, off, true, w, Count(t));
  }

  lemma SizedComplete(data: seq<Byte>, off: nat, b: Byte, w: Width, v: nat)
    requires 0xc4 <= b < 0xe0 && !(0xd4 <= b <= 0xd8) && w == WidthOf(b) && v < w.Cap()
    requires At(data, off, [b] + BigEndian(w.Size(), v))
    ensures off < |data| && data[off] == b && Has(data, off + 1, w.Size()) && Number(data, off + 1, w) == v
    ensures ParseHead(data, off) == ParseSized(data, off + 1, b, w)
  {
    AtConcat(data, off, [b], BigEndian(w.Size(), v));
    AtOne(data, off, b);
    NumberComplete(data, off + 1, w, v);
  }

  lemma NumericComplete(data: seq<Byte>, off: nat, t: Tree)
    requires (t.UInt? || t.SInt? || t.Float?) && NodeOk(t) && At(data, off, Head(t))
    ensures ParseHead(data, off) == Leaf(t, off + |Head(t)|)
  {
    hide At, BigEndian, Number, ParseHead;
    match t
    case UInt(w, n) => SizedComplete(data, off, 0xcc + w.Index(), w, n);
    case SInt(w, i) => SizedComplete(data, off, 0xd0 + w.Index(), w, if i < 0 then i + w.Cap() else i);
    case Float(w, bits) => SizedComplete(data, off, if w == W32 then 0xca else 0xcb, w, bits);
  }

  /** Behind the marker and length of a string, its bytes are taken. */
  lemma StrPrefix(data: seq<Byte>, off: nat, w: Width, n: nat)
    requires w != W64 && n < (if w == Fix then 32 else w.Cap()) && At(data, off, StrPre(w, n))
    ensures ParseHead(data, off) == StrAt(data, off + |StrPre(w, n)|, w, n)
  {
    hide At, BigEndian, Number, StrAt, BinAt, ExtAt;
    if w == Fix { AtOne(data, off, 0xa0 + n); } else { SizedComplete(data, off, 0xd9 + w.Index(), w, n); }
  }

  lemma StrComplete(data: seq<Byte>, off: nat, t: Tree)
    requires t.Str? && NodeOk(t) && At(data, off, Head(t))
    ensures ParseHead(data, off) == Leaf(t, off + |Head(t)|)
  {
    hide At, StrPre, ParseHead;
    var n := |t.data|;
    AtConcat(data, off, StrPre(t.w, n), t.data);
    AtRange(data, off + |StrPre(t.w, n)|, t.data);
    StrPrefix(data, off, t.w, n);
  }

  lemma BinPrefix(data: seq<Byte>, off: nat, w: Width, n: nat)
    requires w != Fix && w != W64 && n < w.Cap() && At(data, off, BinPre(w, n))
    ensures ParseHead(data, off) == BinAt(data, off + |BinPre(w, n)|, w, n)
  {
    hide At, BigEndian, Number, StrAt, BinAt, ExtAt;
    SizedComplete(data, off, 0xc4 + w.Index(), w, n);
  }

  lemma BinComplete(data: seq<Byte>, off: nat, t: Tree)
    requires t.Bin? && NodeOk(t) && At(data, off, Head(t))
    ensures ParseHead(data, off) == Leaf(t, off + |Head(t)|)
  {
    hide At, BinPre, ParseHead;
    var n := |t.data|;
    AtConcat(data, off, BinPre(t.w, n), t.data);
    AtRange(data, off + |BinPre(t.w, n)|, t.data);
    BinPrefix(data, off, t.w, n);
  }

  lemma ExtPrefix(data: seq<Byte>, off: nat, w: Width, n: nat)
    requires (if w == Fix then FixExtLength(n) else w != W64 && n < w.Cap()) && At(data, off, ExtPre(w, n))
    ensures ParseHead(data, off) == ExtAt(data, off + |ExtPre(w, n)|, w, n)
  {
    hide At, BigEndian, Number, StrAt, BinAt, ExtAt;
    if w == Fix { AtOne(data, off, FixExtMarker(n)); } else { SizedComplete(data, off, 0xc7 + w.Index(), w, n); }
  }

  lemma AtThree(data: seq<Byte>, off: nat, pre: seq<Byte>, b: Byte, bs: seq<Byte>)
    requires At(data, off, pre + [b] + bs)
    ensures var p := off + |pre|;
      At(data, off, pre) && p + 1 + |bs| <= |data| && data[p] == b && data[p + 1..p + 1 + |bs|] == bs
  {
    hide At;
    AtConcat(data, off, pre + [b], bs);
    AtConcat(data, off, pre, [b]);
    AtOne(data, off + |pre|, b);
    AtRange(data, off + |pre| + 1, bs);
  }

  lemma ExtComplete(data: seq<Byte>, off: nat, t: Tree)
    requires t.Ext? && NodeOk(t) && At(data, off, Head(t))
    ensures ParseHead(data, off) == Leaf(t, off + |Head(t)|)
  {
    hide At, ExtPre, ParseHead, FixExtLength;
    var n := |t.data|;
    AtThree(data, off, ExtPre(t.w, n), t.tag, t.data);
    ExtPrefix(data, off, t.w, n);
  }

  lemma NodeComplete(data: seq<Byte>, off: nat, isMap: bool, w: Width, n: nat)
    requires CountOk(w, n) && At(data, off, NodeHead(isMap, w, n))
    ensures ParseHead(data, off) == Open(isMap, w, n, off + |NodeHead(isMap, w, n)|)
  {
    hide At, BigEndian, Number, StrAt, BinAt, ExtAt;
    if w == Fix {
      AtOne(data, off, (if isMap then 0x80 else 0x90) + n);
    } else {
      SizedComplete(data, off, (if isMap then 0xde else 0xdc) + (if w == W16 then 0 else 1), w, n);
    }
  }

  // ---------- whole trees ----------

  lemma HeadOfNode(isMap: bool, w: Width, n: nat, kids: seq<Tree>)
    requires CountOk(w, n) && |kids| == (if isMap then 2 * n else n)
    ensures NodeOk(NodeOf(isMap, w, kids)) && Head(NodeOf(isMap, w, kids)) == NodeHead(isMap, w, n)
  {}

  lemma {:induction false} ValueSound(data: seq<Byte>, off: nat, depth: int, limit: int)
    requires ParseValue(data, off, depth, limit).Done?
    ensures var p := ParseValue(data, off, depth, limit);
      WellFormed(p.t) && At(data, off, Serialize(p.t)) && p.next == off + |Serialize(p.t)| && depth + Depth(p.t) <= limit
    decreases |data| - off, 0
  {
    hide At, Head, ParseHead;
    HeadSound(data, off);
    var r := ParseHead(data, off);
    HeadAdvances(data, off);
    if r.Open? {
      var n := if r.isMap then 2 * r.n else r.n;
      ManySound(data, r.next, n, depth + 1, limit);
      var kids := ParseMany(data, r.next, n, depth + 1, limit).kids;
      var t := NodeOf(r.isMap, r.w, kids);
      HeadOfNode(r.isMap, r.w, r.n, kids);
      AtConcat(data, off, Head(t), SerializeAll(kids));
    } else {
      assert Serialize(r.t) == Head(r.t);
    }
  }

  lemma {:induction false} ManySound(data: seq<Byte>, off: nat, n: nat, depth: int, limit: int)
    requires off <= |data| && ParseMany(data, off, n, depth, limit).DoneAll?
    ensures var p := ParseMany(data, off, n, depth, limit);
      AllWellFormed(p.kids) && At(data, off, SerializeAll(p.kids)) && p.next == off + |SerializeAll(p.kids)|
      && (n > 0 ==> depth + Deepest(p.kids) <= limit)
    decreases |data| - off, 1, n
  {
    hide At, Head, ParseHead;
    if n == 0 {
      AtExact(data, off, 0);
    } else {
      ValueSound(data, off, depth, limit);
      var p := ParseValue(data, off, depth, limit);
      ManySound(data, p.next, n - 1, depth, limit);
      var rest := ParseMany(data, p.next, n - 1, depth, limit).kids;
      assert ([p.t] + rest)[1..] == rest;
      AtConcat(data, off, Serialize(p.t), SerializeAll(rest));
    }
  }

  lemma {:induction false} ValueComplete(data: seq<Byte>, off: nat, depth: int, limit: int, t: Tree)
    requires WellFormed(t) && At(data, off, Serialize(t)) && depth + Depth(t) <= limit
    ensures ParseValue(data, off, depth, limit) == Done(t, off + |Serialize(t)|)
    decreases t, 0
  {
    hide At, Head, ParseHead, ParseValue, ParseMany;
    ValueByHead(data, off, depth, limit);
    if IsNode(t) {
      AtConcat(data, off, Head(t), SerializeAll(t.kids));
      HeadComplete(data, off, t);
      AtRange(data, off + |Head(t)|, SerializeAll(t.kids));
      ManyComplete(data, off + |Head(t)|, depth + 1, limit, t.kids);
    } else {
      assert Serialize(t) == Head(t);
      HeadComplete(data, off, t);
    }
  }

  lemma {:induction false} ManyComplete(data: seq<Byte>, off: nat, depth: int, limit: int, kids: seq<Tree>)
    requires AllWellFormed(kids) && off <= |data| && At(data, off, SerializeAll(kids))
    requires kids != [] ==> depth + Deepest(kids) <= limit
    ensures ParseMany(data, off, |kids|, depth, limit) == DoneAll(kids, off + |SerializeAll(kids)|)
    decreases kids, 1
  {
    hide At, Head, ParseHead;
    if kids != [] {
      AtConcat(data, off, Serialize(kids[0]), SerializeAll(kids[1..]));
      ValueComplete(data, off, depth, limit, kids[0]);
      ManyComplete(data, off + |Serialize(kids[0])|, depth, limit, kids[1..]);
    }
  }

  /** The parser with a depth limit answers `t`, `next` exactly when the bytes from `off` to `next`
      are the serialization of `t` and no node of `t` lies below the limit. */
  lemma ParseIff(data: seq<Byte>, off: nat, depth: int, limit: int, t: Tree, next: nat)
    ensures ParseValue(data, off, depth, limit) == Done(t, next)
      <==> WellFormed(t) && At(data, off, Serialize(t)) && next == off + |Serialize(t)| && depth + Depth(t) <= limit
  {
    if ParseValue(data, off, depth, limit) == Done(t, next) {
      ValueSound(data, off, depth, limit);
    } else if WellFormed(t) && At(data, off, Serialize(t)) && depth + Depth(t) <= limit {
      ValueComplete(data, off, depth, limit, t);
    }
  }

  /** No serialization is a proper prefix of another, so bytes determine their tree. */
  lemma PrefixFree(t: Tree, u: Tree, suffix: seq<Byte>)
    requires WellFormed(t) && WellFormed(u)
    requires Serialize(t) <= Serialize(u) + suffix
    ensures t == u
  {
    hide WellFormed, Serialize, Depth, ParseValue;
    var data := Serialize(u) + suffix;
    var limit := Depth(t) + Depth(u);
    assert data[0..|Serialize(u)|] == Serialize(u);
    ValueComplete(data, 0, 0, limit, t);
    ValueComplete(data, 0, 0, limit, u);
  }
}

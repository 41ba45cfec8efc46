/** The MessagePack wire format: a tree with one shape per format marker, its serializer,
    and a functional parser proved to accept exactly the serialized trees. */
module Wire {
  import opened Bytes

  /** Which marker of a format family: the fix form, or the form with a k-bit number. */
  datatype Width = Fix | W8 | W16 | W32 | W64 {
    function Size(): nat {
      match this case Fix => 0 case W8 => 1 case W16 => 2 case W32 => 4 case W64 => 8
    }
    function Cap(): nat {
      match this case Fix => 1 case W8 => 0x100 case W16 => 0x1_0000 case W32 => 0x1_0000_0000
                 case W64 => 0x1_0000_0000_0000_0000
    }
    function Index(): nat {
      match this case Fix => 0 case W8 => 0 case W16 => 1 case W32 => 2 case W64 => 3
    }
  }

  /** A map's keys and values are kept in one list: key, value, key, value, ... */
  datatype Tree =
    | Nil
    | Bool(b: bool)
    | FixInt(i: int)
    | UInt(w: Width, n: nat)
    | SInt(w: Width, i: int)
    | Float(w: Width, bits: nat)
    | Str(w: Width, data: seq<Byte>)
    | Bin(w: Width, data: seq<Byte>)
    | Ext(w: Width, tag: Byte, data: seq<Byte>)
    | Arr(w: Width, kids: seq<Tree>)
    | Map(w: Width, kids: seq<Tree>)

  predicate IsNode(t: Tree) { t.Arr? || t.Map? }

  /** The number in a container's header: elements of an array, pairs of a map. */
  function Count(t: Tree): nat
    requires IsNode(t)
  {
    if t.Map? then |t.kids| / 2 else |t.kids|
  }

  /** What the format lets a single node say. */
  predicate NodeOk(t: Tree) {
    match t
    case Nil => true
    case Bool(_) => true
    case FixInt(i) => -32 <= i < 128
    case UInt(w, n) => w != Fix && n < w.Cap()
    case SInt(w, i) => w != Fix && -(w.Cap() as int) / 2 <= i < w.Cap() / 2
    case Float(w, bits) => (w == W32 || w == W64) && bits < w.Cap()
    case Str(w, d) => w != W64 && |d| < (if w == Fix then 32 else w.Cap())
    case Bin(w, d) => w != Fix && w != W64 && |d| < w.Cap()
    case Ext(w, _, d) => if w == Fix then FixExtLength(|d|) else w != W64 && |d| < w.Cap()
    case Arr(w, _) => CountOk(w, Count(t))
    case Map(w, kids) => |kids| % 2 == 0 && CountOk(w, Count(t))
  }

  predicate FixExtLength(n: nat) { n == 1 || n == 2 || n == 4 || n == 8 || n == 16 }

  predicate CountOk(w: Width, n: nat) {
    w != W8 && w != W64 && n < if w == Fix then 16 else w.Cap()
  }

  predicate WellFormed(t: Tree) {
    NodeOk(t) && (IsNode(t) ==> forall k | k in t.kids :: WellFormed(k))
  }

  predicate AllWellFormed(kids: seq<Tree>) { forall k | k in kids :: WellFormed(k) }

  /** Depth of the deepest node below `t`; `t` itself is at depth 0. */
  function Depth(t: Tree): (d: int)
    ensures d >= 0
  {
    if IsNode(t) then 1 + Deepest(t.kids) else 0
  }

  function Deepest(kids: seq<Tree>): (d: int)
    ensures d >= -1
    ensures kids != [] ==> d >= 0
  {
    if kids == [] then -1
    else var rest := Deepest(kids[1..]); var here := Depth(kids[0]); if here > rest then here else rest
  }

  /** All bytes of a leaf; the marker and count of a container. */
  function Head(t: Tree): (bs: seq<Byte>)
    requires NodeOk(t)
    ensures |bs| >= 1
  {
    match t
    case Nil => [0xc0]
    case Bool(b) => [if b then 0xc3 else 0xc2]
    case FixInt(i) => [if i < 0 then i + 256 else i]
    case UInt(w, n) => [0xcc + w.Index()] + BigEndian(w.Size(), n)
    case SInt(w, i) => [0xd0 + w.Index()] + BigEndian(w.Size(), if i < 0 then i + w.Cap() else i)
    case Float(w, bits) => [if w == W32 then 0xca else 0xcb] + BigEndian(w.Size(), bits)
    case Str(w, d) => StrPre(w, |d|) + d
    case Bin(w, d) => BinPre(w, |d|) + d
    case Ext(w, tag, d) => ExtPre(w, |d|) + [tag] + d
    case Arr(w, _) => NodeHead(false, w, Count(t))
    case Map(w, _) => NodeHead(true, w, Count(t))
  }

  function StrPre(w: Width, n: nat): (bs: seq<Byte>)
    requires w != W64 && n < (if w == Fix then 32 else w.Cap())
    ensures |bs| >= 1
  {
    if w == Fix then [0xa0 + n] else [0xd9 + w.Index()] + BigEndian(w.Size(), n)
  }

  function BinPre(w: Width, n: nat): (bs: seq<Byte>)
    requires w != Fix && w != W64 && n < w.Cap()
    ensures |bs| >= 1
  {
    [0xc4 + w.Index()] + BigEndian(w.Size(), n)
  }

  function ExtPre(w: Width, n: nat): (bs: seq<Byte>)
    requires if w == Fix then FixExtLength(n) else w != W64 && n < w.Cap()
    ensures |bs| >= 1
  {
    if w == Fix then [FixExtMarker(n)] else [0xc7 + w.Index()] + BigEndian(w.Size(), n)
  }

  function FixExtMarker(n: nat): Byte {
    if n == 1 then 0xd4 else if n == 2 then 0xd5 else if n == 4 then 0xd6 else if n == 8 then 0xd7 else 0xd8
  }

  function NodeHead(isMap: bool, w: Width, n: nat): (bs: seq<Byte>)
    requires CountOk(w, n)
    ensures |bs| >= 1
  {
    if w == Fix then [(if isMap then 0x80 else 0x90) + n]
    else [(if isMap then 0xde else 0xdc) + (if w == W16 then 0 else 1)] + BigEndian(w.Size(), n)
  }

  function Serialize(t: Tree): (bs: seq<Byte>)
    requires WellFormed(t)
    ensures |bs| >= 1
  {
    Head(t) + if IsNode(t) then SerializeAll(t.kids) else []
  }

  function SerializeAll(kids: seq<Tree>): (bs: seq<Byte>)
    requires AllWellFormed(kids)
    ensures |bs| >= |kids|
  {
    if kids == [] then [] else Serialize(kids[0]) + SerializeAll(kids[1..])
  }

  // ---------- the functional parser ----------

  datatype HeadResult =
    | Bad
    | Leaf(t: Tree, next: nat)
    | Open(isMap: bool, w: Width, n: nat, next: nat)

  datatype Parsed = Fail | Done(t: Tree, next: nat)
  datatype ParsedAll = FailAll | DoneAll(kids: seq<Tree>, next: nat)

  predicate Has(data: seq<Byte>, off: nat, n: nat) { off + n <= |data| }

  function Number(data: seq<Byte>, off: nat, w: Width): nat
    requires Has(data, off, w.Size())
  {
    FromBigEndian(data[off..off + w.Size()])
  }

  function Signed(w: Width, v: nat): int {
    if v < w.Cap() / 2 then v else v - w.Cap()
  }

  function StrAt(data: seq<Byte>, off: nat, w: Width, n: nat): HeadResult {
    if Has(data, off, n) then Leaf(Str(w, data[off..off + n]), off + n) else Bad
  }

  function BinAt(data: seq<Byte>, off: nat, w: Width, n: nat): HeadResult {
    if Has(data, off, n) then Leaf(Bin(w, data[off..off + n]), off + n) else Bad
  }

  function ExtAt(data: seq<Byte>, off: nat, w: Width, n: nat): HeadResult {
    if Has(data, off, n + 1) then Leaf(Ext(w, data[off], data[off + 1..off + 1 + n]), off + 1 + n) else Bad
  }

  function ParseHead(data: seq<Byte>, off: nat): HeadResult {
    if off >= |data| then Bad
    else
      var b, o := data[off], off + 1;
      if b <= 0x7f then Leaf(FixInt(b), o)
      else if b >= 0xe0 then Leaf(FixInt(b as int - 256), o)
      else if b <= 0x8f then Open(true, Fix, b - 0x80, o)
      else if b <= 0x9f then Open(false, Fix, b - 0x90, o)
      else if b <= 0xbf then StrAt(data, o, Fix, b - 0xa0)
      else if b == 0xc0 then Leaf(Nil, o)
      else if b == 0xc1 then Bad
      else if b <= 0xc3 then Leaf(Bool(b == 0xc3), o)
      else if 0xd4 <= b <= 0xd8 then ExtAt(data, o, Fix, FixExtSize(b))
      else ParseSized(data, o, b, WidthOf(b))
  }

  /** The formats whose marker `b` is followed, at `o`, by a number of width `w`. */
  function ParseSized(data: seq<Byte>, o: nat, b: Byte, w: Width): HeadResult {
    if !Has(data, o, w.Size()) then Bad
    else
      var v, p := Number(data, o, w), o + w.Size();
      if b <= 0xc6 then BinAt(data, p, w, v)
      else if b <= 0xc9 then ExtAt(data, p, w, v)
      else if b <= 0xcb then Leaf(Float(w, v), p)
      else if b <= 0xcf then Leaf(UInt(w, v), p)
      else if b <= 0xd3 then Leaf(SInt(w, Signed(w, v)), p)
      else if b <= 0xdb then StrAt(data, p, w, v)
      else Open(b >= 0xde, w, v, p)
  }

  function FixExtSize(b: Byte): nat {
    if b == 0xd4 then 1 else if b == 0xd5 then 2 else if b == 0xd6 then 4 else if b == 0xd7 then 8 else 16
  }

  function ByIndex(k: nat): (w: Width)
    ensures w != Fix && (k <= 3 ==> w.Index() == k)
  {
    if k == 0 then W8 else if k == 1 then W16 else if k == 2 then W32 else W64
  }

  /** The width of the number that follows a marker in 0xc4..0xdf, fixext aside. */
  function WidthOf(b: Byte): (w: Width)
    requires 0xc4 <= b < 0xe0
    ensures w != Fix
  {
    if b <= 0xc6 then ByIndex(b - 0xc4)
    else if b <= 0xc9 then ByIndex(b - 0xc7)
    else if b <= 0xcb then ByIndex(b - 0xc8)
    else if b <= 0xcf then ByIndex(b - 0xcc)
    else if b <= 0xd3 then ByIndex(b - 0xd0)
    else if b <= 0xdb then (if b < 0xd9 then W32 else ByIndex(b - 0xd9))
    else if b <= 0xdd then ByIndex(b - 0xdb)
    else ByIndex(b - 0xdd)
  }

  lemma HeadAdvances(data: seq<Byte>, off: nat)
    ensures !ParseHead(data, off).Bad? ==> off < ParseHead(data, off).next <= |data|
  {}

  function NodeOf(isMap: bool, w: Width, kids: seq<Tree>): Tree {
    if isMap then Map(w, kids) else Arr(w, kids)
  }

  /** One value starting at `off`, whose root counts as depth `depth`. */
  function ParseValue(data: seq<Byte>, off: nat, depth: int, limit: int): (p: Parsed)
    ensures p.Done? ==> off < p.next <= |data|
    decreases |data| - off, 0
  {
    if depth > limit then Fail
    else
      HeadAdvances(data, off);
      match ParseHead(data, off)
      case Bad => Fail
      case Leaf(t, next) => Done(t, next)
      case Open(isMap, w, n, next) =>
        match ParseMany(data, next, if isMap then 2 * n else n, depth + 1, limit)
        case FailAll => Fail
        case DoneAll(kids, end) => Done(NodeOf(isMap, w, kids), end)
  }

  /** `n` values one after the other, the first at `off`. */
  function ParseMany(data: seq<Byte>, off: nat, n: nat, depth: int, limit: int): (p: ParsedAll)
    requires off <= |data|
    ensures p.DoneAll? ==> |p.kids| == n && off + n <= p.next <= |data|
    decreases |data| - off, 1, n
  {
    if n == 0 then DoneAll([], off)
    else
      match ParseValue(data, off, depth, limit)
      case Fail => FailAll
      case Done(t, next) =>
        match ParseMany(data, next, n - 1, depth, limit)
        case FailAll => FailAll
        case DoneAll(kids, end) => DoneAll([t] + kids, end)
  }

  // ---------- parsing step by step, for the loops ----------

  function Prepend(done: seq<Tree>, p: ParsedAll): ParsedAll {
    if p.FailAll? then FailAll else DoneAll(done + p.kids, p.next)
  }

  /** `done` is parsed and `n` values remain: what one more value makes of it. */
  lemma ManyStep(data: seq<Byte>, off: nat, n: nat, depth: int, limit: int, done: seq<Tree>)
    requires off <= |data|
    ensures var p, q := ParseValue(data, off, depth, limit), Prepend(done, ParseMany(data, off, n, depth, limit));
      if n == 0 then q == DoneAll(done, off)
      else if p.Fail? then q == FailAll
      else q == Prepend(done + [p.t], ParseMany(data, p.next, n - 1, depth, limit))
  {
    var p := ParseValue(data, off, depth, limit);
    if n == 0 {
      assert done + [] == done;
    } else if p.Done? {
      var rest := ParseMany(data, p.next, n - 1, depth, limit);
      if rest.DoneAll? { assert done + ([p.t] + rest.kids) == done + [p.t] + rest.kids; }
    }
  }

  /** The same for two values, a key and its value. */
  lemma ManyPair(data: seq<Byte>, off: nat, n: nat, depth: int, limit: int, done: seq<Tree>)
    requires off <= |data| && n >= 2
    ensures var k, q := ParseValue(data, off, depth, limit), Prepend(done, ParseMany(data, off, n, depth, limit));
      if k.Fail? then q == FailAll
      else
        var v := ParseValue(data, k.next, depth, limit);
        if v.Fail? then q == FailAll
        else q == Prepend(done + [k.t, v.t], ParseMany(data, v.next, n - 2, depth, limit))
  {
    hide ParseValue, ParseMany, Prepend;
    ManyStep(data, off, n, depth, limit, done);
    var k := ParseValue(data, off, depth, limit);
    if k.Done? {
      ManyStep(data, k.next, n - 1, depth, limit, done + [k.t]);
      var v := ParseValue(data, k.next, depth, limit);
      if v.Done? { assert done + [k.t] + [v.t] == done + [k.t, v.t]; }
    }
  }

  /** Nothing precedes the first value. */
  lemma ManyStart(data: seq<Byte>, off: nat, n: nat, depth: int, limit: int)
    requires off <= |data|
    ensures Prepend([], ParseMany(data, off, n, depth, limit)) == ParseMany(data, off, n, depth, limit)
  {
    var p := ParseMany(data, off, n, depth, limit);
    if p.DoneAll? { assert [] + p.kids == p.kids; }
  }

  lemma ValueDepth(data: seq<Byte>, off: nat, depth: int, limit: int)
    ensures depth > limit ==> ParseValue(data, off, depth, limit).Fail?
  {}

  lemma ValueByHead(data: seq<Byte>, off: nat, depth: int, limit: int)
    ensures var p := ParseValue(data, off, depth, limit);
      if depth > limit then p.Fail? else
      match ParseHead(data, off)
      case Bad => p.Fail?
      case Leaf(t, next) => p == Done(t, next)
      case Open(isMap, w, n, next) =>
        next <= |data| &&
        var q := ParseMany(data, next, if isMap then 2 * n else n, depth + 1, limit);
        p == if q.FailAll? then Fail else Done(NodeOf(isMap, w, q.kids), q.next)
  {
    HeadAdvances(data, off);
  }

  /** The heads that are one marker byte, or a short string's marker and bytes. */
  lemma FixHead(data: seq<Byte>, off: nat)
    ensures off >= |data| ==> ParseHead(data, off).Bad?
    ensures off < |data| && (data[off] < 0xc0 || data[off] >= 0xe0) ==>
      var b, o := data[off], off + 1;
      ParseHead(data, off) ==
        if b <= 0x7f then Leaf(FixInt(b), o)
        else if b >= 0xe0 then Leaf(FixInt(b as int - 256), o)
        else if b <= 0x8f then Open(true, Fix, b - 0x80, o)
        else if b <= 0x9f then Open(false, Fix, b - 0x90, o)
        else StrAt(data, o, Fix, b - 0xa0)
  {}

  /** The heads of strings, and that no other marker opens one. */
  lemma StrHead(data: seq<Byte>, off: nat)
    ensures off >= |data| ==> ParseHead(data, off).Bad?
    ensures off < |data| ==>
      var b, o, h := data[off], off + 1, ParseHead(data, off);
      if 0xa0 <= b <= 0xbf then h == StrAt(data, o, Fix, b - 0xa0)
      else if 0xd9 <= b <= 0xdb then
        var w := ByIndex(b - 0xd9);
        h == if Has(data, o, w.Size()) then StrAt(data, o + w.Size(), w, Number(data, o, w)) else Bad
      else h.Leaf? ==> !h.t.Str?
  {}

  /** The heads of numbers, by the number that follows the marker. */
  lemma NumberHead(data: seq<Byte>, off: nat)
    ensures off < |data| && 0xca <= data[off] <= 0xd3 ==>
      var b, o, h := data[off], off + 1, ParseHead(data, off);
      var w := if b <= 0xcb then (if b == 0xca then W32 else W64) else if b <= 0xcf then ByIndex(b - 0xcc) else ByIndex(b - 0xd0);
      h == if !Has(data, o, w.Size()) then Bad
           else
             var v := Number(data, o, w);
             Leaf(if b <= 0xcb then Float(w, v) else if b <= 0xcf then UInt(w, v) else SInt(w, Signed(w, v)), o + w.Size())
  {
    hide Number;
  }

  /** The heads of leaves whose length follows the marker. */
  lemma SizedLeafHead(data: seq<Byte>, off: nat)
    ensures off < |data| ==>
      var b, o, h := data[off], off + 1, ParseHead(data, off);
      && (0xc4 <= b <= 0xc6 ==> var w := ByIndex(b - 0xc4);
            h == if Has(data, o, w.Size()) then BinAt(data, o + w.Size(), w, Number(data, o, w)) else Bad)
      && (0xc7 <= b <= 0xc9 ==> var w := ByIndex(b - 0xc7);
            h == if Has(data, o, w.Size()) then ExtAt(data, o + w.Size(), w, Number(data, o, w)) else Bad)
      && (0xd9 <= b <= 0xdb ==> var w := ByIndex(b - 0xd9);
            h == if Has(data, o, w.Size()) then StrAt(data, o + w.Size(), w, Number(data, o, w)) else Bad)
      && (0xd4 <= b <= 0xd8 ==> h == ExtAt(data, o, Fix, FixExtSize(b)))
  {
    hide Number, BinAt, ExtAt, StrAt;
  }

  /** The head of a container whose count follows the marker. */
  lemma NumberedHead(data: seq<Byte>, off: nat)
    ensures off < |data| && 0xdc <= data[off] <= 0xdf ==>
      var w := if data[off] % 2 == 0 then W16 else W32;
      ParseHead(data, off) ==
        if Has(data, off + 1, w.Size()) then Open(data[off] >= 0xde, w, Number(data, off + 1, w), off + 1 + w.Size()) else Bad
  {}
}

/** The byte decoder of the ordered MessagePack package: its decoding and its validating walkers. */
module Decoding {
  import opened Bytes
  import opened Wire
  import opened WireLaws
  import opened Meaning
  import opened WireValues
  import opened Floats

  const MAX_DECODE_DEPTH := 512
  const DEFAULT_MAX_UPLOAD_DEPTH := 256

  // Go's conversions to signed integers of the same width.
  function Int8(v: nat): int { if v < 0x80 then v else v - 0x100 }
  function Int16(v: nat): int { if v < 0x8000 then v else v - 0x1_0000 }
  function Int32(v: nat): int { if v < 0x8000_0000 then v else v - 0x1_0000_0000 }
  function Int64(v: nat): int { if v < 0x8000_0000_0000_0000 then v else v - 0x1_0000_0000_0000_0000 }

  /** Slots that arrays still open at `depth` or deeper can have asked for, in `size` bytes of data. */
  function Budget(size: nat, depth: nat): nat
    decreases MAX_DECODE_DEPTH + 1 - depth
  {
    if depth > MAX_DECODE_DEPTH then 0 else size + Budget(size, depth + 1)
  }

  lemma {:induction false} BudgetClosed(size: nat, depth: nat)
    requires depth <= MAX_DECODE_DEPTH + 1
    ensures Budget(size, depth) == (MAX_DECODE_DEPTH + 1 - depth) * size
    decreases MAX_DECODE_DEPTH + 1 - depth
  {
    if depth <= MAX_DECODE_DEPTH { BudgetClosed(size, depth + 1); }
  }

  /** What a walk that used `used` bytes may cost: at most one call more than bytes if it failed,
      and no more slots than bytes apart from the arrays left open by a failure. */
  predicate CostOk(size: nat, depth: nat, ok: bool, used: int, calls: int, slots: int) {
    if ok then calls <= used && slots <= used
    else calls <= used + 1 && slots <= used + Budget(size, depth)
  }

  /** A step of its own, before or behind a walk: `used` more bytes and at most as many more calls. */
  lemma CostStep(size: nat, depth: nat, ok: bool, used: int, calls: int, slots: int, moreUsed: nat, moreCalls: nat)
    requires CostOk(size, depth, ok, used, calls, slots) && moreCalls <= moreUsed
    ensures CostOk(size, depth, ok, used + moreUsed, calls + moreCalls, slots)
    ensures ok && moreUsed > 0 ==> slots < used + moreUsed
  {
    hide Budget;
  }

  /** A walk without calls, and one that fails in its own call. */
  lemma CostNone(size: nat, depth: nat, used: nat)
    ensures forall ok :: CostOk(size, depth, ok, used, 0, 0)
    ensures CostOk(size, depth, false, used, 1, 0)
    ensures used > 0 ==> CostOk(size, depth, true, used, 1, 0)
  {
    hide Budget;
  }

  /** A failure inside a container at `depth`, after `before` bytes with no more calls, and no more slots but
      `open` for an array still to be filled. */
  lemma CostInside(size: nat, depth: nat, open: nat, before: nat, callsBefore: int, slotsBefore: int, used: int, calls: int, slots: int)
    requires 1 <= depth <= MAX_DECODE_DEPTH + 1 && open <= size && callsBefore <= before && slotsBefore <= open + before
    requires CostOk(size, depth, false, used, calls, slots)
    ensures CostOk(size, depth - 1, false, before + used, callsBefore + calls, slotsBefore + slots)
  {}

  /** One walk behind another that succeeded. */
  lemma CostThen(size: nat, depth: nat, ok: bool, before: nat, callsBefore: int, slotsBefore: int, used: int, calls: int, slots: int)
    requires callsBefore <= before && slotsBefore <= before && CostOk(size, depth, ok, used, calls, slots)
    ensures CostOk(size, depth, ok, before + used, callsBefore + calls, slotsBefore + slots)
  {
    hide Budget;
  }

  lemma CostBound(size: nat, depth: nat, ok: bool, used: int, calls: int, slots: int)
    ensures ok ==> (CostOk(size, depth, ok, used, calls, slots) <==> calls <= used && slots <= used)
  {}

  class ByteDecoder {
    const data: seq<Byte>
    const keyText: KeyText
    var off: nat
    ghost var calls: nat  // invocations of DecodeValue
    ghost var slots: nat  // element slots allocated by DecodeArray

    constructor (data: seq<Byte>, keyText: KeyText)
      ensures this.data == data && this.keyText == keyText && off == 0 && calls == 0 && slots == 0
    {
      this.data, this.keyText, off, calls, slots := data, keyText, 0, 0, 0;
    }

    /** What a run whose parse is `p` must return, and where it must stop. */
    ghost predicate ValueAnswer(p: Parsed, r: Result<Value>, end: nat) {
      if p.Done? then r == Ok(Mean(p.t, keyText)) && end == p.next else r.Err?
    }

    ghost predicate MapAnswer(p: ParsedAll, r: Result<Value>, end: nat) {
      if p.DoneAll? then r == Ok(VMap(PutAll(Pairs(p.kids, keyText)))) && end == p.next else r.Err?
    }

    ghost predicate ArrayAnswer(p: ParsedAll, r: Result<Value>, end: nat) {
      if p.DoneAll? then r == Ok(VArr(MeanAll(p.kids, keyText))) && end == p.next else r.Err?
    }

    /** What a run that read the leaf `h` must return, and where it must stop. */
    ghost predicate LeafAnswer(h: HeadResult, r: Result<Value>, end: nat) {
      match h
      case Bad => r.Err?
      case Leaf(t, next) => r == Ok(Mean(t, keyText)) && end == next
      case Open(_, _, _, _) => false
    }

    predicate Valid()
      reads this
    {
      off <= |data|
    }

    // ---------- readers ----------

    method ReadByte() returns (r: Result<Byte>)
      requires Valid()
      modifies `off
      ensures Valid()
      ensures if old(off) < |data| then r == Ok(data[old(off)]) && off == old(off) + 1 else r.Err? && off == old(off)
    {
      if off >= |data| { return Err; }
      var b := data[off];
      off := off + 1;
      return Ok(b);
    }

    method Reserve(n: int) returns (r: Result<nat>)
      requires Valid()
      modifies `off
      ensures Valid()
      ensures if 0 <= n && Has(data, old(off), n) then r == Ok(old(off)) && off == old(off) + n else r.Err? && off == old(off)
    {
      if n < 0 { return Err; }
      if |data| - off < n { return Err; }
      var start := off;
      off := off + n;
      return Ok(start);
    }

    method ReadUint8() returns (r: Result<nat>)
      requires Valid()
      modifies `off
      ensures Valid()
      ensures if Has(data, old(off), 1) then r == Ok(Number(data, old(off), W8)) && off == old(off) + 1 else r.Err? && off == old(off)
    {
      var b := ReadByte();
      if b.Err? { return Err; }
      FromOne(data[old(off)..off]);
      return Ok(b.value);
    }

    method ReadUint16() returns (r: Result<nat>)
      requires Valid()
      modifies `off
      ensures Valid()
      ensures if Has(data, old(off), 2) then r == Ok(Number(data, old(off), W16)) && off == old(off) + 2 else r.Err? && off == old(off)
    {
      var start := Reserve(2);
      if start.Err? { return Err; }
      var b := data[start.value..off];
      FromTwo(b);
      return Ok(b[0] as int * 0x100 + b[1]);
    }

    method ReadUint32() returns (r: Result<nat>)
      requires Valid()
      modifies `off
      ensures Valid()
      ensures if Has(data, old(off), 4) then r == Ok(Number(data, old(off), W32)) && off == old(off) + 4 else r.Err? && off == old(off)
    {
      var start := Reserve(4);
      if start.Err? { return Err; }
      var b := data[start.value..off];
      FromFour(b);
      return Ok(b[0] as int * 0x100_0000 + b[1] as int * 0x1_0000 + b[2] as int * 0x100 + b[3]);
    }

    method ReadUint64() returns (r: Result<nat>)
      requires Valid()
      modifies `off
      ensures Valid()
      ensures if Has(data, old(off), 8) then r == Ok(Number(data, old(off), W64)) && off == old(off) + 8 else r.Err? && off == old(off)
    {
      var start := Reserve(8);
      if start.Err? { return Err; }
      var b := data[start.value..off];
      FromEight(b);
      var high := b[0] as int * 0x100_0000 + b[1] as int * 0x1_0000 + b[2] as int * 0x100 + b[3];
      return Ok(high * 0x1_0000_0000 + b[4] as int * 0x100_0000 + b[5] as int * 0x1_0000 + b[6] as int * 0x100 + b[7]);
    }

    /** The `n` bytes at the cursor: the shared body of decodeString and readBytesCopy. */
    method ReadBytesCopy(n: int) returns (r: Result<seq<Byte>>)
      requires Valid()
      modifies `off
      ensures Valid()
      ensures if 0 <= n && Has(data, old(off), n) then off == old(off) + n && r == Ok(data[old(off)..off]) else r.Err? && off == old(off)
    {
      var start := Reserve(n);
      if start.Err? { return Err; }
      return Ok(data[start.value..off]);
    }

    method DecodeString(n: int) returns (r: Result<seq<Byte>>)
      requires Valid()
      modifies `off
      ensures Valid()
      ensures if 0 <= n && Has(data, old(off), n) then off == old(off) + n && r == Ok(data[old(off)..off]) else r.Err? && off == old(off)
    {
      var start := Reserve(n);
      if start.Err? { return Err; }
      return Ok(data[start.value..off]);
    }

    /** The type byte is read and dropped; a failed run may leave the cursor behind it. */
    method DecodeExtPayload(size: nat) returns (r: Result<seq<Byte>>)
      requires Valid()
      modifies `off
      ensures Valid() && old(off) <= off
      ensures if Has(data, old(off), size + 1) then off == old(off) + 1 + size && r == Ok(data[old(off) + 1..off]) else r.Err?
    {
      var tag := ReadByte();
      if tag.Err? { return Err; }
      var start := Reserve(size);
      if start.Err? { return Err; }
      return Ok(data[start.value..off]);
    }

    // ---------- decoding ----------

    // What the answer to a head makes of the answer to its value.

    lemma LeafIsValue(o: nat, depth: nat, r: Result<Value>, end: nat)
      requires depth <= MAX_DECODE_DEPTH && LeafAnswer(ParseHead(data, o), r, end)
      ensures ValueAnswer(ParseValue(data, o, depth, MAX_DECODE_DEPTH), r, end)
    {
      hide ParseHead, Mean;
      ValueByHead(data, o, depth, MAX_DECODE_DEPTH);
    }

    lemma MapIsValue(o: nat, depth: nat, w: Width, n: nat, next: nat, r: Result<Value>, end: nat)
      requires depth <= MAX_DECODE_DEPTH && ParseHead(data, o) == Open(true, w, n, next) && next <= |data|
      requires MapAnswer(ParseMany(data, next, 2 * n, depth + 1, MAX_DECODE_DEPTH), r, end)
      ensures ValueAnswer(ParseValue(data, o, depth, MAX_DECODE_DEPTH), r, end)
    {
      hide ParseHead, ParseMany, PutAll, Pairs;
      ValueByHead(data, o, depth, MAX_DECODE_DEPTH);
    }

    lemma ArrayIsValue(o: nat, depth: nat, w: Width, n: nat, next: nat, r: Result<Value>, end: nat)
      requires depth <= MAX_DECODE_DEPTH && ParseHead(data, o) == Open(false, w, n, next) && next <= |data|
      requires ArrayAnswer(ParseMany(data, next, n, depth + 1, MAX_DECODE_DEPTH), r, end)
      ensures ValueAnswer(ParseValue(data, o, depth, MAX_DECODE_DEPTH), r, end)
    {
      hide ParseHead, ParseMany, MeanAll;
      ValueByHead(data, o, depth, MAX_DECODE_DEPTH);
    }

    lemma MapEnds(p: ParsedAll, end: nat)
      ensures p.FailAll? ==> MapAnswer(p, Err, end)
      ensures p.DoneAll? && end == p.next ==> MapAnswer(p, Ok(VMap(PutAll(Pairs(p.kids, keyText)))), end)
    {}

    /** A string or byte string whose length follows the marker, when the length is read or is not there. */
    lemma SizedLeaf(o: nat, n: Result<nat>, next: nat, d: Result<seq<Byte>>, end: nat)
      requires o < |data| && (0xc4 <= data[o] <= 0xc6 || 0xd9 <= data[o] <= 0xdb)
      requires var w := ByIndex(if data[o] <= 0xc6 then data[o] - 0xc4 else data[o] - 0xd9);
        if Has(data, o + 1, w.Size()) then next == o + 1 + w.Size() && n == Ok(Number(data, o + 1, w)) else n.Err?
      requires n.Ok? ==> if Has(data, next, n.value) then end == next + n.value && d == Ok(data[next..end]) else d.Err?
      requires n.Err? ==> d.Err?
      ensures LeafAnswer(ParseHead(data, o),
        if d.Err? then Err else if data[o] <= 0xc6 then Ok(VBytes(d.value)) else Ok(VStr(d.value)), end)
    {
      hide Number, ParseHead;
      SizedLeafHead(data, o);
    }

    /** What was read at `o`, if it is no container, is what the bytes up to `end` say. */
    ghost predicate LeafRead(o: nat, r: Result<Value>, end: nat) {
      r.Ok? ==>
        && o < end <= |data|
        && (!ContainerMarker(data[o]) ==> NumberMeans(data[o], data[o + 1..end], r.value) && OtherMeans(data[o], data[o + 1..end], r.value))
    }

    lemma AnswerReads(o: nat, depth: nat, r: Result<Value>, end: nat)
      requires ValueAnswer(ParseValue(data, o, depth, MAX_DECODE_DEPTH), r, end)
      ensures LeafRead(o, r, end)
    {
      hide ParseValue, Mean, NumberMeans, OtherMeans, ContainerMarker;
      var p := ParseValue(data, o, depth, MAX_DECODE_DEPTH);
      if p.Done? && !ContainerMarker(data[o]) { LeafAt(data, o, depth, MAX_DECODE_DEPTH, keyText); }
    }

    lemma NothingRead(o: nat, end: nat)
      ensures LeafRead(o, Err, end)
    {}

    lemma NoHead(o: nat)
      ensures o >= |data| ==> ParseHead(data, o).Bad?
    {}

    lemma NoValue(o: nat, depth: nat, end: nat)
      requires depth > MAX_DECODE_DEPTH || ParseHead(data, o).Bad?
      ensures ValueAnswer(ParseValue(data, o, depth, MAX_DECODE_DEPTH), Err, end)
    {
      hide ParseHead;
      ValueByHead(data, o, depth, MAX_DECODE_DEPTH);
    }

    /** The answers that the first byte gives alone. */
    lemma OneByte(o: nat)
      requires o < |data|
      ensures var b, h := data[o], ParseHead(data, o);
        && (b <= 0x7f ==> LeafAnswer(h, Ok(VInt(b)), o + 1))
        && (b >= 0xe0 ==> LeafAnswer(h, Ok(VInt(Int8(b))), o + 1))
        && (b == 0xc0 ==> LeafAnswer(h, Ok(VNil), o + 1))
        && (b == 0xc1 ==> h.Bad?)
        && (b == 0xc2 ==> LeafAnswer(h, Ok(VBool(false)), o + 1))
        && (b == 0xc3 ==> LeafAnswer(h, Ok(VBool(true)), o + 1))
        && (0x80 <= b <= 0x8f ==> h == Open(true, Fix, b % 0x10, o + 1))
        && (0x90 <= b <= 0x9f ==> h == Open(false, Fix, b % 0x10, o + 1))
    {}

    lemma FixStr(o: nat, r: Result<seq<Byte>>, end: nat)
      requires o < |data| && 0xa0 <= data[o] <= 0xbf
      requires var n := data[o] % 0x20;
        if Has(data, o + 1, n) then end == o + 1 + n && r == Ok(data[o + 1..end]) else r.Err?
      ensures LeafAnswer(ParseHead(data, o), if r.Ok? then Ok(VStr(r.value)) else Err, end)
    {}

    method DecodeValue(depth: nat) returns (r: Result<Value>)
      requires Valid()
      modifies this
      ensures Valid() && old(off) <= off
      ensures ValueAnswer(ParseValue(data, old(off), depth, MAX_DECODE_DEPTH), r, off)
      ensures CostOk(|data|, depth, r.Ok?, off - old(off), calls - old(calls), slots - old(slots))
      ensures r.Ok? ==> slots - old(slots) < off - old(off)
      ensures LeafRead(old(off), r, off)
      decreases |data| - off, 1
    {
      hide ParseHead, ParseMany, ParseValue, Number, StrAt, Mean, ValueAnswer, MapAnswer, ArrayAnswer, LeafAnswer, CostOk, LeafRead;
      calls := calls + 1;
      CostNone(|data|, depth, 0);
      NoHead(off);
      NothingRead(off, off);
      if depth > MAX_DECODE_DEPTH { NoValue(off, depth, off); return Err; }
      var first := ReadByte();
      if first.Err? { NoValue(off, depth, off); return Err; }
      var b := first.value;
      OneByte(old(off));
      CostNone(|data|, depth, 1);

      ghost var o, c, n := off, calls, slots;
      if b <= 0x7f {
        r := Ok(VInt(b));
        LeafIsValue(old(off), depth, r, off);
        CostNone(|data|, depth, 0);
      } else if b >= 0xe0 {
        r := Ok(VInt(Int8(b)));
        LeafIsValue(old(off), depth, r, off);
        CostNone(|data|, depth, 0);
      } else if 0x80 <= b <= 0x8f {
        r := DecodeMap(b % 0x10, depth + 1);
        MapIsValue(old(off), depth, Fix, b % 0x10, o, r, off);
      } else if 0x90 <= b <= 0x9f {
        r := DecodeArray(b % 0x10, depth + 1);
        ArrayIsValue(old(off), depth, Fix, b % 0x10, o, r, off);
      } else if 0xa0 <= b <= 0xbf {
        var s := DecodeString(b % 0x20);
        FixStr(old(off), s, off);
        r := if s.Ok? then Ok(VStr(s.value)) else Err;
        LeafIsValue(old(off), depth, r, off);
        CostNone(|data|, depth, off - o);
      } else {
        r := DecodeSwitch(b, depth);
      }
      CostStep(|data|, depth, r.Ok?, off - o, calls - c, slots - n, 1, 1);
      AnswerReads(old(off), depth, r, off);
    }

    /** The switch on the markers that are not fix forms; the marker is already read. */
    method DecodeSwitch(b: Byte, depth: nat) returns (r: Result<Value>)
      requires Valid() && 1 <= off && data[off - 1] == b && 0xc0 <= b < 0xe0 && depth <= MAX_DECODE_DEPTH
      modifies this
      ensures Valid() && old(off) <= off
      ensures ValueAnswer(ParseValue(data, old(off) - 1, depth, MAX_DECODE_DEPTH), r, off)
      ensures CostOk(|data|, depth, r.Ok?, off - old(off), calls - old(calls), slots - old(slots))
      decreases |data| - off, 4
    {
      hide Number, ParseHead, ParseMany, ParseValue, ValueAnswer, MapAnswer, ArrayAnswer, LeafAnswer, CostOk;
      ghost var start, o := off - 1, off;
      OneByte(start);
      NumberedHead(data, start);
      if 0xdc <= b {
        var n: Result<nat>;
        match b {
          case 0xdc => n := ReadUint16();
          case 0xdd => n := ReadUint32();
          case 0xde => n := ReadUint16();
          case _ => n := ReadUint32();
        }
        if n.Err? {
          NoValue(start, depth, off);
          CostNone(|data|, depth, off - o);
          return Err;
        }
        ghost var next := off;
        ghost var w := if b % 2 == 0 then W16 else W32;
        if b <= 0xdd {
          r := DecodeArray(n.value, depth + 1);
          ArrayIsValue(start, depth, w, n.value, next, r, off);
        } else {
          r := DecodeMap(n.value, depth + 1);
          MapIsValue(start, depth, w, n.value, next, r, off);
        }
        CostStep(|data|, depth, r.Ok?, off - next, calls - old(calls), slots - old(slots), next - o, 0);
        return;
      }
      match b {
        case 0xc0 => r := Ok(VNil);
        case 0xc1 => NoValue(start, depth, off); r := Err;
        case 0xc2 => r := Ok(VBool(false));
        case 0xc3 => r := Ok(VBool(true));
        case _ =>
          if 0xc4 <= b <= 0xc6 || 0xd9 <= b <= 0xdb { r := DecodeBytes(b); }
          else if 0xc7 <= b <= 0xc9 || 0xd4 <= b <= 0xd8 { r := DecodeExt(b); }
          else { r := DecodeNumber(b); }
      }
      if b != 0xc1 { LeafIsValue(start, depth, r, off); }
      CostNone(|data|, depth, off - o);
    }

    /** The cases of the marker switch that read a number. */
    method DecodeNumber(b: Byte) returns (r: Result<Value>)
      requires Valid() && 1 <= off && data[off - 1] == b && 0xca <= b <= 0xd3
      modifies `off
      ensures Valid() && old(off) <= off
      ensures LeafAnswer(ParseHead(data, old(off) - 1), r, off)
    {
      hide Number, ParseHead, Widen;
      NumberHead(data, off - 1);
      var v: Result<nat>;
      match b {
        case 0xca => v := ReadUint32();
        case 0xcb => v := ReadUint64();
        case 0xcc => v := ReadUint8();
        case 0xcd => v := ReadUint16();
        case 0xce => v := ReadUint32();
        case 0xcf => v := ReadUint64();
        case 0xd0 => v := ReadUint8();
        case 0xd1 => v := ReadUint16();
        case 0xd2 => v := ReadUint32();
        case _ => v := ReadUint64();
      }
      if v.Err? { return Err; }
      match b {
        case 0xca => return Ok(VFloat(Widen(v.value)));
        case 0xcb => return Ok(VFloat(v.value));
        case 0xcf => return Ok(VUint(v.value));
        case 0xd0 => return Ok(VInt(Int8(v.value)));
        case 0xd1 => return Ok(VInt(Int16(v.value)));
        case 0xd2 => return Ok(VInt(Int32(v.value)));
        case 0xd3 => return Ok(VInt(Int64(v.value)));
        case _ => return Ok(VInt(v.value));
      }
    }

    /** The cases of the marker switch that read a string or a byte string. */
    method DecodeBytes(b: Byte) returns (r: Result<Value>)
      requires Valid() && 1 <= off && data[off - 1] == b && (0xc4 <= b <= 0xc6 || 0xd9 <= b <= 0xdb)
      modifies `off
      ensures Valid() && old(off) <= off
      ensures LeafAnswer(ParseHead(data, old(off) - 1), r, off)
    {
      hide Number, ParseHead, LeafAnswer;
      ghost var o := off - 1;
      var n: Result<nat>;
      match b {
        case 0xc4 => n := ReadUint8();
        case 0xc5 => n := ReadUint16();
        case 0xc6 => n := ReadUint32();
        case 0xd9 => n := ReadUint8();
        case 0xda => n := ReadUint16();
        case _ => n := ReadUint32();
      }
      ghost var next := off;
      if n.Err? { SizedLeaf(o, n, next, Err, off); return Err; }
      if b <= 0xc6 {
        var d := ReadBytesCopy(n.value);
        SizedLeaf(o, n, next, d, off);
        return if d.Ok? then Ok(VBytes(d.value)) else Err;
      }
      var s := DecodeString(n.value);
      SizedLeaf(o, n, next, s, off);
      return if s.Ok? then Ok(VStr(s.value)) else Err;
    }

    /** The cases of the marker switch that read an extension. */
    method DecodeExt(b: Byte) returns (r: Result<Value>)
      requires Valid() && 1 <= off && data[off - 1] == b && (0xc7 <= b <= 0xc9 || 0xd4 <= b <= 0xd8)
      modifies `off
      ensures Valid() && old(off) <= off
      ensures LeafAnswer(ParseHead(data, old(off) - 1), r, off)
    {
      hide Number, MeanAll, PutAll, Pairs, ParseHead;
      SizedLeafHead(data, off - 1);
      var n: Result<nat>;
      match b {
        case 0xc7 => n := ReadUint8();
        case 0xc8 => n := ReadUint16();
        case 0xc9 => n := ReadUint32();
        case 0xd4 => n := Ok(1);
        case 0xd5 => n := Ok(2);
        case 0xd6 => n := Ok(4);
        case 0xd7 => n := Ok(8);
        case _ => n := Ok(16);
      }
      if n.Err? { return Err; }
      var d := DecodeExtPayload(n.value);
      return if d.Ok? then Ok(VBytes(d.value)) else Err;
    }

    method DecodeMap(n: nat, depth: nat) returns (r: Result<Value>)
      requires Valid() && 1 <= depth <= MAX_DECODE_DEPTH + 1
      modifies this
      ensures Valid() && old(off) <= off
      ensures MapAnswer(ParseMany(data, old(off), 2 * n, depth, MAX_DECODE_DEPTH), r, off)
      ensures CostOk(|data|, depth - 1, r.Ok?, off - old(off), calls - old(calls), slots - old(slots))
      decreases |data| - off, 4
    {
      hide ParseHead, ParseValue, ParseMany, Prepend, Put, PutAll, Pairs, Mean, KeyOf, CostOk, MapAnswer;
      PairsNone(keyText);
      ghost var start, all := off, ParseMany(data, off, 2 * n, depth, MAX_DECODE_DEPTH);
      ghost var c: int, s: int := calls, slots;
      ManyStart(data, off, 2 * n, depth, MAX_DECODE_DEPTH);
      ghost var done: seq<Tree> := [];
      var om: OrderedMap := [];
      for i := 0 to n
        invariant Valid() && start <= off
        invariant |done| % 2 == 0 && om == PutAll(Pairs(done, keyText))
        invariant all == Prepend(done, ParseMany(data, off, 2 * (n - i), depth, MAX_DECODE_DEPTH))
        invariant calls - c <= off - start && slots - s <= off - start
      {
        ghost var o := off;
        ghost var c1: int, s1: int := calls, slots;
        ManyPair(data, off, 2 * (n - i), depth, MAX_DECODE_DEPTH, done);
        var pair := DecodePair(depth);
        CostBound(|data|, depth, pair.Ok?, off - o, calls - c1, slots - s1);
        if pair.Err? {
          MapEnds(all, off);
          CostInside(|data|, depth, 0, o - start, c1 - c, s1 - s, off - o, calls - c1, slots - s1);
          return Err;
        }
        ghost var k := ParseValue(data, o, depth, MAX_DECODE_DEPTH);
        ghost var v := ParseValue(data, k.next, depth, MAX_DECODE_DEPTH);
        PairsStep(done, k.t, v.t, keyText);
        om := Put(om, pair.value.0, pair.value.1);
        done := done + [k.t, v.t];
      }
      CostBound(|data|, depth - 1, true, off - start, calls - c, slots - s);
      ManyStep(data, off, 0, depth, MAX_DECODE_DEPTH, done);
      MapEnds(all, off);
      return Ok(VMap(om));
    }

    /** One pass of the loop of decodeMap, up to setting the pair. */
    method DecodePair(depth: nat) returns (r: Result<(seq<Byte>, Value)>)
      requires Valid()
      modifies this
      ensures Valid() && old(off) <= off
      ensures var k := ParseValue(data, old(off), depth, MAX_DECODE_DEPTH);
        if k.Fail? then r.Err?
        else
          var v := ParseValue(data, k.next, depth, MAX_DECODE_DEPTH);
          if v.Fail? then r.Err? else r == Ok((KeyOf(k.t, keyText), Mean(v.t, keyText))) && off == v.next
      ensures CostOk(|data|, depth, r.Ok?, off - old(off), calls - old(calls), slots - old(slots))
      decreases |data| - off, 3
    {
      hide ParseHead, ParseValue, Mean, KeyOf, CostOk;
      ghost var o := off;
      ghost var c: int, s: int := calls, slots;
      ValueDepth(data, off, depth, MAX_DECODE_DEPTH);
      var key := DecodeMapKey(depth);
      if key.Err? { return Err; }
      CostBound(|data|, depth, true, off - o, calls - c, slots - s);
      ghost var o2 := off;
      ghost var c2: int, s2: int := calls, slots;
      ValueDepth(data, off, depth, MAX_DECODE_DEPTH);
      var val := DecodeValue(depth);
      CostThen(|data|, depth, val.Ok?, o2 - o, c2 - c, s2 - s, off - o2, calls - c2, slots - s2);
      return if val.Ok? then Ok((key.value, val.value)) else Err;
    }

    /** A string key is taken as it is, at any depth; any other key is decoded as a value and printed. */
    method DecodeMapKey(depth: nat) returns (r: Result<seq<Byte>>)
      requires Valid()
      modifies this
      ensures Valid() && old(off) <= off
      ensures var p := ParseValue(data, old(off), depth, MAX_DECODE_DEPTH);
        if p.Done? then r == Ok(KeyOf(p.t, keyText)) && off == p.next else r.Err? || depth > MAX_DECODE_DEPTH
      ensures CostOk(|data|, depth, r.Ok?, off - old(off), calls - old(calls), slots - old(slots))
      decreases |data| - off, 2
    {
      hide Number, Mean, ParseHead, ParseMany, ParseValue, Budget;
      StrHead(data, off);
      ValueByHead(data, off, depth, MAX_DECODE_DEPTH);
      var first := ReadByte();
      if first.Err? { return Err; }
      var b := first.value;
      if 0xa0 <= b <= 0xbf { r := DecodeString(b % 0x20); return; }
      match b
      case 0xd9 =>
        var n := ReadUint8();
        if n.Err? { return Err; }
        r := DecodeString(n.value);
      case 0xda =>
        var n := ReadUint16();
        if n.Err? { return Err; }
        r := DecodeString(n.value);
      case 0xdb =>
        var n := ReadUint32();
        if n.Err? { return Err; }
        r := DecodeString(n.value);
      case _ =>
        off := off - 1;
        var v := DecodeValue(depth);
        if v.Err? { return Err; }
        return Ok(keyText(v.value));
    }

    /** The length check comes before the allocation. */
    method DecodeArray(n: int, depth: nat) returns (r: Result<Value>)
      requires Valid() && 1 <= depth <= MAX_DECODE_DEPTH + 1 && n >= 0
      modifies this
      ensures Valid() && old(off) <= off
      ensures ArrayAnswer(ParseMany(data, old(off), n, depth, MAX_DECODE_DEPTH), r, off)
      ensures CostOk(|data|, depth - 1, r.Ok?, off - old(off), calls - old(calls), slots - old(slots))
      decreases |data| - off, 3
    {
      hide ParseHead, ParseValue, ParseMany, Prepend, Mean, MeanAll;
      MeanAllNone(keyText);
      ghost var start, all := off, ParseMany(data, off, n, depth, MAX_DECODE_DEPTH);
      if n < 0 || n > |data| - off { return Err; }
      ManyStart(data, off, n, depth, MAX_DECODE_DEPTH);
      ghost var done: seq<Tree> := [];
      var arr: seq<Value> := [];
      slots := slots + n;
      for i := 0 to n
        invariant Valid() && start <= off
        invariant |done| == i && arr == MeanAll(done, keyText)
        invariant all == Prepend(done, ParseMany(data, off, n - i, depth, MAX_DECODE_DEPTH))
        invariant calls - old(calls) <= off - start && slots - old(slots) <= n + (off - start) - i
      {
        ghost var v := ParseValue(data, off, depth, MAX_DECODE_DEPTH);
        ManyStep(data, off, n - i, depth, MAX_DECODE_DEPTH, done);
        var val := DecodeValue(depth);
        if val.Err? { return Err; }
        MeanAllStep(done, v.t, keyText);
        arr := arr + [val.value];
        done := done + [v.t];
      }
      ManyStep(data, off, 0, depth, MAX_DECODE_DEPTH, done);
      return Ok(VArr(arr));
    }

    // ---------- validating ----------

    method ValidateValue(depth: int, maxDepth: int) returns (ok: bool)
      requires Valid()
      modifies `off
      ensures Valid() && old(off) <= off
      ensures var p := ParseValue(data, old(off), depth, maxDepth);
        if p.Done? then ok && off == p.next else !ok
      decreases |data| - off, 1
    {
      hide ParseHead, ParseMany, ParseValue, Number;
      FixHead(data, off);
      ValueByHead(data, off, depth, maxDepth);
      if depth > maxDepth { return false; }
      var first := ReadByte();
      if first.Err? { return false; }
      var b := first.value;

      if b <= 0x7f || b >= 0xe0 {
        ok := true;
      } else if 0x80 <= b <= 0x8f {
        ok := ValidateMap(b % 0x10, depth + 1, maxDepth);
      } else if 0x90 <= b <= 0x9f {
        ok := ValidateArray(b % 0x10, depth + 1, maxDepth);
      } else if 0xa0 <= b <= 0xbf {
        var d := Reserve(b % 0x20);
        ok := d.Ok?;
      } else {
        ok := ValidateSwitch(b, depth, maxDepth);
      }
    }

    /** The switch on the markers that are not fix forms; the marker is already read. */
    method ValidateSwitch(b: Byte, depth: int, maxDepth: int) returns (ok: bool)
      requires Valid() && 1 <= off && data[off - 1] == b && 0xc0 <= b < 0xe0 && depth <= maxDepth
      modifies `off
      ensures Valid() && old(off) <= off
      ensures var p := ParseValue(data, old(off) - 1, depth, maxDepth);
        if p.Done? then ok && off == p.next else !ok
      decreases |data| - off, 4
    {
      hide Number, ParseMany, ParseValue;
      ValueByHead(data, off - 1, depth, maxDepth);
      NumberedHead(data, off - 1);
      match b
      case 0xc0 => return true;
      case 0xc2 => return true;
      case 0xc3 => return true;
      case 0xdc =>
        var n := ReadUint16();
        if n.Err? { return false; }
        ok := ValidateArray(n.value, depth + 1, maxDepth);
      case 0xdd =>
        var n := ReadUint32();
        if n.Err? { return false; }
        ok := ValidateArray(n.value, depth + 1, maxDepth);
      case 0xde =>
        var n := ReadUint16();
        if n.Err? { return false; }
        ok := ValidateMap(n.value, depth + 1, maxDepth);
      case 0xdf =>
        var n := ReadUint32();
        if n.Err? { return false; }
        ok := ValidateMap(n.value, depth + 1, maxDepth);
      case _ =>
        if b == 0xc1 { return false; }
        ok := SkipLeaf(b);
    }

    /** The cases of the switch that only reserve bytes. */
    method SkipLeaf(b: Byte) returns (ok: bool)
      requires Valid() && 1 <= off && data[off - 1] == b && 0xc4 <= b <= 0xdb
      modifies `off
      ensures Valid() && old(off) <= off
      ensures match ParseHead(data, old(off) - 1)
        case Bad => !ok
        case Leaf(_, next) => ok && off == next
        case Open(_, _, _, _) => false
    {
      hide Number;
      var d;
      match b {
      case 0xcc => d := Reserve(1);
      case 0xd0 => d := Reserve(1);
      case 0xcd => d := Reserve(2);
      case 0xd1 => d := Reserve(2);
      case 0xca => d := Reserve(4);
      case 0xce => d := Reserve(4);
      case 0xd2 => d := Reserve(4);
      case 0xcb => d := Reserve(8);
      case 0xcf => d := Reserve(8);
      case 0xd3 => d := Reserve(8);
      case 0xd4 => d := Reserve(1 + 1);
      case 0xd5 => d := Reserve(2 + 1);
      case 0xd6 => d := Reserve(4 + 1);
      case 0xd7 => d := Reserve(8 + 1);
      case 0xd8 => d := Reserve(16 + 1);
      case _ => ok := SkipSized(b); return;
      }
      return d.Ok?;
    }

    /** The cases of the switch that reserve as many bytes as a length says. */
    method SkipSized(b: Byte) returns (ok: bool)
      requires Valid() && 1 <= off && data[off - 1] == b && (0xc4 <= b <= 0xc9 || 0xd9 <= b <= 0xdb)
      modifies `off
      ensures Valid() && old(off) <= off
      ensures match ParseHead(data, old(off) - 1)
        case Bad => !ok
        case Leaf(_, next) => ok && off == next
        case Open(_, _, _, _) => false
    {
      hide Number, ParseHead;
      SizedLeafHead(data, off - 1);
      var n: Result<nat>;
      match b {
        case 0xc4 => n := ReadUint8();
        case 0xd9 => n := ReadUint8();
        case 0xc5 => n := ReadUint16();
        case 0xda => n := ReadUint16();
        case 0xc6 => n := ReadUint32();
        case 0xdb => n := ReadUint32();
        case 0xc7 => n := ReadUint8();
        case 0xc8 => n := ReadUint16();
        case _ => n := ReadUint32();
      }
      if n.Err? { return false; }
      var d := Reserve(if 0xc7 <= b <= 0xc9 then n.value + 1 else n.value);
      return d.Ok?;
    }

    method ValidateArray(n: int, depth: int, maxDepth: int) returns (ok: bool)
      requires Valid() && n >= 0
      modifies `off
      ensures Valid() && old(off) <= off
      ensures var p := ParseMany(data, old(off), n, depth, maxDepth);
        if p.DoneAll? then ok && off == p.next else !ok
      decreases |data| - off, 3
    {
      hide ParseHead, ParseValue, ParseMany, Prepend;
      if n < 0 || n > |data| - off { return false; }
      ghost var start, all := off, ParseMany(data, off, n, depth, maxDepth);
      ManyStart(data, off, n, depth, maxDepth);
      ghost var done: seq<Tree> := [];
      for i := 0 to n
        invariant Valid() && start <= off
        invariant all == Prepend(done, ParseMany(data, off, n - i, depth, maxDepth))
      {
        ghost var v := ParseValue(data, off, depth, maxDepth);
        ManyStep(data, off, n - i, depth, maxDepth, done);
        var good := ValidateValue(depth, maxDepth);
        if !good { return false; }
        done := done + [v.t];
      }
      ManyStep(data, off, 0, depth, maxDepth, done);
      return true;
    }

    /** Unlike the decoder, the validator compares a map's length with the bytes left. */
    method ValidateMap(n: int, depth: int, maxDepth: int) returns (ok: bool)
      requires Valid() && n >= 0
      modifies `off
      ensures Valid() && old(off) <= off
      ensures var p := ParseMany(data, old(off), 2 * n, depth, maxDepth);
        if p.DoneAll? then ok && off == p.next else !ok
      decreases |data| - off, 3
    {
      hide ParseHead, ParseValue, ParseMany, Prepend;
      if n < 0 || n > |data| - off { return false; }
      ghost var start, all := off, ParseMany(data, off, 2 * n, depth, maxDepth);
      ManyStart(data, off, 2 * n, depth, maxDepth);
      ghost var done: seq<Tree> := [];
      for i := 0 to n
        invariant Valid() && start <= off
        invariant all == Prepend(done, ParseMany(data, off, 2 * n - 2 * i, depth, maxDepth))
      {
        ghost var k := ParseValue(data, off, depth, maxDepth);
        ManyStep(data, off, 2 * n - 2 * i, depth, maxDepth, done);
        var goodKey := ValidateValue(depth, maxDepth);
        if !goodKey { return false; }
        ghost var v := ParseValue(data, off, depth, maxDepth);
        ManyStep(data, off, 2 * n - 2 * i - 1, depth, maxDepth, done + [k.t]);
        var goodValue := ValidateValue(depth, maxDepth);
        if !goodValue { return false; }
        done := done + [k.t] + [v.t];
      }
      ManyStep(data, off, 0, depth, maxDepth, done);
      return true;
    }
  }

  lemma MeanAllNone(f: KeyText)
    ensures MeanAll([], f) == []
  {}

  lemma MeanAllStep(done: seq<Tree>, t: Tree, f: KeyText)
    ensures MeanAll(done + [t], f) == MeanAll(done, f) + [Mean(t, f)]
  {
    var more := done + [t];
    assert more[..|more| - 1] == done;
  }

  lemma PairsNone(f: KeyText)
    ensures PutAll(Pairs([], f)) == []
  {}

  lemma PairsStep(done: seq<Tree>, k: Tree, v: Tree, f: KeyText)
    requires |done| % 2 == 0
    ensures PutAll(Pairs(done + [k, v], f)) == Put(PutAll(Pairs(done, f)), KeyOf(k, f), Mean(v, f))
  {
    var more := done + [k, v];
    assert more[..|more| - 2] == done;
    var ps := Pairs(done, f) + [(KeyOf(k, f), Mean(v, f))];
    assert Pairs(more, f) == ps && ps[..|ps| - 1] == Pairs(done, f);
  }

  // ---------- entry points ----------

  /** `data` is exactly one wire tree, no node deeper than `limit`. */
  ghost predicate Encodes(data: seq<Byte>, t: Tree, limit: int) {
    WellFormed(t) && Serialize(t) == data && Depth(t) <= limit
  }

  lemma WholeParse(data: seq<Byte>, limit: int, t: Tree)
    ensures ParseValue(data, 0, 0, limit) == Done(t, |data|) <==> Encodes(data, t, limit)
  {
    ParseIff(data, 0, 0, limit, t, |data|);
    assert data[0..|data|] == data;
  }

  lemma WholeParses(data: seq<Byte>, limit: int)
    ensures forall t :: ParseValue(data, 0, 0, limit) == Done(t, |data|) <==> Encodes(data, t, limit)
  {
    hide ParseValue, Encodes;
    forall t { WholeParse(data, limit, t); }
  }

  /** ValidateMaxDepth accepts exactly the serializations of trees within the depth limit. */
  method ValidateMaxDepth(data: seq<Byte>, maxDepth: int, keyText: KeyText) returns (ok: bool)
    ensures ok <==> exists t :: Encodes(data, t, maxDepth)
  {
    var d := new ByteDecoder(data, keyText);
    ghost var p := ParseValue(data, 0, 0, maxDepth);
    var good := d.ValidateValue(0, maxDepth);
    WholeParses(data, maxDepth);
    if !good { return false; }
    if d.off != |data| { return false; }
    assert Encodes(data, p.t, maxDepth);
    return true;
  }

  /** decodeOrderedMapBytes succeeds exactly on the serializations of maps no deeper than 512, and
      returns their meaning. Whatever the outcome, the run is bounded by the size of the input. */
  method DecodeOrderedMapBytes(data: seq<Byte>, keyText: KeyText)
    returns (r: Result<OrderedMap>, ghost calls: nat, ghost slots: nat)
    ensures r.Ok? <==> exists t :: Encodes(data, t, MAX_DECODE_DEPTH) && t.Map?
    ensures forall t :: Encodes(data, t, MAX_DECODE_DEPTH) && t.Map? ==> r == Ok(PutAll(Pairs(t.kids, keyText)))
    ensures calls <= |data| + 1 && slots <= (MAX_DECODE_DEPTH + 2) * |data|
  {
    hide Encodes, ParseValue, PutAll, Pairs, MeanAll, Budget;
    var d := new ByteDecoder(data, keyText);
    ghost var p := ParseValue(data, 0, 0, MAX_DECODE_DEPTH);
    var val := d.DecodeValue(0);
    calls, slots := d.calls, d.slots;
    BudgetClosed(|data|, 0);
    WholeParses(data, MAX_DECODE_DEPTH);
    if val.Err? { return Err, calls, slots; }
    if d.off != |data| { return Err, calls, slots; }
    assert Encodes(data, p.t, MAX_DECODE_DEPTH);
    if !val.value.VMap? { return Err, calls, slots; }
    return Ok(val.value.members), calls, slots;
  }

  /** Under a key that no later pair has, the decoded map holds exactly what the bytes of the value say. */
  lemma DecodedEntry(data: seq<Byte>, t: Tree, p: nat, f: KeyText)
    requires Encodes(data, t, MAX_DECODE_DEPTH) && t.Map? && p < |t.kids| / 2 && LastKey(t.kids, p, f) && !IsNode(t.kids[2 * p + 1])
    ensures var bs := Serialize(t.kids[2 * p + 1]);
      exists v :: (KeyOf(t.kids[2 * p], f), v) in PutAll(Pairs(t.kids, f)) && NumberMeans(bs[0], bs[1..], v) && OtherMeans(bs[0], bs[1..], v)
  {
    hide PutAll, Pairs, KeyOf, Mean, NumberMeans, OtherMeans;
    LeafSerialized(t.kids[2 * p + 1], f);
    EntryIff(t.kids, f, KeyOf(t.kids[2 * p], f), Mean(t.kids[2 * p + 1], f));
  }

  /** Data that differ in the widths of integers, lengths and counts at most decode alike. */
  lemma DecodedAlike(t: Tree, u: Tree, f: KeyText)
    requires Alike(t, u) && t.Map?
    ensures u.Map? && PutAll(Pairs(t.kids, f)) == PutAll(Pairs(u.kids, f))
  {
    AlikePairs(t.kids, u.kids, f);
  }

  /** From any offset and depth: what passes under a limit gives the same tree and the same end under any
      larger one. Both walkers answer as ParseValue does, so bytes that validate within a limit of at most
      512 decode in full. */
  lemma LimitMonotone(data: seq<Byte>, off: nat, depth: int, m: int, n: int)
    requires m <= n && ParseValue(data, off, depth, m).Done?
    ensures ParseValue(data, off, depth, n) == ParseValue(data, off, depth, m)
  {
    var p := ParseValue(data, off, depth, m);
    ParseIff(data, off, depth, m, p.t, p.next);
    ParseIff(data, off, depth, n, p.t, p.next);
  }

  /** At most one tree is encoded, and the limits it is accepted under are those from its depth up. */
  lemma DepthLimitExact(data: seq<Byte>, t: Tree, u: Tree, m: int, n: int)
    requires Encodes(data, t, m) && Encodes(data, u, n)
    ensures t == u
    ensures forall limit: int :: Encodes(data, t, limit) <==> Depth(t) <= limit
  {
    assert Serialize(u) + [] == Serialize(u);
    PrefixFree(t, u, []);
  }
}

/** JSON texts: a renderer, and an independent reader of the grammar in sections 2 to 7 of RFC 8259.
    Bytes of 0x80 and above stand for themselves. */
module Json {
  import opened Bytes

  const QUOTE: Byte := 0x22
  const BACKSLASH: Byte := 0x5c
  const COMMA: Byte := 0x2c
  const COLON: Byte := 0x3a
  const OPEN_BRACKET: Byte := 0x5b
  const CLOSE_BRACKET: Byte := 0x5d
  const OPEN_BRACE: Byte := 0x7b
  const CLOSE_BRACE: Byte := 0x7d
  const NULL: seq<Byte> := [0x6e, 0x75, 0x6c, 0x6c]
  const TRUE: seq<Byte> := [0x74, 0x72, 0x75, 0x65]
  const FALSE: seq<Byte> := [0x66, 0x61, 0x6c, 0x73, 0x65]

  /** A number is kept as its text; members keep their order, and their keys may repeat. */
  datatype Json =
    | JNull
    | JBool(b: bool)
    | JNumber(text: seq<Byte>)
    | JString(s: seq<Byte>)
    | JArray(items: seq<Json>)
    | JObject(members: seq<Member>)

  datatype Member = Member(key: seq<Byte>, value: Json)

  // ---------- rendering ----------

  function Hex(d: nat): Byte
    requires d < 16
  {
    if d < 10 then 0x30 + d else 0x61 + d - 10
  }

  function EscapeByte(c: Byte): (e: seq<Byte>)
    ensures |e| >= 1
  {
    if c == QUOTE then [BACKSLASH, QUOTE]
    else if c == BACKSLASH then [BACKSLASH, BACKSLASH]
    else if c == 0x0a then [BACKSLASH, 0x6e]
    else if c == 0x0d then [BACKSLASH, 0x72]
    else if c == 0x09 then [BACKSLASH, 0x74]
    else if c < 0x20 then [BACKSLASH, 0x75, 0x30, 0x30, Hex(c / 16), Hex(c % 16)]
    else [c]
  }

  function Escape(s: seq<Byte>): seq<Byte> {
    if s == [] then [] else EscapeByte(s[0]) + Escape(s[1..])
  }

  function Quote(s: seq<Byte>): seq<Byte> { [QUOTE] + Escape(s) + [QUOTE] }

  function DecimalNat(n: nat): (t: seq<Byte>)
    ensures |t| >= 1
  {
    if n < 10 then [0x30 + n] else DecimalNat(n / 10) + [0x30 + n % 10]
  }

  /** %d */
  function Decimal(i: int): (t: seq<Byte>)
    ensures |t| >= 1
  {
    if i < 0 then [0x2d] + DecimalNat(-i) else DecimalNat(i)
  }

  function Render(j: Json): seq<Byte> {
    match j
    case JNull => NULL
    case JBool(b) => if b then TRUE else FALSE
    case JNumber(t) => t
    case JString(s) => Quote(s)
    case JArray(items) => [OPEN_BRACKET] + JoinItems(items) + [CLOSE_BRACKET]
    case JObject(ms) => [OPEN_BRACE] + JoinMembers(ms) + [CLOSE_BRACE]
  }

  function JoinItems(items: seq<Json>): seq<Byte> {
    if items == [] then [] else Render(items[0]) + RenderItems(items[1..])
  }

  function JoinMembers(ms: seq<Member>): seq<Byte> {
    if ms == [] then [] else RenderMember(ms[0]) + RenderMembers(ms[1..])
  }

  /** Items after the first, each with its comma. */
  function RenderItems(items: seq<Json>): seq<Byte> {
    if items == [] then [] else [COMMA] + Render(items[0]) + RenderItems(items[1..])
  }

  function RenderMember(m: Member): seq<Byte> { Quote(m.key) + [COLON] + Render(m.value) }

  function RenderMembers(ms: seq<Member>): seq<Byte> {
    if ms == [] then [] else [COMMA] + RenderMember(ms[0]) + RenderMembers(ms[1..])
  }

  // ---------- rendering step by step, for the loops ----------

  /** What goes before the element that follows `n` others. */
  function Separator(n: nat): seq<Byte> { if n > 0 then [COMMA] else [] }

  lemma {:induction false} RenderItemsStep(items: seq<Json>, j: Json)
    ensures RenderItems(items + [j]) == RenderItems(items) + [COMMA] + Render(j)
  {
    hide Render;
    if items == [] {
      assert items + [j] == [j];
      assert RenderItems([j]) == [COMMA] + Render(j) + RenderItems([]);
    } else {
      RenderItemsStep(items[1..], j);
      assert (items + [j])[1..] == items[1..] + [j];
    }
  }

  lemma JoinItemsStep(items: seq<Json>, j: Json)
    ensures JoinItems(items + [j]) == JoinItems(items) + Separator(|items|) + Render(j)
  {
    hide Render, RenderItems;
    var more := items + [j];
    if items == [] {
      NothingMore();
      assert more == [j] && [j][1..] == [];
    } else {
      assert more[1..] == items[1..] + [j] && more[0] == items[0];
      RenderItemsStep(items[1..], j);
      Assoc(Render(items[0]), RenderItems(items[1..]), [COMMA], Render(j));
    }
  }

  lemma Assoc(a: seq<Byte>, b: seq<Byte>, c: seq<Byte>, d: seq<Byte>)
    ensures a + (b + c + d) == a + b + c + d
  {}

  lemma NothingMore()
    ensures RenderItems([]) == [] && RenderMembers([]) == []
  {}

  lemma {:induction false} RenderMembersStep(ms: seq<Member>, m: Member)
    ensures RenderMembers(ms + [m]) == RenderMembers(ms) + [COMMA] + RenderMember(m)
  {
    hide RenderMember;
    if ms == [] {
      assert ms + [m] == [m];
      assert RenderMembers([m]) == [COMMA] + RenderMember(m) + RenderMembers([]);
    } else {
      RenderMembersStep(ms[1..], m);
      assert (ms + [m])[1..] == ms[1..] + [m];
    }
  }

  lemma JoinMembersStep(ms: seq<Member>, m: Member)
    ensures JoinMembers(ms + [m]) == JoinMembers(ms) + Separator(|ms|) + RenderMember(m)
  {
    hide RenderMember, RenderMembers;
    var more := ms + [m];
    if ms == [] {
      NothingMore();
      assert more == [m] && [m][1..] == [];
    } else {
      assert more[1..] == ms[1..] + [m] && more[0] == ms[0];
      RenderMembersStep(ms[1..], m);
      Assoc(RenderMember(ms[0]), RenderMembers(ms[1..]), [COMMA], RenderMember(m));
    }
  }

  lemma {:induction false} EscapeStep(s: seq<Byte>, c: Byte)
    ensures Escape(s + [c]) == Escape(s) + EscapeByte(c)
    decreases |s|
  {
    hide EscapeByte;
    if s == [] {
      assert s + [c] == [c];
      assert Escape([c]) == EscapeByte(c) + Escape([]);
    } else {
      EscapeStep(s[1..], c);
      assert (s + [c])[1..] == s[1..] + [c];
    }
  }

  // ---------- reading ----------

  // The reader spells out the bytes of the grammar, and shares none of the constants above.

  datatype Read<+T> = No | Yes(value: T, next: nat)

  /** What stands at `i`; 256 beyond the end. */
  function Peek(s: seq<Byte>, i: nat): int { if i < |s| then s[i] else 256 }

  predicate Blank(c: int) { c == 0x20 || c == 0x09 || c == 0x0a || c == 0x0d }

  function SkipBlanks(s: seq<Byte>, i: nat): (k: nat)
    ensures i <= k && (i <= |s| ==> k <= |s|)
    decreases |s| - i
  {
    if Blank(Peek(s, i)) then SkipBlanks(s, i + 1) else i
  }

  predicate Digit(c: int) { 0x30 <= c <= 0x39 }

  function DigitsEnd(s: seq<Byte>, i: nat): (k: nat)
    ensures i <= k && (i <= |s| ==> k <= |s|)
    decreases |s| - i
  {
    if Digit(Peek(s, i)) then DigitsEnd(s, i + 1) else i
  }

  /** One or more digits. */
  function SomeDigits(s: seq<Byte>, i: nat): Read<()> {
    if Digit(Peek(s, i)) then Yes((), DigitsEnd(s, i + 1)) else No
  }

  /** number = [ minus ] int [ frac ] [ exp ] */
  function ReadNumber(s: seq<Byte>, i: nat): (r: Read<()>)
    ensures r.Yes? ==> i < r.next <= |s|
  {
    var p := if Peek(s, i) == 0x2d then i + 1 else i;
    if Peek(s, p) == 0x30 then ReadFraction(s, p + 1)
    else
      match SomeDigits(s, p)
      case No => No
      case Yes(_, q) => ReadFraction(s, q)
  }

  function ReadFraction(s: seq<Byte>, i: nat): (r: Read<()>)
    requires i <= |s|
    ensures r.Yes? ==> i <= r.next <= |s|
  {
    if Peek(s, i) != 0x2e then ReadExponent(s, i)
    else
      match SomeDigits(s, i + 1)
      case No => No
      case Yes(_, q) => ReadExponent(s, q)
  }

  function ReadExponent(s: seq<Byte>, i: nat): (r: Read<()>)
    requires i <= |s|
    ensures r.Yes? ==> i <= r.next <= |s|
  {
    var e := Peek(s, i);
    if e != 0x65 && e != 0x45 then Yes((), i)
    else
      var sign := Peek(s, i + 1);
      SomeDigits(s, if sign == 0x2b || sign == 0x2d then i + 2 else i + 1)
  }

  function HexValue(c: int): (v: int)
    ensures -1 <= v < 16
  {
    if 0x30 <= c <= 0x39 then c - 0x30 else if 0x61 <= c <= 0x66 then c - 0x61 + 10
    else if 0x41 <= c <= 0x46 then c - 0x41 + 10 else -1
  }

  /** The UTF-8 form of a 16-bit code unit; the two halves of a surrogate pair stay apart. */
  function CodeUnit(v: nat): seq<Byte>
    requires v < 0x1_0000
  {
    if v < 0x80 then [v]
    else if v < 0x800 then [0xc0 + v / 64, 0x80 + v % 64]
    else [0xe0 + v / 4096, 0x80 + v / 64 % 64, 0x80 + v % 64]
  }

  /** One char of a string, quotes excluded. */
  function ReadChar(s: seq<Byte>, i: nat): (r: Read<seq<Byte>>)
    ensures r.Yes? ==> i < r.next <= |s|
  {
    var c, d := Peek(s, i), Peek(s, i + 1);
    if c == 256 || c < 0x20 || c == 0x22 then No
    else if c != 0x5c then Yes([c], i + 1)
    else if d == 0x22 || d == 0x5c || d == 0x2f then Yes([d], i + 2)
    else if d == 0x62 then Yes([0x08], i + 2)
    else if d == 0x66 then Yes([0x0c], i + 2)
    else if d == 0x6e then Yes([0x0a], i + 2)
    else if d == 0x72 then Yes([0x0d], i + 2)
    else if d == 0x74 then Yes([0x09], i + 2)
    else if d == 0x75 then ReadHex(s, i + 2)
    else No
  }

  function ReadHex(s: seq<Byte>, i: nat): (r: Read<seq<Byte>>)
    ensures r.Yes? ==> r.next == i + 4 <= |s|
  {
    var a, b, c, d := HexValue(Peek(s, i)), HexValue(Peek(s, i + 1)), HexValue(Peek(s, i + 2)), HexValue(Peek(s, i + 3));
    if a < 0 || b < 0 || c < 0 || d < 0 then No else Yes(CodeUnit(a * 4096 + b * 256 + c * 16 + d), i + 4)
  }

  /** The rest of a string whose opening quote is already read. */
  function ReadString(s: seq<Byte>, i: nat): (r: Read<seq<Byte>>)
    ensures r.Yes? ==> i < r.next <= |s|
    decreases |s| - i
  {
    if Peek(s, i) == 0x22 then Yes([], i + 1)
    else
      match ReadChar(s, i)
      case No => No
      case Yes(c, k) =>
        match ReadString(s, k)
        case No => No
        case Yes(rest, n) => Yes(c + rest, n)
  }

  function ReadLiteral(s: seq<Byte>, i: nat, text: seq<Byte>, j: Json): (r: Read<Json>)
    requires text != []
    ensures r.Yes? ==> i < r.next <= |s|
  {
    if At(s, i, text) then Yes(j, i + |text|) else No
  }

  /** A value, with the blanks before it. */
  function ReadValue(s: seq<Byte>, from: nat): (r: Read<Json>)
    ensures r.Yes? ==> from < r.next <= |s|
    decreases |s| - from, 1
  {
    var i := SkipBlanks(s, from);
    var c := Peek(s, i);
    if c == 0x6e then ReadLiteral(s, i, [0x6e, 0x75, 0x6c, 0x6c], JNull)
    else if c == 0x74 then ReadLiteral(s, i, [0x74, 0x72, 0x75, 0x65], JBool(true))
    else if c == 0x66 then ReadLiteral(s, i, [0x66, 0x61, 0x6c, 0x73, 0x65], JBool(false))
    else if c == 0x22 then
      match ReadString(s, i + 1) { case No => No case Yes(t, n) => Yes(JString(t), n) }
    else if c == 0x5b then
      var k := SkipBlanks(s, i + 1);
      if Peek(s, k) == 0x5d then Yes(JArray([]), k + 1)
      else match ReadItems(s, i + 1) { case No => No case Yes(items, n) => Yes(JArray(items), n) }
    else if c == 0x7b then
      var k := SkipBlanks(s, i + 1);
      if Peek(s, k) == 0x7d then Yes(JObject([]), k + 1)
      else match ReadMembers(s, i + 1) { case No => No case Yes(ms, n) => Yes(JObject(ms), n) }
    else match ReadNumber(s, i) { case No => No case Yes(_, n) => Yes(JNumber(s[i..n]), n) }
  }

  /** One or more values with commas between, and the closing bracket. */
  function ReadItems(s: seq<Byte>, from: nat): (r: Read<seq<Json>>)
    ensures r.Yes? ==> from < r.next <= |s|
    decreases |s| - from, 2
  {
    match ReadValue(s, from)
    case No => No
    case Yes(j, n) =>
      var k := SkipBlanks(s, n);
      if Peek(s, k) == 0x5d then Yes([j], k + 1)
      else if Peek(s, k) == 0x2c then
        match ReadItems(s, k + 1) { case No => No case Yes(rest, e) => Yes([j] + rest, e) }
      else No
  }

  function ReadMember(s: seq<Byte>, from: nat): (r: Read<Member>)
    ensures r.Yes? ==> from < r.next <= |s|
    decreases |s| - from, 2
  {
    var i := SkipBlanks(s, from);
    if Peek(s, i) != 0x22 then No
    else
      match ReadString(s, i + 1)
      case No => No
      case Yes(key, n) =>
        var k := SkipBlanks(s, n);
        if Peek(s, k) != 0x3a then No
        else match ReadValue(s, k + 1) { case No => No case Yes(v, e) => Yes(Member(key, v), e) }
  }

  function ReadMembers(s: seq<Byte>, from: nat): (r: Read<seq<Member>>)
    ensures r.Yes? ==> from < r.next <= |s|
    decreases |s| - from, 3
  {
    match ReadMember(s, from)
    case No => No
    case Yes(m, n) =>
      var k := SkipBlanks(s, n);
      if Peek(s, k) == 0x7d then Yes([m], k + 1)
      else if Peek(s, k) == 0x2c then
        match ReadMembers(s, k + 1) { case No => No case Yes(rest, e) => Yes([m] + rest, e) }
      else No
  }

  /** JSON-text = ws value ws */
  function ReadText(s: seq<Byte>): Result<Json> {
    match ReadValue(s, 0)
    case No => Err
    case Yes(j, n) => if SkipBlanks(s, n) == |s| then Ok(j) else Err
  }
}

/** Rendered JSON reads back as the value it was rendered from. */
module JsonLaws {
  import opened Bytes
  import opened Json

  lemma PeekAt(s: seq<Byte>, i: nat, bs: seq<Byte>, k: nat)
    requires At(s, i, bs) && k < |bs|
    ensures Peek(s, i + k) == bs[k]
  {
    assert s[i..i + |bs|][k] == s[i + k];
  }

  // ---------- strings ----------

  lemma HexBack(d: nat)
    requires d < 16
    ensures HexValue(Hex(d)) == d
  {}

  lemma CharBack(s: seq<Byte>, i: nat, c: Byte)
    requires At(s, i, EscapeByte(c))
    ensures ReadChar(s, i) == Yes([c], i + |EscapeByte(c)|) && Peek(s, i) != QUOTE
  {
    hide At;
    var e := EscapeByte(c);
    PeekAt(s, i, e, 0);
    if |e| >= 2 { PeekAt(s, i, e, 1); }
    if |e| == 6 {
      PeekAt(s, i, e, 2);
      PeekAt(s, i, e, 3);
      PeekAt(s, i, e, 4);
      PeekAt(s, i, e, 5);
      HexBack(c / 16);
      HexBack(c % 16);
      AtRange(s, i, e);
      assert ReadHex(s, i + 2) == Yes(CodeUnit(c), i + 6);
    }
  }

  /** Unescaping inverts escaping for every byte string, whatever follows: the closing quote is found. */
  lemma {:induction false} StringBack(s: seq<Byte>, i: nat, t: seq<Byte>)
    requires At(s, i, Escape(t) + [QUOTE])
    ensures ReadString(s, i) == Yes(t, i + |Escape(t)| + 1)
    decreases |t|
  {
    hide At, ReadChar, EscapeByte;
    AtConcat(s, i, Escape(t), [QUOTE]);
    if t == [] {
      assert Escape(t) == [];
      PeekAt(s, i, [QUOTE], 0);
    } else {
      var e := EscapeByte(t[0]);
      AtConcat(s, i, e, Escape(t[1..]));
      CharBack(s, i, t[0]);
      AtConcat(s, i + |e|, Escape(t[1..]), [QUOTE]);
      StringBack(s, i + |e|, t[1..]);
      assert [t[0]] + t[1..] == t;
    }
  }

  /** No control byte is ever written inside a string. */
  lemma {:induction false} EscapeClean(t: seq<Byte>)
    ensures forall b | b in Escape(t) :: b >= 0x20
  {
    if t != [] { EscapeClean(t[1..]); }
  }

  /** A byte that section 7 of RFC 8259 lets stand for itself. */
  predicate Unescaped(c: Byte) { c >= 0x20 && c != 0x22 && c != 0x5c }

  /** Escaping leaves a string alone exactly if all its bytes may stand for themselves. */
  lemma {:induction false} EscapePlain(t: seq<Byte>)
    ensures |Escape(t)| >= |t|
    ensures Escape(t) == t <==> forall i | 0 <= i < |t| :: Unescaped(t[i])
  {
    if t != [] {
      var e, rest := EscapeByte(t[0]), t[1..];
      EscapePlain(rest);
      assert t == [t[0]] + rest && Escape(t) == e + Escape(rest);
      assert |e| == 1 <==> Unescaped(t[0]);
      if |e| == 1 {
        assert e == [t[0]];
        assert Escape(t)[1..] == Escape(rest);
      }
      assert forall i | 0 <= i < |rest| :: rest[i] == t[i + 1];
      assert forall i | 0 < i < |t| :: t[i] == rest[i - 1];
    }
  }

  // ---------- numbers ----------

  /** `t` is, as a whole, a number of the grammar. */
  predicate NumberText(t: seq<Byte>) { ReadNumber(t, 0) == Yes((), |t|) }

  predicate NumberChar(c: int) { Digit(c) || c == 0x2b || c == 0x2d || c == 0x2e || c == 0x65 || c == 0x45 }

  /** A number that ends at `k` is not continued there. */
  predicate Delimited(s: seq<Byte>, k: nat) { !NumberChar(Peek(s, k)) }

  /** Text `t` stands at `i` in `s` and is not continued as a number. */
  predicate Stands(s: seq<Byte>, i: nat, t: seq<Byte>) { At(s, i, t) && Delimited(s, i + |t|) }

  lemma SamePeek(s: seq<Byte>, i: nat, t: seq<Byte>, k: nat)
    requires Stands(s, i, t) && k <= |t|
    ensures if k < |t| then Peek(s, i + k) == Peek(t, k) == t[k] else !NumberChar(Peek(s, i + k)) && Peek(t, k) == 256
  {
    if k < |t| { PeekAt(s, i, t, k); }
  }

  lemma {:induction false} SameDigits(s: seq<Byte>, i: nat, t: seq<Byte>, k: nat)
    requires Stands(s, i, t) && k <= |t|
    ensures DigitsEnd(s, i + k) == i + DigitsEnd(t, k)
    decreases |t| - k
  {
    hide Stands;
    SamePeek(s, i, t, k);
    if k < |t| { SameDigits(s, i, t, k + 1); }
  }

  lemma SameSome(s: seq<Byte>, i: nat, t: seq<Byte>, k: nat)
    requires Stands(s, i, t) && k <= |t| && SomeDigits(t, k).Yes?
    ensures SomeDigits(s, i + k) == Yes((), i + SomeDigits(t, k).next)
  {
    hide Stands;
    SamePeek(s, i, t, k);
    SameDigits(s, i, t, k + 1);
  }

  lemma SameExponent(s: seq<Byte>, i: nat, t: seq<Byte>, k: nat)
    requires Stands(s, i, t) && k <= |t| && ReadExponent(t, k) == Yes((), |t|)
    ensures ReadExponent(s, i + k) == Yes((), i + |t|)
  {
    hide Stands;
    SamePeek(s, i, t, k);
    var e := Peek(t, k);
    if e == 0x65 || e == 0x45 {
      SamePeek(s, i, t, k + 1);
      var sign := Peek(t, k + 1);
      SameSome(s, i, t, if sign == 0x2b || sign == 0x2d then k + 2 else k + 1);
    }
  }

  lemma SameFraction(s: seq<Byte>, i: nat, t: seq<Byte>, k: nat)
    requires Stands(s, i, t) && k <= |t| && ReadFraction(t, k) == Yes((), |t|)
    ensures ReadFraction(s, i + k) == Yes((), i + |t|)
  {
    hide Stands, ReadExponent;
    SamePeek(s, i, t, k);
    if Peek(t, k) == 0x2e {
      SameSome(s, i, t, k + 1);
      SameExponent(s, i, t, SomeDigits(t, k + 1).next);
    } else {
      SameExponent(s, i, t, k);
    }
  }

  lemma NumberBack(s: seq<Byte>, i: nat, t: seq<Byte>)
    requires Stands(s, i, t) && NumberText(t)
    ensures ReadNumber(s, i) == Yes((), i + |t|)
  {
    hide Stands, ReadFraction;
    SamePeek(s, i, t, 0);
    var p := if Peek(t, 0) == 0x2d then 1 else 0;
    SamePeek(s, i, t, p);
    if Peek(t, p) == 0x30 {
      SameFraction(s, i, t, p + 1);
    } else {
      SameSome(s, i, t, p);
      SameFraction(s, i, t, SomeDigits(t, p).next);
    }
  }

  /** The first byte of a number is '-' or a digit. */
  lemma NumberFirst(t: seq<Byte>)
    requires NumberText(t)
    ensures t != [] && (t[0] == 0x2d || Digit(t[0]))
  {}

  function DecimalValue(t: seq<Byte>): int {
    if t == [] then 0 else DecimalValue(t[..|t| - 1]) * 10 + (t[|t| - 1] as int - 0x30)
  }

  lemma {:induction false} DecimalDigits(n: nat)
    ensures forall b | b in DecimalNat(n) :: Digit(b)
    ensures DecimalNat(n)[0] == 0x30 ==> n == 0
    ensures DecimalValue(DecimalNat(n)) == n
  {
    var t := DecimalNat(n);
    if n < 10 {
      assert t[..0] == [];
    } else {
      DecimalDigits(n / 10);
      assert t[..|t| - 1] == DecimalNat(n / 10);
    }
  }

  lemma {:induction false} AllDigitsEnd(t: seq<Byte>, k: nat)
    requires k <= |t| && forall i :: k <= i < |t| ==> Digit(t[i])
    ensures DigitsEnd(t, k) == |t|
    decreases |t| - k
  {
    if k < |t| { AllDigitsEnd(t, k + 1); }
  }

  /** The text of an integer is a number of the grammar, and denotes the integer. */
  lemma DecimalIsNumber(i: int)
    ensures NumberText(Decimal(i))
    ensures var t := Decimal(i); DecimalValue(if i < 0 then t[1..] else t) == if i < 0 then -i else i
  {
    assert DecimalNat(0) == [0x30];
    hide DecimalNat, DecimalValue, DigitsEnd;
    var n := if i < 0 then -i else i;
    var d, t := DecimalNat(n), Decimal(i);
    DecimalDigits(n);
    var p := if i < 0 then 1 else 0;
    assert t[p..] == d;
    assert t[p] == d[0];
    forall k | p <= k < |t| ensures Digit(t[k]) { assert t[k] == d[k - p]; }
    AllDigitsEnd(t, p + 1);
    if n == 0 { assert |d| == 1; }
  }

  // ---------- values ----------

  /** Every number in `j` is a number of the grammar. */
  predicate GoodNumbers(j: Json) {
    match j
    case JNumber(t) => NumberText(t)
    case JArray(items) => forall x | x in items :: GoodNumbers(x)
    case JObject(ms) => forall m | m in ms :: GoodNumbers(m.value)
    case _ => true
  }

  /** The first byte of a rendered value: not blank, and telling its kind. */
  function FirstByte(j: Json): Byte
    requires GoodNumbers(j)
  {
    match j
    case JNull => 0x6e
    case JBool(b) => if b then 0x74 else 0x66
    case JNumber(t) => NumberFirst(t); t[0]
    case JString(_) => QUOTE
    case JArray(_) => OPEN_BRACKET
    case JObject(_) => OPEN_BRACE
  }

  lemma RenderFirst(j: Json)
    requires GoodNumbers(j)
    ensures Render(j) != [] && Render(j)[0] == FirstByte(j) && !Blank(FirstByte(j))
  {
    if j.JNumber? { NumberFirst(j.text); }
  }

  lemma NoBlank(s: seq<Byte>, i: nat, b: int)
    requires Peek(s, i) == b && !Blank(b)
    ensures SkipBlanks(s, i) == i
  {}

  lemma {:induction false} ValueBack(s: seq<Byte>, i: nat, j: Json)
    requires GoodNumbers(j) && Stands(s, i, Render(j))
    ensures ReadValue(s, i) == Yes(j, i + |Render(j)|)
    decreases j, 0
  {
    hide At, ReadItems, ReadMembers, ReadString, ReadNumber, NumberText;
    var r := Render(j);
    RenderFirst(j);
    PeekAt(s, i, r, 0);
    NoBlank(s, i, r[0]);
    match j
    case JNull =>
    case JBool(_) =>
    case JNumber(t) =>
      NumberFirst(t);
      NumberBack(s, i, t);
      AtRange(s, i, t);
    case JString(t) =>
      AtConcat(s, i, [QUOTE], Escape(t) + [QUOTE]);
      assert r == [QUOTE] + (Escape(t) + [QUOTE]);
      StringBack(s, i + 1, t);
    case JArray(items) =>
      ArrayBack(s, i, items);
    case JObject(ms) =>
      ObjectBack(s, i, ms);
  }

  /** The rest of an array after `[`, or after a comma. */
  function ItemsText(items: seq<Json>): seq<Byte>
    requires items != []
  {
    JoinItems(items) + [CLOSE_BRACKET]
  }

  function MembersText(ms: seq<Member>): seq<Byte>
    requires ms != []
  {
    JoinMembers(ms) + [CLOSE_BRACE]
  }

  lemma {:induction false} ArrayBack(s: seq<Byte>, i: nat, items: seq<Json>)
    requires GoodNumbers(JArray(items)) && At(s, i, Render(JArray(items)))
    ensures ReadValue(s, i) == Yes(JArray(items), i + |Render(JArray(items))|)
    decreases items, 2
  {
    hide At, ReadItems, ReadMembers, ReadString, ReadNumber, GoodNumbers;
    var r := Render(JArray(items));
    PeekAt(s, i, r, 0);
    NoBlank(s, i, OPEN_BRACKET);
    if items == [] {
      PeekAt(s, i, r, 1);
      NoBlank(s, i + 1, CLOSE_BRACKET);
    } else {
      GoodItems(items);
      assert r == [OPEN_BRACKET] + ItemsText(items);
      AtConcat(s, i, [OPEN_BRACKET], ItemsText(items));
      RenderFirst(items[0]);
      PeekAt(s, i + 1, ItemsText(items), 0);
      NoBlank(s, i + 1, FirstByte(items[0]));
      ItemsBack(s, i + 1, items);
    }
  }

  lemma FirstByteOf(j: Json)
    requires GoodNumbers(j)
    ensures var b := FirstByte(j); !Blank(b) && b != CLOSE_BRACKET
  {
    hide NumberText;
    if j.JNumber? { NumberFirst(j.text); }
  }

  /** What reading items does behind the first value. */
  lemma ItemsRead(s: seq<Byte>, i: nat, j: Json, n: nat)
    requires ReadValue(s, i) == Yes(j, n) && !Blank(Peek(s, n))
    ensures Peek(s, n) == CLOSE_BRACKET ==> ReadItems(s, i) == Yes([j], n + 1)
    ensures Peek(s, n) == COMMA && ReadItems(s, n + 1).Yes? ==>
      var rest := ReadItems(s, n + 1); ReadItems(s, i) == Yes([j] + rest.value, rest.next)
  {
    hide ReadValue;
    NoBlank(s, n, Peek(s, n));
  }

  lemma GoodItems(items: seq<Json>)
    requires GoodNumbers(JArray(items))
    ensures items != [] ==> GoodNumbers(items[0]) && GoodNumbers(JArray(items[1..]))
    ensures items != [] ==> var b := FirstByte(items[0]); !Blank(b) && b != CLOSE_BRACKET
  {
    hide NumberText, Blank;
    if items != [] {
      assert items[0] in items && forall x | x in items[1..] :: x in items;
      FirstByteOf(items[0]);
    }
  }

  /** What stands behind the first item: the closing bracket, or a comma and the rest. */
  lemma ItemsTail(items: seq<Json>)
    requires items != []
    ensures var rest := items[1..]; var tail := RenderItems(rest) + [CLOSE_BRACKET];
      && ItemsText(items) == Render(items[0]) + tail
      && tail == if rest == [] then [CLOSE_BRACKET] else [COMMA] + ItemsText(rest)
  {
    hide Render;
  }

  lemma {:induction false} ItemsBack(s: seq<Byte>, i: nat, items: seq<Json>)
    requires items != [] && GoodNumbers(JArray(items)) && At(s, i, ItemsText(items))
    ensures ReadItems(s, i) == Yes(items, i + |ItemsText(items)|)
    decreases items, 1
  {
    hide At, ReadValue, ReadItems, GoodNumbers, Render, RenderItems, ItemsText;
    GoodItems(items);
    ItemsTail(items);
    var first, rest := Render(items[0]), items[1..];
    var tail := RenderItems(rest) + [CLOSE_BRACKET];
    AtConcat(s, i, first, tail);
    var n := i + |first|;
    PeekAt(s, n, tail, 0);
    ValueBack(s, i, items[0]);
    ItemsRead(s, i, items[0], n);
    if rest == [] {
      assert items == [items[0]];
    } else {
      AtConcat(s, n, [COMMA], ItemsText(rest));
      ItemsBack(s, n + 1, rest);
      assert items == [items[0]] + rest;
    }
  }

  lemma {:induction false} ObjectBack(s: seq<Byte>, i: nat, ms: seq<Member>)
    requires GoodNumbers(JObject(ms)) && At(s, i, Render(JObject(ms)))
    ensures ReadValue(s, i) == Yes(JObject(ms), i + |Render(JObject(ms))|)
    decreases ms, 2
  {
    hide At, ReadItems, ReadMembers, ReadString, ReadNumber, GoodNumbers, Escape;
    var r := Render(JObject(ms));
    PeekAt(s, i, r, 0);
    NoBlank(s, i, OPEN_BRACE);
    if ms == [] {
      PeekAt(s, i, r, 1);
      NoBlank(s, i + 1, CLOSE_BRACE);
    } else {
      assert r == [OPEN_BRACE] + MembersText(ms);
      AtConcat(s, i, [OPEN_BRACE], MembersText(ms));
      assert JoinMembers(ms) == RenderMember(ms[0]) + RenderMembers(ms[1..]) && RenderMember(ms[0])[0] == QUOTE;
      PeekAt(s, i + 1, MembersText(ms), 0);
      NoBlank(s, i + 1, QUOTE);
      MembersBack(s, i + 1, ms);
    }
  }

  lemma MembersRead(s: seq<Byte>, i: nat, m: Member, n: nat)
    requires ReadMember(s, i) == Yes(m, n) && !Blank(Peek(s, n))
    ensures Peek(s, n) == CLOSE_BRACE ==> ReadMembers(s, i) == Yes([m], n + 1)
    ensures Peek(s, n) == COMMA && ReadMembers(s, n + 1).Yes? ==>
      var rest := ReadMembers(s, n + 1); ReadMembers(s, i) == Yes([m] + rest.value, rest.next)
  {
    hide ReadMember;
    NoBlank(s, n, Peek(s, n));
  }

  lemma MemberRead(s: seq<Byte>, i: nat, key: seq<Byte>, n: nat, v: Json, end: nat)
    requires Peek(s, i) == QUOTE && ReadString(s, i + 1) == Yes(key, n)
    requires Peek(s, n) == COLON && ReadValue(s, n + 1) == Yes(v, end)
    ensures ReadMember(s, i) == Yes(Member(key, v), end)
  {
    hide ReadString, ReadValue;
    NoBlank(s, i, QUOTE);
    NoBlank(s, n, COLON);
  }

  lemma GoodMembers(ms: seq<Member>)
    requires GoodNumbers(JObject(ms))
    ensures ms != [] ==> GoodNumbers(ms[0].value) && GoodNumbers(JObject(ms[1..]))
  {}

  lemma MembersTail(ms: seq<Member>)
    requires ms != []
    ensures var rest := ms[1..]; var tail := RenderMembers(rest) + [CLOSE_BRACE];
      && MembersText(ms) == RenderMember(ms[0]) + tail
      && tail == if rest == [] then [CLOSE_BRACE] else [COMMA] + MembersText(rest)
  {
    hide RenderMember;
  }

  lemma {:induction false} MembersBack(s: seq<Byte>, i: nat, ms: seq<Member>)
    requires ms != [] && GoodNumbers(JObject(ms)) && At(s, i, MembersText(ms))
    ensures ReadMembers(s, i) == Yes(ms, i + |MembersText(ms)|)
    decreases ms, 1
  {
    hide At, ReadMember, ReadMembers, GoodNumbers, RenderMember, RenderMembers, MembersText;
    GoodMembers(ms);
    MembersTail(ms);
    var first, rest := RenderMember(ms[0]), ms[1..];
    var tail := RenderMembers(rest) + [CLOSE_BRACE];
    AtConcat(s, i, first, tail);
    var n := i + |first|;
    PeekAt(s, n, tail, 0);
    MemberBack(s, i, ms[0]);
    MembersRead(s, i, ms[0], n);
    if rest == [] {
      assert ms == [ms[0]];
    } else {
      AtConcat(s, n, [COMMA], MembersText(rest));
      MembersBack(s, n + 1, rest);
      assert ms == [ms[0]] + rest;
    }
  }

  lemma {:induction false} MemberBack(s: seq<Byte>, i: nat, m: Member)
    requires GoodNumbers(m.value) && Stands(s, i, RenderMember(m))
    ensures ReadMember(s, i) == Yes(m, i + |RenderMember(m)|)
    decreases m, 0
  {
    hide At, ReadValue, ReadMember, GoodNumbers, Render, ReadString, Escape;
    var key, value := Escape(m.key) + [QUOTE], Render(m.value);
    var text := [QUOTE] + (key + ([COLON] + value));
    assert RenderMember(m) == text;
    AtConcat(s, i, [QUOTE], key + ([COLON] + value));
    AtConcat(s, i + 1, key, [COLON] + value);
    PeekAt(s, i, [QUOTE], 0);
    StringBack(s, i + 1, m.key);
    var n := i + 1 + |key|;
    AtConcat(s, n, [COLON], value);
    PeekAt(s, n, [COLON], 0);
    ValueBack(s, n + 1, m.value);
    MemberRead(s, i, m.key, n, m.value, n + 1 + |value|);
  }

  /** The rendered text of any value is a JSON text, and reads back as exactly that value. */
  lemma TextBack(j: Json)
    requires GoodNumbers(j)
    ensures ReadText(Render(j)) == Ok(j)
  {
    var s := Render(j);
    assert s[0..|s|] == s;
    ValueBack(s, 0, j);
  }

  // ---------- compact texts ----------

  /** Neither its strings nor its numbers hold a blank. */
  predicate Unspaced(j: Json) {
    match j
    case JNumber(t) => NoSpace(t)
    case JString(t) => NoSpace(t)
    case JArray(items) => forall x | x in items :: Unspaced(x)
    case JObject(ms) => forall m | m in ms :: NoSpace(m.key) && Unspaced(m.value)
    case _ => true
  }

  predicate NoSpace(t: seq<Byte>) { forall i | 0 <= i < |t| :: t[i] > 0x20 }

  lemma {:induction false} EscapeUnspaced(t: seq<Byte>)
    requires NoSpace(t)
    ensures NoSpace(Escape(t)) && NoSpace(Quote(t))
  {
    hide EscapeByte;
    if t != [] {
      ByteUnspaced(t[0]);
      EscapeUnspaced(t[1..]);
    }
  }

  lemma ByteUnspaced(c: Byte)
    requires c > 0x20
    ensures NoSpace(EscapeByte(c))
  {}

  /** The text is compact: the only blanks in it are those of its strings. */
  lemma {:induction false} Compact(j: Json)
    requires Unspaced(j)
    ensures NoSpace(Render(j))
    decreases j, 1
  {
    hide Quote;
    match j
    case JString(t) => EscapeUnspaced(t);
    case JArray(items) =>
      if items != [] {
        Compact(items[0]);
        CompactItems(items[1..]);
        assert JoinItems(items) == Render(items[0]) + RenderItems(items[1..]);
      }
    case JObject(ms) =>
      if ms != [] {
        CompactMember(ms[0]);
        CompactMembers(ms[1..]);
      }
    case _ =>
  }

  lemma {:induction false} CompactItems(items: seq<Json>)
    requires forall x | x in items :: Unspaced(x)
    ensures NoSpace(RenderItems(items))
    decreases items, 0
  {
    hide Render;
    if items != [] {
      Compact(items[0]);
      CompactItems(items[1..]);
    }
  }

  lemma {:induction false} CompactMember(m: Member)
    requires NoSpace(m.key) && Unspaced(m.value)
    ensures NoSpace(RenderMember(m))
    decreases m, 0
  {
    hide Render, Quote;
    EscapeUnspaced(m.key);
    Compact(m.value);
  }

  lemma {:induction false} CompactMembers(ms: seq<Member>)
    requires forall m | m in ms :: NoSpace(m.key) && Unspaced(m.value)
    ensures NoSpace(RenderMembers(ms))
    decreases ms, 1
  {
    hide RenderMember;
    if ms != [] {
      CompactMember(ms[0]);
      CompactMembers(ms[1..]);
    }
  }
}

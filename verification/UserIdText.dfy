/** jsonScalarAsString: the text put beside a user id, with strconv.Unquote and Go's UTF-8 decoding. */
module UserIdText {
  import opened Bytes
  import opened Json
  import opened JsonLaws

  // ---------- UTF-8 as Go decodes it ----------

  const REPLACEMENT: seq<Byte> := [0xef, 0xbf, 0xbd]

  predicate Continues(c: int) { 0x80 <= c <= 0xbf }

  /** The second bytes allowed behind a lead byte of a three- or four-byte sequence. */
  predicate Second(c: int, d: int) {
    if c == 0xe0 then 0xa0 <= d <= 0xbf
    else if c == 0xed then 0x80 <= d <= 0x9f
    else if c == 0xf0 then 0x90 <= d <= 0xbf
    else if c == 0xf4 then 0x80 <= d <= 0x8f
    else Continues(d)
  }

  /** Length of the well-formed UTF-8 sequence at `i`; 0 if there is none. */
  function RuneLength(s: seq<Byte>, i: nat): (n: nat)
    ensures n <= 4 && (i < |s| ==> i + n <= |s|)
  {
    var c, d, e, f := Peek(s, i), Peek(s, i + 1), Peek(s, i + 2), Peek(s, i + 3);
    if c < 0x80 then 1
    else if 0xc2 <= c <= 0xdf && Continues(d) then 2
    else if 0xe0 <= c <= 0xef && Second(c, d) && Continues(e) then 3
    else if 0xf0 <= c <= 0xf4 && Second(c, d) && Continues(e) && Continues(f) then 4
    else 0
  }

  /** Unicode scalar values, and their encoding by section 3 of RFC 3629. */
  predicate Scalar(c: nat) { c < 0xd800 || 0xe000 <= c < 0x11_0000 }

  function Utf8(c: nat): (bs: seq<Byte>)
    requires Scalar(c)
    ensures |bs| >= 1
  {
    if c < 0x80 then [c]
    else if c < 0x800 then [0xc0 + c / 64, 0x80 + c % 64]
    else if c < 0x1_0000 then [0xe0 + c / 4096, 0x80 + c / 64 % 64, 0x80 + c % 64]
    else [0xf0 + c / 0x4_0000, 0x80 + c / 4096 % 64, 0x80 + c / 64 % 64, 0x80 + c % 64]
  }

  lemma Sextet(x: nat, y: nat)
    requires y < 64
    ensures (x * 64 + y) / 64 == x && (x * 64 + y) % 64 == y
  {}

  lemma Utf8Two(a: nat, b: nat)
    requires 2 <= a < 32 && b < 64
    ensures Utf8(a * 64 + b) == [0xc0 + a, 0x80 + b]
  {
    Sextet(a, b);
  }

  lemma Utf8Three(a: nat, b: nat, d: nat)
    requires a < 16 && b < 64 && d < 64 && (a > 0 || b >= 32) && (a == 13 ==> b < 32)
    ensures var c := a * 4096 + b * 64 + d; Scalar(c) && Utf8(c) == [0xe0 + a, 0x80 + b, 0x80 + d]
  {
    Sextet(a * 64 + b, d);
    Sextet(a, b);
    assert (a * 4096 + b * 64 + d) / 4096 == a;
  }

  lemma Utf8Four(a: nat, b: nat, d: nat, e: nat)
    requires a < 5 && b < 64 && d < 64 && e < 64 && (a > 0 || b >= 16) && (a == 4 ==> b < 16)
    ensures var c := a * 0x4_0000 + b * 4096 + d * 64 + e; Scalar(c) && Utf8(c) == [0xf0 + a, 0x80 + b, 0x80 + d, 0x80 + e]
  {
    var c := a * 0x4_0000 + b * 4096 + d * 64 + e;
    Sextet(a * 4096 + b * 64 + d, e);
    Sextet(a * 64 + b, d);
    Sextet(a, b);
    assert c / 64 == a * 4096 + b * 64 + d;
    assert c / 4096 == a * 64 + b;
    assert c / 0x4_0000 == a;
  }

  /** A well-formed sequence encodes a scalar value. */
  lemma RuneIsScalar(s: seq<Byte>, i: nat) returns (c: nat)
    requires i < |s| && RuneLength(s, i) > 0
    ensures Scalar(c) && |Utf8(c)| == RuneLength(s, i) && At(s, i, Utf8(c))
  {
    hide Utf8;
    var n := RuneLength(s, i);
    var a := s[i] as int;
    if n == 1 {
      c := a;
      Utf8One(a);
      assert s[i..i + 1] == [s[i]];
    } else if n == 2 {
      var b := s[i + 1] as int - 0x80;
      Utf8Two(a - 0xc0, b);
      c := (a - 0xc0) * 64 + b;
      assert s[i..i + 2] == [s[i], s[i + 1]];
    } else if n == 3 {
      var b, d := s[i + 1] as int - 0x80, s[i + 2] as int - 0x80;
      Utf8Three(a - 0xe0, b, d);
      c := (a - 0xe0) * 4096 + b * 64 + d;
      assert s[i..i + 3] == [s[i], s[i + 1], s[i + 2]];
    } else {
      var b, d, e := s[i + 1] as int - 0x80, s[i + 2] as int - 0x80, s[i + 3] as int - 0x80;
      Utf8Four(a - 0xf0, b, d, e);
      c := (a - 0xf0) * 0x4_0000 + b * 4096 + d * 64 + e;
      assert s[i..i + 4] == [s[i], s[i + 1], s[i + 2], s[i + 3]];
    }
  }

  lemma Utf8One(c: nat)
    requires c < 0x80
    ensures Utf8(c) == [c]
  {}

  /** The encoding of a scalar value is a well-formed sequence of just its length. */
  lemma ScalarIsRune(s: seq<Byte>, i: nat, c: nat)
    requires Scalar(c) && At(s, i, Utf8(c))
    ensures RuneLength(s, i) == |Utf8(c)|
  {
    var bs := Utf8(c);
    PeekAt(s, i, bs, 0);
    if |bs| > 1 { PeekAt(s, i, bs, 1); }
    if |bs| > 2 { PeekAt(s, i, bs, 2); }
    if |bs| > 3 { PeekAt(s, i, bs, 3); }
  }

  predicate ValidUtf8(s: seq<Byte>)
    decreases |s|
  {
    s == [] || var n := RuneLength(s, 0); n > 0 && ValidUtf8(s[n..])
  }

  /** Every byte that starts no well-formed sequence is replaced by U+FFFD. */
  function Repair(s: seq<Byte>): seq<Byte>
    decreases |s|
  {
    if s == [] then []
    else
      var n := RuneLength(s, 0);
      if n == 0 then REPLACEMENT + Repair(s[1..]) else s[..n] + Repair(s[n..])
  }

  /** Repair keeps an encoded scalar value, and puts U+FFFD for a byte that starts none. */
  lemma RepairSteps(s: seq<Byte>, c: nat)
    requires s != []
    ensures Scalar(c) && At(s, 0, Utf8(c)) ==> Repair(s) == Utf8(c) + Repair(s[|Utf8(c)|..])
    ensures (forall d: nat :: Scalar(d) ==> !At(s, 0, Utf8(d))) ==> Repair(s) == Utf8(0xfffd) + Repair(s[1..])
  {
    hide Utf8, RuneLength;
    if Scalar(c) && At(s, 0, Utf8(c)) { ScalarIsRune(s, 0, c); }
    if RuneLength(s, 0) > 0 { var d := RuneIsScalar(s, 0); }
    assert Utf8(0xfffd) == REPLACEMENT by { ReplacementIs(); }
  }

  lemma ReplacementIs()
    ensures Utf8(0xfffd) == REPLACEMENT
  {}

  lemma {:induction false} RepairOnlyInvalid(s: seq<Byte>)
    ensures Repair(s) == s <==> ValidUtf8(s)
    decreases |s|
  {
    if s != [] {
      var n := RuneLength(s, 0);
      if n > 0 {
        RepairOnlyInvalid(s[n..]);
        assert s == s[..n] + s[n..];
        if Repair(s) == s { assert Repair(s)[n..] == Repair(s[n..]); }
      }
    }
  }

  // ---------- strconv.Unquote, on the escapes that writeJSONString uses ----------

  function Unquote(raw: seq<Byte>): Result<seq<Byte>> {
    if |raw| < 2 || raw[0] != QUOTE then Err else UnquoteFrom(raw, 1)
  }

  function Cons(bs: seq<Byte>, r: Result<seq<Byte>>): Result<seq<Byte>> {
    if r.Ok? then Ok(bs + r.value) else Err
  }

  function UnquoteFrom(raw: seq<Byte>, i: nat): Result<seq<Byte>>
    decreases |raw| - i
  {
    var c, d := Peek(raw, i), Peek(raw, i + 1);
    if c == 256 || c == 0x0a then Err
    else if c == 0x22 then (if i + 1 == |raw| then Ok([]) else Err)
    else if c >= 0x80 then
      var n := RuneLength(raw, i);
      if n == 0 then Cons(REPLACEMENT, UnquoteFrom(raw, i + 1)) else Cons(raw[i..i + n], UnquoteFrom(raw, i + n))
    else if c != 0x5c then Cons([c], UnquoteFrom(raw, i + 1))
    else if d == 0x22 || d == 0x5c then Cons([d], UnquoteFrom(raw, i + 2))
    else if d == 0x6e then Cons([0x0a], UnquoteFrom(raw, i + 2))
    else if d == 0x72 then Cons([0x0d], UnquoteFrom(raw, i + 2))
    else if d == 0x74 then Cons([0x09], UnquoteFrom(raw, i + 2))
    else if d == 0x75 then
      match ReadHex(raw, i + 2) { case No => Err case Yes(u, k) => Cons(u, UnquoteFrom(raw, k)) }
    else Err
  }

  predicate High(c: int) { 0x80 <= c < 0x100 }

  lemma HighByte(c: Byte)
    ensures EscapeByte(c)[0] >= 0x80 <==> High(c)
    ensures High(c) ==> EscapeByte(c) == [c]
  {}

  lemma {:induction false} EscapeHigh(t: seq<Byte>, k: nat)
    requires k <= |t| && forall j :: 0 <= j < k ==> High(t[j])
    ensures Escape(t) == t[..k] + Escape(t[k..])
    decreases k
  {
    hide EscapeByte;
    if k == 0 {
      assert t[..0] == [] && t[0..] == t;
    } else {
      var u := t[1..];
      HighByte(t[0]);
      EscapeHigh(u, k - 1);
      assert u[k - 1..] == t[k..] && [t[0]] + u[..k - 1] == t[..k];
      assert Escape(t) == [t[0]] + (u[..k - 1] + Escape(t[k..]));
    }
  }

  /** The text of a string with its closing quote starts with a high byte exactly if the string does. */
  lemma TextFirst(t: seq<Byte>)
    ensures var c := (Escape(t) + [QUOTE])[0]; if High(Peek(t, 0)) then c == t[0] else !High(c)
  {
    if t != [] { HighByte(t[0]); }
  }

  /** Behind `m` high bytes, the escaped text continues with the same high byte, or with none. */
  lemma HighAt(raw: seq<Byte>, i: nat, t: seq<Byte>, m: nat)
    requires At(raw, i, Escape(t) + [QUOTE]) && m <= |t| && forall j :: 0 <= j < m ==> High(t[j])
    ensures var c := Peek(raw, i + m); if High(Peek(t, m)) then c == t[m] else !High(c)
  {
    hide At, Escape;
    var rest := Escape(t[m..]) + [QUOTE];
    EscapeHigh(t, m);
    assert Escape(t) + [QUOTE] == t[..m] + rest;
    AtConcat(raw, i, t[..m], rest);
    PeekAt(raw, i + m, rest, 0);
    TextFirst(t[m..]);
  }

  lemma SameRune(raw: seq<Byte>, i: nat, t: seq<Byte>)
    requires t != [] && High(t[0]) && At(raw, i, Escape(t) + [QUOTE])
    ensures RuneLength(raw, i) == RuneLength(t, 0)
  {
    hide At, Escape, EscapeByte;
    HighAt(raw, i, t, 0);
    HighAt(raw, i, t, 1);
    if High(Peek(t, 1)) {
      HighAt(raw, i, t, 2);
      if High(Peek(t, 2)) { HighAt(raw, i, t, 3); }
    }
  }

  lemma {:induction false} UnquoteBack(raw: seq<Byte>, i: nat, t: seq<Byte>)
    requires At(raw, i, Escape(t) + [QUOTE]) && |raw| == i + |Escape(t)| + 1
    ensures UnquoteFrom(raw, i) == Ok(Repair(t))
    decreases |t|
  {
    hide At, ReadHex, RuneLength, Escape, EscapeByte, UnquoteFrom;
    if t == [] {
      UnquoteEnd(raw, i);
    } else if High(t[0]) {
      HighStep(raw, i, t);
      var n := RuneLength(t, 0);
      var k := if n == 0 then 1 else n;
      EscapeHigh(t, k);
      assert Escape(t) + [QUOTE] == t[..k] + (Escape(t[k..]) + [QUOTE]);
      AtConcat(raw, i, t[..k], Escape(t[k..]) + [QUOTE]);
      UnquoteBack(raw, i + k, t[k..]);
    } else {
      LowStep(raw, i, t);
      var e := EscapeByte(t[0]);
      EscapeCons(t);
      assert Escape(t) + [QUOTE] == e + (Escape(t[1..]) + [QUOTE]);
      AtConcat(raw, i, e, Escape(t[1..]) + [QUOTE]);
      UnquoteBack(raw, i + |e|, t[1..]);
      LowRune(t);
      assert t[..1] == [t[0]];
    }
  }

  lemma EscapeCons(t: seq<Byte>)
    requires t != []
    ensures Escape(t) == EscapeByte(t[0]) + Escape(t[1..])
  {}

  lemma UnquoteEnd(raw: seq<Byte>, i: nat)
    requires At(raw, i, Escape([]) + [QUOTE]) && |raw| == i + |Escape([])| + 1
    ensures UnquoteFrom(raw, i) == Ok([])
  {
    assert Escape([]) + [QUOTE] == [QUOTE];
    PeekAt(raw, i, [QUOTE], 0);
  }

  lemma HighStep(raw: seq<Byte>, i: nat, t: seq<Byte>)
    requires t != [] && High(t[0]) && At(raw, i, Escape(t) + [QUOTE])
    ensures var n := RuneLength(t, 0);
      && n <= |t|
      && (forall j :: 0 <= j < n ==> High(t[j]))
      && UnquoteFrom(raw, i) == if n == 0 then Cons(REPLACEMENT, UnquoteFrom(raw, i + 1)) else Cons(t[..n], UnquoteFrom(raw, i + n))
  {
    hide At, ReadHex, RuneLength;
    SameRune(raw, i, t);
    HighRun(t);
    HighAt(raw, i, t, 0);
    var n := RuneLength(t, 0);
    EscapeHigh(t, n);
    assert Escape(t) + [QUOTE] == t[..n] + (Escape(t[n..]) + [QUOTE]);
    AtConcat(raw, i, t[..n], Escape(t[n..]) + [QUOTE]);
    AtRange(raw, i, t[..n]);
  }

  lemma LowRune(t: seq<Byte>)
    requires t != [] && t[0] < 0x80
    ensures RuneLength(t, 0) == 1
  {}

  /** The bytes of a well-formed sequence of two or more are all high. */
  lemma HighRun(t: seq<Byte>)
    requires t != [] && High(t[0])
    ensures var n := RuneLength(t, 0); n <= |t| && forall j :: 0 <= j < n ==> High(t[j])
  {}

  /** Unquoting reads a char as JSON does, where the two know the same escapes. */
  lemma UnquoteChar(raw: seq<Byte>, i: nat)
    requires 0x20 <= Peek(raw, i) < 0x80 && Peek(raw, i) != QUOTE && ReadChar(raw, i).Yes?
    requires Peek(raw, i) == BACKSLASH ==> Peek(raw, i + 1) in {QUOTE, BACKSLASH, 0x6e, 0x72, 0x74, 0x75}
    ensures var r := ReadChar(raw, i); UnquoteFrom(raw, i) == Cons(r.value, UnquoteFrom(raw, r.next))
  {
    hide RuneLength, ReadHex, Cons;
  }

  lemma LowStep(raw: seq<Byte>, i: nat, t: seq<Byte>)
    requires t != [] && t[0] < 0x80 && At(raw, i, Escape(t) + [QUOTE])
    ensures UnquoteFrom(raw, i) == Cons([t[0]], UnquoteFrom(raw, i + |EscapeByte(t[0])|))
  {
    hide At, RuneLength, ReadChar, UnquoteFrom, Cons;
    var e := EscapeByte(t[0]);
    assert Escape(t) + [QUOTE] == e + (Escape(t[1..]) + [QUOTE]);
    hide Escape;
    AtConcat(raw, i, e, Escape(t[1..]) + [QUOTE]);
    PeekAt(raw, i, e, 0);
    if |e| >= 2 { PeekAt(raw, i, e, 1); }
    CharBack(raw, i, t[0]);
    UnquoteChar(raw, i);
  }

  // ---------- jsonScalarAsString ----------

  function JsonScalarAsString(raw: seq<Byte>): Result<seq<Byte>> {
    if raw == [] || raw == NULL then Err
    else if raw[0] == QUOTE then
      var u := Unquote(raw);
      if u.Err? || u.value == [] then Err else u
    else Ok(raw)
  }

  lemma AtTail(b: Byte, bs: seq<Byte>)
    ensures At([b] + bs, 1, bs)
  {
    assert ([b] + bs)[1..1 + |bs|] == bs;
  }

  /** What the text beside a user id is: nothing for null and for the empty string, a string's own bytes
      with ill-formed UTF-8 replaced, and the rendered text of anything else, containers included. */
  lemma ScalarText(j: Json)
    requires GoodNumbers(j)
    ensures JsonScalarAsString(Render(j)) ==
      match j
      case JNull => Err
      case JString(s) => if s == [] then Err else Ok(Repair(s))
      case _ => Ok(Render(j))
  {
    RenderFirst(j);
    if j.JString? {
      var raw := Render(j);
      var inner := Escape(j.s) + [QUOTE];
      assert raw == [QUOTE] + inner;
      AtTail(QUOTE, inner);
      UnquoteBack(raw, 1, j.s);
      assert Unquote(raw) == Ok(Repair(j.s));
    }
  }
}

/** The streaming converter from MessagePack to JSON. It has no depth limit, its array loop checks no
    length and its skip checks no bound; what it does is settled by what the validator accepted. */
module Converter {
  import opened Bytes
  import opened Wire
  import opened WireLaws
  import opened Json
  import opened JsonLaws
  import opened UserIdText
  import opened Floats
  import opened Projection
  import opened Agreement
  import opened Decoding
  import Meaning

  /** bytes.Reader. `strayed` records whether a read ran short or a seek left the data. */
  class Reader {
    const data: seq<Byte>
    var off: nat
    ghost var strayed: bool

    constructor (data: seq<Byte>)
      ensures this.data == data && off == 0 && !strayed
    {
      this.data, off, strayed := data, 0, false;
    }

    function Len(): nat
      reads this
    {
      if off >= |data| then 0 else |data| - off
    }

    method ReadByte() returns (r: Result<Byte>)
      modifies this
      ensures if old(off) < |data| then r == Ok(data[old(off)]) && off == old(off) + 1 && strayed == old(strayed)
              else r.Err? && off == old(off)
    {
      if off >= |data| { strayed := true; return Err; }
      off := off + 1;
      return Ok(data[off - 1]);
    }

    method UnreadByte() returns (ok: bool)
      modifies `off
      ensures if old(off) > 0 then ok && off == old(off) - 1 else !ok && off == old(off)
    {
      if off == 0 { return false; }
      off := off - 1;
      return true;
    }

    /** io.ReadFull into a buffer of `n` bytes; a short read takes what is left. */
    method ReadFull(n: nat) returns (r: Result<seq<Byte>>)
      modifies this
      ensures off >= old(off)
      ensures if n == 0 then r == Ok([]) && off == old(off) && strayed == old(strayed)
              else if Has(data, old(off), n) then off == old(off) + n && r == Ok(data[old(off)..off]) && strayed == old(strayed)
              else r.Err?
    {
      if n == 0 { return Ok([]); }
      if Len() < n {
        strayed := true;
        if off < |data| { off := |data|; }
        return Err;
      }
      off := off + n;
      return Ok(data[off - n..off]);
    }

    /** Seek from the current position, which is free to leave the data. */
    method Seek(n: nat)
      modifies this
      ensures off == old(off) + n && (off <= |data| ==> strayed == old(strayed))
    {
      off := off + n;
      if off > |data| { strayed := true; }
    }
  }

  /** An io.Writer that never fails. */
  class Writer {
    var out: seq<Byte>

    constructor ()
      ensures out == []
    {
      out := [];
    }

    method Write(bs: seq<Byte>)
      modifies this
      ensures out == old(out) + bs
    {
      out := out + bs;
    }
  }

  // ---------- readers ----------

  method ReadUint8(r: Reader) returns (v: Result<nat>)
    modifies r
    ensures r.off >= old(r.off)
    ensures if Has(r.data, old(r.off), 1) then v == Ok(Number(r.data, old(r.off), W8)) && r.off == old(r.off) + 1 && r.strayed == old(r.strayed) else v.Err?
  {
    var b := r.ReadByte();
    if b.Err? { return Err; }
    FromOne(r.data[old(r.off)..r.off]);
    return Ok(b.value);
  }

  method ReadUint16(r: Reader) returns (v: Result<nat>)
    modifies r
    ensures r.off >= old(r.off)
    ensures if Has(r.data, old(r.off), 2) then v == Ok(Number(r.data, old(r.off), W16)) && r.off == old(r.off) + 2 && r.strayed == old(r.strayed) else v.Err?
  {
    var buf := r.ReadFull(2);
    if buf.Err? { return Err; }
    var b := buf.value;
    FromTwo(b);
    return Ok(b[0] as int * 0x100 + b[1]);
  }

  method ReadUint32(r: Reader) returns (v: Result<nat>)
    modifies r
    ensures r.off >= old(r.off)
    ensures if Has(r.data, old(r.off), 4) then v == Ok(Number(r.data, old(r.off), W32)) && r.off == old(r.off) + 4 && r.strayed == old(r.strayed) else v.Err?
  {
    var buf := r.ReadFull(4);
    if buf.Err? { return Err; }
    var b := buf.value;
    FromFour(b);
    return Ok(b[0] as int * 0x100_0000 + b[1] as int * 0x1_0000 + b[2] as int * 0x100 + b[3]);
  }

  method ReadUint64(r: Reader) returns (v: Result<nat>)
    modifies r
    ensures r.off >= old(r.off)
    ensures if Has(r.data, old(r.off), 8) then v == Ok(Number(r.data, old(r.off), W64)) && r.off == old(r.off) + 8 && r.strayed == old(r.strayed) else v.Err?
  {
    var buf := r.ReadFull(8);
    if buf.Err? { return Err; }
    var b := buf.value;
    FromEight(b);
    var high := b[0] as int * 0x100_0000 + b[1] as int * 0x1_0000 + b[2] as int * 0x100 + b[3];
    return Ok(high * 0x1_0000_0000 + b[4] as int * 0x100_0000 + b[5] as int * 0x1_0000 + b[6] as int * 0x100 + b[7]);
  }

  // ---------- primitive writers ----------

  method WriteJSONString(w: Writer, s: seq<Byte>)
    modifies w
    ensures w.out == old(w.out) + Quote(s)
  {
    hide Escape, EscapeByte;
    ghost var before := w.out;
    EscapeNone();
    w.Write([QUOTE]);
    for i := 0 to |s|
      invariant w.out == before + ([QUOTE] + Escape(s[..i]))
    {
      EscapeStep(s[..i], s[i]);
      assert s[..i] + [s[i]] == s[..i + 1];
      ghost var done := Escape(s[..i]);
      WriteByteEscaped(w, s[i]);
      Assoc(before, [QUOTE], done, EscapeByte(s[i]));
      Grouping([QUOTE], done, EscapeByte(s[i]));
    }
    assert s[..|s|] == s;
    ghost var text := [QUOTE] + Escape(s);
    w.Write([QUOTE]);
    Grouping(before, text, [QUOTE]);
  }

  /** One pass of the loop of writeJSONString. */
  method WriteByteEscaped(w: Writer, c: Byte)
    modifies w
    ensures w.out == old(w.out) + EscapeByte(c)
  {
    if c == QUOTE { w.Write([BACKSLASH, QUOTE]); }
    else if c == BACKSLASH { w.Write([BACKSLASH, BACKSLASH]); }
    else if c == 0x0a { w.Write([BACKSLASH, 0x6e]); }
    else if c == 0x0d { w.Write([BACKSLASH, 0x72]); }
    else if c == 0x09 { w.Write([BACKSLASH, 0x74]); }
    else if c < 0x20 { w.Write([BACKSLASH, 0x75, 0x30, 0x30, Hex(c / 16), Hex(c % 16)]); }
    else { w.Write([c]); }
  }

  lemma EscapeNone()
    ensures Escape([]) == []
  {}

  method WriteFloat(w: Writer, double: nat, ff: FloatText)
    modifies w
    ensures w.out == old(w.out) + Render(FloatJson(double, ff))
  {
    if NonFinite(double) { w.Write(NULL); return; }
    w.Write(ff(double));
  }

  method SkipAndWriteNull(r: Reader, w: Writer, n: nat)
    modifies r, w
    ensures r.off == old(r.off) + n && w.out == old(w.out) + NULL
    ensures r.off <= |r.data| ==> r.strayed == old(r.strayed)
  {
    r.Seek(n);
    w.Write(NULL);
  }

  // ---------- contracts ----------

  /** What a run of the converter owes when the bytes before it parse as `p`: no read strays, and it
      succeeds exactly if all map keys are strs, ends where the parse ends, and writes the projection. */
  ghost predicate Emits(p: Parsed, inGamedata: bool, ff: FloatText, ok: bool, end: nat,
                        before: seq<Byte>, after: seq<Byte>, strayedBefore: bool, strayedAfter: bool) {
    p.Done? ==> (
      && strayedAfter == strayedBefore
      && if StrKeys(p.t) then ok && end == p.next && after == before + Render(Project(p.t, inGamedata, ff)) else !ok)
  }

  /** The same for a list of `p` parsed values, written as the body of a container. */
  ghost predicate EmitsAll(p: ParsedAll, isMap: bool, inGamedata: bool, ff: FloatText, ok: bool, end: nat,
                           before: seq<Byte>, after: seq<Byte>, strayedBefore: bool, strayedAfter: bool) {
    p.DoneAll? ==> (
      && strayedAfter == strayedBefore
      && if KidsOk(isMap, p.kids) then
           ok && end == p.next && after == before + Render(Project(NodeOf(isMap, Fix, p.kids), inGamedata, ff))
         else !ok)
  }

  /** The same for a leaf, read from its head. */
  ghost predicate EmitsLeaf(h: HeadResult, ff: FloatText, ok: bool, end: nat,
                            before: seq<Byte>, after: seq<Byte>, strayedBefore: bool, strayedAfter: bool) {
    match h
    case Bad => true
    case Leaf(t, next) => strayedAfter == strayedBefore && ok && end == next && after == before + Render(Project(t, false, ff))
    case Open(_, _, _, _) => false
  }

  // What a run that emits the parts of a value owes for the value. Depth matters to the parse alone.

  lemma NodeIsValue(data: seq<Byte>, o: nat, depth: int, limit: int, isMap: bool, w: Width, n: nat, next: nat, gd: bool, ff: FloatText,
                    ok: bool, end: nat, before: seq<Byte>, after: seq<Byte>, strayedBefore: bool, strayedAfter: bool)
    requires ParseHead(data, o) == Open(isMap, w, n, next)
    requires EmitsAll(ManyFrom(data, next, if isMap then 2 * n else n, depth + 1, limit), isMap, gd, ff, ok, end,
                      before, after, strayedBefore, strayedAfter)
    ensures Emits(ParseValue(data, o, depth, limit), gd, ff, ok, end, before, after, strayedBefore, strayedAfter)
  {
    hide ParseHead, ParseMany, ParseValue, Project, Render, StrKeys, KidsOk;
    ValueByHead(data, o, depth, limit);
    HeadAdvances(data, o);
    var p := ManyFrom(data, next, if isMap then 2 * n else n, depth + 1, limit);
    NodeEmits(isMap, w, p, gd, ff);
    NodeEmits(isMap, Fix, p, gd, ff);
  }

  lemma LeafIsValue(data: seq<Byte>, o: nat, depth: int, limit: int, gd: bool, ff: FloatText,
                    ok: bool, end: nat, before: seq<Byte>, after: seq<Byte>, strayedBefore: bool, strayedAfter: bool)
    requires EmitsLeaf(ParseHead(data, o), ff, ok, end, before, after, strayedBefore, strayedAfter)
    ensures Emits(ParseValue(data, o, depth, limit), gd, ff, ok, end, before, after, strayedBefore, strayedAfter)
  {
    hide ParseHead, ParseMany, ParseValue, Project, Render, StrKeys;
    ValueByHead(data, o, depth, limit);
    HeadLeaf(data, o);
    var h := ParseHead(data, o);
    if h.Leaf? { LeafProject(h.t, gd, ff); }
  }

  lemma NoValue(data: seq<Byte>, o: nat, depth: int, limit: int, gd: bool, ff: FloatText,
                ok: bool, end: nat, before: seq<Byte>, after: seq<Byte>, strayedBefore: bool, strayedAfter: bool)
    requires ParseHead(data, o).Bad?
    ensures Emits(ParseValue(data, o, depth, limit), gd, ff, ok, end, before, after, strayedBefore, strayedAfter)
  {
    hide ParseHead;
    ValueByHead(data, o, depth, limit);
  }

  /** The number that follows a marker of a byte string or an extension; fixed extensions have none. */
  ghost predicate LengthRead(data: seq<Byte>, o: nat, n: Result<nat>, next: nat)
    requires o < |data|
  {
    var b := data[o];
    if 0xd4 <= b <= 0xd8 then n == Ok(FixExtSize(b)) && next == o + 1
    else
      var w := ByIndex(if b <= 0xc6 then if b >= 0xc4 then b - 0xc4 else 0 else if b >= 0xc7 then b - 0xc7 else 0);
      if Has(data, o + 1, w.Size()) then n == Ok(Number(data, o + 1, w)) && next == o + 1 + w.Size() else n.Err?
  }

  /** A byte string or extension that was skipped. */
  lemma SkippedLeaf(data: seq<Byte>, o: nat, n: Result<nat>, next: nat, ff: FloatText, ok: bool, end: nat,
                    before: seq<Byte>, after: seq<Byte>, strayedBefore: bool, strayedAfter: bool)
    requires o < |data| && (0xc4 <= data[o] <= 0xc9 || 0xd4 <= data[o] <= 0xd8) && LengthRead(data, o, n, next)
    requires n.Ok? ==> ok && end == next + n.value + (if data[o] <= 0xc6 then 0 else 1) && after == before + NULL
    requires n.Ok? && end <= |data| ==> strayedAfter == strayedBefore
    ensures EmitsLeaf(ParseHead(data, o), ff, ok, end, before, after, strayedBefore, strayedAfter)
  {
    hide ParseHead, Number, FixExtSize;
    SizedLeafHead(data, o);
  }

  /** The elements of an array do not know what object it is in. */
  lemma ArrayAnywhere(p: ParsedAll, gd: bool, ff: FloatText, ok: bool, end: nat,
                      before: seq<Byte>, after: seq<Byte>, strayedBefore: bool, strayedAfter: bool)
    requires EmitsAll(p, false, false, ff, ok, end, before, after, strayedBefore, strayedAfter)
    ensures EmitsAll(p, false, gd, ff, ok, end, before, after, strayedBefore, strayedAfter)
  {
    if p.DoneAll? {
      var t := Arr(Fix, p.kids);
      assert NodeOf(false, Fix, p.kids) == t && Project(t, gd, ff) == Project(t, false, ff) == JArray(ProjectAll(p.kids, ff));
    }
  }

  /** A string of at most 31 bytes. */
  lemma FixStrLeaf(data: seq<Byte>, o: nat, ff: FloatText, ok: bool, end: nat,
                   before: seq<Byte>, after: seq<Byte>, strayedBefore: bool, strayedAfter: bool)
    requires o < |data| && 0xa0 <= data[o] <= 0xbf
    requires var n := data[o] % 0x20;
      Has(data, o + 1, n) ==>
        ok && end == o + 1 + n && strayedAfter == strayedBefore && after == before + Quote(data[o + 1..end])
    ensures EmitsLeaf(ParseHead(data, o), ff, ok, end, before, after, strayedBefore, strayedAfter)
  {
    hide ParseHead, Quote;
    FixHead(data, o);
  }

  // ---------- compound writers ----------

  method WriteString(r: Reader, w: Writer, n: nat) returns (ok: bool)
    modifies r, w
    ensures r.off >= old(r.off)
    ensures Has(r.data, old(r.off), n) ==> (
      && ok && r.off == old(r.off) + n && r.strayed == old(r.strayed)
      && w.out == old(w.out) + Quote(r.data[old(r.off)..r.off]))
  {
    if n > r.Len() { return false; }
    var buf := r.ReadFull(n);
    if buf.Err? { return false; }
    WriteJSONString(w, buf.value);
    assert n == 0 && Has(r.data, old(r.off), n) ==> buf.value == r.data[old(r.off)..r.off];
    return true;
  }

  method ReadMsgpackString(r: Reader) returns (key: Result<seq<Byte>>)
    modifies r
    ensures r.off >= old(r.off)
    ensures match ParseHead(r.data, old(r.off))
      case Bad => true
      case Leaf(t, next) => r.strayed == old(r.strayed) && if t.Str? then key == Ok(t.data) && r.off == next else key.Err?
      case Open(_, _, _, _) => r.strayed == old(r.strayed) && key.Err?
  {
    hide Number, ParseHead;
    StrHead(r.data, r.off);
    var first := r.ReadByte();
    if first.Err? { return Err; }
    var b := first.value;
    var n: nat;
    if 0xa0 <= b <= 0xbf {
      n := b % 0x20;
    } else if b == 0xd9 {
      var v := ReadUint8(r);
      if v.Err? { return Err; }
      n := v.value;
    } else if b == 0xda {
      var v := ReadUint16(r);
      if v.Err? { return Err; }
      n := v.value;
    } else if b == 0xdb {
      var v := ReadUint32(r);
      if v.Err? { return Err; }
      n := v.value;
    } else {
      var unread := r.UnreadByte();
      return Err;
    }
    if n > r.Len() { return Err; }
    assert n == 0 ==> r.data[r.off..r.off + n] == [];
    key := r.ReadFull(n);
  }

  method WriteArray(r: Reader, w: Writer, n: nat, ff: FloatText, ghost depth: int, ghost limit: int) returns (ok: bool)
    modifies r, w
    ensures r.off >= old(r.off)
    ensures EmitsAll(ManyFrom(r.data, old(r.off), n, depth, limit), false, false, ff, ok, r.off,
                     old(w.out), w.out, old(r.strayed), r.strayed)
    decreases r.Len(), 3
  {
    hide ParseMany, ParseValue, Prepend, Render, Project, ProjectAll, StrKeys, KidsOk, JoinItems;
    ghost var start, before, strayed := r.off, w.out, r.strayed;
    ghost var all, done: seq<Tree> := ManyFrom(r.data, r.off, n, depth, limit), [];
    LoopStart(r.data, r.off, n, depth, limit);
    NothingProjected(ff);
    w.Write([OPEN_BRACKET]);
    for i := 0 to n
      invariant r.off >= start
      invariant all.DoneAll? ==>
        && |done| == i && r.off <= |r.data| && r.strayed == strayed && KidsOk(false, done)
        && all == Prepend(done, ParseMany(r.data, r.off, n - i, depth, limit))
        && w.out == before + [OPEN_BRACKET] + JoinItems(ProjectAll(done, ff))
    {
      ghost var v := ParseValue(r.data, r.off, depth, limit);
      if all.DoneAll? { LoopStep(r.data, r.off, n - i, depth, limit, done, all); }
      if i > 0 { w.Write([COMMA]); }
      var good := WriteValue(r, w, ff, depth, limit);
      if !good {
        if all.DoneAll? { KidsFail(false, all.kids, |done|); }
        return false;
      }
      if all.DoneAll? {
        ItemStep(done, v.t, ff);
        KidsGrow(false, done, [v.t]);
        done := done + [v.t];
      }
    }
    if all.DoneAll? {
      ManyStep(r.data, r.off, 0, depth, limit, done);
      ArrayText(Fix, done, false, ff);
    }
    w.Write([CLOSE_BRACKET]);
    return true;
  }

  method WriteMap(r: Reader, w: Writer, n: nat, objectName: seq<Byte>, ff: FloatText, ghost depth: int, ghost limit: int) returns (ok: bool)
    modifies r, w
    ensures r.off >= old(r.off)
    ensures EmitsAll(ManyFrom(r.data, old(r.off), 2 * n, depth, limit), true, objectName == USER_GAMEDATA, ff, ok, r.off,
                     old(w.out), w.out, old(r.strayed), r.strayed)
    decreases r.Len(), 4
  {
    hide ParseMany, ParseValue, ParseHead, Prepend, Render, Project, Members, StrKeys, KidsOk, JoinMembers, LastUserId, Quote, MemberText, JsonScalarAsString, MapEnd;
    ghost var start, before, strayed := r.off, w.out, r.strayed;
    ghost var all, done: seq<Tree> := ManyFrom(r.data, r.off, 2 * n, depth, limit), [];
    LoopStart(r.data, r.off, 2 * n, depth, limit);
    NothingProjected(ff);
    w.Write([OPEN_BRACE]);
    var userIDString: seq<Byte> := [];
    var hasUserIDString := false;
    for i := 0 to n
      invariant r.off >= start
      invariant all.DoneAll? ==>
        && |done| == 2 * i && r.off <= |r.data| && r.strayed == strayed && KidsOk(true, done)
        && all == Prepend(done, ParseMany(r.data, r.off, 2 * n - 2 * i, depth, limit))
        && w.out == before + [OPEN_BRACE] + JoinMembers(Members(done, ff))
        && KeptText(objectName, done, ff) == (if hasUserIDString then Ok(userIDString) else Err)
    {
      ghost var k := ParseValue(r.data, r.off, depth, limit);
      ghost var v := if k.Done? then ParseValue(r.data, k.next, depth, limit) else Fail;
      if all.DoneAll? {
        LoopPair(r.data, r.off, 2 * n - 2 * i, depth, limit, done, all);
      }
      var good, text := WriteMember(r, w, i, objectName, ff, depth, limit);
      if !good { return false; }
      if text.Ok? {
        userIDString := text.value;
        hasUserIDString := true;
      }
      if all.DoneAll? {
        MemberStep(objectName, done, k.t, v.t, ff);
        done := done + [k.t, v.t];
      }
    }
    ghost var open := w.out;
    WriteMapEnd(w, n, hasUserIDString, userIDString);
    if all.DoneAll? {
      ManyStep(r.data, r.off, 0, depth, limit, done);
      MapText(Fix, done, objectName, ff);
      Grouping(before, [OPEN_BRACE] + JoinMembers(Members(done, ff)), MapEnd(n, KeptText(objectName, done, ff)));
      Grouping(before, [OPEN_BRACE], JoinMembers(Members(done, ff)));
    }
    return true;
  }

  /** What writeMap writes after its loop. */
  function MapEnd(n: nat, id: Result<seq<Byte>>): seq<Byte> {
    (if id.Ok? then Separator(n) + (Quote(USER_ID_STRING) + [COLON] + Quote(id.value)) else []) + [CLOSE_BRACE]
  }

  method WriteMapEnd(w: Writer, n: nat, hasUserIDString: bool, userIDString: seq<Byte>)
    modifies w
    ensures w.out == old(w.out) + MapEnd(n, if hasUserIDString then Ok(userIDString) else Err)
  {
    hide Quote;
    if hasUserIDString {
      if n > 0 { w.Write([COMMA]); }
      WriteJSONString(w, USER_ID_STRING);
      w.Write([COLON]);
      WriteJSONString(w, userIDString);
    }
    w.Write([CLOSE_BRACE]);
  }

  /** One pass of the loop of writeMap: the member after `i` others. */
  method WriteMember(r: Reader, w: Writer, i: nat, objectName: seq<Byte>, ff: FloatText, ghost depth: int, ghost limit: int)
    returns (ok: bool, text: Result<seq<Byte>>)
    modifies r, w
    ensures r.off >= old(r.off)
    ensures var k := ParseValue(r.data, old(r.off), depth, limit);
      k.Done? ==> var v := ParseValue(r.data, k.next, depth, limit);
      v.Done? ==> (
        && r.strayed == old(r.strayed)
        && if k.t.Str? && StrKeys(v.t) then
             var value := Project(v.t, k.t.data == USER_GAMEDATA, ff);
             && ok && r.off == v.next && text == MemberText(objectName, k.t.data, value)
             && w.out == old(w.out) + (Separator(i) + (Quote(k.t.data) + [COLON] + Render(value)))
           else !ok)
    decreases r.Len(), 3
  {
    hide ParseMany, ParseValue, ParseHead, Render, Project, StrKeys, Quote, MemberText, JsonScalarAsString;
    ValueByHead(r.data, r.off, depth, limit);
    text := Err;
    if i > 0 { w.Write([COMMA]); }
    var keyBytes := ReadMsgpackString(r);
    if keyBytes.Err? { return false, text; }
    WriteJSONString(w, keyBytes.value);
    w.Write([COLON]);
    var key := keyBytes.value;
    var childObjectName := if key == USER_GAMEDATA then USER_GAMEDATA else [];
    ok, text := WriteMemberValue(r, w, objectName, key, childObjectName, ff, depth, limit);
  }

  /** The text kept for `userIdString`, if the member is a user id in user game data. */
  function MemberText(objectName: seq<Byte>, key: seq<Byte>, value: Json): Result<seq<Byte>> {
    if objectName == USER_GAMEDATA && key == USER_ID then JsonScalarAsString(Render(value)) else Err
  }

  /** The value of one member. Inside user game data, the value of `userId` goes through a buffer of its
      own, so that its text is at hand. */
  method WriteMemberValue(r: Reader, w: Writer, objectName: seq<Byte>, key: seq<Byte>, childObjectName: seq<Byte>, ff: FloatText,
                          ghost depth: int, ghost limit: int) returns (ok: bool, text: Result<seq<Byte>>)
    modifies r, w
    ensures r.off >= old(r.off)
    ensures Emits(ParseValue(r.data, old(r.off), depth, limit), childObjectName == USER_GAMEDATA, ff, ok, r.off, old(w.out), w.out, old(r.strayed), r.strayed)
    ensures var p := ParseValue(r.data, old(r.off), depth, limit);
      ok && p.Done? ==> text == MemberText(objectName, key, Project(p.t, childObjectName == USER_GAMEDATA, ff))
    decreases r.Len(), 2
  {
    hide ParseValue, Project, Render, StrKeys, JsonScalarAsString;
    text := Err;
    if objectName == USER_GAMEDATA && key == USER_ID {
      var value := new Writer();
      ok := WriteValueInObject(r, value, childObjectName, ff, depth, limit);
      if !ok { return; }
      w.Write(value.out);
      text := JsonScalarAsString(value.out);
      ghost var p := ParseValue(r.data, old(r.off), depth, limit);
      if p.Done? { assert value.out == Render(Project(p.t, childObjectName == USER_GAMEDATA, ff)); }
    } else {
      ok := WriteValueInObject(r, w, childObjectName, ff, depth, limit);
    }
  }

  method WriteValue(r: Reader, w: Writer, ff: FloatText, ghost depth: int, ghost limit: int) returns (ok: bool)
    modifies r, w
    ensures r.off >= old(r.off)
    ensures Emits(ParseValue(r.data, old(r.off), depth, limit), false, ff, ok, r.off, old(w.out), w.out, old(r.strayed), r.strayed)
    decreases r.Len(), 2
  {
    ok := WriteValueInObject(r, w, [], ff, depth, limit);
  }

  method WriteValueInObject(r: Reader, w: Writer, objectName: seq<Byte>, ff: FloatText, ghost depth: int, ghost limit: int) returns (ok: bool)
    modifies r, w
    ensures r.off >= old(r.off)
    ensures Emits(ParseValue(r.data, old(r.off), depth, limit), objectName == USER_GAMEDATA, ff, ok, r.off, old(w.out), w.out, old(r.strayed), r.strayed)
    decreases r.Len(), 1
  {
    hide ParseHead, ParseMany, ParseValue, Project, Render;
    FixHead(r.data, r.off);
    ValueByHead(r.data, r.off, depth, limit);
    var first := r.ReadByte();
    if first.Err? { return false; }
    var b := first.value;
    if b <= 0x7f {
      LeafProject(FixInt(b), objectName == USER_GAMEDATA, ff);
      w.Write(Decimal(b));
      return true;
    }
    if b >= 0xe0 {
      LeafProject(FixInt(Int8(b)), objectName == USER_GAMEDATA, ff);
      w.Write(Decimal(Int8(b)));
      return true;
    }
    var fixed;
    fixed, ok := WriteFixedCollectionOrString(r, w, b, objectName, ff, depth, limit);
    if fixed { return; }
    ok := WriteSwitch(r, w, b, objectName, ff, depth, limit);
  }

  /** The three fix forms; any other byte is left to the caller, and nothing is read or written. */
  method WriteFixedCollectionOrString(r: Reader, w: Writer, typeByte: Byte, objectName: seq<Byte>, ff: FloatText, ghost depth: int, ghost limit: int)
    returns (fixed: bool, ok: bool)
    requires 1 <= r.off <= |r.data| && r.data[r.off - 1] == typeByte
    modifies r, w
    ensures r.off >= old(r.off) && (fixed <==> 0x80 <= typeByte <= 0xbf)
    ensures !fixed ==> r.off == old(r.off) && w.out == old(w.out) && r.strayed == old(r.strayed)
    ensures fixed ==> Emits(ParseValue(r.data, old(r.off) - 1, depth, limit), objectName == USER_GAMEDATA, ff, ok, r.off, old(w.out), w.out, old(r.strayed), r.strayed)
    decreases r.Len(), 5
  {
    hide ParseHead, ParseMany, ParseValue, Emits, EmitsAll, EmitsLeaf, Quote, Number;
    ghost var o, gd, before, strayed := r.off, objectName == USER_GAMEDATA, w.out, r.strayed;
    FixHead(r.data, o - 1);
    fixed, ok := true, false;
    if 0x80 <= typeByte <= 0x8f {
      ok := WriteMap(r, w, typeByte % 0x10, objectName, ff, depth + 1, limit);
      NodeIsValue(r.data, o - 1, depth, limit, true, Fix, typeByte % 0x10, o, gd, ff, ok, r.off, before, w.out, strayed, r.strayed);
      return;
    }
    if 0x90 <= typeByte <= 0x9f {
      ok := WriteArray(r, w, typeByte % 0x10, ff, depth + 1, limit);
      ArrayAnywhere(ManyFrom(r.data, o, typeByte % 0x10, depth + 1, limit), gd, ff, ok, r.off, before, w.out, strayed, r.strayed);
      NodeIsValue(r.data, o - 1, depth, limit, false, Fix, typeByte % 0x10, o, gd, ff, ok, r.off, before, w.out, strayed, r.strayed);
      return;
    }
    if 0xa0 <= typeByte <= 0xbf {
      ok := WriteString(r, w, typeByte % 0x20);
      FixStrLeaf(r.data, o - 1, ff, ok, r.off, before, w.out, strayed, r.strayed);
      LeafIsValue(r.data, o - 1, depth, limit, gd, ff, ok, r.off, before, w.out, strayed, r.strayed);
      return;
    }
    fixed := false;
  }

  /** The switch on the markers that are not fix forms; the marker is already read. */
  method WriteSwitch(r: Reader, w: Writer, b: Byte, objectName: seq<Byte>, ff: FloatText, ghost depth: int, ghost limit: int) returns (ok: bool)
    requires 1 <= r.off <= |r.data| && r.data[r.off - 1] == b && 0xc0 <= b < 0xe0
    modifies r, w
    ensures r.off >= old(r.off)
    ensures Emits(ParseValue(r.data, old(r.off) - 1, depth, limit), objectName == USER_GAMEDATA, ff, ok, r.off, old(w.out), w.out, old(r.strayed), r.strayed)
    decreases r.Len(), 5
  {
    hide ParseHead, ParseMany, ParseValue, Emits, EmitsAll, EmitsLeaf, Number;
    ghost var o, gd, before, strayed := r.off - 1, objectName == USER_GAMEDATA, w.out, r.strayed;
    NumberedHead(r.data, o);
    if b >= 0xdc {
      var n: Result<nat>;
      match b {
        case 0xdc => n := ReadUint16(r);
        case 0xdd => n := ReadUint32(r);
        case 0xde => n := ReadUint16(r);
        case _ => n := ReadUint32(r);
      }
      if n.Err? {
        NoValue(r.data, o, depth, limit, gd, ff, false, r.off, before, w.out, strayed, r.strayed);
        return false;
      }
      ghost var next := r.off;
      ghost var width := if b % 2 == 0 then W16 else W32;
      if b <= 0xdd {
        ok := WriteArray(r, w, n.value, ff, depth + 1, limit);
        ArrayAnywhere(ManyFrom(r.data, next, n.value, depth + 1, limit), gd, ff, ok, r.off, before, w.out, strayed, r.strayed);
        NodeIsValue(r.data, o, depth, limit, false, width, n.value, next, gd, ff, ok, r.off, before, w.out, strayed, r.strayed);
      } else {
        ok := WriteMap(r, w, n.value, objectName, ff, depth + 1, limit);
        NodeIsValue(r.data, o, depth, limit, true, width, n.value, next, gd, ff, ok, r.off, before, w.out, strayed, r.strayed);
      }
      return;
    }
    if 0xca <= b <= 0xd3 { ok := WriteNumber(r, w, b, ff); }
    else if 0xd9 <= b { ok := WriteSizedString(r, w, b, ff); }
    else if b >= 0xc4 { ok := WriteNull(r, w, b, ff); }
    else { ok := WriteLiteral(r, w, b, ff); }
    LeafIsValue(r.data, o, depth, limit, gd, ff, ok, r.off, before, w.out, strayed, r.strayed);
  }

  /** The cases of the switch for nil, false, true and the unused marker. */
  method WriteLiteral(r: Reader, w: Writer, b: Byte, ghost ff: FloatText) returns (ok: bool)
    requires 1 <= r.off <= |r.data| && r.data[r.off - 1] == b && 0xc0 <= b <= 0xc3
    modifies w
    ensures EmitsLeaf(ParseHead(r.data, r.off - 1), ff, ok, r.off, old(w.out), w.out, r.strayed, r.strayed)
  {
    match b {
    case 0xc0 => w.Write(NULL); return true;
    case 0xc2 => w.Write(FALSE); return true;
    case 0xc3 => w.Write(TRUE); return true;
    case _ => return false;
    }
  }

  /** The cases of the switch that write a number. */
  method WriteNumber(r: Reader, w: Writer, b: Byte, ff: FloatText) returns (ok: bool)
    requires 1 <= r.off <= |r.data| && r.data[r.off - 1] == b && 0xca <= b <= 0xd3
    modifies r, w
    ensures r.off >= old(r.off)
    ensures EmitsLeaf(ParseHead(r.data, old(r.off) - 1), ff, ok, r.off, old(w.out), w.out, old(r.strayed), r.strayed)
  {
    hide Number, NonFinite, Widen, ParseHead;
    NumberHead(r.data, r.off - 1);
    var v: Result<nat>;
    match b {
      case 0xca => v := ReadUint32(r);
      case 0xcb => v := ReadUint64(r);
      case 0xcc => v := ReadUint8(r);
      case 0xcd => v := ReadUint16(r);
      case 0xce => v := ReadUint32(r);
      case 0xcf => v := ReadUint64(r);
      case 0xd0 => v := ReadUint8(r);
      case 0xd1 => v := ReadUint16(r);
      case 0xd2 => v := ReadUint32(r);
      case _ => v := ReadUint64(r);
    }
    if v.Err? { return false; }
    match b {
      case 0xca => WriteFloat(w, Widen(v.value), ff);
      case 0xcb => WriteFloat(w, v.value, ff);
      case 0xd0 => w.Write(Decimal(Int8(v.value)));
      case 0xd1 => w.Write(Decimal(Int16(v.value)));
      case 0xd2 => w.Write(Decimal(Int32(v.value)));
      case 0xd3 => w.Write(Decimal(Int64(v.value)));
      case _ => w.Write(Decimal(v.value));
    }
    return true;
  }

  /** The cases of the switch that write a string. */
  method WriteSizedString(r: Reader, w: Writer, b: Byte, ghost ff: FloatText) returns (ok: bool)
    requires 1 <= r.off <= |r.data| && r.data[r.off - 1] == b && 0xd9 <= b <= 0xdb
    modifies r, w
    ensures r.off >= old(r.off)
    ensures EmitsLeaf(ParseHead(r.data, old(r.off) - 1), ff, ok, r.off, old(w.out), w.out, old(r.strayed), r.strayed)
  {
    hide Number, Quote;
    var n;
    match b {
    case 0xd9 =>
      n := ReadUint8(r);
      if n.Err? { return false; }
      ok := WriteString(r, w, n.value);
    case 0xda =>
      n := ReadUint16(r);
      if n.Err? { return false; }
      ok := WriteString(r, w, n.value);
    case _ =>
      n := ReadUint32(r);
      if n.Err? { return false; }
      ok := WriteString(r, w, n.value);
    }
  }

  /** The cases of the switch that skip a byte string or an extension: nothing bounds the skip. */
  method WriteNull(r: Reader, w: Writer, b: Byte, ghost ff: FloatText) returns (ok: bool)
    requires 1 <= r.off <= |r.data| && r.data[r.off - 1] == b && (0xc4 <= b <= 0xc9 || 0xd4 <= b <= 0xd8)
    modifies r, w
    ensures r.off >= old(r.off)
    ensures EmitsLeaf(ParseHead(r.data, old(r.off) - 1), ff, ok, r.off, old(w.out), w.out, old(r.strayed), r.strayed)
  {
    hide Number, ParseHead, EmitsLeaf;
    ghost var o, before, strayed := r.off - 1, w.out, r.strayed;
    var n: Result<nat>;
    match b {
      case 0xc4 => n := ReadUint8(r);
      case 0xc5 => n := ReadUint16(r);
      case 0xc6 => n := ReadUint32(r);
      case 0xc7 => n := ReadUint8(r);
      case 0xc8 => n := ReadUint16(r);
      case 0xc9 => n := ReadUint32(r);
      case 0xd4 => n := Ok(1);
      case 0xd5 => n := Ok(2);
      case 0xd6 => n := Ok(4);
      case 0xd7 => n := Ok(8);
      case _ => n := Ok(16);
    }
    ghost var next := r.off;
    if n.Err? {
      SkippedLeaf(r.data, o, n, next, ff, false, r.off, before, w.out, strayed, r.strayed);
      return false;
    }
    SkipAndWriteNull(r, w, if b <= 0xc6 then n.value else n.value + 1);
    SkippedLeaf(r.data, o, n, next, ff, true, r.off, before, w.out, strayed, r.strayed);
    return true;
  }

  /** Convert writes JSON exactly for the serializations of trees that are at most 256 deep and whose map
      keys are all strs. What it writes is the rendered projection of the tree, the reader stops at the end
      of the data, and no read ran short and no seek left the data, even in a run that a key made fail. */
  method Convert(msgpackData: seq<Byte>, w: Writer, ff: FloatText, keyText: Meaning.KeyText)
    returns (ok: bool, ghost end: nat, ghost strayed: bool)
    modifies w
    ensures ok <==> exists t :: Encodes(msgpackData, t, DEFAULT_MAX_UPLOAD_DEPTH) && StrKeys(t)
    ensures ok ==> end == |msgpackData|
    ensures forall t :: ok && Encodes(msgpackData, t, DEFAULT_MAX_UPLOAD_DEPTH) ==>
      w.out == old(w.out) + Render(Project(t, false, ff))
    ensures !strayed
    ensures ok && GoodFloats(ff) ==>
      && |old(w.out)| <= |w.out| && ReadText(w.out[|old(w.out)|..]).Ok?
      && forall t | Encodes(msgpackData, t, DEFAULT_MAX_UPLOAD_DEPTH) ::
           Agrees(Meaning.Mean(t, keyText), ReadText(w.out[|old(w.out)|..]).value, false, ff)
  {
    hide Agrees, Render, Project, ReadText, StrKeys, GoodFloats, ParseValue, Encodes;
    ghost var before := w.out;
    end, strayed := 0, false;
    ghost var p := ParseValue(msgpackData, 0, 0, DEFAULT_MAX_UPLOAD_DEPTH);
    WholeParses(msgpackData, DEFAULT_MAX_UPLOAD_DEPTH);
    var valid := ValidateMaxDepth(msgpackData, DEFAULT_MAX_UPLOAD_DEPTH, keyText);
    if !valid { return false, end, strayed; }
    assert Encodes(msgpackData, p.t, DEFAULT_MAX_UPLOAD_DEPTH);
    var r := new Reader(msgpackData);
    ok := WriteValue(r, w, ff, 0, DEFAULT_MAX_UPLOAD_DEPTH);
    end, strayed := r.off, r.strayed;
    if ok && GoodFloats(ff) { WrittenAgrees(msgpackData, p.t, before, w.out, ff, keyText); }
  }

  /** The one tree behind the data agrees with what the text reads back as. */
  lemma WrittenAgrees(data: seq<Byte>, u: Tree, before: seq<Byte>, after: seq<Byte>, ff: FloatText, f: Meaning.KeyText)
    requires Encodes(data, u, DEFAULT_MAX_UPLOAD_DEPTH) && StrKeys(u) && GoodFloats(ff)
    requires after == before + Render(Project(u, false, ff))
    ensures |before| <= |after| && ReadText(after[|before|..]).Ok?
    ensures forall t | Encodes(data, t, DEFAULT_MAX_UPLOAD_DEPTH) :: Agrees(Meaning.Mean(t, f), ReadText(after[|before|..]).value, false, ff)
  {
    hide Agrees, Render, Project, ReadText, StrKeys, GoodFloats;
    assert after[|before|..] == Render(Project(u, false, ff));
    ConvertedText(u, ff);
    TreeAgrees(u, f, false, ff);
    forall t | Encodes(data, t, DEFAULT_MAX_UPLOAD_DEPTH) ensures t == u {
      DepthLimitExact(data, t, u, DEFAULT_MAX_UPLOAD_DEPTH, DEFAULT_MAX_UPLOAD_DEPTH);
    }
  }

  /** The text Convert writes is a JSON text of RFC 8259, and reads back as the projection. */
  lemma ConvertedText(t: Tree, ff: FloatText)
    requires GoodFloats(ff)
    ensures ReadText(Render(Project(t, false, ff))) == Ok(Project(t, false, ff))
  {
    ProjectGood(t, false, ff);
    TextBack(Project(t, false, ff));
  }

  // ---------- facts for the branches ----------

  /** A leaf is projected alike everywhere, and holds no map key. */
  lemma LeafProject(t: Tree, inGamedata: bool, ff: FloatText)
    requires !IsNode(t)
    ensures StrKeys(t) && Project(t, inGamedata, ff) == Project(t, false, ff)
    ensures t.FixInt? ==> Render(Project(t, inGamedata, ff)) == Decimal(t.i)
    ensures t.Str? ==> Render(Project(t, inGamedata, ff)) == Quote(t.data)
  {}

  /** The width of a container's header shows neither in its projection nor in its keys. */
  lemma NodeEmits(isMap: bool, w: Width, p: ParsedAll, inGamedata: bool, ff: FloatText)
    ensures p.DoneAll? ==> var t := NodeOf(isMap, w, p.kids);
      (StrKeys(t) <==> KidsOk(isMap, p.kids)) && Project(t, inGamedata, ff) == Project(NodeOf(isMap, Fix, p.kids), isMap && inGamedata, ff)
  {}

  /** Only 0xdc to 0xdf open a container among the markers that are not fix forms. */
  lemma HeadLeaf(data: seq<Byte>, off: nat)
    ensures off < |data| && 0xc0 <= data[off] < 0xdc ==> !ParseHead(data, off).Open?
    ensures ParseHead(data, off).Leaf? ==> !IsNode(ParseHead(data, off).t)
  {}

  // ---------- loop steps ----------

  /** The parse of `n` values from a cursor that a seek may have carried off the data. */
  function ManyFrom(data: seq<Byte>, off: nat, n: nat, depth: int, limit: int): ParsedAll {
    if off <= |data| then ParseMany(data, off, n, depth, limit) else FailAll
  }

  lemma LoopStart(data: seq<Byte>, off: nat, n: nat, depth: int, limit: int)
    ensures var all := ManyFrom(data, off, n, depth, limit);
      all.DoneAll? ==> off <= |data| && all == Prepend([], ParseMany(data, off, n, depth, limit))
    ensures KidsOk(true, []) && KidsOk(false, [])
  {
    if off <= |data| { ManyStart(data, off, n, depth, limit); }
  }

  /** While the whole list parses, so does the next value, and it is next in the list. */
  lemma LoopStep(data: seq<Byte>, off: nat, n: nat, depth: int, limit: int, done: seq<Tree>, all: ParsedAll)
    requires all.DoneAll? && off <= |data| && n >= 1 && all == Prepend(done, ParseMany(data, off, n, depth, limit))
    ensures var v := ParseValue(data, off, depth, limit);
      && v.Done?
      && all == Prepend(done + [v.t], ParseMany(data, v.next, n - 1, depth, limit))
      && |done| < |all.kids| && all.kids[|done|] == v.t && done <= all.kids
  {
    hide ParseMany, ParseValue;
    ManyStep(data, off, n, depth, limit, done);
    var v := ParseValue(data, off, depth, limit);
    var rest := ParseMany(data, v.next, n - 1, depth, limit);
    assert all.kids == done + [v.t] + rest.kids;
  }

  /** Two steps: a key and its value. */
  lemma LoopPair(data: seq<Byte>, off: nat, n: nat, depth: int, limit: int, done: seq<Tree>, all: ParsedAll)
    requires all.DoneAll? && off <= |data| && n >= 2 && all == Prepend(done, ParseMany(data, off, n, depth, limit))
    ensures var k := ParseValue(data, off, depth, limit);
      k.Done? && var v := ParseValue(data, k.next, depth, limit);
      && v.Done?
      && all == Prepend(done + [k.t, v.t], ParseMany(data, v.next, n - 2, depth, limit))
      && (|done| % 2 == 0 && (!k.t.Str? || !StrKeys(v.t)) ==> !KidsOk(true, all.kids))
  {
    hide ParseMany, ParseValue, Prepend, StrKeys, KidsOk;
    LoopStep(data, off, n, depth, limit, done, all);
    var k := ParseValue(data, off, depth, limit);
    LoopStep(data, k.next, n - 1, depth, limit, done + [k.t], all);
    var v := ParseValue(data, k.next, depth, limit);
    Pairing(done, k.t, v.t);
    if |done| % 2 == 0 { KidsPair(all.kids, |done|); }
  }

  lemma KidsFail(isMap: bool, kids: seq<Tree>, i: nat)
    requires i < |kids| && (!StrKeys(kids[i]) || (isMap && i % 2 == 0 && !kids[i].Str?))
    ensures !KidsOk(isMap, kids)
  {
    hide StrKeys;
  }

  lemma StrIsLeaf(t: Tree)
    requires t.Str?
    ensures StrKeys(t)
  {}

  lemma KidsGrow(isMap: bool, done: seq<Tree>, more: seq<Tree>)
    requires KidsOk(isMap, done) && (isMap ==> |done| % 2 == 0)
    requires forall t | t in more :: StrKeys(t)
    requires isMap ==> forall i | 0 <= i < |more| && i % 2 == 0 :: more[i].Str?
    ensures KidsOk(isMap, done + more)
  {
    hide StrKeys;
    if isMap {
      forall i | 0 <= i < |done + more| && i % 2 == 0 ensures (done + more)[i].Str? {
        if i >= |done| { assert (done + more)[i] == more[i - |done|]; }
      }
    }
  }

  lemma NothingProjected(ff: FloatText)
    ensures JoinItems(ProjectAll([], ff)) == [] && JoinMembers(Members([], ff)) == [] && LastUserId(Members([], ff)).Err?
  {}

  lemma ItemStep(done: seq<Tree>, t: Tree, ff: FloatText)
    ensures JoinItems(ProjectAll(done + [t], ff)) ==
      JoinItems(ProjectAll(done, ff)) + Separator(|done|) + Render(Project(t, false, ff))
  {
    ProjectAllStep(done, t, ff);
    JoinItemsStep(ProjectAll(done, ff), Project(t, false, ff));
  }

  /** The text that the loop of writeMap holds after the pairs in `done`. */
  function KeptText(objectName: seq<Byte>, done: seq<Tree>, ff: FloatText): Result<seq<Byte>> {
    if objectName == USER_GAMEDATA then LastUserId(Members(done, ff)) else Err
  }

  lemma MemberStep(objectName: seq<Byte>, done: seq<Tree>, k: Tree, v: Tree, ff: FloatText)
    requires |done| % 2 == 0 && k.Str? && KidsOk(true, done) && StrKeys(v)
    ensures done + [k] + [v] == done + [k, v] && KidsOk(true, done + [k, v])
    ensures var value := Project(v, k.data == USER_GAMEDATA, ff);
      && JoinMembers(Members(done + [k, v], ff)) ==
         JoinMembers(Members(done, ff)) + (Separator(|done| / 2) + (Quote(k.data) + [COLON] + Render(value)))
      && KeptText(objectName, done + [k, v], ff) ==
         if MemberText(objectName, k.data, value).Ok? then MemberText(objectName, k.data, value) else KeptText(objectName, done, ff)
  {
    hide JsonScalarAsString, Quote, Render, Project, LastUserId, KidsOk, StrKeys, Members, JoinMembers, Separator;
    var m := Member(k.data, Project(v, k.data == USER_GAMEDATA, ff));
    StrIsLeaf(k);
    KidsGrow(true, done, [k, v]);
    MembersStep(done, k, v, ff);
    JoinMembersStep(Members(done, ff), m);
    LastUserIdStep(Members(done, ff), m);
    Pairing(done, k, v);
    Grouping(JoinMembers(Members(done, ff)), Separator(|done| / 2), RenderMember(m));
  }

  lemma Pairing(done: seq<Tree>, k: Tree, v: Tree)
    ensures done + [k] + [v] == done + [k, v]
  {}

  lemma Grouping(a: seq<Byte>, b: seq<Byte>, c: seq<Byte>)
    ensures a + b + c == a + (b + c)
  {}

  /** A pair that breaks the rule on keys breaks it for the whole list. */
  lemma KidsPair(kids: seq<Tree>, i: nat)
    requires i % 2 == 0 && i + 1 < |kids|
    ensures !kids[i].Str? || !StrKeys(kids[i + 1]) ==> !KidsOk(true, kids)
  {
    if !kids[i].Str? { KidsFail(true, kids, i); }
    if !StrKeys(kids[i + 1]) { KidsFail(true, kids, i + 1); }
  }

  lemma ArrayText(w: Width, kids: seq<Tree>, inGamedata: bool, ff: FloatText)
    ensures Render(Project(Arr(w, kids), inGamedata, ff)) == [OPEN_BRACKET] + JoinItems(ProjectAll(kids, ff)) + [CLOSE_BRACKET]
  {}

  lemma MapText(w: Width, kids: seq<Tree>, objectName: seq<Byte>, ff: FloatText)
    ensures Render(Project(Map(w, kids), objectName == USER_GAMEDATA, ff)) ==
      [OPEN_BRACE] + JoinMembers(Members(kids, ff)) + MapEnd(|kids| / 2, KeptText(objectName, kids, ff))
  {
    hide Quote, LastUserId, Members, JoinMembers;
    var ms := Members(kids, ff);
    var id := LastUserId(ms);
    if objectName == USER_GAMEDATA {
      if id.Ok? {
        var m := Member(USER_ID_STRING, JString(id.value));
        JoinMembersStep(ms, m);
        assert RenderMember(m) == Quote(USER_ID_STRING) + [COLON] + Quote(id.value);
      } else {
        assert ms + [] == ms;
      }
    }
  }
}

/** What the decoder returns for a wire tree and what the converter writes for it say the same. The relation
    knows nothing of the tree. */
module Agreement {
  import opened Bytes
  import opened Wire
  import opened Meaning
  import opened WireValues
  import opened Floats
  import opened Json
  import opened JsonLaws
  import opened UserIdText
  import opened Projection

  /** The integer that the text of a number denotes, if it is one. */
  predicate IsInteger(text: seq<Byte>, i: int) {
    if text != [] && text[0] == 0x2d then
      i < 0 && text[1..] != [] && (forall b | b in text[1..] :: Digit(b)) && DecimalValue(text[1..]) == -i
    else text != [] && (forall b | b in text :: Digit(b)) && DecimalValue(text) == i
  }

  /** The text that a value puts beside a user id; null and the empty string put none. */
  ghost predicate HasText(j: Json, text: seq<Byte>) {
    match j
    case JNull => false
    case JString(s) => s != [] && text == Repair(s)
    case _ => text == Render(j)
  }

  /** Member `i` is a user id with this text. */
  ghost predicate IdText(ms: seq<Member>, i: nat, text: seq<Byte>) {
    i < |ms| && ms[i].key == [0x75, 0x73, 0x65, 0x72, 0x49, 0x64] && HasText(ms[i].value, text) // "userId"
  }

  /** What follows the members of user game data: the text of the last user id that has one, or nothing. */
  ghost predicate IdTail(ms: seq<Member>, tail: seq<Member>) {
    || (tail == [] && forall i: nat, text :: !IdText(ms, i, text))
    || (exists i: nat, text :: IdText(ms, i, text) && (forall k: nat, u :: i < k ==> !IdText(ms, k, u))
          && tail == [Member([0x75, 0x73, 0x65, 0x72, 0x49, 0x64, 0x53, 0x74, 0x72, 0x69, 0x6e, 0x67], JString(text))]) // "userIdString"
  }

  /** Member `p` is the last with its key. */
  ghost predicate LastMember(ms: seq<Member>, p: nat, key: seq<Byte>) {
    p < |ms| && ms[p].key == key && forall q | p < q < |ms| :: ms[q].key != key
  }

  predicate IsGamedata(key: seq<Byte>) {
    key == [0x75, 0x73, 0x65, 0x72, 0x47, 0x61, 0x6d, 0x65, 0x64, 0x61, 0x74, 0x61] // "userGamedata"
  }

  /** A decoded value and a JSON value say the same. Byte strings have no JSON form, and neither have
      infinities and NaNs. `gamedata`: the value is that of a `userGamedata` member. */
  ghost predicate Agrees(v: Value, j: Json, gamedata: bool, ff: FloatText)
    decreases v, 2
  {
    match v
    case VNil => j == JNull
    case VBool(b) => j == JBool(b)
    case VInt(i) => j.JNumber? && IsInteger(j.text, i)
    case VUint(n) => j.JNumber? && IsInteger(j.text, n)
    case VFloat(bits) => j == if NonFinite(bits) then JNull else JNumber(ff(bits))
    case VStr(s) => j == JString(s)
    case VBytes(_) => j == JNull
    case VArr(items) => j.JArray? && |j.items| == |items| && forall i | 0 <= i < |items| :: Agrees(items[i], j.items[i], false, ff)
    case VMap(_) => j.JObject? && exists n: nat :: SplitAgrees(v, j.members, n, gamedata, ff)
  }

  /** The first `n` members agree with the map; only in user game data may one more follow. */
  ghost predicate SplitAgrees(v: Value, ms: seq<Member>, n: nat, gamedata: bool, ff: FloatText)
    requires v.VMap?
    decreases v, 1
  {
    n <= |ms| && (if gamedata then IdTail(ms[..n], ms[n..]) else n == |ms|) && BodyAgrees(v, ms[..n], ff)
  }

  predicate HasEntry(om: OrderedMap, key: seq<Byte>) { exists i | 0 <= i < |om| :: om[i].0 == key }

  /** The same keys, and under each the same value: the one of the last member with the key. */
  ghost predicate BodyAgrees(v: Value, body: seq<Member>, ff: FloatText)
    requires v.VMap?
    decreases v, 0, 1
  {
    && (forall p: nat | p < |body| :: HasEntry(v.members, body[p].key))
    && forall i: nat | i < |v.members| :: ItemAgrees(v, i, body, ff)
  }

  ghost predicate ItemAgrees(v: Value, i: nat, body: seq<Member>, ff: FloatText)
    requires v.VMap? && i < |v.members|
    decreases v, 0, 0
  {
    exists p: nat :: LastMember(body, p, v.members[i].0) && Agrees(v.members[i].1, body[p].value, IsGamedata(v.members[i].0), ff)
  }

  // ---------- parts ----------

  lemma DecimalAgrees(i: int)
    ensures IsInteger(Decimal(i), i)
  {
    DecimalDigits(if i < 0 then -i else i);
    var t := Decimal(i);
    if i < 0 { assert t[1..] == DecimalNat(-i); } else { assert t[0] in t; }
  }

  lemma {:induction false} ProjectAllAt(kids: seq<Tree>, i: nat, ff: FloatText)
    requires i < |kids|
    ensures ProjectAll(kids, ff)[i] == Project(kids[i], false, ff)
  {
    if i < |kids| - 1 { ProjectAllAt(kids[..|kids| - 1], i, ff); }
  }

  /** The members are written pair by pair, in order. */
  lemma {:induction false} MembersAt(kids: seq<Tree>, i: nat, ff: FloatText)
    requires |kids| % 2 == 0 && i < |kids| / 2
    ensures var key := KeyBytes(kids[2 * i]);
      Members(kids, ff)[i] == Member(key, Project(kids[2 * i + 1], key == USER_GAMEDATA, ff))
  {
    hide Project;
    var n := |kids|;
    if 2 * i + 2 < n { MembersAt(kids[..n - 2], i, ff); }
  }

  lemma TailAgrees(ms: seq<Member>)
    requires forall m | m in ms :: GoodNumbers(m.value)
    ensures IdTail(ms, UserIdString(ms))
  {
    hide JsonScalarAsString, GoodNumbers, Repair, Render;
    forall i: nat, text ensures HasUserId(ms, i, Ok(text)) <==> IdText(ms, i, text) {
      if i < |ms| {
        assert ms[i] in ms;
        ScalarText(ms[i].value);
      }
    }
    var id := LastUserId(ms);
    LastUserIdIff(ms, if id.Ok? then id.value else []);
    assert USER_ID_STRING == [0x75, 0x73, 0x65, 0x72, 0x49, 0x64, 0x53, 0x74, 0x72, 0x69, 0x6e, 0x67];
    if id.Ok? {
      var i: nat :| HasUserId(ms, i, Ok(id.value)) && forall j: nat, r :: i < j ==> !HasUserId(ms, j, r);
      assert IdText(ms, i, id.value);
      forall k: nat, u | i < k ensures !IdText(ms, k, u) { assert !HasUserId(ms, k, Ok(u)); }
    } else {
      forall k: nat, u ensures !IdText(ms, k, u) { assert !HasUserId(ms, k, Ok(u)); }
    }
  }

  lemma {:induction false} SomeLastKey(kids: seq<Tree>, p: nat, f: KeyText) returns (q: nat)
    requires p < |kids| / 2
    ensures LastKey(kids, q, f) && KeyOf(kids[2 * q], f) == KeyOf(kids[2 * p], f)
    decreases |kids| / 2 - p
  {
    hide KeyOf;
    if LastKey(kids, p, f) {
      q := p;
    } else {
      var later :| p < later < |kids| / 2 && KeyOf(kids[2 * later], f) == KeyOf(kids[2 * p], f);
      q := SomeLastKey(kids, later, f);
    }
  }

  /** Keys of strings are their bytes on both sides. */
  lemma KeysSame(kids: seq<Tree>, p: nat, f: KeyText, ff: FloatText)
    requires |kids| % 2 == 0 && p < |kids| / 2 && KidsOk(true, kids)
    ensures KeyOf(kids[2 * p], f) == KeyBytes(kids[2 * p]) == Members(kids, ff)[p].key
  {
    hide StrKeys, Project, Members, KidsOk;
    MembersAt(kids, p, ff);
    KeyIsStr(kids, p);
  }

  lemma KeyIsStr(kids: seq<Tree>, p: nat)
    requires |kids| % 2 == 0 && p < |kids| / 2 && KidsOk(true, kids)
    ensures kids[2 * p].Str?
  {
    hide StrKeys;
    assert 2 * p % 2 == 0;
  }

  lemma LastMemberIs(kids: seq<Tree>, p: nat, f: KeyText, ff: FloatText)
    requires |kids| % 2 == 0 && KidsOk(true, kids) && LastKey(kids, p, f)
    ensures LastMember(Members(kids, ff), p, KeyOf(kids[2 * p], f))
  {
    hide KeyOf, KidsOk, Members, StrKeys;
    var ms := Members(kids, ff);
    KeysSame(kids, p, f, ff);
    forall q | p < q < |ms| ensures ms[q].key != KeyOf(kids[2 * p], f) { KeysSame(kids, q, f, ff); }
  }

  // ---------- the whole ----------

  /** For every tree whose map keys are strs, what is decoded and what is written agree. */
  lemma {:induction false} TreeAgrees(t: Tree, f: KeyText, gamedata: bool, ff: FloatText)
    requires WellFormed(t) && StrKeys(t) && GoodFloats(ff)
    ensures Agrees(Mean(t, f), Project(t, gamedata, ff), gamedata, ff)
    decreases t, 1
  {
    match t
    case FixInt(i) => DecimalAgrees(i);
    case UInt(_, n) => DecimalAgrees(n);
    case SInt(_, i) => DecimalAgrees(i);
    case Arr(_, kids) => ItemsAgree(kids, f, ff);
    case Map(_, kids) => MapAgrees(t, f, gamedata, ff);
    case _ =>
  }

  lemma {:induction false} ItemsAgree(kids: seq<Tree>, f: KeyText, ff: FloatText)
    requires AllWellFormed(kids) && KidsOk(false, kids) && GoodFloats(ff)
    ensures forall i | 0 <= i < |kids| :: Agrees(MeanAll(kids, f)[i], ProjectAll(kids, ff)[i], false, ff)
    decreases kids, 2
  {
    hide Agrees, Mean, MeanAll, Project, ProjectAll, GoodFloats;
    forall i | 0 <= i < |kids| ensures Agrees(MeanAll(kids, f)[i], ProjectAll(kids, ff)[i], false, ff) {
      MeanAllAt(kids, i, f);
      ProjectAllAt(kids, i, ff);
      TreeAgrees(kids[i], f, false, ff);
    }
  }

  lemma {:induction false} MapAgrees(t: Tree, f: KeyText, gamedata: bool, ff: FloatText)
    requires t.Map? && WellFormed(t) && StrKeys(t) && GoodFloats(ff)
    ensures Agrees(Mean(t, f), Project(t, gamedata, ff), gamedata, ff)
    decreases t, 0
  {
    hide PutAll, Pairs, Members, KidsOk, GoodFloats, IdTail, IsGamedata, Agrees, LastMember, BodyAgrees;
    var om, body := PutAll(Pairs(t.kids, f)), Members(t.kids, ff);
    var tail := if gamedata then UserIdString(body) else [];
    MembersGood(t.kids, ff);
    TailAgrees(body);
    MembersAgree(t, f, ff);
    MapAgreesBy(om, body, tail, gamedata, ff);
    assert (if gamedata then body + tail else body) == body + tail;
  }

  lemma {:induction false} MembersAgree(t: Tree, f: KeyText, ff: FloatText)
    requires t.Map? && WellFormed(t) && StrKeys(t) && GoodFloats(ff)
    ensures BodyAgrees(VMap(PutAll(Pairs(t.kids, f))), Members(t.kids, ff), ff)
    decreases t.kids, 3
  {
    hide PutAll, Pairs, Members, KidsOk, GoodFloats, IsGamedata, Agrees, ItemAgrees, StrKeys, WellFormed;
    var om, body := PutAll(Pairs(t.kids, f)), Members(t.kids, ff);
    forall p: nat | p < |body| ensures HasEntry(om, body[p].key) { KeyThere(t, p, f, ff); }
    forall i: nat | i < |om| ensures ItemAgrees(VMap(om), i, body, ff) { EntryAgrees(t, i, f, ff); }
    BodyBy(om, body, ff);
  }

  lemma BodyBy(om: OrderedMap, body: seq<Member>, ff: FloatText)
    requires forall p: nat | p < |body| :: HasEntry(om, body[p].key)
    requires forall i: nat | i < |om| :: ItemAgrees(VMap(om), i, body, ff)
    ensures BodyAgrees(VMap(om), body, ff)
  {
    assert VMap(om).members == om;
  }

  /** The parts make the whole. */
  lemma MapAgreesBy(om: OrderedMap, body: seq<Member>, tail: seq<Member>, gamedata: bool, ff: FloatText)
    requires if gamedata then IdTail(body, tail) else tail == []
    requires BodyAgrees(VMap(om), body, ff)
    ensures Agrees(VMap(om), JObject(body + tail), gamedata, ff)
  {
    hide IdTail, LastMember, IsGamedata;
    var j, n := JObject(body + tail), |body|;
    assert j.members[..n] == body && j.members[n..] == tail;
    assert SplitAgrees(VMap(om), j.members, n, gamedata, ff);
  }

  lemma KeyThere(t: Tree, p: nat, f: KeyText, ff: FloatText)
    requires t.Map? && WellFormed(t) && StrKeys(t) && p < |Members(t.kids, ff)|
    ensures HasEntry(PutAll(Pairs(t.kids, f)), Members(t.kids, ff)[p].key)
  {
    hide PutAll, Pairs, Members, KeyOf, Mean, KidsOk, LastKey;
    var kids := t.kids;
    KeysSame(kids, p, f, ff);
    var q := SomeLastKey(kids, p, f);
    LastKeyBound(kids, q, f);
    EntryIff(kids, f, KeyOf(kids[2 * q], f), Mean(kids[2 * q + 1], f));
  }

  lemma LastKeyBound(kids: seq<Tree>, q: nat, f: KeyText)
    requires LastKey(kids, q, f)
    ensures q < |kids| / 2
  {}

  lemma {:induction false} EntryAgrees(t: Tree, i: nat, f: KeyText, ff: FloatText)
    requires t.Map? && WellFormed(t) && StrKeys(t) && GoodFloats(ff) && i < |PutAll(Pairs(t.kids, f))|
    ensures var om, body := PutAll(Pairs(t.kids, f)), Members(t.kids, ff);
      ItemAgrees(VMap(om), i, body, ff)
    decreases t.kids, 2
  {
    hide PutAll, Pairs, Members, KeyOf, Mean, Project, GoodFloats, LastKey, IsGamedata;
    var kids := t.kids;
    var om, body := PutAll(Pairs(kids, f)), Members(kids, ff);
    assert (om[i].0, om[i].1) == om[i] && om[i] in om;
    EntryIff(kids, f, om[i].0, om[i].1);
    var p: nat :| p < |kids| / 2 && KeyOf(kids[2 * p], f) == om[i].0 && Mean(kids[2 * p + 1], f) == om[i].1 && LastKey(kids, p, f);
    LastMemberIs(kids, p, f, ff);
    MembersAt(kids, p, ff);
    KeysSame(kids, p, f, ff);
    GamedataKey(om[i].0);
    assert kids[2 * p + 1] in kids;
    TreeAgrees(kids[2 * p + 1], f, om[i].0 == USER_GAMEDATA, ff);
    assert LastMember(body, p, om[i].0);
  }

  lemma GamedataKey(key: seq<Byte>)
    ensures IsGamedata(key) <==> key == USER_GAMEDATA
  {}
}

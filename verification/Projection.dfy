/** The JSON value that a wire tree is converted to. */
module Projection {
  import opened Bytes
  import opened Wire
  import opened Json
  import opened JsonLaws
  import opened UserIdText
  import opened Floats

  // "userGamedata", "userId", "userIdString"
  const USER_GAMEDATA: seq<Byte> := [0x75, 0x73, 0x65, 0x72, 0x47, 0x61, 0x6d, 0x65, 0x64, 0x61, 0x74, 0x61]
  const USER_ID: seq<Byte> := [0x75, 0x73, 0x65, 0x72, 0x49, 0x64]
  const USER_ID_STRING: seq<Byte> := USER_ID + [0x53, 0x74, 0x72, 0x69, 0x6e, 0x67]

  /** The text strconv.FormatFloat gives to the double with these bits: unseen library code. */
  type FloatText = nat -> seq<Byte>

  function FloatJson(double: nat, ff: FloatText): Json { if NonFinite(double) then JNull else JNumber(ff(double)) }

  /** Every map key is a str, at every level. */
  predicate StrKeys(t: Tree)
    decreases t
  {
    IsNode(t) ==> KidsOk(t.Map?, t.kids)
  }

  predicate KidsOk(isMap: bool, kids: seq<Tree>)
    decreases kids
  {
    (forall k | k in kids :: StrKeys(k)) && (isMap ==> forall i | 0 <= i < |kids| && i % 2 == 0 :: kids[i].Str?)
  }

  /** `inGamedata`: the tree is the value of a `userGamedata` member. */
  function Project(t: Tree, inGamedata: bool, ff: FloatText): Json {
    match t
    case Nil => JNull
    case Bool(b) => JBool(b)
    case FixInt(i) => JNumber(Decimal(i))
    case UInt(_, n) => JNumber(Decimal(n))
    case SInt(_, i) => JNumber(Decimal(i))
    case Float(w, bits) => FloatJson(Double(w, bits), ff)
    case Str(_, d) => JString(d)
    case Bin(_, _) => JNull
    case Ext(_, _, _) => JNull
    case Arr(_, kids) => JArray(ProjectAll(kids, ff))
    case Map(_, kids) => var ms := Members(kids, ff); JObject(if inGamedata then ms + UserIdString(ms) else ms)
  }

  function ProjectAll(kids: seq<Tree>, ff: FloatText): (js: seq<Json>)
    ensures |js| == |kids|
  {
    if kids == [] then [] else ProjectAll(kids[..|kids| - 1], ff) + [Project(kids[|kids| - 1], false, ff)]
  }

  function KeyBytes(t: Tree): seq<Byte> { if t.Str? then t.data else [] }

  function Members(kids: seq<Tree>, ff: FloatText): (ms: seq<Member>)
    ensures |ms| == |kids| / 2
  {
    var n := |kids|;
    if n < 2 then []
    else
      var key := KeyBytes(kids[n - 2]);
      Members(kids[..n - 2], ff) + [Member(key, Project(kids[n - 1], key == USER_GAMEDATA, ff))]
  }

  /** The text of the last `userId` that has one. */
  function LastUserId(ms: seq<Member>): Result<seq<Byte>> {
    if ms == [] then Err
    else
      var m := ms[|ms| - 1];
      var text := JsonScalarAsString(Render(m.value));
      if m.key == USER_ID && text.Ok? then text else LastUserId(ms[..|ms| - 1])
  }

  /** Member `i` is a user id whose value has the text `r`. */
  predicate HasUserId(ms: seq<Member>, i: nat, r: Result<seq<Byte>>) {
    i < |ms| && ms[i].key == USER_ID && r.Ok? && JsonScalarAsString(Render(ms[i].value)) == r
  }

  /** The text is that of a user id that no later member overrides; there is none if no user id has a text. */
  lemma {:induction false} LastUserIdIff(ms: seq<Member>, text: seq<Byte>)
    ensures LastUserId(ms) == Ok(text) <==>
      (exists i: nat :: HasUserId(ms, i, Ok(text)) && forall j: nat, r :: i < j ==> !HasUserId(ms, j, r))
    ensures LastUserId(ms).Err? <==> forall i: nat, r :: !HasUserId(ms, i, r)
  {
    hide JsonScalarAsString;
    if ms != [] {
      var n := |ms| - 1;
      var init := ms[..n];
      LastUserIdIff(init, text);
      assert forall i: nat, r :: HasUserId(init, i, r) <==> i < n && HasUserId(ms, i, r);
      var last := JsonScalarAsString(Render(ms[n].value));
      assert ms[n].key == USER_ID && last.Ok? <==> HasUserId(ms, n, last);
      if ms[n].key == USER_ID && last.Ok? {
        assert LastUserId(ms) == last;
      } else {
        assert forall r :: !HasUserId(ms, n, r);
      }
    }
  }

  function UserIdString(ms: seq<Member>): seq<Member> {
    var id := LastUserId(ms);
    if id.Ok? then [Member(USER_ID_STRING, JString(id.value))] else []
  }

  // ---------- steps, for the loops ----------

  lemma ProjectAllStep(done: seq<Tree>, t: Tree, ff: FloatText)
    ensures ProjectAll(done + [t], ff) == ProjectAll(done, ff) + [Project(t, false, ff)]
  {
    var more := done + [t];
    assert more[..|more| - 1] == done;
  }

  lemma MembersStep(done: seq<Tree>, k: Tree, v: Tree, ff: FloatText)
    ensures Members(done + [k, v], ff) == Members(done, ff) + [Member(KeyBytes(k), Project(v, KeyBytes(k) == USER_GAMEDATA, ff))]
  {
    var more := done + [k, v];
    assert more[..|more| - 2] == done;
  }

  lemma LastUserIdStep(ms: seq<Member>, m: Member)
    ensures var text := JsonScalarAsString(Render(m.value));
      LastUserId(ms + [m]) == if m.key == USER_ID && text.Ok? then text else LastUserId(ms)
  {
    var more := ms + [m];
    assert more[..|more| - 1] == ms;
  }

  // ---------- the projection is a JSON value ----------

  /** What is asked of the unseen float formatter: finite floats become JSON numbers. */
  ghost predicate GoodFloats(ff: FloatText) {
    forall double :: !NonFinite(double) ==> NumberText(ff(double))
  }

  lemma {:induction false} ProjectGood(t: Tree, inGamedata: bool, ff: FloatText)
    requires GoodFloats(ff)
    ensures GoodNumbers(Project(t, inGamedata, ff))
    decreases t, 1
  {
    match t
    case FixInt(i) => DecimalIsNumber(i);
    case UInt(_, n) => DecimalIsNumber(n);
    case SInt(_, i) => DecimalIsNumber(i);
    case Arr(_, kids) => ItemsGood(kids, ff);
    case Map(_, kids) => MembersGood(kids, ff);
    case _ =>
  }

  lemma {:induction false} ItemsGood(kids: seq<Tree>, ff: FloatText)
    requires GoodFloats(ff)
    ensures forall j | j in ProjectAll(kids, ff) :: GoodNumbers(j)
    decreases kids, 0
  {
    if kids != [] {
      ItemsGood(kids[..|kids| - 1], ff);
      ProjectGood(kids[|kids| - 1], false, ff);
    }
  }

  lemma {:induction false} MembersGood(kids: seq<Tree>, ff: FloatText)
    requires GoodFloats(ff)
    ensures forall m | m in Members(kids, ff) :: GoodNumbers(m.value)
    decreases kids, 0
  {
    var n := |kids|;
    if n >= 2 {
      MembersGood(kids[..n - 2], ff);
      ProjectGood(kids[n - 1], KeyBytes(kids[n - 2]) == USER_GAMEDATA, ff);
    }
  }
}

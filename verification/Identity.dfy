/** Login by an outside identity: users are found by the identity, linked to it by a verified email, or
    created for it. The user table and the upload code table are changed one call at a time. */
module Identity {
  import opened Bytes

  datatype User = User(name: string, email: string, kratosID: Option<string>)

  /** Both tables: users by their id, upload codes by the id of their user. */
  datatype Tables = Tables(users: map<string, User>, codes: map<string, string>)

  /** Settings, and the case rules of the libraries. */
  datatype Config = Config(
    autoProvision: bool,
    autoLink: bool,
    lower: string -> string,
    equalFold: (string, string) -> bool, // strings.EqualFold
    emailFold: (string, string) -> bool  // EmailEqualFold, in the database
  )

  datatype Error = Unauthorized | Unmapped | Unavailable

  datatype Resolution = Of(user: string) | Refused(error: Error)

  /** What a query for one row gives; `Broken` is a failed query or more than one row. */
  datatype Answer = Found(id: string) | NotFound | Broken

  datatype Outcome = Saved | Constraint | Failed

  const ATTEMPTS := 3

  /** The random user id and upload code of one provisioning attempt. */
  datatype Draw = Draw(id: string, code: string)

  type Draws = ds: seq<Draw> | |ds| == ATTEMPTS witness seq(ATTEMPTS, _ => Draw("", ""))

  // ----- Text -----

  predicate IsSpace(c: char) {
    var n := c as int;
    9 <= n <= 13 || n in {0x20, 0x85, 0xA0, 0x1680, 0x2028, 0x2029, 0x202F, 0x205F, 0x3000} || 0x2000 <= n <= 0x200A
  }

  function TrimLeft(s: string): string { if s != "" && IsSpace(s[0]) then TrimLeft(s[1..]) else s }

  function TrimRight(s: string): string { if s != "" && IsSpace(s[|s| - 1]) then TrimRight(s[..|s| - 1]) else s }

  function Trim(s: string): string { TrimRight(TrimLeft(s)) }

  /** Trimming twice is trimming once. */
  lemma TrimFixed(s: string)
    ensures Trim(Trim(s)) == Trim(s)
  {
    LeftEdge(s);
    RightEdge(TrimLeft(s));
  }

  lemma {:induction false} LeftEdge(s: string)
    ensures TrimLeft(s) == "" || !IsSpace(TrimLeft(s)[0])
  {
    if s != "" && IsSpace(s[0]) { LeftEdge(s[1..]); }
  }

  lemma {:induction false} RightEdge(s: string)
    ensures var r := TrimRight(s); r <= s && (r == "" || !IsSpace(r[|r| - 1]))
  {
    if s != "" && IsSpace(s[|s| - 1]) { RightEdge(s[..|s| - 1]); }
  }

  predicate AllSpace(s: string) { forall c | c in s :: IsSpace(c) }

  /** `core` is `s` without the space around it. */
  ghost predicate TrimmedTo(s: string, core: string) {
    && (core != "" ==> !IsSpace(core[0]) && !IsSpace(core[|core| - 1]))
    && exists a, b :: AllSpace(a) && AllSpace(b) && s == a + core + b
  }

  lemma {:induction false} SplitLeft(s: string) returns (a: string)
    ensures AllSpace(a) && s == a + TrimLeft(s)
  {
    if s != "" && IsSpace(s[0]) {
      a := SplitLeft(s[1..]);
      a := [s[0]] + a;
    } else {
      a := "";
    }
  }

  lemma {:induction false} SplitRight(s: string) returns (b: string)
    ensures AllSpace(b) && s == TrimRight(s) + b
  {
    if s != "" && IsSpace(s[|s| - 1]) {
      b := SplitRight(s[..|s| - 1]);
      b := b + [s[|s| - 1]];
    } else {
      b := "";
    }
  }

  lemma {:induction false} DropLeft(a: string, s: string)
    requires AllSpace(a)
    ensures TrimLeft(a + s) == TrimLeft(s)
  {
    if a == "" {
      assert a + s == s;
    } else {
      DropLeft(a[1..], s);
      assert (a + s)[1..] == a[1..] + s;
    }
  }

  lemma {:induction false} DropRight(s: string, b: string)
    requires AllSpace(b)
    ensures TrimRight(s + b) == TrimRight(s)
  {
    if b == "" {
      assert s + b == s;
    } else {
      DropRight(s, b[..|b| - 1]);
      assert (s + b)[..|s + b| - 1] == s + b[..|b| - 1];
    }
  }

  /** Trimming takes off the space at both ends and nothing else. */
  lemma TrimIff(s: string, core: string)
    ensures Trim(s) == core <==> TrimmedTo(s, core)
  {
    TrimIsTrimmed(s);
    if TrimmedTo(s, core) {
      var a, b :| AllSpace(a) && AllSpace(b) && s == a + core + b;
      assert s == a + (core + b);
      DropLeft(a, core + b);
      if core == "" {
        assert core + b == b && b + "" == b;
        DropLeft(b, "");
      } else {
        DropRight(core, b);
      }
    }
  }

  lemma TrimIsTrimmed(s: string)
    ensures TrimmedTo(s, Trim(s))
  {
    hide IsSpace;
    var a := SplitLeft(s);
    var b := SplitRight(TrimLeft(s));
    LeftEdge(s);
    RightEdge(TrimLeft(s));
    assert s == a + Trim(s) + b;
  }

  function NormalizeEmail(raw: string, cfg: Config): string { cfg.lower(Trim(raw)) }

  function BeforeAt(s: string): string { if s == "" || s[0] == '@' then "" else [s[0]] + BeforeAt(s[1..]) }

  function DeriveProvisionedUserName(email: string): (name: string)
    ensures name != ""
  {
    var e := Trim(email);
    if e == "" then "kratos-user" else if Trim(BeforeAt(e)) == "" then e else Trim(BeforeAt(e))
  }

  lemma {:induction false} BeforeAtIs(before: string, rest: string)
    requires '@' !in before && (rest == "" || rest[0] == '@')
    ensures BeforeAt(before + rest) == before
  {
    if before == "" {
      assert before + rest == rest;
    } else {
      BeforeAtIs(before[1..], rest);
      assert (before + rest)[1..] == before[1..] + rest;
    }
  }

  /** The email a user is created with: without the space around it, and lower-cased. */
  lemma NormalizedIs(raw: string, core: string, cfg: Config)
    requires TrimmedTo(raw, core)
    ensures NormalizeEmail(raw, cfg) == cfg.lower(core)
  {
    TrimIff(raw, core);
  }

  /** The name a user is created with: what precedes the first '@', without the space around it; all of the
      email if that is empty, and a fixed name if there is no email. */
  lemma DerivedNameIs(email: string, before: string, rest: string, core: string)
    requires TrimmedTo(email, before + rest) && '@' !in before && (rest == "" || rest[0] == '@') && TrimmedTo(before, core)
    ensures DeriveProvisionedUserName(email) ==
      if before + rest == "" then "kratos-user" else if core == "" then before + rest else core
  {
    TrimIff(email, before + rest);
    BeforeAtIs(before, rest);
    TrimIff(before, core);
  }

  // ----- Tables -----

  predicate UniqueUsers(users: map<string, User>) {
    && (forall a, b | a in users && b in users && users[a].email == users[b].email :: a == b)
    && (forall a, b | a in users && b in users && users[a].kratosID == users[b].kratosID && users[a].kratosID.Some? :: a == b)
  }

  /** The unique indexes of the two tables. */
  predicate Unique(s: Tables) {
    UniqueUsers(s.users) && forall a, b | a in s.codes && b in s.codes && s.codes[a] == s.codes[b] :: a == b
  }

  function Owners(s: Tables, identity: string): set<string> {
    set u | u in s.users && s.users[u].kratosID == Some(identity)
  }

  function WithEmail(s: Tables, email: string, cfg: Config): set<string> {
    set u | u in s.users && cfg.emailFold(s.users[u].email, email)
  }

  predicate Blank(user: User) { user.kratosID.None? || Trim(user.kratosID.value) == "" }

  predicate BoundTo(user: User, identity: string) { user.kratosID.Some? && Trim(user.kratosID.value) == identity }

  /** A user is free to be linked exactly if the identity it holds, if any, is nothing but space; and it is
      bound to an identity exactly if it holds that identity, up to the space around it. */
  lemma BindingMeans(user: User, identity: string)
    ensures Blank(user) <==> user.kratosID == None || AllSpace(user.kratosID.value)
    ensures BoundTo(user, identity) <==> user.kratosID != None && TrimmedTo(user.kratosID.value, identity)
  {
    hide Trim, IsSpace;
    if user.kratosID.Some? {
      var held := user.kratosID.value;
      TrimIff(held, "");
      TrimIff(held, identity);
      assert AllSpace("");
      if AllSpace(held) { assert held == held + "" + ""; }
    }
  }

  // ----- What one resolution may do -----

  /** The one user with the email was free, and is now bound to the identity; nothing else changed. */
  ghost predicate Linked(s: Tables, t: Tables, u: string, identity: string, email: string, cfg: Config) {
    && cfg.autoLink && u in s.users && Blank(s.users[u]) && WithEmail(s, email, cfg) == {u}
    && t == s.(users := s.users[u := s.users[u].(kratosID := Some(identity))])
  }

  /** A new user bound to the identity, with an upload code nobody else has; nothing else changed. */
  ghost predicate Created(s: Tables, t: Tables, u: string, identity: string, email: string, cfg: Config) {
    var normal := NormalizeEmail(email, cfg);
    && normal != "" && u !in s.users && u !in s.codes
    && t.users == s.users[u := User(DeriveProvisionedUserName(normal), normal, Some(identity))]
    && u in t.codes && t.codes[u] !in s.codes.Values && t.codes == s.codes[u := t.codes[u]]
  }

  /** The draw, the email or the identity is already in the tables. */
  predicate Taken(s: Tables, d: Draw, identity: string, normal: string) {
    || d.id in s.users || d.id in s.codes || d.code in s.codes.Values
    || exists u | u in s.users :: s.users[u].email == normal || s.users[u].kratosID == Some(identity)
  }

  /** Attempt `i` is the first whose draw is not taken. */
  predicate FirstFree(s: Tables, draws: Draws, i: nat, identity: string, normal: string) {
    i < ATTEMPTS && !Taken(s, draws[i], identity, normal) && forall j | 0 <= j < i :: Taken(s, draws[j], identity, normal)
  }

  predicate AllTaken(s: Tables, draws: Draws, identity: string, normal: string) {
    forall i | 0 <= i < ATTEMPTS :: Taken(s, draws[i], identity, normal)
  }

  lemma InsertUnique(s: Tables, id: string, user: User)
    requires UniqueUsers(s.users) && id !in s.users && user.kratosID.Some?
    ensures UniqueUsers(s.users[id := user]) <==>
      forall u | u in s.users :: s.users[u].email != user.email && s.users[u].kratosID != user.kratosID
  {
    var after := s.users[id := user];
    if u :| u in s.users && (s.users[u].email == user.email || s.users[u].kratosID == user.kratosID) {
      assert after[u] == s.users[u] && after[id] == user && u != id;
    }
  }

  lemma InsertCases(s: Tables, d: Draw, identity: string, normal: string)
    requires Unique(s)
    ensures var user := User(DeriveProvisionedUserName(normal), normal, Some(identity));
      Taken(s, d, identity, normal) <==>
        || d.id in s.users || !UniqueUsers(s.users[d.id := user])
        || d.id in s.codes || d.code in s.codes.Values
  {
    if d.id !in s.users { InsertUnique(s, d.id, User(DeriveProvisionedUserName(normal), normal, Some(identity))); }
  }

  /** Tables and result after resolving `identity`, whether or not the database answers. */
  ghost predicate Attempt(s: Tables, t: Tables, identity: string, email: string, verified: bool, cfg: Config, r: Resolution) {
    match r
    case Refused(_) => t == s
    case Of(u) =>
      && identity != "" && u in t.users && BoundTo(t.users[u], identity)
      && (Owners(s, identity) != {} ==> t == s && Owners(s, identity) == {u})
      && (t == s
          || (verified && email != ""
              && (Linked(s, t, u, identity, email, cfg)
                  || (cfg.autoProvision && WithEmail(s, email, cfg) == {} && Created(s, t, u, identity, email, cfg)))))
  }

  /** When a database that answers refuses an identity nobody owns as unmapped. */
  ghost predicate IsUnmapped(s: Tables, identity: string, email: string, verified: bool, cfg: Config) {
    var matches := WithEmail(s, email, cfg);
    || email == "" || !verified
    || (matches == {} && (!cfg.autoProvision || NormalizeEmail(email, cfg) == ""))
    || (exists u | u in matches ::
          (matches == {u} && !BoundTo(s.users[u], identity) && (!Blank(s.users[u]) || !cfg.autoLink)))
  }

  /** The result when the database answers; provisioning then fails only if every draw is taken. */
  ghost predicate Answered(s: Tables, identity: string, email: string, verified: bool, draws: Draws, cfg: Config, r: Resolution) {
    var matches := WithEmail(s, email, cfg);
    && (r == Refused(Unauthorized) <==> identity == "")
    && (Owners(s, identity) != {} && identity != "" ==> r.Of?)
    && (Owners(s, identity) == {} && identity != "" ==>
          && (r == Refused(Unmapped) <==> IsUnmapped(s, identity, email, verified, cfg))
          && (r == Refused(Unavailable) <==>
                && !IsUnmapped(s, identity, email, verified, cfg)
                && (|matches| > 1 || (matches == {} && AllTaken(s, draws, identity, NormalizeEmail(email, cfg))))))
  }

  /** The row that one profile sync saves. */
  function Profile(user: User, identity: string, email: string, name: Option<string>, cfg: Config): User {
    var bound := if user.kratosID.Some? then Trim(user.kratosID.value) else "";
    var trimmed := if name.Some? then Trim(name.value) else "";
    User(
      if trimmed != "" && Trim(user.name) != trimmed then trimmed else user.name,
      if email != "" && !cfg.equalFold(Trim(user.email), email) then email else user.email,
      if identity != "" && bound != identity then Some(identity) else user.kratosID)
  }

  /** What a sync makes of a row, told by trimmed texts: the name brought, if any and different; the email
      brought, if any and not the same up to case; the identity, unless the row has it already. */
  ghost predicate RowSynced(user: User, row: User, identity: string, email: string, name: Option<string>, cfg: Config) {
    && (name.None? ==> row.name == user.name)
    && (name.Some? ==> forall n | TrimmedTo(name.value, n) :: row.name == if n != "" && !TrimmedTo(user.name, n) then n else user.name)
    && (forall e | TrimmedTo(user.email, e) :: row.email == if email != "" && !cfg.equalFold(e, email) then email else user.email)
    && row.kratosID == (if identity == "" || (user.kratosID.Some? && TrimmedTo(user.kratosID.value, identity)) then user.kratosID else Some(identity))
  }

  /** At most the row of `u` is changed, and then as a sync changes it. */
  ghost predicate UsersSynced(before: map<string, User>, after: map<string, User>, u: string, identity: string, email: string, name: Option<string>, cfg: Config) {
    || after == before
    || (u in before && u in after && after == before[u := after[u]] && RowSynced(before[u], after[u], identity, email, name, cfg))
  }

  lemma ProfileIsSynced(user: User, identity: string, email: string, name: Option<string>, cfg: Config)
    ensures RowSynced(user, Profile(user, identity, email, name, cfg), identity, email, name, cfg)
  {
    hide Trim, TrimmedTo;
    forall s, n ensures Trim(s) == n <==> TrimmedTo(s, n) { TrimIff(s, n); }
  }

  /** A sync saves the whole new row or none of it. */
  ghost predicate Synced(s: Tables, t: Tables, u: string, identity: string, email: string, name: Option<string>, cfg: Config) {
    && Unique(t)
    && (t == s
        || (u in s.users
            && t == s.(users := s.users[u := Profile(s.users[u], identity, NormalizeEmail(email, cfg), name, cfg)])))
  }

  /** One login: its input, trimmed and normalized by the caller, and its result. */
  datatype Call = Call(identity: string, email: string, verified: bool, name: Option<string>, result: Resolution)

  /** A login resolves the identity; a resolved one may still be refused, or have its profile synced. */
  ghost predicate Step(s: Tables, c: Call, t: Tables, cfg: Config) {
    && c.identity == Trim(c.identity)
    && exists mid, r ::
      && Attempt(s, mid, c.identity, c.email, c.verified, cfg, r) && Unique(mid)
      && (r.Refused? ==> t == mid && c.result == r)
      && (r.Of? ==>
            && (c.result == r || c.result.Refused?)
            && (t == mid || Synced(mid, t, Trim(r.user), c.identity, c.email, c.name, cfg)))
  }

  /** Binding a free identity breaks no unique index. */
  lemma LinkKeepsUnique(s: Tables, u: string, identity: string)
    requires Unique(s) && u in s.users && Owners(s, identity) == {}
    ensures UniqueUsers(s.users[u := s.users[u].(kratosID := Some(identity))])
  {
    assert forall v | v in s.users :: v !in Owners(s, identity);
  }

  /** The name a login brings, if any. */
  function DisplayName(raw: string): Option<string> { if Trim(raw) == "" then None else Some(Trim(raw)) }

  /** A name of nothing but space counts as none. */
  lemma DisplayNameIs(raw: string, core: string)
    requires TrimmedTo(raw, core)
    ensures DisplayName(raw) == if core == "" then None else Some(core)
  {
    TrimIff(raw, core);
  }

  function CallOf(rawIdentity: string, rawEmail: string, verified: Option<bool>, name: Option<string>, cfg: Config, result: Resolution): Call {
    Call(Trim(rawIdentity), NormalizeEmail(rawEmail, cfg), verified == Some(true), name, result)
  }

  lemma NothingDone(s: Tables, c: Call, cfg: Config)
    requires Unique(s) && c.result.Refused? && c.identity == Trim(c.identity)
    ensures Step(s, c, s, cfg)
  {
    assert Attempt(s, s, c.identity, c.email, c.verified, cfg, c.result);
  }

  lemma StepBy(s: Tables, mid: Tables, t: Tables, c: Call, cfg: Config, r: Resolution)
    requires c.identity == Trim(c.identity)
    requires Attempt(s, mid, c.identity, c.email, c.verified, cfg, r) && Unique(mid)
    requires r.Refused? ==> t == mid && c.result == r
    requires r.Of? ==> c.result == r || c.result.Refused?
    requires r.Of? ==> t == mid || Synced(mid, t, Trim(r.user), c.identity, c.email, c.name, cfg)
    ensures Step(s, c, t, cfg)
  {
    hide Attempt, Synced, Unique;
  }

  class SessionHandler {
    const config: Config
    var users: map<string, User>
    var codes: map<string, string>

    constructor (config: Config)
      ensures this.config == config && State() == Tables(map[], map[]) && Unique(State())
    {
      this.config := config;
      users, codes := map[], map[];
    }

    function State(): Tables reads this { Tables(users, codes) }

    /** Whether the database, or the random source, lets this operation down. */
    method Fails(up: bool) returns (fails: bool)
      ensures up ==> !fails
    {
      fails := *;
      if up { fails := false; }
    }

    /** Asks for the one row among `matching`. `up` says that the database answers. */
    method Only(matching: set<string>, up: bool) returns (a: Answer)
      ensures a.Found? ==> matching == {a.id}
      ensures a.NotFound? ==> matching == {}
      ensures up && a.Broken? ==> |matching| > 1
    {
      var fails := Fails(up);
      if fails { return Broken; }
      if matching == {} { return NotFound; }
      var id :| id in matching;
      if matching == {id} { return Found(id); }
      assert id !in matching - {id} && |matching| == |matching - {id}| + 1;
      assert matching - {id} != {};
      return Broken;
    }

    method UpdateUser(id: string, user: User, up: bool) returns (o: Outcome)
      requires id in users && Unique(State())
      modifies this`users
      ensures Unique(State())
      ensures users == if o == Saved then old(users)[id := user] else old(users)
      ensures o == Constraint ==> !UniqueUsers(old(users)[id := user])
      ensures up ==> o != Failed
    {
      var fails := Fails(up);
      if fails { return Failed; }
      if !UniqueUsers(users[id := user]) { return Constraint; }
      users := users[id := user];
      return Saved;
    }

    method CreateUser(id: string, user: User, up: bool) returns (o: Outcome)
      requires Unique(State())
      modifies this`users
      ensures Unique(State())
      ensures users == if o == Saved then old(users)[id := user] else old(users)
      ensures o == Saved ==> id !in old(users)
      ensures o == Constraint ==> id in old(users) || !UniqueUsers(old(users)[id := user])
      ensures up ==> o != Failed
    {
      var fails := Fails(up);
      if fails { return Failed; }
      if id in users || !UniqueUsers(users[id := user]) { return Constraint; }
      users := users[id := user];
      return Saved;
    }

    method CreateCode(id: string, code: string, up: bool) returns (o: Outcome)
      requires Unique(State())
      modifies this`codes
      ensures Unique(State())
      ensures codes == if o == Saved then old(codes)[id := code] else old(codes)
      ensures o == Saved ==> id !in old(codes) && code !in old(codes).Values
      ensures o == Constraint ==> id in old(codes) || code in old(codes).Values
      ensures up ==> o != Failed
    {
      var fails := Fails(up);
      if fails { return Failed; }
      if id in codes || code in codes.Values { return Constraint; }
      codes := codes[id := code];
      return Saved;
    }

    /** Creates the user and the upload code together, or leaves both tables as they were. */
    method CreateKratosProvisionedUser(rawIdentity: string, rawEmail: string, draws: Draws, up: bool) returns (r: Resolution)
      requires Unique(State())
      modifies this`users, this`codes
      ensures Unique(State())
      ensures r.Refused? ==> State() == old(State())
      ensures r.Of? ==> Trim(rawIdentity) != "" && Created(old(State()), State(), r.user, Trim(rawIdentity), rawEmail, config)
      ensures r.Of? || r == Refused(Unmapped) || r == Refused(Unavailable)
      ensures r == Refused(Unmapped) <==> Trim(rawIdentity) == "" || NormalizeEmail(rawEmail, config) == ""
      ensures up && r == Refused(Unavailable) ==> AllTaken(old(State()), draws, Trim(rawIdentity), NormalizeEmail(rawEmail, config))
      ensures r.Of? ==>
        (exists i: nat :: FirstFree(old(State()), draws, i, Trim(rawIdentity), NormalizeEmail(rawEmail, config))
          && draws[i] == Draw(r.user, codes[r.user]))
    {
      hide Unique, UniqueUsers, Trim, NormalizeEmail, DeriveProvisionedUserName;
      var identity := Trim(rawIdentity);
      var email := NormalizeEmail(rawEmail, config);
      if identity == "" || email == "" { return Refused(Unmapped); }
      for attempt := 0 to ATTEMPTS
        invariant State() == old(State())
        invariant forall i | 0 <= i < attempt :: Taken(State(), draws[i], identity, email)
      {
        var id, code := draws[attempt].id, draws[attempt].code;
        InsertCases(State(), draws[attempt], identity, email);
        var fails := Fails(up);
        if fails { return Refused(Unavailable); }
        var usersBefore, codesBefore := users, codes;
        var o := CreateUser(id, User(DeriveProvisionedUserName(email), email, Some(identity)), up);
        if o != Saved {
          users, codes := usersBefore, codesBefore;
          if o == Constraint { continue; }
          return Refused(Unavailable);
        }
        o := CreateCode(id, code, up);
        if o != Saved {
          users, codes := usersBefore, codesBefore;
          if o == Constraint { continue; }
          return Refused(Unavailable);
        }
        fails := Fails(up);
        if fails {
          users, codes := usersBefore, codesBefore;
          return Refused(Unavailable);
        }
        return Of(id);
      }
      return Refused(Unavailable);
    }

    /** At most one row can answer a query by identity. */
    lemma OneOwner(s: Tables, identity: string)
      requires Unique(s)
      ensures |Owners(s, identity)| <= 1
    {
      var owners := Owners(s, identity);
      if owners != {} {
        var u :| u in owners;
        assert owners == {u};
      }
    }

    method ResolveKratosIdentity(rawIdentity: string, email: string, verified: bool, draws: Draws, up: bool) returns (r: Resolution)
      requires Unique(State())
      modifies this`users, this`codes
      ensures Unique(State())
      ensures Attempt(old(State()), State(), Trim(rawIdentity), email, verified, config, r)
      ensures up ==> Answered(old(State()), Trim(rawIdentity), email, verified, draws, config, r)
    {
      var identity := Trim(rawIdentity);
      TrimFixed(rawIdentity);
      if identity == "" { return Refused(Unauthorized); }
      var owner := Only(Owners(State(), identity), up);
      if owner.Found? { return Of(owner.id); }
      if owner.Broken? {
        OneOwner(State(), identity);
        return Refused(Unavailable);
      }
      if email == "" || !verified { return Refused(Unmapped); }
      var target := Only(WithEmail(State(), email, config), up);
      if target.Broken? { return Refused(Unavailable); }
      if target.NotFound? {
        if !config.autoProvision { return Refused(Unmapped); }
        r := CreateKratosProvisionedUser(identity, email, draws, up);
        if r.Of? { return; }
        var again := Only(Owners(State(), identity), up);
        if again.Found? { assert false; } // nobody else can have linked the identity during this call
        return if again.Broken? then Refused(Unavailable) else r;
      }
      var user := users[target.id];
      if BoundTo(user, identity) { return Of(target.id); }
      if !Blank(user) { return Refused(Unmapped); }
      if !config.autoLink { return Refused(Unmapped); }
      var o := UpdateUser(target.id, user.(kratosID := Some(identity)), up);
      LinkKeepsUnique(old(State()), target.id, identity);
      if o == Constraint { assert false; } // nor have taken it
      return if o == Saved then Of(target.id) else if o == Constraint then Refused(Unmapped) else Refused(Unavailable);
    }

    /** Brings the row of the user up to date, in one update that the unique indexes may reject. */
    method SyncResolvedUserProfile(rawUser: string, rawIdentity: string, rawEmail: string, name: Option<string>, up: bool)
      requires Unique(State())
      modifies this`users
      ensures Unique(State())
      ensures Synced(old(State()), State(), Trim(rawUser), Trim(rawIdentity), rawEmail, name, config)
      ensures var u := Trim(rawUser);
        up && u != "" && u in old(users) ==>
          var row := Profile(old(users)[u], Trim(rawIdentity), NormalizeEmail(rawEmail, config), name, config);
          UniqueUsers(old(users)[u := row]) ==> u in users && users[u] == row
      ensures UsersSynced(old(users), users, Trim(rawUser), Trim(rawIdentity), NormalizeEmail(rawEmail, config), name, config)
    {
      hide Unique, UniqueUsers, Trim, NormalizeEmail, RowSynced;
      var u := Trim(rawUser);
      if u == "" { return; }
      var identity := Trim(rawIdentity);
      var email := NormalizeEmail(rawEmail, config);
      var current := Only((set v | v in users && v == u), up);
      if !current.Found? {
        assert u in users ==> (set v | v in users && v == u) == {u};
        return;
      }
      assert u in users;
      var row := users[u];
      var needsUpdate := false;
      if identity != "" {
        var bound := "";
        if row.kratosID.Some? { bound := Trim(row.kratosID.value); }
        if bound != identity {
          row := row.(kratosID := Some(identity));
          needsUpdate := true;
        }
      }
      if email != "" && !config.equalFold(Trim(row.email), email) {
        row := row.(email := email);
        needsUpdate := true;
      }
      if name.Some? {
        var trimmed := Trim(name.value);
        if trimmed != "" && Trim(row.name) != trimmed {
          row := row.(name := trimmed);
          needsUpdate := true;
        }
      }
      if !needsUpdate { return; }
      assert row == Profile(users[u], identity, email, name, config);
      hide Profile;
      ProfileIsSynced(users[u], identity, email, name, config);
      var o := UpdateUser(u, row, up);
    }

    /** A login by headers of the proxy. A claimed user id must be the resolved one. */
    method VerifyAuthProxySession(subject: string, rawEmail: string, verified: Option<bool>, rawName: string, rawClaim: string, draws: Draws, up: bool)
      returns (r: Resolution)
      requires Unique(State())
      modifies this`users, this`codes
      ensures Unique(State())
      ensures Step(old(State()), CallOf(subject, rawEmail, verified, DisplayName(rawName), config, r), State(), config)
      ensures r.Of? && Trim(rawClaim) != "" ==> r.user == Trim(rawClaim)
    {
      hide Attempt, Answered, Synced, Unique, Step, Trim;
      TrimFixed(subject);
      var identity := Trim(subject);
      var email := NormalizeEmail(rawEmail, config);
      if identity == "" {
        r := Refused(Unauthorized);
        NothingDone(State(), CallOf(subject, rawEmail, verified, DisplayName(rawName), config, r), config);
        return;
      }
      ghost var s := State();
      var resolved := ResolveKratosIdentity(identity, email, verified == Some(true), draws, up);
      ghost var mid := State();
      var claimed := Trim(rawClaim);
      if resolved.Refused? {
        r := resolved;
      } else if claimed != "" && claimed != resolved.user {
        r := Refused(Unauthorized);
      } else {
        SyncResolvedUserProfile(resolved.user, identity, email, DisplayName(rawName), up);
        r := resolved;
      }
      StepBy(s, mid, State(), CallOf(subject, rawEmail, verified, DisplayName(rawName), config, r), config, resolved);
    }

    /** A login by a session of the identity provider. */
    method ResolveKratosSession(rawIdentity: string, rawEmail: string, verified: Option<bool>, rawName: string, draws: Draws, up: bool)
      returns (r: Resolution)
      requires Unique(State())
      modifies this`users, this`codes
      ensures Unique(State())
      ensures Step(old(State()), CallOf(rawIdentity, rawEmail, verified, DisplayName(rawName), config, r), State(), config)
    {
      hide Attempt, Answered, Synced, Unique, Step, Trim;
      TrimFixed(rawIdentity);
      var identity := Trim(rawIdentity);
      var email := NormalizeEmail(rawEmail, config);
      if identity == "" {
        r := Refused(Unauthorized);
        NothingDone(State(), CallOf(rawIdentity, rawEmail, verified, DisplayName(rawName), config, r), config);
        return;
      }
      ghost var s := State();
      r := ResolveKratosIdentity(identity, email, verified == Some(true), draws, up);
      ghost var mid := State();
      if r.Of? { SyncResolvedUserProfile(r.user, identity, email, DisplayName(rawName), up); }
      StepBy(s, mid, State(), CallOf(rawIdentity, rawEmail, verified, DisplayName(rawName), config, r), config, r);
    }

    /** A password reset resolves the identity as a login does, and syncs nothing. */
    method ResetKratosPasswordByRecoveryCode(rawIdentity: string, rawEmail: string, verified: Option<bool>, passwordSaved: bool, draws: Draws, up: bool)
      returns (r: Resolution)
      requires Unique(State())
      modifies this`users, this`codes
      ensures Unique(State())
      ensures Step(old(State()), CallOf(rawIdentity, rawEmail, verified, None, config, r), State(), config)
    {
      hide Attempt, Answered, Synced, Unique, Step, Trim;
      TrimFixed(rawIdentity);
      var identity := Trim(rawIdentity);
      if identity == "" {
        r := Refused(Unmapped);
        NothingDone(State(), CallOf(rawIdentity, rawEmail, verified, None, config, r), config);
        return;
      }
      ghost var s := State();
      var resolved := ResolveKratosIdentity(identity, NormalizeEmail(rawEmail, config), verified == Some(true), draws, up);
      r := if resolved.Of? && !passwordSaved then Refused(Unavailable) else resolved;
      StepBy(s, State(), State(), CallOf(rawIdentity, rawEmail, verified, None, config, r), config, resolved);
    }
  }
}

/** What every run of logins keeps. */
module IdentityRuns {
  import opened Bytes
  import opened Identity

  /** Every binding is stored without surrounding space, as all writes of this program store it. */
  ghost predicate Trimmed(s: Tables) {
    forall u | u in s.users && s.users[u].kratosID.Some? :: Trim(s.users[u].kratosID.value) == s.users[u].kratosID.value
  }

  ghost predicate Sound(s: Tables) { Unique(s) && Trimmed(s) }

  /** No user is lost, and no binding that is not blank is changed. */
  ghost predicate Keeps(s: Tables, t: Tables) {
    forall u | u in s.users :: u in t.users && (!Blank(s.users[u]) ==> t.users[u].kratosID == s.users[u].kratosID)
  }

  /** `u` becomes bound to the identity of `c`, whose email is verified and belongs to `u`. */
  ghost predicate BoundBy(u: string, s: Tables, c: Call, t: Tables, cfg: Config) {
    && c.verified && c.email != "" && u in t.users && t.users[u].kratosID == Some(c.identity)
    && (u in s.users ==> cfg.autoLink && cfg.emailFold(s.users[u].email, c.email))
    && (u !in s.users ==>
          && cfg.autoProvision && (forall v | v in s.users :: !cfg.emailFold(s.users[v].email, c.email))
          && NormalizeEmail(c.email, cfg) != "" && t.users[u].email == NormalizeEmail(c.email, cfg))
  }

  /** Every binding that is not blank was there before, or is made by this call. */
  ghost predicate NewBindings(s: Tables, c: Call, t: Tables, cfg: Config) {
    forall u | u in t.users && !Blank(t.users[u]) ::
      (u in s.users && t.users[u].kratosID == s.users[u].kratosID) || BoundBy(u, s, c, t, cfg)
  }

  ghost predicate IsRun(states: seq<Tables>, calls: seq<Call>, cfg: Config) {
    && |states| == |calls| + 1 && Sound(states[0])
    && (forall i | 0 <= i < |calls| :: Step(states[i], calls[i], states[i + 1], cfg))
  }

  // ----- One step -----

  lemma AttemptKeeps(s: Tables, t: Tables, c: Call, cfg: Config, r: Resolution)
    requires Sound(s) && Unique(t) && c.identity == Trim(c.identity)
    requires Attempt(s, t, c.identity, c.email, c.verified, cfg, r)
    ensures Sound(t) && Keeps(s, t) && NewBindings(s, c, t, cfg)
    ensures r.Of? ==> r.user in t.users && t.users[r.user].kratosID == Some(c.identity) && c.identity != ""
  {
    hide Unique, Trim;
    if r.Of? && Linked(s, t, r.user, c.identity, c.email, cfg) {
      assert r.user in WithEmail(s, c.email, cfg);
    }
    if WithEmail(s, c.email, cfg) == {} {
      forall v | v in s.users ensures !cfg.emailFold(s.users[v].email, c.email) { assert v !in WithEmail(s, c.email, cfg); }
    }
  }

  /** After a resolution the sync can touch no binding: the user it resolved to already has the identity,
      and no other user may have it. */
  lemma SyncKeepsBindings(s: Tables, t: Tables, owner: string, u: string, identity: string, email: string, name: Option<string>, cfg: Config)
    requires Sound(s) && owner in s.users && s.users[owner].kratosID == Some(identity)
    requires identity == Trim(identity) && identity != ""
    requires Synced(s, t, u, identity, email, name, cfg)
    ensures t.users.Keys == s.users.Keys && forall v | v in s.users :: t.users[v].kratosID == s.users[v].kratosID
    ensures forall v | v in s.users :: t.users[v].email == s.users[v].email || t.users[v].email == NormalizeEmail(email, cfg)
    ensures Sound(t)
  {
    hide Trim, NormalizeEmail;
    if t != s {
      assert t.users[u].kratosID == Some(identity);
      assert owner in t.users && t.users[owner].kratosID == Some(identity);
    }
  }

  lemma StepKeeps(s: Tables, c: Call, t: Tables, cfg: Config)
    requires Sound(s) && Step(s, c, t, cfg)
    ensures Sound(t) && Keeps(s, t) && NewBindings(s, c, t, cfg)
    ensures c.result.Of? ==>
      var u := c.result.user; u in t.users && t.users[u].kratosID == Some(c.identity) && c.identity != ""
  {
    hide Attempt, Synced, Unique, Trim, Trimmed;
    var mid, r :|
      && Attempt(s, mid, c.identity, c.email, c.verified, cfg, r) && Unique(mid)
      && (r.Refused? ==> t == mid && c.result == r)
      && (r.Of? ==>
            && (c.result == r || c.result.Refused?)
            && (t == mid || Synced(mid, t, Trim(r.user), c.identity, c.email, c.name, cfg)));
    AttemptKeeps(s, mid, c, cfg, r);
    if t != mid {
      SyncKeepsBindings(mid, t, r.user, Trim(r.user), c.identity, c.email, c.name, cfg);
    }
  }

  /** A login whose email its issuer does not call verified, or that has none, binds nobody. */
  lemma UnverifiedBindsNothing(s: Tables, t: Tables, rawIdentity: string, rawEmail: string, verified: Option<bool>, name: Option<string>, cfg: Config, result: Resolution)
    requires Sound(s) && Step(s, CallOf(rawIdentity, rawEmail, verified, name, cfg, result), t, cfg)
    requires verified == None || verified == Some(false) || cfg.lower(Trim(rawEmail)) == ""
    ensures forall u | u in t.users && !Blank(t.users[u]) :: u in s.users && t.users[u].kratosID == s.users[u].kratosID
  {
    hide Step, Trim;
    StepKeeps(s, CallOf(rawIdentity, rawEmail, verified, name, cfg, result), t, cfg);
  }

  /** A successful login leaves its user bound to the identity it came with, without the space around it. */
  lemma LoggedInIsBound(s: Tables, t: Tables, rawIdentity: string, identity: string, rawEmail: string, verified: Option<bool>, name: Option<string>, cfg: Config, user: string)
    requires Sound(s) && Step(s, CallOf(rawIdentity, rawEmail, verified, name, cfg, Of(user)), t, cfg) && TrimmedTo(rawIdentity, identity)
    ensures identity != "" && user in t.users && t.users[user].kratosID == Some(identity)
  {
    hide Step, TrimmedTo, Trim;
    StepKeeps(s, CallOf(rawIdentity, rawEmail, verified, name, cfg, Of(user)), t, cfg);
    TrimIff(rawIdentity, identity);
  }

  // ----- Whole runs -----

  /** The unique indexes hold and bindings stay trimmed, so an identity belongs to at most one user; and
      bindings that are not blank are for ever. */
  lemma {:induction false} RunKeeps(states: seq<Tables>, calls: seq<Call>, cfg: Config, i: nat, j: nat)
    requires IsRun(states, calls, cfg) && i <= j < |states|
    ensures Sound(states[i]) && Sound(states[j]) && Keeps(states[i], states[j])
    decreases j
  {
    hide Sound, Step;
    if i < j {
      RunKeeps(states, calls, cfg, i, j - 1);
      StepKeeps(states[j - 1], calls[j - 1], states[j], cfg);
    } else if j > 0 {
      RunKeeps(states, calls, cfg, i - 1, j - 1);
      StepKeeps(states[j - 1], calls[j - 1], states[j], cfg);
    }
  }

  lemma OneUserPerIdentity(states: seq<Tables>, calls: seq<Call>, cfg: Config, i: nat, identity: string)
    requires IsRun(states, calls, cfg) && i < |states|
    ensures |Owners(states[i], identity)| <= 1
  {
    RunKeeps(states, calls, cfg, i, i);
    var owners := Owners(states[i], identity);
    if owners != {} {
      var u :| u in owners;
      assert owners == {u};
    }
  }

  /** The user a login resolved to has the identity from then on. */
  lemma OwnerStays(states: seq<Tables>, calls: seq<Call>, cfg: Config, i: nat, j: nat)
    requires IsRun(states, calls, cfg) && i < |calls| && i < j < |states| && calls[i].result.Of?
    ensures Sound(states[j])
    ensures var u := calls[i].result.user;
      u in states[j].users && states[j].users[u].kratosID == Some(calls[i].identity) && calls[i].identity != ""
  {
    hide Step, Trim, Sound;
    RunKeeps(states, calls, cfg, i, i);
    StepKeeps(states[i], calls[i], states[i + 1], cfg);
    RunKeeps(states, calls, cfg, i + 1, j);
    CallTrimmed(states, calls, cfg, i);
    assert !Blank(states[i + 1].users[calls[i].result.user]);
  }

  lemma CallTrimmed(states: seq<Tables>, calls: seq<Call>, cfg: Config, i: nat)
    requires IsRun(states, calls, cfg) && i < |calls|
    ensures calls[i].identity == Trim(calls[i].identity)
  {
    assert Step(states[i], calls[i], states[i + 1], cfg);
  }

  /** Once a login by an identity has succeeded, every later successful login by it is by the same user. */
  lemma SameUser(states: seq<Tables>, calls: seq<Call>, cfg: Config, i: nat, j: nat)
    requires IsRun(states, calls, cfg) && i <= j < |calls|
    requires calls[i].result.Of? && calls[j].result.Of? && calls[i].identity == calls[j].identity
    ensures calls[i].result.user == calls[j].result.user
  {
    hide Step, Trim;
    OwnerStays(states, calls, cfg, i, j + 1);
    OwnerStays(states, calls, cfg, j, j + 1);
  }

  /** And a later login that the database answers does succeed. */
  lemma LaterLogin(states: seq<Tables>, calls: seq<Call>, cfg: Config, i: nat, j: nat, t: Tables, email: string, verified: bool, draws: Draws, r: Resolution)
    requires IsRun(states, calls, cfg) && i < |calls| && i < j < |states| && calls[i].result.Of?
    requires Attempt(states[j], t, calls[i].identity, email, verified, cfg, r)
    requires Answered(states[j], calls[i].identity, email, verified, draws, cfg, r)
    ensures r == calls[i].result && t == states[j]
  {
    hide Step, Trim;
    OwnerStays(states, calls, cfg, i, j);
    assert calls[i].result.user in Owners(states[j], calls[i].identity);
  }

  /** Every binding of a run was there at its start, or was made by one call whose email is verified and
      belongs to the user. */
  lemma {:induction false} BindingsAreVerified(states: seq<Tables>, calls: seq<Call>, cfg: Config, j: nat, u: string)
    requires IsRun(states, calls, cfg) && j < |states| && u in states[j].users && !Blank(states[j].users[u])
    ensures (u in states[0].users && states[j].users[u].kratosID == states[0].users[u].kratosID)
         || (exists i :: 0 <= i < j && BoundBy(u, states[i], calls[i], states[i + 1], cfg)
               && states[j].users[u].kratosID == Some(calls[i].identity))
    decreases j
  {
    hide Sound, Step, Trim;
    if j > 0 {
      RunKeeps(states, calls, cfg, j - 1, j - 1);
      StepKeeps(states[j - 1], calls[j - 1], states[j], cfg);
      if !BoundBy(u, states[j - 1], calls[j - 1], states[j], cfg) {
        BindingsAreVerified(states, calls, cfg, j - 1, u);
      }
    }
  }

  lemma TrimExample()
    ensures Trim("a") == "a" && Trim(" a") == "a"
  {
    assert TrimLeft(" a") == TrimLeft("a") == "a" == TrimRight("a");
  }

  /** Logins one after the other, from the empty tables of a new handler. */
  ghost predicate FromEmpty(states: seq<Tables>, calls: seq<Call>, cfg: Config) {
    && |states| == |calls| + 1 && states[0] == Tables(map[], map[])
    && forall i | 0 <= i < |calls| :: Step(states[i], calls[i], states[i + 1], cfg)
  }

  /** From there no hypothesis is needed, and every binding is verified. */
  lemma FromEmptyVerified(states: seq<Tables>, calls: seq<Call>, cfg: Config, j: nat, u: string)
    requires FromEmpty(states, calls, cfg) && j < |states|
    ensures IsRun(states, calls, cfg)
    ensures u in states[j].users && !Blank(states[j].users[u]) ==>
      (exists i :: 0 <= i < j && BoundBy(u, states[i], calls[i], states[i + 1], cfg)
         && states[j].users[u].kratosID == Some(calls[i].identity))
  {
    hide Step, Trim, BoundBy;
    if u in states[j].users && !Blank(states[j].users[u]) { BindingsAreVerified(states, calls, cfg, j, u); }
  }

  /** Why runs must start from trimmed bindings: beside one stored with a space, two logins by one identity
      can reach two users. The three writes of this program store trimmed identities, so only a table that
      another program filled can look like this. */
  lemma UntrimmedBindingDrifts(cfg: Config)
    returns (s: Tables, t: Tables, first: Call, second: Call)
    requires cfg.autoLink && forall a, b :: cfg.emailFold(a, b) <==> a == b
    ensures Unique(s) && Step(s, first, s, cfg) && Step(s, second, t, cfg)
    ensures first.identity == second.identity == Trim(first.identity)
    ensures first.result == Of("u") && second.result == Of("v")
  {
    hide Trim, Step;
    var u := User("n", "e", Some(" a"));
    var v := User("n", "f", None);
    s := Tables(map["u" := u, "v" := v], map[]);
    t := s.(users := s.users["v" := v.(kratosID := Some("a"))]);
    first := Call("a", "e", true, None, Of("u"));
    second := Call("a", "f", true, None, Of("v"));
    TrimExample();
    assert WithEmail(s, "e", cfg) == {"u"} && WithEmail(s, "f", cfg) == {"v"} && Owners(s, "a") == {};
    StepBy(s, s, s, first, cfg, Of("u"));
    StepBy(s, t, t, second, cfg, Of("v"));
  }
}

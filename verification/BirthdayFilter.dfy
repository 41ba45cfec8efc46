/** The birthday payload filter: drops of wanted materials, and all that shares a position or a fixture
    with them, directly or through a fixture. */
module BirthdayFilter {
  import opened AnyValue

  /** How scalars are read: unseen library code, and the table of resource type names. */
  datatype Readers = Readers(
    resourceType: Any -> string,       // normalizeBirthdayResourceType of stringFromAny
    toInt: Any -> int,                 // intFromAny
    positionText: (Any, Any) -> string // %.3f_%.3f of floatFromAny
  )

  const DROPS := "userMysekaiSiteHarvestResourceDrops"
  const FIXTURES := "userMysekaiSiteHarvestFixtures"

  function FirstPresent(item: Fields, keys: seq<string>): Any {
    if keys == [] then Nil else if keys[0] in item then item[keys[0]] else FirstPresent(item, keys[1..])
  }

  function AnySlice(v: Any): seq<Any> { if v.List? then v.items else [] }

  /** The value under the first of the keys that is there. */
  lemma {:induction false} FirstPresentAt(item: Fields, keys: seq<string>, i: nat)
    ensures i < |keys| && keys[i] in item && (forall j | 0 <= j < i :: keys[j] !in item) ==> FirstPresent(item, keys) == item[keys[i]]
    ensures (forall k | k in keys :: k !in item) ==> FirstPresent(item, keys) == Nil
  {
    if keys != [] {
      FirstPresentAt(item, keys[1..], if i > 0 then i - 1 else 0);
      assert forall j | 0 <= j < |keys| - 1 :: keys[1..][j] == keys[j + 1];
    }
  }

  predicate IsMaterial(item: Fields, rd: Readers) {
    rd.resourceType(FirstPresent(item, ["resourceType", "type"])) == "mysekai_material"
  }

  function ResourceId(item: Fields, rd: Readers): int { rd.toInt(FirstPresent(item, ["resourceId", "id"])) }

  function PosKey(item: Fields, rd: Readers): string {
    var x := FirstPresent(item, ["positionX", "position_x"]);
    var z := FirstPresent(item, ["positionZ", "position_z"]);
    if x.Nil? || z.Nil? then "" else rd.positionText(x, z)
  }

  function FixtureId(item: Fields, rd: Readers): int {
    rd.toInt(FirstPresent(item, ["mysekaiSiteHarvestFixtureId", "mysekaiSiteHarvestFixtureID",
      "mysekai_site_harvest_fixture_id", "mysekaiFixtureId", "mysekaiFixtureID", "mysekai_fixture_id"]))
  }

  // ---------- the closure ----------

  predicate Wanted(d: Any, targets: set<int>, rd: Readers) {
    d.Dict? && IsMaterial(d.m, rd) && ResourceId(d.m, rd) in targets
  }

  /** A fixture that ties its id to its position. */
  predicate Ties(f: Any, rd: Readers) { f.Dict? && FixtureId(f.m, rd) > 0 && PosKey(f.m, rd) != "" }

  function IdsAt(fixtures: seq<Any>, pos: string, rd: Readers): set<int> {
    set f | f in fixtures && Ties(f, rd) && PosKey(f.m, rd) == pos :: FixtureId(f.m, rd)
  }

  function PositionsOf(fixtures: seq<Any>, id: int, rd: Readers): set<string> {
    set f | f in fixtures && Ties(f, rd) && FixtureId(f.m, rd) == id :: PosKey(f.m, rd)
  }

  function MatchedPositions(drops: seq<Any>, targets: set<int>, rd: Readers): set<string> {
    set d | d in drops && Wanted(d, targets, rd) && PosKey(d.m, rd) != "" :: PosKey(d.m, rd)
  }

  function DropIds(drops: seq<Any>, targets: set<int>, rd: Readers): set<int> {
    set d | d in drops && Wanted(d, targets, rd) && FixtureId(d.m, rd) > 0 :: FixtureId(d.m, rd)
  }

  /** Ids of matched drops, and of fixtures at matched positions. */
  function MatchedFixtureIds(drops: seq<Any>, fixtures: seq<Any>, targets: set<int>, rd: Readers): set<int> {
    DropIds(drops, targets, rd)
    + set f | f in fixtures && Ties(f, rd) && PosKey(f.m, rd) in MatchedPositions(drops, targets, rd) :: FixtureId(f.m, rd)
  }

  /** Matched positions, and positions of fixtures with matched ids. */
  function KeptPositions(drops: seq<Any>, fixtures: seq<Any>, targets: set<int>, rd: Readers): set<string> {
    MatchedPositions(drops, targets, rd)
    + set f | f in fixtures && Ties(f, rd) && FixtureId(f.m, rd) in MatchedFixtureIds(drops, fixtures, targets, rd) :: PosKey(f.m, rd)
  }

  predicate Touched(item: Any, positions: set<string>, ids: set<int>, rd: Readers) {
    item.Dict? && (PosKey(item.m, rd) in positions || (FixtureId(item.m, rd) > 0 && FixtureId(item.m, rd) in ids))
  }

  predicate KeepDrop(d: Any, targets: set<int>, positions: set<string>, ids: set<int>, rd: Readers) {
    Wanted(d, targets, rd) || Touched(d, positions, ids, rd)
  }

  function KeptDrops(drops: seq<Any>, targets: set<int>, positions: set<string>, ids: set<int>, rd: Readers): seq<Any> {
    if drops == [] then []
    else
      var last := drops[|drops| - 1];
      KeptDrops(drops[..|drops| - 1], targets, positions, ids, rd) + if KeepDrop(last, targets, positions, ids, rd) then [last] else []
  }

  function KeptFixtures(fixtures: seq<Any>, positions: set<string>, ids: set<int>, rd: Readers): seq<Any> {
    if fixtures == [] then []
    else
      var last := fixtures[|fixtures| - 1];
      KeptFixtures(fixtures[..|fixtures| - 1], positions, ids, rd) + if Touched(last, positions, ids, rd) then [last] else []
  }

  function SiteDrops(site: Fields): seq<Any> { AnySlice(Get(site, DROPS)) }

  function SiteFixtures(site: Fields): seq<Any> { AnySlice(Get(site, FIXTURES)) }

  function WantedIds(drops: seq<Any>, targets: set<int>, rd: Readers): set<int> {
    set d | d in drops && Wanted(d, targets, rd) :: ResourceId(d.m, rd)
  }

  function SiteIds(site: Fields, targets: set<int>, rd: Readers): set<int> { WantedIds(SiteDrops(site), targets, rd) }

  /** A site with its drops and fixtures cut to what is kept. */
  function FilteredSite(site: Fields, targets: set<int>, rd: Readers): Fields {
    var drops, fixtures := SiteDrops(site), SiteFixtures(site);
    var positions, ids := KeptPositions(drops, fixtures, targets, rd), MatchedFixtureIds(drops, fixtures, targets, rd);
    site[DROPS := List(KeptDrops(drops, targets, positions, ids, rd))][FIXTURES := List(KeptFixtures(fixtures, positions, ids, rd))]
  }

  /** Sites with a wanted drop. */
  function FilteredMaps(maps: seq<Any>, targets: set<int>, rd: Readers): seq<Any> {
    if maps == [] then []
    else
      var init, last := FilteredMaps(maps[..|maps| - 1], targets, rd), maps[|maps| - 1];
      if last.Dict? && SiteIds(last.m, targets, rd) != {} then init + [Dict(FilteredSite(last.m, targets, rd))] else init
  }

  function MatchedIds(maps: seq<Any>, targets: set<int>, rd: Readers): set<int> {
    if maps == [] then {}
    else
      var init, last := MatchedIds(maps[..|maps| - 1], targets, rd), maps[|maps| - 1];
      if last.Dict? then init + SiteIds(last.m, targets, rd) else init
  }

  function HarvestMaps(data: Fields): seq<Any> {
    var updated := Get(data, "updatedResources");
    if updated.Dict? then AnySlice(Get(updated.m, "userMysekaiHarvestMaps")) else []
  }

  function Output(data: Fields, maps: seq<Any>): Fields {
    map["updatedResources" := Dict(map["userMysekaiHarvestMaps" := List(maps)]),
        "upload_time" := Get(data, "upload_time"),
        "server" := Get(data, "server"),
        "source" := Str("toolbox_live")]
  }

  function Filtered(data: Fields, targets: set<int>, rd: Readers): Fields {
    Output(data, FilteredMaps(HarvestMaps(data), targets, rd))
  }

  function Targets(materialIDs: seq<int>): set<int> { set id | id in materialIDs && id > 0 }

  // ---------- what is kept, by links between drops and fixtures ----------

  /** A wanted drop has this fixture id, or stands where a fixture with it stands. */
  ghost predicate MatchedId(id: int, drops: seq<Any>, fixtures: seq<Any>, targets: set<int>, rd: Readers) {
    id > 0 && exists w | w in drops && Wanted(w, targets, rd) ::
      FixtureId(w.m, rd) == id || exists f | f in fixtures && Ties(f, rd) :: FixtureId(f.m, rd) == id && PosKey(f.m, rd) == PosKey(w.m, rd)
  }

  /** The item stands where a wanted drop stands, or where a fixture with a matched id stands, or has a
      matched id itself. */
  ghost predicate Linked(item: Any, drops: seq<Any>, fixtures: seq<Any>, targets: set<int>, rd: Readers) {
    item.Dict? && (
      || (exists w | w in drops && Wanted(w, targets, rd) :: PosKey(w.m, rd) != "" && PosKey(w.m, rd) == PosKey(item.m, rd))
      || (exists f | f in fixtures && Ties(f, rd) ::
            PosKey(f.m, rd) == PosKey(item.m, rd) && MatchedId(FixtureId(f.m, rd), drops, fixtures, targets, rd))
      || MatchedId(FixtureId(item.m, rd), drops, fixtures, targets, rd))
  }

  /** `at` lists, in order, the indices of `all` that `p` picks. */
  ghost predicate Picked<T>(at: seq<nat>, all: seq<T>, p: T -> bool) {
    && (forall i, j | 0 <= i < j < |at| :: at[i] < at[j])
    && (forall i | 0 <= i < |at| :: at[i] < |all|)
    && (forall i: nat | i < |all| :: i in at <==> p(all[i]))
  }

  /** `out` is what `p` picks of `all`: each element as often, and in the same order. */
  ghost predicate Picks<T>(out: seq<T>, all: seq<T>, p: T -> bool) {
    exists at: seq<nat> :: Picked(at, all, p) && Reads(out, all, at)
  }

  ghost predicate Reads<T>(out: seq<T>, all: seq<T>, at: seq<nat>) {
    |at| == |out| && forall i | 0 <= i < |out| :: at[i] < |all| && out[i] == all[at[i]]
  }

  ghost predicate HasWanted(site: Fields, targets: set<int>, rd: Readers) {
    exists w | w in SiteDrops(site) :: Wanted(w, targets, rd)
  }

  ghost function SitePicker(targets: set<int>, rd: Readers): Any -> bool {
    (site: Any) => site.Dict? && HasWanted(site.m, targets, rd)
  }

  ghost function DropPicker(drops: seq<Any>, fixtures: seq<Any>, targets: set<int>, rd: Readers): Any -> bool {
    (d: Any) => Wanted(d, targets, rd) || Linked(d, drops, fixtures, targets, rd)
  }

  ghost function FixturePicker(drops: seq<Any>, fixtures: seq<Any>, targets: set<int>, rd: Readers): Any -> bool {
    (f: Any) => Linked(f, drops, fixtures, targets, rd)
  }

  /** `out` is `site` with its drops cut to those that are wanted or linked, and its fixtures to those linked. */
  ghost predicate CutToLinked(site: Fields, out: Fields, targets: set<int>, rd: Readers) {
    var drops, fixtures := SiteDrops(site), SiteFixtures(site);
    && out.Keys == site.Keys + {DROPS, FIXTURES} && out[DROPS].List? && out[FIXTURES].List?
    && (forall k | k in site && k != DROPS && k != FIXTURES :: out[k] == site[k])
    && Picks(out[DROPS].items, drops, DropPicker(drops, fixtures, targets, rd))
    && Picks(out[FIXTURES].items, fixtures, FixturePicker(drops, fixtures, targets, rd))
  }

  /** `outs` are the sites with a wanted drop, in order, each cut to what is linked. */
  ghost predicate SitesCut(maps: seq<Any>, outs: seq<Any>, targets: set<int>, rd: Readers) {
    exists at: seq<nat> :: Picked(at, maps, SitePicker(targets, rd)) && CutAt(maps, outs, at, targets, rd)
  }

  ghost predicate CutAt(maps: seq<Any>, outs: seq<Any>, at: seq<nat>, targets: set<int>, rd: Readers) {
    |at| == |outs| && forall i | 0 <= i < |outs| ::
      at[i] < |maps| && maps[at[i]].Dict? && outs[i].Dict? && CutToLinked(maps[at[i]].m, outs[i].m, targets, rd)
  }

  lemma PickLast<T>(at: seq<nat>, all: seq<T>, x: T, p: T -> bool)
    requires Picked(at, all, p)
    ensures Picked(if p(x) then at + [|all|] else at, all + [x], p)
  {
    var more := if p(x) then at + [|all|] else at;
    forall i: nat | i < |all + [x]| ensures i in more <==> p((all + [x])[i]) {
      if i < |all| { assert i in more <==> i in at; }
    }
  }

  lemma PicksLast<T>(out: seq<T>, all: seq<T>, x: T, p: T -> bool)
    requires Picks(out, all, p)
    ensures Picks(if p(x) then out + [x] else out, all + [x], p)
  {
    hide Picked;
    var at: seq<nat> :| Picked(at, all, p) && Reads(out, all, at);
    PickLast(at, all, x, p);
    assert Reads(if p(x) then out + [x] else out, all + [x], if p(x) then at + [|all|] else at);
  }

  lemma PicksNone<T>(p: T -> bool)
    ensures Picks([], [], p)
  {
    assert Picked([], [], p);
  }

  /** Matched ids and positions are what the links say. */
  lemma TouchedIsLinked(item: Any, drops: seq<Any>, fixtures: seq<Any>, targets: set<int>, rd: Readers)
    ensures Touched(item, KeptPositions(drops, fixtures, targets, rd), MatchedFixtureIds(drops, fixtures, targets, rd), rd)
      <==> Linked(item, drops, fixtures, targets, rd)
  {
    hide PosKey, FixtureId, IsMaterial, ResourceId;
    forall id ensures id in MatchedFixtureIds(drops, fixtures, targets, rd) && id > 0 <==> MatchedId(id, drops, fixtures, targets, rd) {
      MatchedIdIff(id, drops, fixtures, targets, rd);
    }
  }

  lemma MatchedIdIff(id: int, drops: seq<Any>, fixtures: seq<Any>, targets: set<int>, rd: Readers)
    ensures id in MatchedFixtureIds(drops, fixtures, targets, rd) && id > 0 <==> MatchedId(id, drops, fixtures, targets, rd)
  {
    hide PosKey, FixtureId, IsMaterial, ResourceId;
    var all := MatchedFixtureIds(drops, fixtures, targets, rd);
    if MatchedId(id, drops, fixtures, targets, rd) {
      var w :| w in drops && Wanted(w, targets, rd)
        && (FixtureId(w.m, rd) == id || exists f | f in fixtures && Ties(f, rd) :: FixtureId(f.m, rd) == id && PosKey(f.m, rd) == PosKey(w.m, rd));
      assert FixtureId(w.m, rd) == id ==> id in DropIds(drops, targets, rd);
      assert PosKey(w.m, rd) != "" ==> PosKey(w.m, rd) in MatchedPositions(drops, targets, rd);
    }
  }

  lemma {:induction false} KeptDropsPick(drops: seq<Any>, targets: set<int>, positions: set<string>, ids: set<int>, rd: Readers, p: Any -> bool)
    requires forall d :: p(d) <==> KeepDrop(d, targets, positions, ids, rd)
    ensures Picks(KeptDrops(drops, targets, positions, ids, rd), drops, p)
  {
    hide Picks, KeepDrop;
    if drops == [] {
      PicksNone(p);
    } else {
      var n := |drops| - 1;
      var init := KeptDrops(drops[..n], targets, positions, ids, rd);
      KeptDropsPick(drops[..n], targets, positions, ids, rd, p);
      PicksLast(init, drops[..n], drops[n], p);
      assert drops[..n] + [drops[n]] == drops && init + [] == init;
    }
  }

  lemma {:induction false} KeptFixturesPick(fixtures: seq<Any>, positions: set<string>, ids: set<int>, rd: Readers, p: Any -> bool)
    requires forall f :: p(f) <==> Touched(f, positions, ids, rd)
    ensures Picks(KeptFixtures(fixtures, positions, ids, rd), fixtures, p)
  {
    hide Picks, Touched;
    if fixtures == [] {
      PicksNone(p);
    } else {
      var n := |fixtures| - 1;
      var init := KeptFixtures(fixtures[..n], positions, ids, rd);
      KeptFixturesPick(fixtures[..n], positions, ids, rd, p);
      PicksLast(init, fixtures[..n], fixtures[n], p);
      assert fixtures[..n] + [fixtures[n]] == fixtures && init + [] == init;
    }
  }

  lemma FilteredSiteIsCut(site: Fields, targets: set<int>, rd: Readers)
    ensures CutToLinked(site, FilteredSite(site, targets, rd), targets, rd)
  {
    hide KeptDrops, KeptFixtures, KeptPositions, MatchedFixtureIds, Wanted, Touched, Linked, Picks;
    var drops, fixtures := SiteDrops(site), SiteFixtures(site);
    var positions, ids := KeptPositions(drops, fixtures, targets, rd), MatchedFixtureIds(drops, fixtures, targets, rd);
    forall item ensures Touched(item, positions, ids, rd) <==> Linked(item, drops, fixtures, targets, rd) {
      TouchedIsLinked(item, drops, fixtures, targets, rd);
    }
    KeptDropsPick(drops, targets, positions, ids, rd, DropPicker(drops, fixtures, targets, rd));
    KeptFixturesPick(fixtures, positions, ids, rd, FixturePicker(drops, fixtures, targets, rd));
  }

  lemma WantedIdsSome(site: Fields, targets: set<int>, rd: Readers)
    ensures SiteIds(site, targets, rd) != {} <==> HasWanted(site, targets, rd)
    ensures forall id :: id in SiteIds(site, targets, rd) <==> exists w | w in SiteDrops(site) :: Wanted(w, targets, rd) && ResourceId(w.m, rd) == id
  {
    hide ResourceId, IsMaterial;
    if w :| w in SiteDrops(site) && Wanted(w, targets, rd) { assert ResourceId(w.m, rd) in SiteIds(site, targets, rd); }
    if id :| id in SiteIds(site, targets, rd) {}
  }

  lemma {:induction false} MapsAreCut(maps: seq<Any>, targets: set<int>, rd: Readers)
    ensures SitesCut(maps, FilteredMaps(maps, targets, rd), targets, rd)
  {
    hide FilteredSite, SiteIds, HasWanted, CutToLinked, Picked;
    var p := SitePicker(targets, rd);
    if maps == [] {
      NonePicked(p);
      assert CutAt([], [], [], targets, rd);
    } else {
      var n := |maps| - 1;
      var init, last := maps[..n], maps[n];
      var outs := FilteredMaps(init, targets, rd);
      MapsAreCut(init, targets, rd);
      var at: seq<nat> :| Picked(at, init, p) && CutAt(init, outs, at, targets, rd);
      PickLast(at, init, last, p);
      assert init + [last] == maps;
      if last.Dict? {
        WantedIdsSome(last.m, targets, rd);
        FilteredSiteIsCut(last.m, targets, rd);
      }
      CutAtLast(init, last, outs, at, targets, rd);
    }
  }

  lemma CutAtLast(init: seq<Any>, last: Any, outs: seq<Any>, at: seq<nat>, targets: set<int>, rd: Readers)
    requires CutAt(init, outs, at, targets, rd)
    ensures CutAt(init + [last], outs, at, targets, rd)
    ensures last.Dict? ==> forall out | CutToLinked(last.m, out, targets, rd) :: CutAt(init + [last], outs + [Dict(out)], at + [|init|], targets, rd)
  {
    hide CutToLinked;
  }

  lemma NonePicked<T>(p: T -> bool)
    ensures Picked([], [], p)
  {}

  // ---------- sorted ids ----------

  predicate Increasing(s: seq<int>) { forall i, j :: 0 <= i < j < |s| ==> s[i] < s[j] }

  function ToSet(s: seq<int>): set<int> { set x | x in s }

  /** slices.Sort, one insertion at a time. */
  function InsertId(x: int, s: seq<int>): (r: seq<int>)
    requires Increasing(s) && x !in ToSet(s)
    ensures Increasing(r) && ToSet(r) == {x} + ToSet(s)
  {
    if s == [] then [x]
    else if x < s[0] then
      assert ToSet([x] + s) == {x} + ToSet(s);
      [x] + s
    else
      assert s[0] in ToSet(s) && s == [s[0]] + s[1..] && ToSet(s) == {s[0]} + ToSet(s[1..]);
      var r := InsertId(x, s[1..]);
      PrependLeast(s[0], r, {x} + ToSet(s[1..]));
      [s[0]] + r
  }

  lemma PrependLeast(x: int, r: seq<int>, all: set<int>)
    requires Increasing(r) && ToSet(r) == all && forall y | y in all :: x < y
    ensures Increasing([x] + r) && ToSet([x] + r) == {x} + all
  {
    forall y | y in r ensures x < y { assert y in ToSet(r); }
    var all' := [x] + r;
    forall i, j | 0 <= i < j < |all'| ensures all'[i] < all'[j] {
      assert all'[j] == r[j - 1] && r[j - 1] in r;
    }
  }

  predicate NoDuplicates(s: seq<int>) { forall i, j :: 0 <= i < j < |s| ==> s[i] != s[j] }

  function SortIds(s: seq<int>): (r: seq<int>)
    requires NoDuplicates(s)
    ensures Increasing(r) && ToSet(r) == ToSet(s)
  {
    if s == [] then []
    else
      var r := SortIds(s[1..]);
      assert s == [s[0]] + s[1..] && ToSet(s) == {s[0]} + ToSet(s[1..]);
      InsertId(s[0], r)
  }

  /** A set has one increasing list. */
  lemma {:induction false} IncreasingUnique(s: seq<int>, t: seq<int>)
    requires Increasing(s) && Increasing(t) && ToSet(s) == ToSet(t)
    ensures s == t
  {
    assert t != [] ==> t[0] in ToSet(t);
    assert s != [] ==> s[0] in ToSet(s);
    if s != [] {
      assert s[0] in t && t[0] in s;
      assert s == [s[0]] + s[1..] && t == [t[0]] + t[1..];
      forall x ensures x in s[1..] <==> x in t[1..] {
        assert x in ToSet(s) <==> x in ToSet(t);
      }
      IncreasingUnique(s[1..], t[1..]);
    }
  }

  // ---------- the loops ----------

  function At<K, V>(m: map<K, set<V>>, k: K): set<V> { if k in m then m[k] else {} }

  /** The first loop over a site's fixtures. */
  method IndexFixtures(fixtures: seq<Any>, rd: Readers)
    returns (fixtureIDsByPosition: map<string, set<int>>, positionsByFixtureID: map<int, set<string>>)
    ensures forall pos :: At(fixtureIDsByPosition, pos) == IdsAt(fixtures, pos, rd)
    ensures forall id :: At(positionsByFixtureID, id) == PositionsOf(fixtures, id, rd)
  {
    hide FixtureId, PosKey, IdsAt, PositionsOf;
    IndexStart(rd);
    fixtureIDsByPosition, positionsByFixtureID := map[], map[];
    for i := 0 to |fixtures|
      invariant forall pos :: At(fixtureIDsByPosition, pos) == IdsAt(fixtures[..i], pos, rd)
      invariant forall id :: At(positionsByFixtureID, id) == PositionsOf(fixtures[..i], id, rd)
    {
      var rawFixture := fixtures[i];
      IndexStep(fixtures[..i], rawFixture, rd);
      assert fixtures[..i] + [rawFixture] == fixtures[..i + 1];
      if !rawFixture.Dict? { continue; }
      var fixtureID := FixtureId(rawFixture.m, rd);
      if fixtureID <= 0 { continue; }
      var posKey := PosKey(rawFixture.m, rd);
      if posKey == "" { continue; }
      if posKey !in fixtureIDsByPosition { fixtureIDsByPosition := fixtureIDsByPosition[posKey := {}]; }
      fixtureIDsByPosition := fixtureIDsByPosition[posKey := fixtureIDsByPosition[posKey] + {fixtureID}];
      if fixtureID !in positionsByFixtureID { positionsByFixtureID := positionsByFixtureID[fixtureID := {}]; }
      positionsByFixtureID := positionsByFixtureID[fixtureID := positionsByFixtureID[fixtureID] + {posKey}];
    }
    assert fixtures[..|fixtures|] == fixtures;
  }

  lemma IndexStart(rd: Readers)
    ensures (forall pos :: IdsAt([], pos, rd) == {}) && (forall id :: PositionsOf([], id, rd) == {})
  {}

  lemma IndexStep(fixtures: seq<Any>, f: Any, rd: Readers)
    ensures forall pos ::
      IdsAt(fixtures + [f], pos, rd) == IdsAt(fixtures, pos, rd) + if Ties(f, rd) && PosKey(f.m, rd) == pos then {FixtureId(f.m, rd)} else {}
    ensures forall id ::
      PositionsOf(fixtures + [f], id, rd) == PositionsOf(fixtures, id, rd) + if Ties(f, rd) && FixtureId(f.m, rd) == id then {PosKey(f.m, rd)} else {}
  {
    hide FixtureId, PosKey;
    assert forall g :: g in fixtures + [f] <==> g in fixtures || g == f;
  }

  /** The loop over a site's drops. The list and set of matched ids run on from site to site. */
  method MatchDrops(drops: seq<Any>, ghost fixtures: seq<Any>, fixtureIDsByPosition: map<string, set<int>>, targets: set<int>, rd: Readers,
                    idsBefore: seq<int>, setBefore: set<int>)
    returns (matchedPositions: set<string>, matchedFixtureIDs: set<int>, siteMatched: bool, matchedIDs: seq<int>, matchedSet: set<int>)
    requires forall pos :: At(fixtureIDsByPosition, pos) == IdsAt(fixtures, pos, rd)
    requires NoDuplicates(idsBefore) && ToSet(idsBefore) == setBefore
    ensures matchedPositions == MatchedPositions(drops, targets, rd)
    ensures matchedFixtureIDs == MatchedFixtureIds(drops, fixtures, targets, rd)
    ensures siteMatched <==> WantedIds(drops, targets, rd) != {}
    ensures NoDuplicates(matchedIDs) && ToSet(matchedIDs) == matchedSet == setBefore + WantedIds(drops, targets, rd)
  {
    hide FixtureId, PosKey, IsMaterial, ResourceId, IdsAt, MatchedPositions, MatchedFixtureIds, WantedIds, NoDuplicates, ToSet;
    MatchStart(fixtures, targets, rd);
    matchedPositions, matchedFixtureIDs, siteMatched := {}, {}, false;
    matchedIDs, matchedSet := idsBefore, setBefore;
    for i := 0 to |drops|
      invariant matchedPositions == MatchedPositions(drops[..i], targets, rd)
      invariant matchedFixtureIDs == MatchedFixtureIds(drops[..i], fixtures, targets, rd)
      invariant siteMatched <==> WantedIds(drops[..i], targets, rd) != {}
      invariant NoDuplicates(matchedIDs) && ToSet(matchedIDs) == matchedSet == setBefore + WantedIds(drops[..i], targets, rd)
    {
      var rawDrop := drops[i];
      MatchStep(drops[..i], rawDrop, fixtures, targets, rd);
      assert drops[..i] + [rawDrop] == drops[..i + 1];
      if !rawDrop.Dict? { continue; }
      var drop := rawDrop.m;
      var resourceID := ResourceId(drop, rd);
      if !IsMaterial(drop, rd) { continue; }
      if resourceID !in targets { continue; }
      siteMatched := true;
      if resourceID !in matchedSet {
        AppendId(matchedIDs, resourceID);
        matchedSet := matchedSet + {resourceID};
        matchedIDs := matchedIDs + [resourceID];
      }
      var key := PosKey(drop, rd);
      if key != "" {
        matchedPositions := matchedPositions + {key};
        matchedFixtureIDs := matchedFixtureIDs + At(fixtureIDsByPosition, key);
      }
      var fixtureID := FixtureId(drop, rd);
      if fixtureID > 0 { matchedFixtureIDs := matchedFixtureIDs + {fixtureID}; }
    }
    assert drops[..|drops|] == drops;
  }

  lemma MatchStart(fixtures: seq<Any>, targets: set<int>, rd: Readers)
    ensures MatchedPositions([], targets, rd) == {} && MatchedFixtureIds([], fixtures, targets, rd) == {} && WantedIds([], targets, rd) == {}
  {}

  lemma WantedStep(drops: seq<Any>, d: Any, targets: set<int>, rd: Readers)
    ensures var wanted := Wanted(d, targets, rd);
      && WantedIds(drops + [d], targets, rd) == WantedIds(drops, targets, rd) + (if wanted then {ResourceId(d.m, rd)} else {})
      && MatchedPositions(drops + [d], targets, rd) ==
         MatchedPositions(drops, targets, rd) + (if wanted && PosKey(d.m, rd) != "" then {PosKey(d.m, rd)} else {})
      && DropIds(drops + [d], targets, rd) ==
         DropIds(drops, targets, rd) + (if wanted && FixtureId(d.m, rd) > 0 then {FixtureId(d.m, rd)} else {})
  {
    hide FixtureId, PosKey, IsMaterial, ResourceId;
    assert forall g :: g in drops + [d] <==> g in drops || g == d;
  }

  lemma MatchedIdStep(drops: seq<Any>, d: Any, fixtures: seq<Any>, targets: set<int>, rd: Readers)
    ensures var wanted := Wanted(d, targets, rd);
      MatchedFixtureIds(drops + [d], fixtures, targets, rd) ==
        MatchedFixtureIds(drops, fixtures, targets, rd)
        + (if wanted && PosKey(d.m, rd) != "" then IdsAt(fixtures, PosKey(d.m, rd), rd) else {})
        + (if wanted && FixtureId(d.m, rd) > 0 then {FixtureId(d.m, rd)} else {})
  {
    hide FixtureId, PosKey, IsMaterial, ResourceId, MatchedPositions, DropIds, WantedIds;
    WantedStep(drops, d, targets, rd);
  }

  lemma MatchStep(drops: seq<Any>, d: Any, fixtures: seq<Any>, targets: set<int>, rd: Readers)
    ensures var wanted := Wanted(d, targets, rd);
      && WantedIds(drops + [d], targets, rd) == WantedIds(drops, targets, rd) + (if wanted then {ResourceId(d.m, rd)} else {})
      && MatchedPositions(drops + [d], targets, rd) ==
         MatchedPositions(drops, targets, rd) + (if wanted && PosKey(d.m, rd) != "" then {PosKey(d.m, rd)} else {})
      && MatchedFixtureIds(drops + [d], fixtures, targets, rd) ==
         MatchedFixtureIds(drops, fixtures, targets, rd)
         + (if wanted && PosKey(d.m, rd) != "" then IdsAt(fixtures, PosKey(d.m, rd), rd) else {})
         + (if wanted && FixtureId(d.m, rd) > 0 then {FixtureId(d.m, rd)} else {})
  {
    hide Wanted, FixtureId, PosKey, MatchedFixtureIds, MatchedPositions, DropIds, WantedIds;
    WantedStep(drops, d, targets, rd);
    MatchedIdStep(drops, d, fixtures, targets, rd);
  }

  lemma AppendId(s: seq<int>, x: int)
    requires NoDuplicates(s)
    ensures ToSet(s + [x]) == ToSet(s) + {x}
    ensures x !in ToSet(s) ==> NoDuplicates(s + [x])
  {}

  /** The loops over matched fixture ids and over the positions of each. */
  method CollectPositions(matchedPositions: set<string>, matchedFixtureIDs: set<int>, ghost fixtures: seq<Any>,
                          positionsByFixtureID: map<int, set<string>>, rd: Readers) returns (keptPositions: set<string>)
    requires forall id :: At(positionsByFixtureID, id) == PositionsOf(fixtures, id, rd)
    ensures keptPositions == matchedPositions + set f | f in fixtures && Ties(f, rd) && FixtureId(f.m, rd) in matchedFixtureIDs :: PosKey(f.m, rd)
  {
    hide FixtureId, PosKey;
    keptPositions := matchedPositions;
    var rest := matchedFixtureIDs;
    while exists id :: id in rest
      invariant rest <= matchedFixtureIDs
      invariant keptPositions == matchedPositions
        + set f | f in fixtures && Ties(f, rd) && FixtureId(f.m, rd) in matchedFixtureIDs - rest :: PosKey(f.m, rd)
      decreases rest
    {
      var fixtureID :| fixtureID in rest;
      rest := rest - {fixtureID};
      keptPositions := keptPositions + At(positionsByFixtureID, fixtureID);
    }
  }

  method KeepDrops(drops: seq<Any>, targets: set<int>, keptPositions: set<string>, matchedFixtureIDs: set<int>, rd: Readers) returns (keptDrops: seq<Any>)
    ensures keptDrops == KeptDrops(drops, targets, keptPositions, matchedFixtureIDs, rd)
  {
    keptDrops := [];
    for i := 0 to |drops|
      invariant keptDrops == KeptDrops(drops[..i], targets, keptPositions, matchedFixtureIDs, rd)
    {
      assert drops[..i + 1][..i] == drops[..i];
      var rawDrop := drops[i];
      if !rawDrop.Dict? { continue; }
      var drop := rawDrop.m;
      var keep := false;
      if IsMaterial(drop, rd) { keep := ResourceId(drop, rd) in targets; }
      if !keep {
        if PosKey(drop, rd) in keptPositions { keep := true; }
      }
      if !keep {
        var fixtureID := FixtureId(drop, rd);
        if fixtureID > 0 { keep := fixtureID in matchedFixtureIDs; }
      }
      if keep { keptDrops := keptDrops + [rawDrop]; }
    }
    assert drops[..|drops|] == drops;
  }

  method KeepFixtures(fixtures: seq<Any>, keptPositions: set<string>, matchedFixtureIDs: set<int>, rd: Readers) returns (keptFixtures: seq<Any>)
    ensures keptFixtures == KeptFixtures(fixtures, keptPositions, matchedFixtureIDs, rd)
  {
    keptFixtures := [];
    for i := 0 to |fixtures|
      invariant keptFixtures == KeptFixtures(fixtures[..i], keptPositions, matchedFixtureIDs, rd)
    {
      assert fixtures[..i + 1][..i] == fixtures[..i];
      var rawFixture := fixtures[i];
      if !rawFixture.Dict? { continue; }
      var fixture := rawFixture.m;
      if PosKey(fixture, rd) in keptPositions {
        keptFixtures := keptFixtures + [rawFixture];
        continue;
      }
      var fixtureID := FixtureId(fixture, rd);
      if fixtureID > 0 {
        if fixtureID in matchedFixtureIDs { keptFixtures := keptFixtures + [rawFixture]; }
      }
    }
    assert fixtures[..|fixtures|] == fixtures;
  }

  method FilterBirthdayPartyPayload(data: Fields, materialIDs: seq<int>, rd: Readers) returns (filtered: Fields, matchedIDs: seq<int>, empty: bool)
    ensures filtered == Filtered(data, Targets(materialIDs), rd)
    ensures Increasing(matchedIDs) && ToSet(matchedIDs) == MatchedIds(HarvestMaps(data), Targets(materialIDs), rd)
    ensures empty <==> matchedIDs == []
    ensures filtered.Keys == {"updatedResources", "upload_time", "server", "source"}
    ensures filtered["upload_time"] == Get(data, "upload_time") && filtered["server"] == Get(data, "server")
    ensures filtered["source"] == Str("toolbox_live")
    ensures filtered["updatedResources"] == Dict(map["userMysekaiHarvestMaps" := List(HarvestMaps(filtered))])
    ensures SitesCut(HarvestMaps(data), HarvestMaps(filtered), (set id | id in materialIDs && id > 0), rd)
    ensures forall id :: id in matchedIDs <==> id > 0 && id in materialIDs && Dropped(id, HarvestMaps(data), rd)
  {
    hide FilteredSite, SiteIds, WantedIds, MatchedFixtureIds, KeptPositions, Increasing, NoDuplicates, HarvestMaps, SiteDrops, SiteFixtures, SitesCut, Dropped;
    var targets: set<int> := {};
    for i := 0 to |materialIDs|
      invariant targets == Targets(materialIDs[..i])
    {
      if materialIDs[i] > 0 { targets := targets + {materialIDs[i]}; }
    }
    assert materialIDs[..|materialIDs|] == materialIDs;

    var filteredMaps: seq<Any> := [];
    var matched: seq<int>, matchedSet: set<int> := [], {};
    NoIds();
    var maps := HarvestMaps(data);
    for i := 0 to |maps|
      invariant filteredMaps == FilteredMaps(maps[..i], targets, rd)
      invariant NoDuplicates(matched) && ToSet(matched) == matchedSet == MatchedIds(maps[..i], targets, rd)
    {
      assert maps[..i + 1][..i] == maps[..i];
      if !maps[i].Dict? { continue; }
      var siteMap := maps[i].m;
      var copiedMap, siteMatched;
      copiedMap, siteMatched, matched, matchedSet := FilterSite(siteMap, targets, rd, matched, matchedSet);
      if !siteMatched { continue; }
      filteredMaps := filteredMaps + [Dict(copiedMap)];
    }
    assert maps[..|maps|] == maps;
    matchedIDs := SortIds(matched);
    filtered := Output(data, filteredMaps);
    empty := |matchedIDs| == 0;
    OutputMaps(data, filteredMaps);
    MapsAreCut(maps, targets, rd);
    MatchedListIs(matchedIDs, materialIDs, maps, rd);
  }

  /** Some site has a drop of this material. */
  ghost predicate Dropped(id: int, maps: seq<Any>, rd: Readers) {
    exists site, w | site in maps && site.Dict? && w in SiteDrops(site.m) :: w.Dict? && IsMaterial(w.m, rd) && ResourceId(w.m, rd) == id
  }

  lemma {:induction false} MatchedIdsAre(maps: seq<Any>, targets: set<int>, rd: Readers, id: int)
    ensures id in MatchedIds(maps, targets, rd) <==> id in targets && Dropped(id, maps, rd)
  {
    hide IsMaterial, ResourceId, SiteDrops;
    if maps != [] {
      var init, last := maps[..|maps| - 1], maps[|maps| - 1];
      MatchedIdsAre(init, targets, rd, id);
      assert forall site :: site in maps <==> site in init || site == last;
    }
  }

  lemma MatchedListIs(matchedIDs: seq<int>, materialIDs: seq<int>, maps: seq<Any>, rd: Readers)
    requires ToSet(matchedIDs) == MatchedIds(maps, Targets(materialIDs), rd)
    ensures forall id :: id in matchedIDs <==> id > 0 && id in materialIDs && Dropped(id, maps, rd)
  {
    hide MatchedIds, Dropped;
    forall id ensures id in matchedIDs <==> id > 0 && id in materialIDs && Dropped(id, maps, rd) {
      MatchedIdsAre(maps, Targets(materialIDs), rd, id);
      assert id in matchedIDs <==> id in ToSet(matchedIDs);
    }
  }

  lemma OutputMaps(data: Fields, maps: seq<Any>)
    ensures HarvestMaps(Output(data, maps)) == maps
  {}

  lemma NoIds()
    ensures NoDuplicates([]) && ToSet([]) == {}
  {}

  /** One pass of the loop over sites. */
  method FilterSite(siteMap: Fields, targets: set<int>, rd: Readers, idsBefore: seq<int>, setBefore: set<int>)
    returns (copiedMap: Fields, siteMatched: bool, matchedIDs: seq<int>, matchedSet: set<int>)
    requires NoDuplicates(idsBefore) && ToSet(idsBefore) == setBefore
    ensures siteMatched <==> SiteIds(siteMap, targets, rd) != {}
    ensures siteMatched <==> HasWanted(siteMap, targets, rd)
    ensures siteMatched ==> copiedMap == FilteredSite(siteMap, targets, rd)
    ensures siteMatched ==> CutToLinked(siteMap, copiedMap, targets, rd)
    ensures NoDuplicates(matchedIDs) && ToSet(matchedIDs) == matchedSet == setBefore + SiteIds(siteMap, targets, rd)
  {
    hide WantedIds, MatchedFixtureIds, MatchedPositions, KeptDrops, KeptFixtures, NoDuplicates, ToSet;
    WantedIdsSome(siteMap, targets, rd);
    FilteredSiteIsCut(siteMap, targets, rd);
    hide HasWanted, CutToLinked;
    var drops, fixtures := SiteDrops(siteMap), SiteFixtures(siteMap);
    var fixtureIDsByPosition, positionsByFixtureID := IndexFixtures(fixtures, rd);
    var matchedPositions, matchedFixtureIDs;
    matchedPositions, matchedFixtureIDs, siteMatched, matchedIDs, matchedSet :=
      MatchDrops(drops, fixtures, fixtureIDsByPosition, targets, rd, idsBefore, setBefore);
    if !siteMatched { copiedMap := siteMap; return; }
    var keptPositions := CollectPositions(matchedPositions, matchedFixtureIDs, fixtures, positionsByFixtureID, rd);
    var keptDrops := KeepDrops(drops, targets, keptPositions, matchedFixtureIDs, rd);
    var keptFixtures := KeepFixtures(fixtures, keptPositions, matchedFixtureIDs, rd);
    copiedMap := siteMap[DROPS := List(keptDrops)][FIXTURES := List(keptFixtures)];
  }
}

/** The birthday filter is idempotent, and additive in the wanted materials. */
module BirthdayFilterLaws {
  import opened AnyValue
  import opened BirthdayFilter

  // ---------- membership in the kept lists ----------

  lemma {:induction false} KeptDropsAre(drops: seq<Any>, targets: set<int>, positions: set<string>, ids: set<int>, rd: Readers, d: Any)
    ensures d in KeptDrops(drops, targets, positions, ids, rd) <==> d in drops && KeepDrop(d, targets, positions, ids, rd)
  {
    hide KeepDrop;
    if drops != [] {
      var n := |drops| - 1;
      KeptDropsAre(drops[..n], targets, positions, ids, rd, d);
      assert drops == drops[..n] + [drops[n]];
    }
  }

  lemma {:induction false} KeptFixturesAre(fixtures: seq<Any>, positions: set<string>, ids: set<int>, rd: Readers, f: Any)
    ensures f in KeptFixtures(fixtures, positions, ids, rd) <==> f in fixtures && Touched(f, positions, ids, rd)
  {
    hide Touched;
    if fixtures != [] {
      var n := |fixtures| - 1;
      KeptFixturesAre(fixtures[..n], positions, ids, rd, f);
      assert fixtures == fixtures[..n] + [fixtures[n]];
    }
  }

  /** Filtering what is kept keeps it all. */
  lemma {:induction false} KeptDropsAgain(drops: seq<Any>, targets: set<int>, positions: set<string>, ids: set<int>, rd: Readers)
    ensures var kept := KeptDrops(drops, targets, positions, ids, rd); KeptDrops(kept, targets, positions, ids, rd) == kept
  {
    hide KeepDrop;
    if drops != [] {
      var n := |drops| - 1;
      KeptDropsAgain(drops[..n], targets, positions, ids, rd);
      var init := KeptDrops(drops[..n], targets, positions, ids, rd);
      var more := init + [drops[n]];
      assert more[..|more| - 1] == init && init + [] == init;
    }
  }

  lemma {:induction false} KeptFixturesAgain(fixtures: seq<Any>, positions: set<string>, ids: set<int>, rd: Readers)
    ensures var kept := KeptFixtures(fixtures, positions, ids, rd); KeptFixtures(kept, positions, ids, rd) == kept
  {
    hide Touched;
    if fixtures != [] {
      var n := |fixtures| - 1;
      KeptFixturesAgain(fixtures[..n], positions, ids, rd);
      var init := KeptFixtures(fixtures[..n], positions, ids, rd);
      var more := init + [fixtures[n]];
      assert more[..|more| - 1] == init && init + [] == init;
    }
  }

  // ---------- a filtered site reproduces its own matches ----------

  /** The kept drops and fixtures of a site have the matched positions, matched ids and kept positions of the
      whole site. */
  lemma SameClosure(drops: seq<Any>, fixtures: seq<Any>, targets: set<int>, rd: Readers)
    ensures var positions, ids := KeptPositions(drops, fixtures, targets, rd), MatchedFixtureIds(drops, fixtures, targets, rd);
      var drops', fixtures' := KeptDrops(drops, targets, positions, ids, rd), KeptFixtures(fixtures, positions, ids, rd);
      && WantedIds(drops', targets, rd) == WantedIds(drops, targets, rd)
      && MatchedPositions(drops', targets, rd) == MatchedPositions(drops, targets, rd)
      && MatchedFixtureIds(drops', fixtures', targets, rd) == ids
      && KeptPositions(drops', fixtures', targets, rd) == positions
  {
    hide PosKey, FixtureId, IsMaterial, ResourceId, KeptDrops, KeptFixtures;
    var positions, ids := KeptPositions(drops, fixtures, targets, rd), MatchedFixtureIds(drops, fixtures, targets, rd);
    var drops', fixtures' := KeptDrops(drops, targets, positions, ids, rd), KeptFixtures(fixtures, positions, ids, rd);
    forall d ensures d in drops' && Wanted(d, targets, rd) <==> d in drops && Wanted(d, targets, rd) {
      KeptDropsAre(drops, targets, positions, ids, rd, d);
    }
    forall f ensures f in fixtures' <==> f in fixtures && Touched(f, positions, ids, rd) {
      KeptFixturesAre(fixtures, positions, ids, rd, f);
    }
    assert MatchedPositions(drops', targets, rd) == MatchedPositions(drops, targets, rd);
    assert DropIds(drops', targets, rd) == DropIds(drops, targets, rd);
    assert MatchedFixtureIds(drops', fixtures', targets, rd) == ids;
  }

  lemma SiteIdempotent(site: Fields, targets: set<int>, rd: Readers)
    ensures var once := FilteredSite(site, targets, rd);
      && FilteredSite(once, targets, rd) == once
      && SiteIds(once, targets, rd) == SiteIds(site, targets, rd)
  {
    hide KeptPositions, MatchedFixtureIds, MatchedPositions, KeptDrops, KeptFixtures, WantedIds;
    var drops, fixtures := SiteDrops(site), SiteFixtures(site);
    var positions, ids := KeptPositions(drops, fixtures, targets, rd), MatchedFixtureIds(drops, fixtures, targets, rd);
    SameClosure(drops, fixtures, targets, rd);
    KeptDropsAgain(drops, targets, positions, ids, rd);
    KeptFixturesAgain(fixtures, positions, ids, rd);
    var once := FilteredSite(site, targets, rd);
    assert SiteDrops(once) == KeptDrops(drops, targets, positions, ids, rd);
    assert SiteFixtures(once) == KeptFixtures(fixtures, positions, ids, rd);
  }

  lemma {:induction false} MapsIdempotent(maps: seq<Any>, targets: set<int>, rd: Readers)
    ensures var once := FilteredMaps(maps, targets, rd);
      FilteredMaps(once, targets, rd) == once && MatchedIds(once, targets, rd) == MatchedIds(maps, targets, rd)
  {
    hide FilteredSite, SiteIds;
    if maps != [] {
      var n := |maps| - 1;
      MapsIdempotent(maps[..n], targets, rd);
      var last := maps[n];
      if last.Dict? && SiteIds(last.m, targets, rd) != {} {
        SiteIdempotent(last.m, targets, rd);
        var init := FilteredMaps(maps[..n], targets, rd);
        assert (init + [Dict(FilteredSite(last.m, targets, rd))])[..|init|] == init;
      }
    }
  }

  /** Filtering the filter's own output gives the same payload and the same matched ids, and so the same flag. */
  lemma Idempotent(data: Fields, targets: set<int>, rd: Readers)
    ensures var once := Filtered(data, targets, rd);
      && Filtered(once, targets, rd) == once
      && MatchedIds(HarvestMaps(once), targets, rd) == MatchedIds(HarvestMaps(data), targets, rd)
  {
    hide FilteredMaps, MatchedIds;
    MapsIdempotent(HarvestMaps(data), targets, rd);
    var once := Filtered(data, targets, rd);
    assert HarvestMaps(once) == FilteredMaps(HarvestMaps(data), targets, rd);
  }

  // ---------- additivity ----------

  /** The indices of the drops that a site keeps. */
  ghost function DropIndices(site: Fields, targets: set<int>, rd: Readers): set<nat> {
    var drops, fixtures := SiteDrops(site), SiteFixtures(site);
    set i: nat | i < |drops| &&
      KeepDrop(drops[i], targets, KeptPositions(drops, fixtures, targets, rd), MatchedFixtureIds(drops, fixtures, targets, rd), rd)
  }

  ghost function FixtureIndices(site: Fields, targets: set<int>, rd: Readers): set<nat> {
    var drops, fixtures := SiteDrops(site), SiteFixtures(site);
    set i: nat | i < |fixtures| &&
      Touched(fixtures[i], KeptPositions(drops, fixtures, targets, rd), MatchedFixtureIds(drops, fixtures, targets, rd), rd)
  }

  lemma ClosureAdds(drops: seq<Any>, fixtures: seq<Any>, s: set<int>, t: set<int>, rd: Readers)
    ensures MatchedPositions(drops, s + t, rd) == MatchedPositions(drops, s, rd) + MatchedPositions(drops, t, rd)
    ensures MatchedFixtureIds(drops, fixtures, s + t, rd) == MatchedFixtureIds(drops, fixtures, s, rd) + MatchedFixtureIds(drops, fixtures, t, rd)
    ensures KeptPositions(drops, fixtures, s + t, rd) == KeptPositions(drops, fixtures, s, rd) + KeptPositions(drops, fixtures, t, rd)
    ensures WantedIds(drops, s + t, rd) == WantedIds(drops, s, rd) + WantedIds(drops, t, rd)
  {
    hide PosKey, FixtureId, IsMaterial, ResourceId;
    assert MatchedPositions(drops, s + t, rd) == MatchedPositions(drops, s, rd) + MatchedPositions(drops, t, rd);
    assert DropIds(drops, s + t, rd) == DropIds(drops, s, rd) + DropIds(drops, t, rd);
    assert MatchedFixtureIds(drops, fixtures, s + t, rd) == MatchedFixtureIds(drops, fixtures, s, rd) + MatchedFixtureIds(drops, fixtures, t, rd);
  }

  /** What is kept for two sets of materials together is what is kept for each. */
  lemma Additive(site: Fields, s: set<int>, t: set<int>, rd: Readers)
    ensures DropIndices(site, s + t, rd) == DropIndices(site, s, rd) + DropIndices(site, t, rd)
    ensures FixtureIndices(site, s + t, rd) == FixtureIndices(site, s, rd) + FixtureIndices(site, t, rd)
    ensures SiteIds(site, s + t, rd) == SiteIds(site, s, rd) + SiteIds(site, t, rd)
  {
    hide PosKey, FixtureId, IsMaterial, ResourceId, KeptPositions, MatchedFixtureIds, MatchedPositions, WantedIds;
    ClosureAdds(SiteDrops(site), SiteFixtures(site), s, t, rd);
  }

  /** A site that is not output keeps nothing, so the index sets speak for the output. */
  lemma UnmatchedKeepsNothing(site: Fields, targets: set<int>, rd: Readers)
    requires SiteIds(site, targets, rd) == {}
    ensures DropIndices(site, targets, rd) == {} && FixtureIndices(site, targets, rd) == {}
  {
    hide PosKey, FixtureId, IsMaterial, ResourceId;
    var drops := SiteDrops(site);
    assert forall d | d in drops && Wanted(d, targets, rd) :: ResourceId(d.m, rd) in SiteIds(site, targets, rd);
    assert MatchedPositions(drops, targets, rd) == {} && DropIds(drops, targets, rd) == {};
  }

  /** More materials keep no less. */
  lemma Monotone(site: Fields, s: set<int>, t: set<int>, rd: Readers)
    requires s <= t
    ensures DropIndices(site, s, rd) <= DropIndices(site, t, rd) && FixtureIndices(site, s, rd) <= FixtureIndices(site, t, rd)
  {
    assert s + t == t;
    Additive(site, s, t, rd);
  }

  /** Ids are matched exactly if some site is output. */
  lemma {:induction false} EmptyIffNoSite(maps: seq<Any>, targets: set<int>, rd: Readers)
    ensures MatchedIds(maps, targets, rd) == {} <==> FilteredMaps(maps, targets, rd) == []
    ensures MatchedIds(maps, targets, rd) <= targets
  {
    hide FilteredSite;
    if maps != [] { EmptyIffNoSite(maps[..|maps| - 1], targets, rd); }
  }

  // ---------- how an item is read ----------

  function Either(item: Fields, key: string, older: string): Any {
    if key in item then item[key] else if older in item then item[older] else Nil
  }

  lemma FirstOfTwo(item: Fields, key: string, older: string)
    ensures FirstPresent(item, [key, older]) == Either(item, key, older)
  {
    FirstPresentAt(item, [key, older], 0);
    FirstPresentAt(item, [key, older], 1);
  }

  /** What an item is read by: each key in its own spelling, else in the older one. */
  lemma ItemReadings(item: Fields, rd: Readers)
    ensures IsMaterial(item, rd) <==> rd.resourceType(Either(item, "resourceType", "type")) == "mysekai_material"
    ensures ResourceId(item, rd) == rd.toInt(Either(item, "resourceId", "id"))
    ensures var x, z := Either(item, "positionX", "position_x"), Either(item, "positionZ", "position_z");
      PosKey(item, rd) == if x.Nil? || z.Nil? then "" else rd.positionText(x, z)
  {
    hide FirstPresent;
    FirstOfTwo(item, "resourceType", "type");
    FirstOfTwo(item, "resourceId", "id");
    FirstOfTwo(item, "positionX", "position_x");
    FirstOfTwo(item, "positionZ", "position_z");
  }

  /** The fixture id goes by six spellings, of which the first that is there counts. */
  lemma FixtureIdReading(item: Fields, rd: Readers, i: nat)
    requires i < 6
    requires var keys := ["mysekaiSiteHarvestFixtureId", "mysekaiSiteHarvestFixtureID", "mysekai_site_harvest_fixture_id",
                          "mysekaiFixtureId", "mysekaiFixtureID", "mysekai_fixture_id"];
      keys[i] in item && forall j | 0 <= j < i :: keys[j] !in item
    ensures var keys := ["mysekaiSiteHarvestFixtureId", "mysekaiSiteHarvestFixtureID", "mysekai_site_harvest_fixture_id",
                         "mysekaiFixtureId", "mysekaiFixtureID", "mysekai_fixture_id"];
      FixtureId(item, rd) == rd.toInt(item[keys[i]])
  {
    FirstPresentAt(item, ["mysekaiSiteHarvestFixtureId", "mysekaiSiteHarvestFixtureID", "mysekai_site_harvest_fixture_id",
                          "mysekaiFixtureId", "mysekaiFixtureID", "mysekai_fixture_id"], i);
  }

  /** Which keys a site and a payload are read by; anything but a list counts as empty. */
  lemma SiteReadings(site: Fields, data: Fields)
    ensures "userMysekaiSiteHarvestResourceDrops" in site && site["userMysekaiSiteHarvestResourceDrops"].List? ==>
      SiteDrops(site) == site["userMysekaiSiteHarvestResourceDrops"].items
    ensures "userMysekaiSiteHarvestFixtures" in site && site["userMysekaiSiteHarvestFixtures"].List? ==>
      SiteFixtures(site) == site["userMysekaiSiteHarvestFixtures"].items
    ensures "userMysekaiSiteHarvestResourceDrops" !in site ==> SiteDrops(site) == []
    ensures "userMysekaiSiteHarvestFixtures" !in site ==> SiteFixtures(site) == []
    ensures "updatedResources" in data && data["updatedResources"].Dict? ==>
      (var u := data["updatedResources"].m;
       "userMysekaiHarvestMaps" in u && u["userMysekaiHarvestMaps"].List? ==> HarvestMaps(data) == u["userMysekaiHarvestMaps"].items)
    ensures "updatedResources" !in data ==> HarvestMaps(data) == []
  {}
}

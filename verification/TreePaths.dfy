/** Depth and map keys of a wire tree, told by the paths that lead into it. */
module TreePaths {
  import opened Wire
  import opened Projection

  /** The path leads from node to child, by index. */
  predicate Leads(t: Tree, path: seq<nat>)
    decreases |path|
  {
    path == [] || (IsNode(t) && path[0] < |t.kids| && Leads(t.kids[path[0]], path[1..]))
  }

  function NodeAt(t: Tree, path: seq<nat>): Tree
    requires Leads(t, path)
    decreases |path|
  {
    if path == [] then t else NodeAt(t.kids[path[0]], path[1..])
  }

  /** A container is one deeper than its deepest child; an empty one counts for no more than a leaf. */
  lemma {:induction false} DeepestIs(kids: seq<Tree>)
    ensures kids == [] ==> Deepest(kids) == -1
    ensures forall k | k in kids :: Depth(k) <= Deepest(kids)
    ensures kids != [] ==> exists i | 0 <= i < |kids| :: Depth(kids[i]) == Deepest(kids)
  {
    hide Depth;
    if kids != [] {
      DeepestIs(kids[1..]);
      if kids[1..] != [] {
        var i :| 0 <= i < |kids[1..]| && Depth(kids[1..][i]) == Deepest(kids[1..]);
        assert kids[i + 1] == kids[1..][i];
      }
    }
  }

  /** The depth of a tree is the length of its longest path. */
  lemma {:induction false} DepthIff(t: Tree, d: nat)
    ensures Depth(t) >= d <==> exists path :: |path| == d && Leads(t, path)
    decreases d
  {
    if d == 0 {
      assert Leads(t, []);
    } else if IsNode(t) {
      DeepestIs(t.kids);
      if path :| |path| == d && Leads(t, path) {
        DepthIff(t.kids[path[0]], d - 1);
        assert |path[1..]| == d - 1;
      }
      if Depth(t) >= d && t.kids != [] {
        var i :| 0 <= i < |t.kids| && Depth(t.kids[i]) == Deepest(t.kids);
        DepthIff(t.kids[i], d - 1);
        var rest :| |rest| == d - 1 && Leads(t.kids[i], rest);
        var path := [i as nat] + rest;
        assert path[1..] == rest && Leads(t, path);
      }
    }
  }

  /** Every map key that a path leads to is a str. */
  ghost predicate KeysAreStr(t: Tree) {
    forall path, i: nat :: Leads(t, path) && KeyAt(NodeAt(t, path), i) ==> NodeAt(t, path).kids[2 * i].Str?
  }

  predicate KeyAt(t: Tree, i: nat) { t.Map? && 2 * i < |t.kids| }

  lemma Here(t: Tree)
    ensures Leads(t, []) && NodeAt(t, []) == t
  {}

  lemma There(t: Tree, path: seq<nat>)
    requires path != [] && Leads(t, path)
    ensures IsNode(t) && path[0] < |t.kids| && Leads(t.kids[path[0]], path[1..])
    ensures NodeAt(t, path) == NodeAt(t.kids[path[0]], path[1..])
  {}

  lemma {:induction false} StrKeysIff(t: Tree)
    ensures StrKeys(t) <==> KeysAreStr(t)
    decreases t
  {
    if IsNode(t) {
      forall k | k in t.kids ensures StrKeys(k) <==> KeysAreStr(k) { StrKeysIff(k); }
      if StrKeys(t) {
        assert KidsOk(t.Map?, t.kids);
        forall path, i: nat | Leads(t, path) && KeyAt(NodeAt(t, path), i) ensures NodeAt(t, path).kids[2 * i].Str? {
          if path == [] {
            Here(t);
            assert 2 * i % 2 == 0;
          } else {
            There(t, path);
            var k := t.kids[path[0]];
            assert k in t.kids && StrKeys(k) && KeysAreStr(k);
          }
        }
      }
      if KeysAreStr(t) {
        forall j | 0 <= j < |t.kids| ensures KeysAreStr(t.kids[j]) { Below(t, j); }
        forall j | 0 <= j < |t.kids| && j % 2 == 0 && t.Map? ensures t.kids[j].Str? {
          var path: seq<nat>, i: nat := [], j / 2;
          Here(t);
          assert 2 * i == j && KeyAt(NodeAt(t, path), i);
        }
      }
    }
  }

  lemma Below(t: Tree, j: nat)
    requires IsNode(t) && j < |t.kids| && KeysAreStr(t)
    ensures KeysAreStr(t.kids[j])
  {
    forall path, i: nat | Leads(t.kids[j], path) && KeyAt(NodeAt(t.kids[j], path), i) ensures NodeAt(t.kids[j], path).kids[2 * i].Str? {
      var longer := [j] + path;
      assert longer[1..] == path && Leads(t, longer) && NodeAt(t, longer) == NodeAt(t.kids[j], path);
    }
  }
}

/**
 * Locating a group in the realm's listing by its full path (cmd/keycloak/group.go).
 * Both searches walk the listing depth first, a group before its subgroups and a whole
 * subtree before the next sibling, and stop at the first group whose path is the query.
 * The Go closures keep their running answer in a variable they share with the caller; that
 * variable only ever holds a non-empty answer on the way out of the search, so the closures
 * behave as the structural recursions below.
 */
module Locator {
  import opened Results
  import opened Keycloak

  /** The listing flattened in the order the searches visit it. */
  function Preorder(groups: seq<GroupInfo>): seq<GroupInfo>
    decreases groups
  {
    if groups == [] then []
    else [groups[0]] + Preorder(groups[0].subGroups) + Preorder(groups[1..])
  }

  lemma {:induction false} PreorderAppend(a: seq<GroupInfo>, b: seq<GroupInfo>)
    ensures Preorder(a + b) == Preorder(a) + Preorder(b)
    decreases |a|
  {
    if a == [] {
      assert a + b == b;
    } else {
      assert (a + b)[0] == a[0] && (a + b)[1..] == a[1..] + b;
      PreorderAppend(a[1..], b);
    }
  }

  /** The reference search: the first entry of a flat list with the path. */
  function FirstWithPath(nodes: seq<GroupInfo>, path: string): (r: Option<GroupInfo>)
    ensures r.None? <==> forall k :: 0 <= k < |nodes| ==> nodes[k].path != path
    ensures r.Some? ==> exists k :: 0 <= k < |nodes| && nodes[k] == r.value && nodes[k].path == path
                                    && forall j :: 0 <= j < k ==> nodes[j].path != path
  {
    if nodes == [] then None
    else if nodes[0].path == path then Some(nodes[0])
    else
      var r := FirstWithPath(nodes[1..], path);
      if r.Some? then
        var k :| 0 <= k < |nodes[1..]| && nodes[1..][k] == r.value && nodes[1..][k].path == path
                 && forall j :: 0 <= j < k ==> nodes[1..][j].path != path;
        assert nodes[k + 1] == r.value;
        r
      else r
  }

  lemma {:induction false} FirstWithPathAppend(a: seq<GroupInfo>, b: seq<GroupInfo>, path: string)
    ensures FirstWithPath(a + b, path) == if FirstWithPath(a, path).Some? then FirstWithPath(a, path) else FirstWithPath(b, path)
    decreases |a|
  {
    if a == [] {
      assert a + b == b;
    } else {
      assert (a + b)[0] == a[0] && (a + b)[1..] == a[1..] + b;
      FirstWithPathAppend(a[1..], b, path);
    }
  }

  /** The search of getGroup: the group itself, found or not. */
  function FindGroup(groups: seq<GroupInfo>, path: string): (r: Option<GroupInfo>)
    ensures r.Some? ==> r.value.path == path
    decreases groups
  {
    if groups == [] then None
    else if groups[0].path == path then Some(groups[0])
    else match FindGroup(groups[0].subGroups, path)
      case Some(g) => Some(g)
      case None => FindGroup(groups[1..], path)
  }

  /**
   * The search of getGroupIdByName. The empty string is both "not found" and the id of a
   * match without one, so a match without an id below the top level is passed over and
   * the search goes on with the next sibling of the subtree it was found in.
   */
  function FindGroupId(groups: seq<GroupInfo>, path: string): (r: string)
    ensures r != "" ==> FindGroup(groups, path).Some?
    decreases groups
  {
    if groups == [] then ""
    else if groups[0].path == path then groups[0].id
    else
      var sub := FindGroupId(groups[0].subGroups, path);
      if sub != "" then sub else FindGroupId(groups[1..], path)
  }

  /** The depth-first search finds the first group with the path in pre-order. */
  lemma {:induction false} FindGroupIsFirstInPreorder(groups: seq<GroupInfo>, path: string)
    ensures FindGroup(groups, path) == FirstWithPath(Preorder(groups), path)
    decreases groups
  {
    if groups != [] {
      var g := groups[0];
      FindGroupIsFirstInPreorder(g.subGroups, path);
      FindGroupIsFirstInPreorder(groups[1..], path);
      assert Preorder(groups) == [g] + (Preorder(g.subGroups) + Preorder(groups[1..]));
      FirstWithPathAppend(Preorder(g.subGroups), Preorder(groups[1..]), path);
    }
  }

  /** Every group of the listing has an id. */
  predicate IdsPresent(groups: seq<GroupInfo>)
  {
    forall k :: 0 <= k < |Preorder(groups)| ==> Preorder(groups)[k].id != ""
  }

  lemma {:induction false} IdsPresentParts(groups: seq<GroupInfo>)
    requires groups != [] && IdsPresent(groups)
    ensures groups[0].id != "" && IdsPresent(groups[0].subGroups) && IdsPresent(groups[1..])
  {
    var p := Preorder(groups);
    var a := Preorder(groups[0].subGroups);
    var b := Preorder(groups[1..]);
    assert p == [groups[0]] + a + b;
    assert p[0] == groups[0];
    forall k | 0 <= k < |a| ensures a[k].id != "" {
      assert a[k] == p[1 + k];
    }
    forall k | 0 <= k < |b| ensures b[k].id != "" {
      assert b[k] == p[1 + |a| + k];
    }
  }

  /** When every group has an id, the id search agrees with the group search. */
  lemma {:induction false} FindGroupIdAgrees(groups: seq<GroupInfo>, path: string)
    requires IdsPresent(groups)
    ensures FindGroupId(groups, path) == match FindGroup(groups, path) case Some(g) => g.id case None => ""
    decreases groups
  {
    if groups != [] {
      IdsPresentParts(groups);
      FindGroupIsFirstInPreorder(groups[0].subGroups, path);
      FindGroupIdAgrees(groups[0].subGroups, path);
      FindGroupIdAgrees(groups[1..], path);
    }
  }

  /** getGroup: the first group in pre-order with the path, or the reason there is none. */
  function GetGroup(groups: seq<GroupInfo>, path: string): (r: Result<GroupInfo>)
    ensures groups == [] ==> r == Err(NoGroups)
    ensures groups != [] ==> r == match FirstWithPath(Preorder(groups), path)
                                   case Some(g) => Ok(g)
                                   case None => Err(GroupNotFound(path))
  {
    FindGroupIsFirstInPreorder(groups, path);
    if groups == [] then Err(NoGroups)
    else match FindGroup(groups, path)
      case Some(g) => Ok(g)
      case None => Err(GroupNotFound(path))
  }

  /** getGroupIdByName: the id of a group with the path, or the reason there is none. */
  function GetGroupIdByName(groups: seq<GroupInfo>, path: string): (r: Result<string>)
    ensures groups == [] ==> r == Err(NoGroups)
    ensures r.Ok? ==> r.value != ""
    ensures r.Ok? ==> exists k :: 0 <= k < |Preorder(groups)|
                                  && Preorder(groups)[k].path == path && Preorder(groups)[k].id == r.value
  {
    FindGroupIdInPreorder(groups, path);
    if groups == [] then Err(NoGroups)
    else
      var id := FindGroupId(groups, path);
      if id == "" then Err(GroupNotFound(path)) else Ok(id)
  }

  /** When every group has an id, getGroupIdByName answers with the id of getGroup's group. */
  lemma GetGroupIdByNameAgrees(groups: seq<GroupInfo>, path: string)
    requires IdsPresent(groups)
    ensures GetGroupIdByName(groups, path) == match GetGroup(groups, path)
                                                case Ok(g) => Ok(g.id)
                                                case Err(e) => Err(e)
  {
    FindGroupIdAgrees(groups, path);
    FindGroupIsFirstInPreorder(groups, path);
  }

  /** A top-level match without an id is reported as not found. */
  lemma TopLevelMatchWithoutId(path: string, name: string)
    ensures GetGroupIdByName([GroupInfo("", path, name, [])], path) == Err(GroupNotFound(path))
  {
  }

  // ----- the listing of a realm -----

  /** Every group in the listing of a forest is a group of the forest. */
  lemma {:induction false} ListedIdsExist(gs: seq<Group>, prefix: string)
    ensures forall k :: 0 <= k < |Preorder(Listing(gs, prefix))| ==> HasId(gs, Preorder(Listing(gs, prefix))[k].id)
    decreases gs
  {
    if gs != [] {
      var path := prefix + "/" + gs[0].name;
      var l := Listing(gs, prefix);
      ListedIdsExist(gs[0].subGroups, path);
      ListedIdsExist(gs[1..], prefix);
      assert l[0].subGroups == Listing(gs[0].subGroups, path);
      assert l[1..] == Listing(gs[1..], prefix);
      var a := Preorder(Listing(gs[0].subGroups, path));
      var b := Preorder(Listing(gs[1..], prefix));
      assert Preorder(l) == [l[0]] + a + b;
      forall k | 0 <= k < |Preorder(l)| ensures HasId(gs, Preorder(l)[k].id) {
        if k == 0 {
        } else if k < 1 + |a| {
          assert Preorder(l)[k] == a[k - 1];
        } else {
          assert Preorder(l)[k] == b[k - 1 - |a|];
        }
      }
    }
  }

  /** A group found in the listing of a realm is a group the realm has. */
  lemma LocatedGroupExists(gs: seq<Group>, path: string)
    ensures GetGroup(Listing(gs, ""), path).Ok? ==> HasId(gs, GetGroup(Listing(gs, ""), path).value.id)
    ensures GetGroupIdByName(Listing(gs, ""), path).Ok? ==> HasId(gs, GetGroupIdByName(Listing(gs, ""), path).value)
  {
    ListedIdsExist(gs, "");
    FindGroupIsFirstInPreorder(Listing(gs, ""), path);
    FindGroupIdInPreorder(Listing(gs, ""), path);
  }

  /** A non-empty id the id search returns is the id of a group with the path. */
  lemma {:induction false} FindGroupIdInPreorder(groups: seq<GroupInfo>, path: string)
    ensures FindGroupId(groups, path) != "" ==>
              exists k :: 0 <= k < |Preorder(groups)| && Preorder(groups)[k].id == FindGroupId(groups, path)
                          && Preorder(groups)[k].path == path
    decreases groups
  {
    if groups != [] {
      var a := Preorder(groups[0].subGroups);
      var b := Preorder(groups[1..]);
      assert Preorder(groups) == [groups[0]] + a + b;
      FindGroupIdInPreorder(groups[0].subGroups, path);
      FindGroupIdInPreorder(groups[1..], path);
      var id := FindGroupId(groups, path);
      if groups[0].path == path {
        assert Preorder(groups)[0] == groups[0];
      } else if FindGroupId(groups[0].subGroups, path) != "" {
        var k :| 0 <= k < |a| && a[k].id == id && a[k].path == path;
        assert Preorder(groups)[1 + k] == a[k];
      } else if id != "" {
        var k :| 0 <= k < |b| && b[k].id == id && b[k].path == path;
        assert Preorder(groups)[1 + |a| + k] == b[k];
      }
    }
  }

  /** Every path in the listing below `prefix` is `prefix` + "/" + something. */
  lemma {:induction false} ListedPathsExtend(gs: seq<Group>, prefix: string)
    ensures forall k :: 0 <= k < |Preorder(Listing(gs, prefix))| ==>
              && |Preorder(Listing(gs, prefix))[k].path| >= |prefix| + 1
              && Preorder(Listing(gs, prefix))[k].path[..|prefix| + 1] == prefix + "/"
    decreases gs
  {
    if gs != [] {
      var path := prefix + "/" + gs[0].name;
      var l := Listing(gs, prefix);
      ListedPathsExtend(gs[0].subGroups, path);
      ListedPathsExtend(gs[1..], prefix);
      assert l[0].subGroups == Listing(gs[0].subGroups, path);
      assert l[1..] == Listing(gs[1..], prefix);
      var a := Preorder(Listing(gs[0].subGroups, path));
      var b := Preorder(Listing(gs[1..], prefix));
      assert Preorder(l) == [l[0]] + a + b;
      forall k | 0 <= k < |Preorder(l)|
        ensures |Preorder(l)[k].path| >= |prefix| + 1 && Preorder(l)[k].path[..|prefix| + 1] == prefix + "/"
      {
        var q := Preorder(l)[k].path;
        if k == 0 {
          assert q == path;
          assert q[..|prefix| + 1] == prefix + "/";
        } else if k < 1 + |a| {
          assert Preorder(l)[k] == a[k - 1];
          assert q[..|path| + 1] == path + "/";
          assert q[..|prefix| + 1] == (path + "/")[..|prefix| + 1];
        } else {
          assert Preorder(l)[k] == b[k - 1 - |a|];
        }
      }
    }
  }

  /**
   * Below a prefix, the path prefix + "/" + name belongs to no listed group when no group at
   * the top of the forest has that name and the name has no "/" of its own.
   */
  lemma {:induction false} UnlistedPath(gs: seq<Group>, prefix: string, name: string)
    requires '/' !in name && !NameTaken(gs, name)
    ensures forall k :: 0 <= k < |Preorder(Listing(gs, prefix))| ==>
              Preorder(Listing(gs, prefix))[k].path != prefix + "/" + name
    decreases gs
  {
    if gs != [] {
      var target := prefix + "/" + name;
      var path := prefix + "/" + gs[0].name;
      var l := Listing(gs, prefix);
      ListedPathsExtend(gs[0].subGroups, path);
      assert !NameTaken(gs[1..], name) by {
        forall i | 0 <= i < |gs[1..]| ensures gs[1..][i].name != name {
          assert gs[1..][i] == gs[i + 1];
        }
      }
      UnlistedPath(gs[1..], prefix, name);
      assert l[0].subGroups == Listing(gs[0].subGroups, path);
      assert l[1..] == Listing(gs[1..], prefix);
      var a := Preorder(Listing(gs[0].subGroups, path));
      var b := Preorder(Listing(gs[1..], prefix));
      assert Preorder(l) == [l[0]] + a + b;
      forall k | 0 <= k < |Preorder(l)| ensures Preorder(l)[k].path != target {
        var q := Preorder(l)[k].path;
        if k == 0 {
          assert gs[0].name != name;
          assert q[|prefix| + 1..] == gs[0].name;
          assert target[|prefix| + 1..] == name;
        } else if k < 1 + |a| {
          assert Preorder(l)[k] == a[k - 1];
          assert q[..|path| + 1] == path + "/";
          assert q[|path|] == '/';
          if |q| == |target| {
            assert target[|path|] == name[|gs[0].name|];
          }
        } else {
          assert Preorder(l)[k] == b[k - 1 - |a|];
        }
      }
    }
  }

  /** The id search passes over a part of the listing in which no group has the path. */
  lemma {:induction false} FindGroupIdSkips(a: seq<GroupInfo>, b: seq<GroupInfo>, path: string)
    requires forall k :: 0 <= k < |Preorder(a)| ==> Preorder(a)[k].path != path
    ensures FindGroupId(a + b, path) == FindGroupId(b, path)
    decreases |a|
  {
    if a == [] {
      assert a + b == b;
    } else {
      var x := Preorder(a[0].subGroups);
      var y := Preorder(a[1..]);
      assert Preorder(a) == [a[0]] + x + y;
      assert a[0].path != path by { assert Preorder(a)[0] == a[0]; }
      forall k | 0 <= k < |x| ensures x[k].path != path {
        assert Preorder(a)[1 + k] == x[k];
      }
      forall k | 0 <= k < |y| ensures y[k].path != path {
        assert Preorder(a)[1 + |x| + k] == y[k];
      }
      FindGroupIdInPreorder(a[0].subGroups, path);
      assert (a + b)[0] == a[0] && (a + b)[1..] == a[1..] + b;
      FindGroupIdSkips(a[1..], b, path);
    }
  }

  /** A new top-level group is what its path locates, when its name is new at the top and has no "/". */
  lemma NewTopLevelGroupIsLocated(gs: seq<Group>, name: string, newId: string)
    requires '/' !in name && !NameTaken(gs, name) && newId != ""
    ensures GetGroupIdByName(Listing(gs + [Group(newId, name, [])], ""), "/" + name) == Ok(newId)
  {
    var g := Group(newId, name, []);
    ListingAppend(gs, [g], "");
    UnlistedPath(gs, "", name);
    assert "" + "/" + name == "/" + name;
    var info := GroupInfo(newId, "/" + name, name, []);
    assert Listing([g], "") == [info];
    FindGroupIdSkips(Listing(gs, ""), [info], "/" + name);
  }
}

/**
 * The realm on the Keycloak side, as far as the engine's REST calls reach it: a forest of
 * groups, a table of users and each user's group memberships. Every REST call is a method
 * of `Realm` that answers with the HTTP status Keycloak gives; what a call does to the
 * forest is a function of the forest before it.
 *
 * The realm stores each group's name only; the `path` the group listing reports is derived
 * from the names on the way down ("/" + name for a top-level group), so renaming or moving
 * a group changes the paths of its whole subtree at once.
 */
module Keycloak {
  import opened Results

  datatype Group = Group(id: string, name: string, subGroups: seq<Group>)

  /** A group as the listing reports it, with its path. */
  datatype GroupInfo = GroupInfo(id: string, path: string, name: string, subGroups: seq<GroupInfo>)

  datatype User = User(
    id: string,
    username: string,
    email: string,
    firstName: string,
    lastName: string,
    enabled: bool,
    emailVerified: bool,
    attributes: map<string, string>)

  /** The answer to a call that changes the forest: its status and the forest afterwards. */
  datatype GroupAnswer = GroupAnswer(status: int, groups: seq<Group>)

  /** The answer to a call that changes the user table. */
  datatype UserAnswer = UserAnswer(status: int, users: seq<User>)

  /** The forest as the listing reports it below a group whose path is `prefix`. */
  function Listing(gs: seq<Group>, prefix: string): (r: seq<GroupInfo>)
    ensures |r| == |gs|
    decreases gs
  {
    if gs == [] then []
    else
      var path := prefix + "/" + gs[0].name;
      [GroupInfo(gs[0].id, path, gs[0].name, Listing(gs[0].subGroups, path))] + Listing(gs[1..], prefix)
  }

  lemma {:induction false} ListingAppend(a: seq<Group>, b: seq<Group>, prefix: string)
    ensures Listing(a + b, prefix) == Listing(a, prefix) + Listing(b, prefix)
    decreases |a|
  {
    if a != [] {
      assert (a + b)[0] == a[0] && (a + b)[1..] == a[1..] + b;
      ListingAppend(a[1..], b, prefix);
    } else {
      assert a + b == b;
    }
  }

  /** Some group in the forest, at any depth, has this id. */
  predicate HasId(gs: seq<Group>, id: string)
    decreases gs
  {
    gs != [] && (gs[0].id == id || HasId(gs[0].subGroups, id) || HasId(gs[1..], id))
  }

  /** Some group at the top level of this forest (not below it) has the name. */
  predicate NameTaken(gs: seq<Group>, name: string)
  {
    exists i :: 0 <= i < |gs| && gs[i].name == name
  }

  /** The first group with this id, parents before children and earlier siblings first. */
  function Lookup(gs: seq<Group>, id: string): (r: Option<Group>)
    ensures r.Some? <==> HasId(gs, id)
    ensures r.Some? ==> r.value.id == id
    decreases gs
  {
    if gs == [] then None
    else if gs[0].id == id then Some(gs[0])
    else match Lookup(gs[0].subGroups, id)
      case Some(g) => Some(g)
      case None => Lookup(gs[1..], id)
  }

  lemma {:induction false} LookupAppend(a: seq<Group>, b: seq<Group>, id: string)
    ensures HasId(a + b, id) <==> HasId(a, id) || HasId(b, id)
    ensures Lookup(a + b, id) == if HasId(a, id) then Lookup(a, id) else Lookup(b, id)
    decreases |a|
  {
    if a == [] {
      assert a + b == b;
    } else {
      assert (a + b)[0] == a[0] && (a + b)[1..] == a[1..] + b;
      LookupAppend(a[1..], b, id);
    }
  }

  /** How many groups in the forest, at any depth, have this id. */
  function CountId(gs: seq<Group>, x: string): (n: nat)
    ensures n > 0 <==> HasId(gs, x)
    decreases gs
  {
    if gs == [] then 0
    else (if gs[0].id == x then 1 else 0) + CountId(gs[0].subGroups, x) + CountId(gs[1..], x)
  }

  /** No id occurs twice in the forest, as in a realm whose ids the server hands out. */
  ghost predicate UniqueIds(gs: seq<Group>)
  {
    forall x :: CountId(gs, x) <= 1
  }

  lemma {:induction false} CountIdAppend(a: seq<Group>, b: seq<Group>, x: string)
    ensures CountId(a + b, x) == CountId(a, x) + CountId(b, x)
    decreases |a|
  {
    if a == [] {
      assert a + b == b;
    } else {
      assert (a + b)[0] == a[0] && (a + b)[1..] == a[1..] + b;
      CountIdAppend(a[1..], b, x);
    }
  }

  lemma CountIdSingle(g: Group, x: string)
    ensures CountId([g], x) == (if g.id == x then 1 else 0) + CountId(g.subGroups, x)
  {
    assert [g][1..] == [];
  }

  /** How many occurrences of `x` lie in the subtrees of the groups with id `id` (themselves included). */
  function CountWithin(gs: seq<Group>, id: string, x: string): nat
    decreases gs
  {
    if gs == [] then 0
    else if gs[0].id == id then CountId([gs[0]], x) + CountWithin(gs[1..], id, x)
    else CountWithin(gs[0].subGroups, id, x) + CountWithin(gs[1..], id, x)
  }

  lemma {:induction false} CountWithinAbsent(gs: seq<Group>, id: string, x: string)
    requires !HasId(gs, id)
    ensures CountWithin(gs, id, x) == 0
    decreases gs
  {
    if gs != [] {
      CountWithinAbsent(gs[0].subGroups, id, x);
      CountWithinAbsent(gs[1..], id, x);
    }
  }

  /** When the id occurs once, the occurrences within its subtrees are those of the group found by it. */
  lemma {:induction false} CountWithinUnique(gs: seq<Group>, id: string, x: string)
    requires CountId(gs, id) == 1
    ensures CountWithin(gs, id, x) == CountId([Lookup(gs, id).value], x)
    decreases gs
  {
    var n := gs[0];
    if n.id == id {
      CountWithinAbsent(gs[1..], id, x);
    } else if HasId(n.subGroups, id) {
      CountWithinUnique(n.subGroups, id, x);
      CountWithinAbsent(gs[1..], id, x);
    } else {
      CountWithinAbsent(n.subGroups, id, x);
      CountWithinUnique(gs[1..], id, x);
    }
  }

  /** Gives every group with this id the new name. */
  function RenameAll(gs: seq<Group>, id: string, name: string): (r: seq<Group>)
    ensures |r| == |gs|
    decreases gs
  {
    if gs == [] then []
    else
      var g := gs[0];
      [Group(g.id, if g.id == id then name else g.name, RenameAll(g.subGroups, id, name))]
        + RenameAll(gs[1..], id, name)
  }

  /** Renaming keeps every id where it was, and the group found by the id now has the new name. */
  lemma {:induction false} RenameAllLookup(gs: seq<Group>, id: string, name: string)
    ensures forall x :: HasId(RenameAll(gs, id, name), x) <==> HasId(gs, x)
    ensures HasId(gs, id) ==> Lookup(RenameAll(gs, id, name), id).value.name == name
    decreases gs
  {
    if gs != [] {
      var r := RenameAll(gs, id, name);
      RenameAllLookup(gs[0].subGroups, id, name);
      RenameAllLookup(gs[1..], id, name);
      assert r[0].subGroups == RenameAll(gs[0].subGroups, id, name);
      assert r[1..] == RenameAll(gs[1..], id, name);
    }
  }

  /**
   * After renaming, every id finds the group it found before, with the same id, its name
   * changed only if it is the renamed id, and its subtree renamed in the same way.
   */
  lemma {:induction false} RenameAllLookupEach(gs: seq<Group>, id: string, name: string, x: string)
    ensures var before := Lookup(gs, x);
            var after := Lookup(RenameAll(gs, id, name), x);
            && (after.Some? <==> before.Some?)
            && (before.Some? ==>
                  after.value == Group(x, if x == id then name else before.value.name, RenameAll(before.value.subGroups, id, name)))
    decreases gs
  {
    if gs != [] {
      var r := RenameAll(gs, id, name);
      assert r[0] == Group(gs[0].id, if gs[0].id == id then name else gs[0].name, RenameAll(gs[0].subGroups, id, name));
      assert r[1..] == RenameAll(gs[1..], id, name);
      if gs[0].id != x {
        RenameAllLookupEach(gs[0].subGroups, id, name, x);
        RenameAllLookupEach(gs[1..], id, name, x);
      }
    }
  }

  /** Renaming an id the forest does not hold changes nothing. */
  lemma {:induction false} RenameAllAbsent(gs: seq<Group>, id: string, name: string)
    requires !HasId(gs, id)
    ensures RenameAll(gs, id, name) == gs
    decreases gs
  {
    if gs != [] {
      RenameAllAbsent(gs[0].subGroups, id, name);
      RenameAllAbsent(gs[1..], id, name);
      assert gs == [gs[0]] + gs[1..];
    }
  }

  /** Removes every group with this id, together with its subtree. */
  function RemoveAll(gs: seq<Group>, id: string): seq<Group>
    decreases gs
  {
    if gs == [] then []
    else if gs[0].id == id then RemoveAll(gs[1..], id)
    else [Group(gs[0].id, gs[0].name, RemoveAll(gs[0].subGroups, id))] + RemoveAll(gs[1..], id)
  }

  /** After the removal no group has the id, and no group that was absent appears. */
  lemma {:induction false} RemoveAllHasId(gs: seq<Group>, id: string)
    ensures !HasId(RemoveAll(gs, id), id)
    ensures forall x :: HasId(RemoveAll(gs, id), x) ==> HasId(gs, x)
    decreases gs
  {
    if gs != [] {
      RemoveAllHasId(gs[0].subGroups, id);
      RemoveAllHasId(gs[1..], id);
      if gs[0].id != id {
        var r := RemoveAll(gs, id);
        assert r[0].subGroups == RemoveAll(gs[0].subGroups, id);
        assert r[1..] == RemoveAll(gs[1..], id);
      }
    }
  }

  /** Removal takes away exactly the occurrences that lay within the removed subtrees. */
  lemma {:induction false} RemoveAllCount(gs: seq<Group>, id: string, x: string)
    ensures CountId(RemoveAll(gs, id), x) + CountWithin(gs, id, x) == CountId(gs, x)
    decreases gs
  {
    if gs != [] {
      var n := gs[0];
      CountIdSingle(n, x);
      RemoveAllCount(gs[1..], id, x);
      if n.id != id {
        RemoveAllCount(n.subGroups, id, x);
        var kept := Group(n.id, n.name, RemoveAll(n.subGroups, id));
        CountIdSingle(kept, x);
        CountIdAppend([kept], RemoveAll(gs[1..], id), x);
      }
    }
  }

  /** Appends `g` to the children of every group with id `parentId`. */
  function AttachUnder(gs: seq<Group>, parentId: string, g: Group): (r: seq<Group>)
    ensures |r| == |gs|
    decreases gs
  {
    if gs == [] then []
    else
      var n := gs[0];
      [Group(n.id, n.name, AttachUnder(n.subGroups, parentId, g) + (if n.id == parentId then [g] else []))]
        + AttachUnder(gs[1..], parentId, g)
  }

  /**
   * Attaching a group whose id is new to the forest under an existing parent makes that
   * group, unchanged, the one found by its id; under a missing parent nothing is attached.
   */
  lemma {:induction false} AttachUnderLookup(gs: seq<Group>, parentId: string, g: Group)
    requires !HasId(gs, g.id)
    ensures Lookup(AttachUnder(gs, parentId, g), g.id) == if HasId(gs, parentId) then Some(g) else None
    decreases gs
  {
    if gs != [] {
      var n := gs[0];
      var r := AttachUnder(gs, parentId, g);
      var extra := if n.id == parentId then [g] else [];
      AttachUnderLookup(n.subGroups, parentId, g);
      AttachUnderLookup(gs[1..], parentId, g);
      assert r[0].subGroups == AttachUnder(n.subGroups, parentId, g) + extra;
      assert r[1..] == AttachUnder(gs[1..], parentId, g);
      LookupAppend(AttachUnder(n.subGroups, parentId, g), extra, g.id);
      if extra != [] {
        assert Lookup(extra, g.id) == Some(g);
      }
    }
  }

  /** Attaching adds the occurrences in `g` once for every group with the parent's id. */
  lemma {:induction false} AttachUnderCount(gs: seq<Group>, parentId: string, g: Group, x: string)
    ensures CountId(AttachUnder(gs, parentId, g), x) == CountId(gs, x) + CountId(gs, parentId) * CountId([g], x)
    decreases gs
  {
    if gs != [] {
      var n := gs[0];
      var c: int := CountId([g], x);
      var extra := if n.id == parentId then [g] else [];
      var sub := AttachUnder(n.subGroups, parentId, g);
      var rest := AttachUnder(gs[1..], parentId, g);
      var top := Group(n.id, n.name, sub + extra);
      var a: int := if n.id == parentId then 1 else 0;
      var b: int := CountId(n.subGroups, parentId);
      var d: int := CountId(gs[1..], parentId);
      var bc := b * c;
      var dc := d * c;
      var ac := a * c;
      assert CountId(sub, x) == CountId(n.subGroups, x) + bc by {
        AttachUnderCount(n.subGroups, parentId, g, x);
      }
      assert CountId(rest, x) == CountId(gs[1..], x) + dc by {
        AttachUnderCount(gs[1..], parentId, g, x);
      }
      assert CountId(sub + extra, x) == CountId(sub, x) + ac by {
        CountIdAppend(sub, extra, x);
      }
      assert CountId(AttachUnder(gs, parentId, g), x) == CountId([top], x) + CountId(rest, x) by {
        assert AttachUnder(gs, parentId, g) == [top] + rest;
        CountIdAppend([top], rest, x);
      }
      CountIdSingle(top, x);
      assert CountId(gs, parentId) * c == ac + bc + dc by {
        assert CountId(gs, parentId) == a + b + d;
        Distribute(a, b, d, c);
      }
    }
  }

  lemma Distribute(a: int, b: int, d: int, c: int)
    ensures (a + b + d) * c == a * c + b * c + d * c
  {
  }

  /** Attaching under a parent the forest does not hold changes nothing. */
  lemma {:induction false} AttachUnderMissing(gs: seq<Group>, parentId: string, g: Group)
    requires !HasId(gs, parentId)
    ensures AttachUnder(gs, parentId, g) == gs
    decreases gs
  {
    if gs != [] {
      AttachUnderMissing(gs[0].subGroups, parentId, g);
      AttachUnderMissing(gs[1..], parentId, g);
      assert gs[0].subGroups + [] == gs[0].subGroups;
      assert gs == [gs[0]] + gs[1..];
    }
  }

  /** The group found by `parentId` has `g` as its last child. */
  predicate IsLastChild(gs: seq<Group>, parentId: string, g: Group)
  {
    var p := Lookup(gs, parentId);
    p.Some? && |p.value.subGroups| > 0 && p.value.subGroups[|p.value.subGroups| - 1] == g
  }

  /** Under a parent the forest holds, the group found by the parent's id ends with `g`. */
  lemma {:induction false} AttachUnderParent(gs: seq<Group>, parentId: string, g: Group)
    requires HasId(gs, parentId)
    ensures IsLastChild(AttachUnder(gs, parentId, g), parentId, g)
    decreases gs
  {
    var n := gs[0];
    var r := AttachUnder(gs, parentId, g);
    assert r == [Group(n.id, n.name, AttachUnder(n.subGroups, parentId, g) + (if n.id == parentId then [g] else []))]
                + AttachUnder(gs[1..], parentId, g);
    if n.id == parentId {
      assert Lookup(r, parentId) == Some(r[0]);
    } else {
      var sub := AttachUnder(n.subGroups, parentId, g);
      assert sub + [] == sub;
      assert r[0] == Group(n.id, n.name, sub);
      if HasId(n.subGroups, parentId) {
        AttachUnderParent(n.subGroups, parentId, g);
        assert Lookup(r, parentId) == Lookup(AttachUnder(n.subGroups, parentId, g), parentId);
      } else {
        AttachUnderMissing(n.subGroups, parentId, g);
        assert r[1..] == AttachUnder(gs[1..], parentId, g);
        AttachUnderParent(gs[1..], parentId, g);
        assert Lookup(r, parentId) == Lookup(r[1..], parentId);
      }
    }
  }

  // ----- what each group call does -----

  /** POST /groups {name}: a new top-level group, or 409 when a top-level group has the name. */
  function CreateTopLevel(gs: seq<Group>, name: string, newId: string): GroupAnswer
  {
    if NameTaken(gs, name) then GroupAnswer(409, gs)
    else GroupAnswer(201, gs + [Group(newId, name, [])])
  }

  /** POST /groups/{parent}/children {name}: 404 without the parent, 409 when a child has the name. */
  function CreateChild(gs: seq<Group>, parentId: string, name: string, newId: string): GroupAnswer
  {
    if !HasId(gs, parentId) then GroupAnswer(404, gs)
    else if NameTaken(Lookup(gs, parentId).value.subGroups, name) then GroupAnswer(409, gs)
    else GroupAnswer(201, AttachUnder(gs, parentId, Group(newId, name, [])))
  }

  /** PUT /groups/{id}: renames the group, or 404. */
  function UpdateName(gs: seq<Group>, id: string, name: string): GroupAnswer
  {
    if !HasId(gs, id) then GroupAnswer(404, gs)
    else GroupAnswer(204, RenameAll(gs, id, name))
  }

  /** POST /groups {id}: moves an existing group, with its subtree, to the top level. */
  function MoveToTop(gs: seq<Group>, id: string): GroupAnswer
  {
    if !HasId(gs, id) then GroupAnswer(404, gs)
    else
      var g := Lookup(gs, id).value;
      var rest := RemoveAll(gs, id);
      if NameTaken(rest, g.name) then GroupAnswer(409, gs)
      else GroupAnswer(204, rest + [g])
  }

  /**
   * POST /groups/{parent}/children {id}: moves an existing group, with its subtree, under
   * another group; 400 when the new parent lies inside the moved subtree.
   */
  function MoveUnder(gs: seq<Group>, parentId: string, id: string): GroupAnswer
  {
    if !HasId(gs, parentId) || !HasId(gs, id) then GroupAnswer(404, gs)
    else
      var g := Lookup(gs, id).value;
      var rest := RemoveAll(gs, id);
      if HasId([g], parentId) || !HasId(rest, parentId) then GroupAnswer(400, gs)
      else if NameTaken(Lookup(rest, parentId).value.subGroups, g.name) then GroupAnswer(409, gs)
      else GroupAnswer(204, AttachUnder(rest, parentId, g))
  }

  /** DELETE /groups/{id}: removes the group and its subtree, or 404. */
  function DeleteGroup(gs: seq<Group>, id: string): GroupAnswer
  {
    if !HasId(gs, id) then GroupAnswer(404, gs)
    else GroupAnswer(204, RemoveAll(gs, id))
  }

  /** Re-creating a top-level group that exists changes nothing; the first creation stands. */
  lemma CreateTopLevelIdempotent(gs: seq<Group>, name: string, id1: string, id2: string)
    ensures var first := CreateTopLevel(gs, name, id1).groups;
            CreateTopLevel(first, name, id2) == GroupAnswer(409, first)
  {
    var first := CreateTopLevel(gs, name, id1).groups;
    if !NameTaken(gs, name) {
      assert first[|gs|].name == name;
    }
  }

  /**
   * A successful move keeps the group, with its name, id and subtree, findable by its id:
   * moved to the top it is the last top-level group, moved under a parent it is the last
   * child of the group found by the parent's id.
   */
  lemma MoveKeepsGroup(gs: seq<Group>, parentId: string, id: string)
    requires HasId(gs, id)
    ensures var top := MoveToTop(gs, id);
            top.status == 204 ==> Lookup(top.groups, id) == Lookup(gs, id) && top.groups[|top.groups| - 1].id == id
    ensures var under := MoveUnder(gs, parentId, id);
            under.status == 204 ==>
              Lookup(under.groups, id) == Lookup(gs, id) && IsLastChild(under.groups, parentId, Lookup(gs, id).value)
    ensures var top := MoveToTop(gs, id);
            top.status == 204 && UniqueIds(gs) ==> forall x :: CountId(top.groups, x) == CountId(gs, x)
    ensures var under := MoveUnder(gs, parentId, id);
            under.status == 204 && UniqueIds(gs) ==> forall x :: CountId(under.groups, x) == CountId(gs, x)
  {
    var g := Lookup(gs, id).value;
    var rest := RemoveAll(gs, id);
    RemoveAllHasId(gs, id);
    LookupAppend(rest, [g], id);
    assert Lookup([g], id) == Some(g);
    AttachUnderLookup(rest, parentId, g);
    if HasId(rest, parentId) {
      AttachUnderParent(rest, parentId, g);
    }
    if UniqueIds(gs) {
      MoveKeepsCounts(gs, parentId, id);
    }
  }

  /** In a forest with unique ids, removing a group takes away exactly the ids of its subtree. */
  lemma TakeOutCounts(gs: seq<Group>, id: string)
    requires HasId(gs, id) && UniqueIds(gs)
    ensures forall x :: CountId(RemoveAll(gs, id), x) + CountId([Lookup(gs, id).value], x) == CountId(gs, x)
  {
    assert CountId(gs, id) == 1;
    forall x
      ensures CountId(RemoveAll(gs, id), x) + CountId([Lookup(gs, id).value], x) == CountId(gs, x)
    {
      RemoveAllCount(gs, id, x);
      CountWithinUnique(gs, id, x);
    }
  }

  /**
   * In a forest with unique ids, taking the group out and putting it back at the top, or
   * under a parent left outside its subtree, leaves every id occurring as often as before.
   */
  lemma MoveKeepsCounts(gs: seq<Group>, parentId: string, id: string)
    requires HasId(gs, id) && UniqueIds(gs)
    ensures var g := Lookup(gs, id).value;
            forall x :: CountId(RemoveAll(gs, id) + [g], x) == CountId(gs, x)
    ensures var g := Lookup(gs, id).value;
            HasId(RemoveAll(gs, id), parentId) ==>
              forall x :: CountId(AttachUnder(RemoveAll(gs, id), parentId, g), x) == CountId(gs, x)
  {
    var g := Lookup(gs, id).value;
    var rest := RemoveAll(gs, id);
    TakeOutCounts(gs, id);
    forall x
      ensures CountId(rest + [g], x) == CountId(gs, x)
    {
      CountIdAppend(rest, [g], x);
    }
    if HasId(rest, parentId) {
      var p: int := CountId(rest, parentId);
      assert p == 1 by {
        assert CountId(rest, parentId) + CountId([g], parentId) == CountId(gs, parentId);
        assert CountId(gs, parentId) <= 1;
      }
      forall x
        ensures CountId(AttachUnder(rest, parentId, g), x) == CountId(gs, x)
      {
        AttachUnderCount(rest, parentId, g, x);
      }
    }
  }

  /**
   * A delete leaves no group with the id; in a forest with unique ids it keeps exactly the
   * ids outside the deleted group's subtree.
   */
  lemma DeleteRemovesGroup(gs: seq<Group>, id: string)
    ensures !HasId(DeleteGroup(gs, id).groups, id)
    ensures DeleteGroup(gs, id).status == (if HasId(gs, id) then 204 else 404)
    ensures HasId(gs, id) && UniqueIds(gs) ==>
              forall x :: HasId(DeleteGroup(gs, id).groups, x) <==> HasId(gs, x) && !HasId([Lookup(gs, id).value], x)
  {
    RemoveAllHasId(gs, id);
    if HasId(gs, id) && UniqueIds(gs) {
      var g := Lookup(gs, id).value;
      TakeOutCounts(gs, id);
      forall x
        ensures HasId(RemoveAll(gs, id), x) <==> HasId(gs, x) && !HasId([g], x)
      {
        assert CountId(gs, x) <= 1;
      }
    }
  }

  // ----- users and memberships -----

  predicate HasUser(users: seq<User>, id: string)
  {
    exists i :: 0 <= i < |users| && users[i].id == id
  }

  predicate UsernameTaken(users: seq<User>, username: string)
  {
    exists i :: 0 <= i < |users| && users[i].username == username
  }

  /**
   * What a PUT /users/{id} body does to the stored user: the username and id stay, an empty
   * email leaves the email, and every other field takes the body's value.
   */
  function ApplyUpdate(u: User, rep: User): User
  {
    u.(firstName := rep.firstName,
       lastName := rep.lastName,
       enabled := rep.enabled,
       emailVerified := rep.emailVerified,
       attributes := rep.attributes,
       email := if rep.email != "" then rep.email else u.email)
  }

  predicate EmailTaken(users: seq<User>, email: string)
  {
    exists i :: 0 <= i < |users| && users[i].email == email
  }

  /** POST /users: a new user; 400 without a username, 409 when the username or the email is taken. */
  function CreateUser(users: seq<User>, rep: User, newId: string): UserAnswer
  {
    if rep.username == "" then UserAnswer(400, users)
    else if UsernameTaken(users, rep.username) || (rep.email != "" && EmailTaken(users, rep.email)) then UserAnswer(409, users)
    else UserAnswer(201, users + [rep.(id := newId)])
  }

  function UpdateAll(users: seq<User>, id: string, rep: User): (r: seq<User>)
    ensures |r| == |users|
    ensures forall i :: 0 <= i < |users| ==>
              r[i] == if users[i].id == id then ApplyUpdate(users[i], rep) else users[i]
  {
    seq(|users|, i requires 0 <= i < |users| => if users[i].id == id then ApplyUpdate(users[i], rep) else users[i])
  }

  /** PUT /users/{id}, or 404. */
  function UpdateUser(users: seq<User>, id: string, rep: User): UserAnswer
  {
    if !HasUser(users, id) then UserAnswer(404, users)
    else UserAnswer(204, UpdateAll(users, id, rep))
  }

  function RemoveUser(users: seq<User>, id: string): (r: seq<User>)
    ensures forall i :: 0 <= i < |r| ==> r[i] in users && r[i].id != id
    ensures forall i :: 0 <= i < |users| && users[i].id != id ==> users[i] in r
  {
    if users == [] then []
    else if users[0].id == id then RemoveUser(users[1..], id)
    else [users[0]] + RemoveUser(users[1..], id)
  }

  /** DELETE /users/{id}, or 404. */
  function DeleteUser(users: seq<User>, id: string): UserAnswer
  {
    if !HasUser(users, id) then UserAnswer(404, users)
    else UserAnswer(204, RemoveUser(users, id))
  }

  /** The ids of the groups a user belongs to, in the order they were joined. */
  function MembersOf(memberships: map<string, seq<string>>, userId: string): seq<string>
  {
    if userId in memberships then memberships[userId] else []
  }

  /** The elements of `s` that are not in `drop`, in order. */
  function Without(s: seq<string>, drop: seq<string>): seq<string>
  {
    if s == [] then []
    else if s[0] in drop then Without(s[1..], drop)
    else [s[0]] + Without(s[1..], drop)
  }

  lemma {:induction false} WithoutNothing(s: seq<string>)
    ensures Without(s, []) == s
  {
    if s != [] {
      WithoutNothing(s[1..]);
    }
  }

  /** What is left holds exactly the elements not dropped. */
  lemma {:induction false} WithoutMembers(s: seq<string>, drop: seq<string>)
    ensures forall x :: x in Without(s, drop) <==> x in s && x !in drop
  {
    if s != [] {
      WithoutMembers(s[1..], drop);
      assert s == [s[0]] + s[1..];
    }
  }

  lemma {:induction false} WithoutCovered(s: seq<string>, drop: seq<string>)
    requires forall x :: x in s ==> x in drop
    ensures Without(s, drop) == []
  {
    if s != [] {
      assert s[0] in s;
      WithoutCovered(s[1..], drop);
    }
  }

  lemma WithoutEverything(s: seq<string>)
    ensures Without(s, s) == []
  {
    WithoutCovered(s, s);
  }

  /** Leaving the groups of a list one at a time, in order. */
  lemma {:induction false} WithoutPrefixStep(s: seq<string>, i: int)
    requires 0 <= i < |s|
    ensures Without(Without(s, s[..i]), [s[i]]) == Without(s, s[..i + 1])
  {
    WithoutStep(s, s[..i], s[i]);
    assert s[..i + 1] == s[..i] + [s[i]];
  }

  lemma {:induction false} WithoutStep(s: seq<string>, drop: seq<string>, x: string)
    ensures Without(Without(s, drop), [x]) == Without(s, drop + [x])
  {
    if s != [] {
      WithoutStep(s[1..], drop, x);
    }
  }

  /**
   * The realm. Its fields are the state the engine's REST calls read and change; the
   * token a call carries is not checked here.
   */
  class Realm {
    var groups: seq<Group>
    var users: seq<User>
    var memberships: map<string, seq<string>>

    constructor (groups: seq<Group>, users: seq<User>, memberships: map<string, seq<string>>)
      ensures this.groups == groups && this.users == users && this.memberships == memberships
    {
      this.groups := groups;
      this.users := users;
      this.memberships := memberships;
    }

    /** GET /groups: the whole forest, with paths. */
    function Groups(): seq<GroupInfo>
      reads this
    {
      Listing(groups, "")
    }

    function Members(userId: string): seq<string>
      reads this
    {
      MembersOf(memberships, userId)
    }

    method CreateTopLevelGroup(name: string, newId: string) returns (status: int)
      modifies this
      ensures var a := CreateTopLevel(old(groups), name, newId);
              status == a.status && groups == a.groups
      ensures users == old(users) && memberships == old(memberships)
    {
      var a := CreateTopLevel(groups, name, newId);
      status, groups := a.status, a.groups;
    }

    method CreateChildGroup(parentId: string, name: string, newId: string) returns (status: int)
      modifies this
      ensures var a := CreateChild(old(groups), parentId, name, newId);
              status == a.status && groups == a.groups
      ensures users == old(users) && memberships == old(memberships)
    {
      var a := CreateChild(groups, parentId, name, newId);
      status, groups := a.status, a.groups;
    }

    method UpdateGroup(rep: GroupInfo) returns (status: int)
      modifies this
      ensures var a := UpdateName(old(groups), rep.id, rep.name);
              status == a.status && groups == a.groups
      ensures users == old(users) && memberships == old(memberships)
    {
      var a := UpdateName(groups, rep.id, rep.name);
      status, groups := a.status, a.groups;
    }

    method MoveGroupToTop(id: string) returns (status: int)
      modifies this
      ensures var a := MoveToTop(old(groups), id);
              status == a.status && groups == a.groups
      ensures users == old(users) && memberships == old(memberships)
    {
      var a := MoveToTop(groups, id);
      status, groups := a.status, a.groups;
    }

    method MoveGroupUnder(parentId: string, id: string) returns (status: int)
      modifies this
      ensures var a := MoveUnder(old(groups), parentId, id);
              status == a.status && groups == a.groups
      ensures users == old(users) && memberships == old(memberships)
    {
      var a := MoveUnder(groups, parentId, id);
      status, groups := a.status, a.groups;
    }

    method RemoveGroup(id: string) returns (status: int)
      modifies this
      ensures var a := DeleteGroup(old(groups), id);
              status == a.status && groups == a.groups
      ensures users == old(users) && memberships == old(memberships)
    {
      var a := DeleteGroup(groups, id);
      status, groups := a.status, a.groups;
    }

    method AddUser(rep: User, newId: string) returns (status: int)
      modifies this
      ensures var a := CreateUser(old(users), rep, newId);
              status == a.status && users == a.users
      ensures groups == old(groups) && memberships == old(memberships)
    {
      var a := CreateUser(users, rep, newId);
      status, users := a.status, a.users;
    }

    method PutUser(id: string, rep: User) returns (status: int)
      modifies this
      ensures var a := UpdateUser(old(users), id, rep);
              status == a.status && users == a.users
      ensures groups == old(groups) && memberships == old(memberships)
    {
      var a := UpdateUser(users, id, rep);
      status, users := a.status, a.users;
    }

    /** DELETE /users/{id}: the user's memberships go with it. */
    method RemoveUserById(id: string) returns (status: int)
      modifies this
      ensures var a := DeleteUser(old(users), id);
              status == a.status && users == a.users
      ensures groups == old(groups)
      ensures memberships == if status == 204 then old(memberships) - {id} else old(memberships)
    {
      var a := DeleteUser(users, id);
      status, users := a.status, a.users;
      if status == 204 {
        memberships := memberships - {id};
      }
    }

    /** GET /users/{id}/groups: the user's group ids, or 404 for an unknown user. */
    method UserGroups(userId: string) returns (status: int, groupIds: seq<string>)
      ensures status == (if HasUser(users, userId) then 200 else 404)
      ensures status == 200 ==> groupIds == Members(userId)
    {
      if HasUser(users, userId) {
        status, groupIds := 200, Members(userId);
      } else {
        status, groupIds := 404, [];
      }
    }

    /** PUT /users/{id}/groups/{groupId}: 404 for an unknown user or group. */
    method JoinGroup(userId: string, groupId: string) returns (status: int)
      modifies this
      ensures groups == old(groups) && users == old(users)
      ensures status == (if HasUser(users, userId) && HasId(groups, groupId) then 204 else 404)
      ensures memberships == if status != 204 then old(memberships)
                             else if groupId in old(Members(userId)) then old(memberships)
                             else old(memberships)[userId := old(Members(userId)) + [groupId]]
    {
      if HasUser(users, userId) && HasId(groups, groupId) {
        status := 204;
        if groupId !in Members(userId) {
          memberships := memberships[userId := Members(userId) + [groupId]];
        }
      } else {
        status := 404;
      }
    }

    /** DELETE /users/{id}/groups/{groupId}: 404 for an unknown user. */
    method LeaveGroup(userId: string, groupId: string) returns (status: int)
      modifies this
      ensures groups == old(groups) && users == old(users)
      ensures status == (if HasUser(users, userId) then 204 else 404)
      ensures memberships == if status != 204 then old(memberships)
                             else old(memberships)[userId := Without(old(Members(userId)), [groupId])]
    {
      if HasUser(users, userId) {
        status := 204;
        memberships := memberships[userId := Without(Members(userId), [groupId])];
      } else {
        status := 404;
      }
    }
  }
}

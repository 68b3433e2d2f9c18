/**
 * Department events applied to the realm's group forest (cmd/keycloak/group.go): a new
 * department becomes a group under the group of its parent, a renamed department renames
 * the group found at its old path, a moved department's group is moved under the group of
 * its new parent (or to the top level), and a deleted department's group is deleted.
 *
 * Each handler is a method over the realm, proved equal to a step function of the realm's
 * forest before it; the lemmas after the handlers say what the steps achieve.
 */
module DepartmentSync {
  import opened Results
  import opened Utils
  import opened GoStrings
  import opened LarkModel
  import opened Lark
  import opened Keycloak
  import opened Locator

  /** What a handler leaves behind: its outcome and the realm's forest afterwards. */
  datatype Step = Step(outcome: Outcome, groups: seq<Group>)

  /** The id of the group at a department's full path. */
  ghost function GroupIdOfDepartment(lark: Directory, listing: seq<GroupInfo>, depId: string): Result<string>
    requires Acyclic(lark)
  {
    match DepPath(lark, depId)
    case Err(e) => Err(e)
    case Ok(path) => GetGroupIdByName(listing, path)
  }

  // ----- one REST call each, with the statuses the call accepts -----

  /** groupCreateEngine: a conflict means the group is there already and is accepted. */
  method GroupCreateEngine(realm: Realm, groupName: string, newId: string) returns (r: Outcome)
    modifies realm
    ensures realm.users == old(realm.users) && realm.memberships == old(realm.memberships)
    ensures realm.groups == CreateTopLevel(old(realm.groups), groupName, newId).groups
    ensures r == Accepted(CreateTopLevel(old(realm.groups), groupName, newId).status, [StatusConflict])
  {
    var status := realm.CreateTopLevelGroup(groupName, newId);
    r := Accepted(status, [StatusConflict]);
  }

  /** subGroupCreateEngine: a conflict is accepted here too. */
  method SubGroupCreateEngine(realm: Realm, groupName: string, parentGroupId: string, newId: string)
    returns (r: Outcome)
    modifies realm
    ensures realm.users == old(realm.users) && realm.memberships == old(realm.memberships)
    ensures realm.groups == CreateChild(old(realm.groups), parentGroupId, groupName, newId).groups
    ensures r == Accepted(CreateChild(old(realm.groups), parentGroupId, groupName, newId).status, [StatusConflict])
  {
    var status := realm.CreateChildGroup(parentGroupId, groupName, newId);
    r := Accepted(status, [StatusConflict]);
  }

  /** groupDeleteEngine: only 2xx is accepted; a missing group is an error. */
  method GroupDeleteEngine(realm: Realm, groupId: string) returns (r: Outcome)
    modifies realm
    ensures realm.users == old(realm.users) && realm.memberships == old(realm.memberships)
    ensures realm.groups == DeleteGroup(old(realm.groups), groupId).groups
    ensures r == Accepted(DeleteGroup(old(realm.groups), groupId).status, [])
  {
    var status := realm.RemoveGroup(groupId);
    r := Accepted(status, []);
  }

  /** groupNameUpdateEngine: PUTs the group with its new name. */
  method GroupNameUpdateEngine(realm: Realm, group: GroupInfo) returns (r: Outcome)
    modifies realm
    ensures realm.users == old(realm.users) && realm.memberships == old(realm.memberships)
    ensures realm.groups == UpdateName(old(realm.groups), group.id, group.name).groups
    ensures r == Accepted(UpdateName(old(realm.groups), group.id, group.name).status, [])
  {
    var status := realm.UpdateGroup(group);
    r := Accepted(status, []);
  }

  /** groupParentUpdateEngine: an empty parent id moves the group to the top level. */
  method GroupParentUpdateEngine(realm: Realm, groupId: string, newParentId: string) returns (r: Outcome)
    modifies realm
    ensures realm.users == old(realm.users) && realm.memberships == old(realm.memberships)
    ensures var a := if newParentId == "" then MoveToTop(old(realm.groups), groupId)
                     else MoveUnder(old(realm.groups), newParentId, groupId);
            realm.groups == a.groups && r == Accepted(a.status, [])
  {
    var status;
    if newParentId == "" {
      status := realm.MoveGroupToTop(groupId);
    } else {
      status := realm.MoveGroupUnder(newParentId, groupId);
    }
    r := Accepted(status, []);
  }

  // ----- create -----

  ghost function CreateStep(lark: Directory, gs: seq<Group>, dep: DepObject, newId: string): Step
    requires Acyclic(lark)
  {
    if dep.parentDepartmentId == RootDepartmentId then
      var a := CreateTopLevel(gs, dep.name, newId);
      Step(Accepted(a.status, [StatusConflict]), a.groups)
    else
      match GroupIdOfDepartment(lark, Listing(gs, ""), dep.parentDepartmentId)
      case Err(e) => Step(Err(e), gs)
      case Ok(pid) =>
        var a := CreateChild(gs, pid, dep.name, newId);
        Step(Accepted(a.status, [StatusConflict]), a.groups)
  }

  /** groupCreate: a top-level group under the root, else a child of the parent's group. */
  method GroupCreate(realm: Realm, lark: Directory, dep: DepObject, newId: string) returns (r: Outcome)
    requires Acyclic(lark)
    modifies realm
    ensures realm.users == old(realm.users) && realm.memberships == old(realm.memberships)
    ensures Step(r, realm.groups) == CreateStep(lark, old(realm.groups), dep, newId)
  {
    if dep.parentDepartmentId == RootDepartmentId {
      r := GroupCreateEngine(realm, dep.name, newId);
      return;
    }
    AcyclicTerminates(lark, dep.parentDepartmentId);
    var fullDepNameInLark := GetFullDepName(lark, dep.parentDepartmentId);
    if fullDepNameInLark.Err? {
      return Err(fullDepNameInLark.error);
    }
    var kcGroupId := GetGroupIdByName(realm.Groups(), fullDepNameInLark.value);
    if kcGroupId.Err? {
      return Err(kcGroupId.error);
    }
    r := SubGroupCreateEngine(realm, dep.name, kcGroupId.value, newId);
  }

  // ----- rename -----

  /** The department's path before the rename: the last occurrence of the new name replaced by the old. */
  function OldPathOf(newPath: string, newName: string, oldName: string): string
    requires LastIndex(newPath, newName) >= 0
  {
    newPath[..LastIndex(newPath, newName)] + oldName
  }

  /** The path surgery recovers the old path when the new path ends with "/" + the new name. */
  lemma OldPathOfChild(parentPath: string, newName: string, oldName: string)
    ensures LastIndex(parentPath + "/" + newName, newName) >= 0
    ensures OldPathOf(parentPath + "/" + newName, newName, oldName) == parentPath + "/" + oldName
  {
    LastIndexOfSuffix(parentPath + "/", newName);
    assert parentPath + "/" + newName == (parentPath + "/") + newName;
    assert (parentPath + "/" + newName)[..|parentPath| + 1] == parentPath + "/";
  }

  /** The rename's string surgery has something to cut (else the source slices at -1). */
  ghost predicate RenameResolvable(lark: Directory, dep: DepObject)
    requires Acyclic(lark)
  {
    DepPath(lark, dep.openDepartmentId).Ok? ==> LastIndex(DepPath(lark, dep.openDepartmentId).value, dep.name) >= 0
  }

  ghost function RenameStep(lark: Directory, gs: seq<Group>, dep: DepObject, oldDep: DepObject): Step
    requires Acyclic(lark) && RenameResolvable(lark, dep)
  {
    match DepPath(lark, dep.openDepartmentId)
    case Err(e) => Step(Err(e), gs)
    case Ok(newPath) =>
      match GetGroup(Listing(gs, ""), OldPathOf(newPath, dep.name, oldDep.name))
      case Err(e) => Step(Err(e), gs)
      case Ok(g) =>
        var a := UpdateName(gs, g.id, dep.name);
        Step(Accepted(a.status, []), a.groups)
  }

  /** The rename half of groupUpdate. */
  method GroupRename(realm: Realm, lark: Directory, dep: DepObject, oldDep: DepObject) returns (r: Outcome)
    requires Acyclic(lark) && RenameResolvable(lark, dep)
    modifies realm
    ensures realm.users == old(realm.users) && realm.memberships == old(realm.memberships)
    ensures Step(r, realm.groups) == RenameStep(lark, old(realm.groups), dep, oldDep)
  {
    AcyclicTerminates(lark, dep.openDepartmentId);
    var newFullDepName := GetFullDepName(lark, dep.openDepartmentId);
    if newFullDepName.Err? {
      return Err(newFullDepName.error);
    }
    var idx := LastIndex(newFullDepName.value, dep.name);
    var oldFullDepName := newFullDepName.value[..idx] + oldDep.name;
    var group := GetGroup(realm.Groups(), oldFullDepName);
    if group.Err? {
      return Err(group.error);
    }
    r := GroupNameUpdateEngine(realm, group.value.(name := dep.name));
  }

  // ----- move -----

  ghost function MoveStep(lark: Directory, gs: seq<Group>, dep: DepObject, oldDep: DepObject): Step
    requires Acyclic(lark)
  {
    match DepPath(lark, oldDep.parentDepartmentId)
    case Err(e) => Step(Err(e), gs)
    case Ok(oldParentPath) =>
      match GetGroupIdByName(Listing(gs, ""), oldParentPath + "/" + dep.name)
      case Err(e) => Step(Err(e), gs)
      case Ok(groupId) =>
        if dep.parentDepartmentId == RootDepartmentId then
          var a := MoveToTop(gs, groupId);
          Step(Accepted(a.status, []), a.groups)
        else
          match GroupIdOfDepartment(lark, Listing(gs, ""), dep.parentDepartmentId)
          case Err(e) => Step(Err(e), gs)
          case Ok(newParentId) =>
            var a := MoveUnder(gs, newParentId, groupId);
            Step(Accepted(a.status, []), a.groups)
  }

  /** The move half of groupUpdate. */
  method GroupMove(realm: Realm, lark: Directory, dep: DepObject, oldDep: DepObject) returns (r: Outcome)
    requires Acyclic(lark)
    modifies realm
    ensures realm.users == old(realm.users) && realm.memberships == old(realm.memberships)
    ensures Step(r, realm.groups) == MoveStep(lark, old(realm.groups), dep, oldDep)
  {
    AcyclicTerminates(lark, oldDep.parentDepartmentId);
    var oldParentFullDepName := GetFullDepName(lark, oldDep.parentDepartmentId);
    if oldParentFullDepName.Err? {
      return Err(oldParentFullDepName.error);
    }
    var oldFullDepName := oldParentFullDepName.value + "/" + dep.name;
    var groupId := GetGroupIdByName(realm.Groups(), oldFullDepName);
    if groupId.Err? {
      return Err(groupId.error);
    }
    var newParentId := "";
    if dep.parentDepartmentId != RootDepartmentId {
      AcyclicTerminates(lark, dep.parentDepartmentId);
      var parentFullDepName := GetFullDepName(lark, dep.parentDepartmentId);
      if parentFullDepName.Err? {
        return Err(parentFullDepName.error);
      }
      var parentId := GetGroupIdByName(realm.Groups(), parentFullDepName.value);
      if parentId.Err? {
        return Err(parentId.error);
      }
      newParentId := parentId.value;
    }
    r := GroupParentUpdateEngine(realm, groupId.value, newParentId);
  }

  // ----- update: rename, then move -----

  ghost function UpdateStep(lark: Directory, gs: seq<Group>, dep: DepObject, oldDep: DepObject): Step
    requires Acyclic(lark) && (oldDep.name != "" ==> RenameResolvable(lark, dep))
  {
    var renamed := if oldDep.name != "" then RenameStep(lark, gs, dep, oldDep) else Step(Ok(()), gs);
    if renamed.outcome.Err? then renamed
    else if oldDep.parentDepartmentId != "" then MoveStep(lark, renamed.groups, dep, oldDep)
    else renamed
  }

  /** A failed rename is the update's whole outcome; after a successful one the move runs on the renamed forest. */
  lemma UpdateStopsAtFailedRename(lark: Directory, gs: seq<Group>, dep: DepObject, oldDep: DepObject)
    requires Acyclic(lark) && oldDep.name != "" && RenameResolvable(lark, dep)
    ensures var renamed := RenameStep(lark, gs, dep, oldDep);
            renamed.outcome.Err? ==> UpdateStep(lark, gs, dep, oldDep) == renamed
    ensures var renamed := RenameStep(lark, gs, dep, oldDep);
            renamed.outcome.Ok? && oldDep.parentDepartmentId != "" ==>
              UpdateStep(lark, gs, dep, oldDep) == MoveStep(lark, renamed.groups, dep, oldDep)
  {
  }

  /** groupUpdate: each of the two independent checks may fire; a failed rename skips the move. */
  method GroupUpdate(realm: Realm, lark: Directory, dep: DepObject, oldDep: DepObject) returns (r: Outcome)
    requires Acyclic(lark) && (oldDep.name != "" ==> RenameResolvable(lark, dep))
    modifies realm
    ensures realm.users == old(realm.users) && realm.memberships == old(realm.memberships)
    ensures Step(r, realm.groups) == UpdateStep(lark, old(realm.groups), dep, oldDep)
  {
    r := Ok(());
    if oldDep.name != "" {
      r := GroupRename(realm, lark, dep, oldDep);
      if r.Err? {
        return;
      }
    }
    if oldDep.parentDepartmentId != "" {
      r := GroupMove(realm, lark, dep, oldDep);
    }
  }

  // ----- delete -----

  ghost function DeleteStep(lark: Directory, gs: seq<Group>, dep: DepObject): Step
    requires Acyclic(lark)
  {
    match GroupIdOfDepartment(lark, Listing(gs, ""), dep.openDepartmentId)
    case Err(e) => Step(Err(e), gs)
    case Ok(groupId) =>
      var a := DeleteGroup(gs, groupId);
      Step(Accepted(a.status, []), a.groups)
  }

  /** groupDelete: deletes the group at the department's full path; not finding it is an error. */
  method GroupDelete(realm: Realm, lark: Directory, dep: DepObject) returns (r: Outcome)
    requires Acyclic(lark)
    modifies realm
    ensures realm.users == old(realm.users) && realm.memberships == old(realm.memberships)
    ensures Step(r, realm.groups) == DeleteStep(lark, old(realm.groups), dep)
  {
    AcyclicTerminates(lark, dep.openDepartmentId);
    var fullGroupNameInLark := GetFullDepName(lark, dep.openDepartmentId);
    if fullGroupNameInLark.Err? {
      return Err(fullGroupNameInLark.error);
    }
    var groupId := GetGroupIdByName(realm.Groups(), fullGroupNameInLark.value);
    if groupId.Err? {
      return Err(groupId.error);
    }
    r := GroupDeleteEngine(realm, groupId.value);
  }

  // ----- what the steps achieve -----

  /**
   * Creating never fails once the parent's group is found: a group that already exists is
   * a conflict, and a conflict is accepted, so replaying a create is not an error. A failed
   * create leaves the forest as it was.
   */
  lemma CreateAcceptsReplay(lark: Directory, gs: seq<Group>, dep: DepObject, newId: string)
    requires Acyclic(lark)
    ensures var s := CreateStep(lark, gs, dep, newId);
            && (dep.parentDepartmentId == RootDepartmentId ==> s.outcome == Ok(()))
            && (dep.parentDepartmentId != RootDepartmentId ==>
                  var parent := GroupIdOfDepartment(lark, Listing(gs, ""), dep.parentDepartmentId);
                  s.outcome == if parent.Err? then Err(parent.error) else Ok(()))
            && (s.outcome.Err? ==> s.groups == gs)
  {
    if dep.parentDepartmentId != RootDepartmentId {
      match DepPath(lark, dep.parentDepartmentId)
      case Err(_) =>
      case Ok(path) => LocatedGroupExists(gs, path);
    }
  }

  /** Creating the same top-level department twice leaves what the first create made. */
  lemma CreateTwiceAtTop(lark: Directory, gs: seq<Group>, dep: DepObject, id1: string, id2: string)
    requires Acyclic(lark) && dep.parentDepartmentId == RootDepartmentId
    ensures var first := CreateStep(lark, gs, dep, id1);
            CreateStep(lark, first.groups, dep, id2) == Step(Ok(()), first.groups)
  {
    CreateTopLevelIdempotent(gs, dep.name, id1, id2);
  }

  /**
   * After a top-level department is created, the department's own path locates the new
   * group: the directory lists the department under the root with the event's name, the
   * name is new at the top of the forest and contains no "/", and the realm gave the group
   * an id.
   */
  lemma CreatedDepartmentIsLocated(lark: Directory, gs: seq<Group>, dep: DepObject, newId: string)
    requires Acyclic(lark) && GetAppToken(lark).Ok?
    requires dep.openDepartmentId != RootDepartmentId && dep.openDepartmentId in lark.departments
    requires lark.departments[dep.openDepartmentId] == Department(dep.name, RootDepartmentId)
    requires dep.parentDepartmentId == RootDepartmentId
    requires '/' !in dep.name && !NameTaken(gs, dep.name) && newId != ""
    ensures GroupIdOfDepartment(lark, Listing(CreateStep(lark, gs, dep, newId).groups, ""), dep.openDepartmentId) == Ok(newId)
  {
    AcyclicTerminates(lark, dep.openDepartmentId);
    FullDepNameOfChild(lark, dep.openDepartmentId);
    NewTopLevelGroupIsLocated(gs, dep.name, newId);
  }

  /**
   * When the directory already holds the new name, the rename's path surgery can cut, and
   * it gives the department's parent path followed by "/" and the old name.
   */
  lemma RenameRebuildsOldPath(lark: Directory, dep: DepObject, oldName: string)
    requires Acyclic(lark) && GetAppToken(lark).Ok?
    requires dep.openDepartmentId != RootDepartmentId && dep.openDepartmentId in lark.departments
    requires lark.departments[dep.openDepartmentId].name == dep.name
    ensures RenameResolvable(lark, dep)
    ensures var parent := lark.departments[dep.openDepartmentId].parentDepartmentId;
            DepPath(lark, dep.openDepartmentId).Ok? ==>
              && DepPath(lark, parent).Ok?
              && OldPathOf(DepPath(lark, dep.openDepartmentId).value, dep.name, oldName)
                   == DepPath(lark, parent).value + "/" + oldName
  {
    var parent := lark.departments[dep.openDepartmentId].parentDepartmentId;
    AcyclicTerminates(lark, dep.openDepartmentId);
    AcyclicTerminates(lark, parent);
    FullDepNameOfChild(lark, dep.openDepartmentId);
    FullDepNameOfRoot(lark);
    match DepPath(lark, parent)
    case Err(_) =>
    case Ok(pp) =>
      OldPathOfChild(pp, dep.name, oldName);
      assert "" + "/" + dep.name == "/" + dep.name;
  }

  /**
   * A rename that finds the group at the old path succeeds, gives that group the new name
   * and keeps every group id of the forest, every other group's name and, when the group
   * does not hold its own id again below it, its subgroups; a rename that fails changes
   * nothing.
   */
  lemma RenameRenamesLocatedGroup(lark: Directory, gs: seq<Group>, dep: DepObject, oldDep: DepObject)
    requires Acyclic(lark) && RenameResolvable(lark, dep)
    ensures var s := RenameStep(lark, gs, dep, oldDep);
            && (s.outcome.Err? ==> s.groups == gs)
            && (forall x :: HasId(s.groups, x) <==> HasId(gs, x))
    ensures var newPath := DepPath(lark, dep.openDepartmentId);
            var s := RenameStep(lark, gs, dep, oldDep);
            newPath.Ok? ==>
              var g := GetGroup(Listing(gs, ""), OldPathOf(newPath.value, dep.name, oldDep.name));
              && (s.outcome.Ok? <==> g.Ok?)
              && (g.Ok? ==> Lookup(s.groups, g.value.id).value.name == dep.name)
              && (g.Ok? ==> forall x :: x != g.value.id && HasId(gs, x) ==>
                    Lookup(s.groups, x).Some? && Lookup(s.groups, x).value.name == Lookup(gs, x).value.name)
              && (g.Ok? && !HasId(Lookup(gs, g.value.id).value.subGroups, g.value.id) ==>
                    Lookup(s.groups, g.value.id).value.subGroups == Lookup(gs, g.value.id).value.subGroups)
  {
    match DepPath(lark, dep.openDepartmentId)
    case Err(_) =>
    case Ok(p) =>
      var path := OldPathOf(p, dep.name, oldDep.name);
      LocatedGroupExists(gs, path);
      match GetGroup(Listing(gs, ""), path)
      case Err(_) =>
      case Ok(g) =>
        RenameAllLookup(gs, g.id, dep.name);
        forall x | x != g.id && HasId(gs, x)
          ensures Lookup(RenameAll(gs, g.id, dep.name), x).Some?
          ensures Lookup(RenameAll(gs, g.id, dep.name), x).value.name == Lookup(gs, x).value.name
        {
          RenameAllLookupEach(gs, g.id, dep.name, x);
        }
        RenameAllLookupEach(gs, g.id, dep.name, g.id);
        if !HasId(Lookup(gs, g.id).value.subGroups, g.id) {
          RenameAllAbsent(Lookup(gs, g.id).value.subGroups, g.id, dep.name);
        }
  }

  /**
   * A move that succeeds keeps the moved group, with its name, id and subtree, findable by
   * its id; moved under the root it becomes the last top-level group, moved under another
   * department it becomes the last child of the group located for that department. With
   * unique ids, every id occurs as often as before, so nothing is copied or lost. A failed
   * move changes nothing.
   */
  lemma {:induction false} MoveKeepsLocatedGroup(lark: Directory, gs: seq<Group>, dep: DepObject, oldDep: DepObject)
    requires Acyclic(lark)
    ensures var s := MoveStep(lark, gs, dep, oldDep);
            s.outcome.Err? ==> s.groups == gs
    ensures var oldParentPath := DepPath(lark, oldDep.parentDepartmentId);
            var s := MoveStep(lark, gs, dep, oldDep);
            s.outcome.Ok? ==>
              && oldParentPath.Ok?
              && var groupId := GetGroupIdByName(Listing(gs, ""), oldParentPath.value + "/" + dep.name);
                 && groupId.Ok?
                 && Lookup(s.groups, groupId.value) == Lookup(gs, groupId.value)
                 && (dep.parentDepartmentId == RootDepartmentId ==> s.groups[|s.groups| - 1].id == groupId.value)
                 && (dep.parentDepartmentId != RootDepartmentId ==>
                       var parent := GroupIdOfDepartment(lark, Listing(gs, ""), dep.parentDepartmentId);
                       parent.Ok? && IsLastChild(s.groups, parent.value, Lookup(gs, groupId.value).value))
                 && (UniqueIds(gs) ==> forall x :: CountId(s.groups, x) == CountId(gs, x))
  {
    var oldParentPath := DepPath(lark, oldDep.parentDepartmentId);
    if oldParentPath.Ok? {
      var groupId := GetGroupIdByName(Listing(gs, ""), oldParentPath.value + "/" + dep.name);
      if groupId.Ok? {
        MoveOfLocatedGroup(lark, gs, dep, oldDep, groupId.value);
      }
    }
  }

  /** The successful half of MoveKeepsLocatedGroup, once the moved group has been located. */
  lemma {:induction false} MoveOfLocatedGroup(lark: Directory, gs: seq<Group>, dep: DepObject, oldDep: DepObject, groupId: string)
    requires Acyclic(lark)
    requires DepPath(lark, oldDep.parentDepartmentId).Ok?
    requires GetGroupIdByName(Listing(gs, ""), DepPath(lark, oldDep.parentDepartmentId).value + "/" + dep.name) == Ok(groupId)
    ensures var s := MoveStep(lark, gs, dep, oldDep);
            s.outcome.Ok? ==>
              && Lookup(s.groups, groupId) == Lookup(gs, groupId)
              && (dep.parentDepartmentId == RootDepartmentId ==> s.groups[|s.groups| - 1].id == groupId)
              && (dep.parentDepartmentId != RootDepartmentId ==>
                    var parent := GroupIdOfDepartment(lark, Listing(gs, ""), dep.parentDepartmentId);
                    parent.Ok? && IsLastChild(s.groups, parent.value, Lookup(gs, groupId).value))
              && (UniqueIds(gs) ==> forall x :: CountId(s.groups, x) == CountId(gs, x))
  {
    LocatedGroupExists(gs, DepPath(lark, oldDep.parentDepartmentId).value + "/" + dep.name);
    var s := MoveStep(lark, gs, dep, oldDep);
    if dep.parentDepartmentId == RootDepartmentId {
      var a := MoveToTop(gs, groupId);
      assert s == Step(Accepted(a.status, []), a.groups);
      assert a.status in {204, 404, 409};
      MoveKeepsGroup(gs, "", groupId);
    } else {
      var parent := GroupIdOfDepartment(lark, Listing(gs, ""), dep.parentDepartmentId);
      if parent.Ok? {
        var a := MoveUnder(gs, parent.value, groupId);
        assert s == Step(Accepted(a.status, []), a.groups);
        assert a.status in {204, 400, 404, 409};
        MoveKeepsGroup(gs, parent.value, groupId);
      } else {
        assert s == Step(Err(parent.error), gs);
      }
    }
  }

  /**
   * A delete that locates the department's group succeeds and leaves no group with that id;
   * with unique ids, exactly the ids outside that group's subtree remain. One that does not
   * locate it is an error, and the forest stays as it was.
   */
  lemma DeleteRemovesLocatedGroup(lark: Directory, gs: seq<Group>, dep: DepObject)
    requires Acyclic(lark)
    ensures var groupId := GroupIdOfDepartment(lark, Listing(gs, ""), dep.openDepartmentId);
            var s := DeleteStep(lark, gs, dep);
            && (groupId.Err? ==> s == Step(Err(groupId.error), gs))
            && (groupId.Ok? ==> s.outcome == Ok(()) && !HasId(s.groups, groupId.value))
            && (groupId.Ok? && UniqueIds(gs) ==>
                  && HasId(gs, groupId.value)
                  && forall x :: HasId(s.groups, x) <==> HasId(gs, x) && !HasId([Lookup(gs, groupId.value).value], x))
  {
    match DepPath(lark, dep.openDepartmentId)
    case Err(_) =>
    case Ok(path) =>
      LocatedGroupExists(gs, path);
      match GetGroupIdByName(Listing(gs, ""), path)
      case Err(_) =>
      case Ok(groupId) => DeleteRemovesGroup(gs, groupId);
  }

  // ----- the group of a user's department -----

  /** The group a user of the department belongs in; "" when the department is the root. */
  ghost function GroupIdForUser(lark: Directory, listing: seq<GroupInfo>, depId: string): Result<string>
    requires Acyclic(lark)
  {
    match DepPath(lark, depId)
    case Err(e) => Err(e)
    case Ok(path) => if path == "" then Ok("") else GetGroupIdByName(listing, path)
  }

  /** getGroupIdInKeycloak: resolves the user's first department to a group id. */
  method GetGroupIdInKeycloak(realm: Realm, lark: Directory, userObj: UserObject) returns (r: Result<string>)
    requires Acyclic(lark) && |userObj.departmentIds| > 0
    ensures r == GroupIdForUser(lark, Listing(realm.groups, ""), userObj.departmentIds[0])
  {
    AcyclicTerminates(lark, userObj.departmentIds[0]);
    var fullGroupNameInLark := GetFullDepName(lark, userObj.departmentIds[0]);
    if fullGroupNameInLark.Err? {
      return Err(fullGroupNameInLark.error);
    }
    if |fullGroupNameInLark.value| == 0 {
      return Ok("");
    }
    r := GetGroupIdByName(realm.Groups(), fullGroupNameInLark.value);
  }

  /**
   * Only the root resolves to "no group": any other department is looked up like any
   * department, and an id found is a group of the realm.
   */
  lemma GroupIdForUserCases(lark: Directory, gs: seq<Group>, depId: string)
    requires Acyclic(lark)
    ensures depId == RootDepartmentId && GetAppToken(lark).Ok? ==> GroupIdForUser(lark, Listing(gs, ""), depId) == Ok("")
    ensures depId != RootDepartmentId ==> GroupIdForUser(lark, Listing(gs, ""), depId) == GroupIdOfDepartment(lark, Listing(gs, ""), depId)
    ensures var r := GroupIdForUser(lark, Listing(gs, ""), depId);
            r.Ok? && r.value != "" ==> HasId(gs, r.value)
  {
    AcyclicTerminates(lark, depId);
    if depId != RootDepartmentId && FullDepName(lark, depId).Ok? {
      FullDepNameShape(lark, depId);
    }
    if DepPath(lark, depId).Ok? {
      LocatedGroupExists(gs, DepPath(lark, depId).value);
    }
  }

  // ----- dispatch -----

  /**
   * processDepMsgWithType: `tokenFetch` is the outcome of fetching the realm's admin token,
   * and `newId` the id the realm gives a group it creates.
   */
  method ProcessDepMsg(realm: Realm, lark: Directory, tokenFetch: Outcome, msg: ContactDepMsg, newId: string)
    returns (r: Outcome)
    requires Acyclic(lark)
    requires msg.header.eventType == EventTypeDepartmentUpdate && msg.oldObj.name != "" ==>
               RenameResolvable(lark, msg.obj)
    modifies realm
    ensures realm.users == old(realm.users) && realm.memberships == old(realm.memberships)
    ensures tokenFetch.Err? ==> r == tokenFetch && realm.groups == old(realm.groups)
    ensures tokenFetch.Ok? ==>
              var t := msg.header.eventType;
              Step(r, realm.groups) ==
                if t == EventTypeDepartmentCreate then CreateStep(lark, old(realm.groups), msg.obj, newId)
                else if t == EventTypeDepartmentUpdate then UpdateStep(lark, old(realm.groups), msg.obj, msg.oldObj)
                else if t == EventTypeDepartmentDelete then DeleteStep(lark, old(realm.groups), msg.obj)
                else Step(Err(UnsupportedEvent(t)), old(realm.groups))
  {
    if tokenFetch.Err? {
      return tokenFetch;
    }
    var eventType := msg.header.eventType;
    if eventType == EventTypeDepartmentCreate {
      r := GroupCreate(realm, lark, msg.obj, newId);
    } else if eventType == EventTypeDepartmentUpdate {
      r := GroupUpdate(realm, lark, msg.obj, msg.oldObj);
    } else if eventType == EventTypeDepartmentDelete {
      r := GroupDelete(realm, lark, msg.obj);
    } else {
      r := Err(UnsupportedEvent(eventType));
    }
  }
}

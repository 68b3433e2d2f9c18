/**
 * User events applied to the realm's users and memberships (cmd/keycloak/user.go). The
 * realm's username of a directory user is the user's email; a user belongs to at most the
 * one group of the first department the directory lists for them.
 */
module UserSync {
  import opened Results
  import opened Utils
  import opened GoStrings
  import opened LarkModel
  import opened Lark
  import opened Keycloak
  import opened DepartmentSync

  const AttributePhoneNumber := "phone_number"
  const AttributeRealName := "fullname"
  const AttributeNickname := "nickname"

  const FullwidthOpen := '\U{FF08}'
  const FullwidthClose := '\U{FF09}'

  /** The text after the first `open`, up to the next `open` or to the end. */
  function AfterOpen(name: string, open: char): string
    requires open in name
  {
    var t := name[IndexOf(name, open) + 1..];
    if open in t then t[..IndexOf(t, open)] else t
  }

  /** The text before the first ASCII closing parenthesis, else before the first fullwidth one. */
  function BeforeClose(s: string): string
  {
    if ')' in s then s[..IndexOf(s, ')')]
    else if FullwidthClose in s then s[..IndexOf(s, FullwidthClose)]
    else s
  }

  /**
   * parseName: "nick(Real Name)" gives ("Real Name", "nick"). The ASCII parenthesis is looked
   * for before the fullwidth one; the real name is the text after the first opening
   * parenthesis up to the next opening one, cut at the first closing parenthesis (ASCII
   * before fullwidth). A name without an opening parenthesis is all real name.
   */
  function ParseName(name: string): (r: (string, string))
    ensures '(' !in name && FullwidthOpen !in name ==> r == (TrimSpace(name), "")
    ensures '(' in name ==> r.1 == TrimSpace(name[..IndexOf(name, '(')])
    ensures '(' !in name && FullwidthOpen in name ==> r.1 == TrimSpace(name[..IndexOf(name, FullwidthOpen)])
    ensures '(' in name ==> '(' !in r.0 && ')' !in r.0
    ensures '(' !in name && FullwidthOpen in name ==> FullwidthOpen !in r.0 && ')' !in r.0
  {
    if '(' in name || FullwidthOpen in name then
      var open := if '(' in name then '(' else FullwidthOpen;
      var parts := Split(name, open);
      var nickname := parts[0];
      var rest := parts[1];
      assert open !in rest;
      var realName :=
        if ')' in rest then Split(rest, ')')[0]
        else if FullwidthClose in rest then Split(rest, FullwidthClose)[0]
        else rest;
      assert ')' !in realName && open !in realName;
      (TrimSpace(realName), TrimSpace(nickname))
    else
      (TrimSpace(name), "")
  }

  /**
   * The real name parseName gives: the text after the first opening parenthesis (ASCII
   * before fullwidth) up to the next one, cut at the first closing parenthesis (ASCII before
   * fullwidth), and trimmed.
   */
  lemma RealNameOfParseName(name: string)
    ensures '(' in name ==> ParseName(name).0 == TrimSpace(BeforeClose(AfterOpen(name, '(')))
    ensures '(' !in name && FullwidthOpen in name ==> ParseName(name).0 == TrimSpace(BeforeClose(AfterOpen(name, FullwidthOpen)))
  {
    if '(' in name || FullwidthOpen in name {
      var open := if '(' in name then '(' else FullwidthOpen;
      var rest := Split(name, open)[1];
      SplitSecond(name, open);
      assert rest == AfterOpen(name, open);
      var realName :=
        if ')' in rest then Split(rest, ')')[0]
        else if FullwidthClose in rest then Split(rest, FullwidthClose)[0]
        else rest;
      assert realName == BeforeClose(rest);
      assert ParseName(name).0 == TrimSpace(realName);
    }
  }

  /** A display name "nick(real)" splits into the trimmed real name and the trimmed nickname. */
  lemma ParseNamePair(nick: string, realName: string)
    requires '(' !in nick && '(' !in realName && ')' !in realName
    ensures ParseName(nick + "(" + realName + ")") == (TrimSpace(realName), TrimSpace(nick))
  {
    var name := nick + "(" + realName + ")";
    assert name == nick + ['('] + (realName + ")");
    SplitAround(nick, realName + ")", '(');
    assert realName + ")" == realName + [')'] + [];
    SplitAround(realName, [], ')');
  }

  /** "nick（real）" with fullwidth parentheses gives the trimmed real name and nickname. */
  lemma ParseNameFullwidth(nick: string, realName: string)
    requires '(' !in nick && FullwidthOpen !in nick
    requires '(' !in realName && FullwidthOpen !in realName && ')' !in realName && FullwidthClose !in realName
    ensures ParseName(nick + [FullwidthOpen] + realName + [FullwidthClose]) == (TrimSpace(realName), TrimSpace(nick))
  {
    var name := nick + [FullwidthOpen] + (realName + [FullwidthClose]);
    assert name == nick + [FullwidthOpen] + realName + [FullwidthClose];
    assert '(' !in name;
    SplitAround(nick, realName + [FullwidthClose], FullwidthOpen);
    assert Split(name, FullwidthOpen)[1] == realName + [FullwidthClose];
    assert ')' !in realName + [FullwidthClose];
    assert realName + [FullwidthClose] == realName + [FullwidthClose] + [];
    SplitAround(realName, [], FullwidthClose);
  }

  /** "nick(real）", an ASCII opening closed by a fullwidth parenthesis, is cut at the fullwidth one. */
  lemma ParseNameMixed(nick: string, realName: string)
    requires '(' !in nick
    requires '(' !in realName && ')' !in realName && FullwidthClose !in realName
    ensures ParseName(nick + "(" + realName + [FullwidthClose]) == (TrimSpace(realName), TrimSpace(nick))
  {
    var name := nick + ['('] + (realName + [FullwidthClose]);
    assert name == nick + "(" + realName + [FullwidthClose];
    SplitAround(nick, realName + [FullwidthClose], '(');
    assert Split(name, '(')[1] == realName + [FullwidthClose];
    assert ')' !in realName + [FullwidthClose];
    assert realName + [FullwidthClose] == realName + [FullwidthClose] + [];
    SplitAround(realName, [], FullwidthClose);
  }

  /** "nick(real" without a closing parenthesis gives the rest of the name as the real name. */
  lemma ParseNameUnclosed(nick: string, realName: string)
    requires '(' !in nick
    requires '(' !in realName && ')' !in realName && FullwidthClose !in realName
    ensures ParseName(nick + "(" + realName) == (TrimSpace(realName), TrimSpace(nick))
  {
    SplitAround(nick, realName, '(');
  }

  /** Splitting just after a piece without the separator gives that piece, then the text up to the next separator. */
  lemma {:induction false} SplitAround(a: string, b: string, sep: char)
    requires sep !in a
    ensures Split(a + [sep] + b, sep)[0] == a
    ensures Split(a + [sep] + b, sep)[1] == if sep in b then b[..IndexOf(b, sep)] else b
  {
    var s := a + [sep] + b;
    assert s[..|a|] == a && s[|a|] == sep;
    IndexOfAt(s, sep, |a|);
    assert s[|a| + 1..] == b;
    SplitSecond(s, sep);
  }

  /** The pieces of the worked example below. */
  lemma {:induction false} ExampleNameParts()
    ensures "Sam(Samuel Lee)" == "Sam" + "(" + "Samuel Lee" + ")"
  {
  }

  lemma {:induction false} ExampleTrimReal()
    ensures TrimSpace("Samuel Lee") == "Samuel Lee"
  {
    TrimSpaceKeepsTrimmed("Samuel Lee");
  }

  lemma {:induction false} ExampleTrimNick()
    ensures TrimSpace("Sam") == "Sam"
  {
    TrimSpaceKeepsTrimmed("Sam");
  }

  lemma ExamplePair()
    ensures ParseName("Sam" + "(" + "Samuel Lee" + ")") == (TrimSpace("Samuel Lee"), TrimSpace("Sam"))
  {
    ParseNamePair("Sam", "Samuel Lee");
  }

  /** The worked example of the directory's display names. */
  lemma ParseNameExample()
    ensures ParseName("Sam(Samuel Lee)") == ("Samuel Lee", "Sam")
  {
    ExampleNameParts();
    ExampleTrimReal();
    ExampleTrimNick();
    ExamplePair();
  }

  // ----- request bodies -----

  lemma AttributeKeysDistinct()
    ensures AttributePhoneNumber != AttributeRealName && AttributePhoneNumber != AttributeNickname
    ensures AttributeRealName != AttributeNickname
  {
    assert |AttributePhoneNumber| != |AttributeRealName| && |AttributePhoneNumber| != |AttributeNickname|;
    assert AttributeRealName[0] != AttributeNickname[0];
  }

  /**
   * genUser4Create: the realm user for a directory user, enabled, named by the email, with
   * the real name and nickname parsed from the display name; the realm picks the id.
   */
  function GenUser4Create(obj: UserObject): (u: User)
    ensures u.id == "" && !u.emailVerified
    ensures u.username == obj.email && u.email == obj.email && u.enabled
    ensures u.attributes.Keys == {AttributePhoneNumber, AttributeRealName, AttributeNickname}
    ensures u.attributes[AttributePhoneNumber] == obj.mobile
    ensures u.firstName == u.lastName == u.attributes[AttributeRealName]
  {
    var (realName, nickName) := ParseName(obj.name);
    var attrs := map[AttributePhoneNumber := obj.mobile, AttributeRealName := realName, AttributeNickname := nickName];
    User("", obj.email, obj.email, realName, realName, true, false, attrs)
  }

  /**
   * The names genUser4Create sends are those parseName finds in the display name: the real
   * name as first name, last name and real-name attribute, the nickname as its attribute.
   */
  lemma GenUser4CreateNames(obj: UserObject)
    ensures var u := GenUser4Create(obj);
            && u.firstName == u.lastName == u.attributes[AttributeRealName] == ParseName(obj.name).0
            && u.attributes[AttributeNickname] == ParseName(obj.name).1
  {
  }

  /**
   * The attributes genUser4Update sends: the stored ones, with the phone number replaced
   * when the old or the new snapshot has a mobile, and the two names replaced, by `names`
   * (the real name and nickname parsed from the new name), when the old or the new snapshot
   * has a name.
   */
  function MergedAttributes(attrs: map<string, string>, obj: UserObject, oldObj: UserObject, names: (string, string))
    : (m: map<string, string>)
    ensures forall k :: k in m ==> k in attrs || k == AttributePhoneNumber || k == AttributeRealName || k == AttributeNickname
    ensures forall k :: k in attrs && k != AttributePhoneNumber && k != AttributeRealName && k != AttributeNickname ==>
              k in m && m[k] == attrs[k]
    ensures oldObj.mobile != "" || obj.mobile != "" ==> AttributePhoneNumber in m && m[AttributePhoneNumber] == obj.mobile
    ensures oldObj.mobile == "" && obj.mobile == "" ==>
              (AttributePhoneNumber in m <==> AttributePhoneNumber in attrs) &&
              (AttributePhoneNumber in attrs ==> m[AttributePhoneNumber] == attrs[AttributePhoneNumber])
    ensures oldObj.name != "" || obj.name != "" ==>
              && AttributeRealName in m && m[AttributeRealName] == names.0
              && AttributeNickname in m && m[AttributeNickname] == names.1
    ensures oldObj.name == "" && obj.name == "" ==>
              forall k :: k == AttributeRealName || k == AttributeNickname ==>
                (k in m <==> k in attrs) && (k in attrs ==> m[k] == attrs[k])
  {
    AttributeKeysDistinct();
    var withPhone := if oldObj.mobile != "" || obj.mobile != "" then attrs[AttributePhoneNumber := obj.mobile] else attrs;
    if oldObj.name != "" || obj.name != "" then
      withPhone[AttributeRealName := names.0][AttributeNickname := names.1]
    else
      withPhone
  }

  /**
   * The body genUser4Update sends for the stored user `cur`: a fresh user with no username
   * or email (the realm keeps those), an unverified email, the merged attributes, the names
   * only when the old or the new snapshot has a name (blank names otherwise), and the
   * enabled flag of the directory's status when the old snapshot has a status.
   */
  function UpdateBody(cur: User, obj: UserObject, oldObj: UserObject): (b: User)
    requires oldObj.status.Some? ==> obj.status.Some?
    ensures b.id == cur.id && !b.emailVerified
    ensures var u := ApplyUpdate(cur, b); u.id == cur.id && u.username == cur.username && u.email == cur.email
  {
    var named := oldObj.name != "" || obj.name != "";
    var realName := if named then ParseName(obj.name).0 else "";
    User(cur.id, "", "", realName, realName,
         if oldObj.status.Some? then !obj.status.value.isFrozen else cur.enabled,
         false,
         MergedAttributes(cur.attributes, obj, oldObj, ParseName(obj.name)))
  }

  // ----- finding a user -----

  /** The first user of the listing with the username. */
  function FindUser(users: seq<User>, username: string): (r: Option<User>)
    ensures r.None? <==> !UsernameTaken(users, username)
    ensures r.Some? ==> r.value in users && r.value.username == username && HasUser(users, r.value.id)
  {
    if users == [] then None
    else if users[0].username == username then Some(users[0])
    else
      var r := FindUser(users[1..], username);
      assert r.Some? ==> r.value.username == username && r.value in users;
      assert UsernameTaken(users[1..], username) ==> UsernameTaken(users, username);
      r
  }

  /** What getUserDetail answers: an error for an empty listing, else the search's result. */
  function UserDetail(users: seq<User>, username: string): Result<Option<User>>
  {
    if users == [] then Err(EmptyUserList) else Ok(FindUser(users, username))
  }

  /** The user found is the first one with the username. */
  lemma {:induction false} FindUserFirst(users: seq<User>, username: string, k: int)
    requires 0 <= k < |users| && users[k].username == username
    requires forall j :: 0 <= j < k ==> users[j].username != username
    ensures FindUser(users, username) == Some(users[k])
  {
    if k > 0 {
      FindUserFirst(users[1..], username, k - 1);
    }
  }

  /** A user added under a username no one has is the one found under it. */
  lemma {:induction false} FindUserAppend(users: seq<User>, u: User)
    requires !UsernameTaken(users, u.username)
    ensures FindUser(users + [u], u.username) == Some(u)
  {
    FindUserFirst(users + [u], u.username, |users|);
  }

  /** getUserDetail: scans the realm's listing for the username. */
  method GetUserDetail(realm: Realm, userName: string) returns (r: Result<Option<User>>)
    ensures r == UserDetail(realm.users, userName)
  {
    var userList := realm.users;
    if |userList| == 0 {
      return Err(EmptyUserList);
    }
    var i := 0;
    while i < |userList|
      invariant 0 <= i <= |userList|
      invariant FindUser(userList, userName) == FindUser(userList[i..], userName)
    {
      if userName == userList[i].username {
        return Ok(Some(userList[i]));
      }
      assert userList[i..][1..] == userList[i + 1..];
      i := i + 1;
    }
    return Ok(None);
  }

  /** genUser4Update: the body that refreshes the stored user with the directory's snapshot. */
  method GenUser4Update(realm: Realm, userObj: UserObject, userOldObj: UserObject) returns (r: Result<User>)
    requires userOldObj.status.Some? ==> userObj.status.Some?
    ensures var found := UserDetail(realm.users, userObj.email);
            r == if found.Err? then Err(found.error)
                 else if found.value.None? then Err(UserNotFound(userObj.email))
                 else Ok(UpdateBody(found.value.value, userObj, userOldObj))
  {
    var user := User("", "", "", "", "", false, false, map[]);
    var username := userObj.email;
    var userOldInKeycloak := GetUserDetail(realm, username);
    if userOldInKeycloak.Err? {
      return Err(userOldInKeycloak.error);
    }
    if userOldInKeycloak.value.None? {
      return Err(UserNotFound(username));
    }
    var cur := userOldInKeycloak.value.value;
    var attrs := cur.attributes;
    if userOldObj.mobile != "" || userObj.mobile != "" {
      attrs := attrs[AttributePhoneNumber := userObj.mobile];
    }
    if userOldObj.name != "" || userObj.name != "" {
      var (realName, nickName) := ParseName(userObj.name);
      attrs := attrs[AttributeRealName := realName][AttributeNickname := nickName];
      user := user.(lastName := realName, firstName := realName);
    }
    user := user.(attributes := attrs, id := cur.id, enabled := cur.enabled);
    if userOldObj.status.Some? {
      if userObj.status.value.isFrozen {
        user := user.(enabled := false);
      } else {
        user := user.(enabled := true);
      }
    }
    return Ok(user);
  }

  // ----- one REST call each, with the statuses the call accepts -----

  /** createUser: only 2xx is accepted. */
  method CreateUserEngine(realm: Realm, user: User, newId: string) returns (r: Outcome)
    modifies realm
    ensures realm.groups == old(realm.groups) && realm.memberships == old(realm.memberships)
    ensures realm.users == CreateUser(old(realm.users), user, newId).users
    ensures r == Accepted(CreateUser(old(realm.users), user, newId).status, [])
  {
    var status := realm.AddUser(user, newId);
    r := Accepted(status, []);
  }

  /** updateUser: only 2xx is accepted. */
  method UpdateUserEngine(realm: Realm, userId: string, user: User) returns (r: Outcome)
    modifies realm
    ensures realm.groups == old(realm.groups) && realm.memberships == old(realm.memberships)
    ensures realm.users == UpdateUser(old(realm.users), userId, user).users
    ensures r == Accepted(UpdateUser(old(realm.users), userId, user).status, [])
  {
    var status := realm.PutUser(userId, user);
    r := Accepted(status, []);
  }

  /** deleteUserEngine: a user already gone is accepted. */
  method DeleteUserEngine(realm: Realm, userId: string) returns (r: Outcome)
    modifies realm
    ensures realm.groups == old(realm.groups)
    ensures realm.users == DeleteUser(old(realm.users), userId).users
    ensures realm.memberships ==
              if HasUser(old(realm.users), userId) then old(realm.memberships) - {userId} else old(realm.memberships)
    ensures r.Ok?
  {
    var status := realm.RemoveUserById(userId);
    r := Accepted(status, [StatusNotFound]);
  }

  // ----- memberships -----

  /** The memberships with the user's list emptied (left alone when already empty). */
  function Cleared(memberships: map<string, seq<string>>, userId: string): map<string, seq<string>>
  {
    if MembersOf(memberships, userId) == [] then memberships else memberships[userId := []]
  }

  /** deleteUserGroup: takes the user out of every group it lists for them. */
  method DeleteUserGroup(realm: Realm, userId: string) returns (r: Outcome)
    modifies realm
    ensures realm.groups == old(realm.groups) && realm.users == old(realm.users)
    ensures r.Ok? <==> HasUser(realm.users, userId)
    ensures r.Err? ==> r.error == Rejected(StatusNotFound) && realm.memberships == old(realm.memberships)
    ensures r.Ok? ==> realm.memberships == Cleared(old(realm.memberships), userId)
  {
    var status, userGroups := realm.UserGroups(userId);
    r := Accepted(status, []);
    if r.Err? {
      return;
    }
    ghost var m0 := realm.memberships;
    WithoutNothing(userGroups);
    var i := 0;
    while i < |userGroups|
      invariant 0 <= i <= |userGroups|
      invariant r.Ok?
      invariant realm.groups == old(realm.groups) && realm.users == old(realm.users)
      invariant MembersOf(realm.memberships, userId) == Without(userGroups, userGroups[..i])
      invariant realm.memberships == if i == 0 then m0 else m0[userId := Without(userGroups, userGroups[..i])]
    {
      var leave := realm.LeaveGroup(userId, userGroups[i]);
      r := Accepted(leave, [StatusNotFound]);
      if r.Err? {
        return;
      }
      WithoutPrefixStep(userGroups, i);
      i := i + 1;
    }
    assert userGroups[..i] == userGroups;
    WithoutEverything(userGroups);
  }

  /** What a handler leaves behind: its outcome and the realm's users and memberships afterwards. */
  datatype UserStep = UserStep(outcome: Outcome, users: seq<User>, memberships: map<string, seq<string>>)

  /**
   * assignGroup2User: the group of the user's first department is resolved first; then the
   * user leaves every group, and joins that group unless the department is the root.
   */
  ghost function AssignStep(lark: Directory, gs: seq<Group>, users: seq<User>, ms: map<string, seq<string>>,
                            userId: string, obj: UserObject): UserStep
    requires Acyclic(lark) && |obj.departmentIds| > 0
  {
    var groupId := GroupIdForUser(lark, Listing(gs, ""), obj.departmentIds[0]);
    if groupId.Err? then UserStep(Err(groupId.error), users, ms)
    else if !HasUser(users, userId) then UserStep(Err(Rejected(StatusNotFound)), users, ms)
    else if groupId.value == "" then UserStep(Ok(()), users, Cleared(ms, userId))
    else UserStep(Ok(()), users, Cleared(ms, userId)[userId := [groupId.value]])
  }

  method AssignGroup2User(realm: Realm, lark: Directory, userId: string, userObj: UserObject) returns (r: Outcome)
    requires Acyclic(lark) && |userObj.departmentIds| > 0
    modifies realm
    ensures realm.groups == old(realm.groups)
    ensures UserStep(r, realm.users, realm.memberships) ==
              AssignStep(lark, old(realm.groups), old(realm.users), old(realm.memberships), userId, userObj)
  {
    var groupId := GetGroupIdInKeycloak(realm, lark, userObj);
    if groupId.Err? {
      return Err(groupId.error);
    }
    r := DeleteUserGroup(realm, userId);
    if r.Err? {
      return;
    }
    if groupId.value == "" {
      return Ok(());
    }
    GroupIdForUserCases(lark, realm.groups, userObj.departmentIds[0]);
    assert realm.Members(userId) + [groupId.value] == [groupId.value];
    var status := realm.JoinGroup(userId, groupId.value);
    r := Accepted(status, []);
  }

  // ----- user deleted -----

  /** userDelete: the user with the email as username is deleted; one not in the realm is skipped. */
  function UserDeleteStep(users: seq<User>, ms: map<string, seq<string>>, obj: UserObject): UserStep
  {
    var found := UserDetail(users, obj.email);
    if found.Err? then UserStep(Err(found.error), users, ms)
    else if found.value.None? then UserStep(Ok(()), users, ms)
    else UserStep(Ok(()), RemoveUser(users, found.value.value.id), ms - {found.value.value.id})
  }

  method UserDelete(realm: Realm, userObj: UserObject) returns (r: Outcome)
    modifies realm
    ensures realm.groups == old(realm.groups)
    ensures UserStep(r, realm.users, realm.memberships) == UserDeleteStep(old(realm.users), old(realm.memberships), userObj)
  {
    var userInKeycloak := GetUserDetail(realm, userObj.email);
    if userInKeycloak.Err? {
      return Err(userInKeycloak.error);
    }
    if userInKeycloak.value.None? {
      return Ok(());
    }
    r := DeleteUserEngine(realm, userInKeycloak.value.value.id);
    if r.Err? {
      return;
    }
    return Ok(());
  }

  // ----- user updated -----

  /** The event only reports that the user activated their account. */
  predicate Activation(obj: UserObject, oldObj: UserObject)
  {
    oldObj.status.Some? && obj.status.Some? && !oldObj.status.value.isActivated && obj.status.value.isActivated
  }

  /**
   * An activation is answered with success and changes nothing; a snapshot pair whose old
   * status is missing or already activated is never an activation.
   */
  lemma ActivationIsIgnored(lark: Directory, gs: seq<Group>, users: seq<User>, ms: map<string, seq<string>>,
                            obj: UserObject, oldObj: UserObject, newId: string)
    requires Acyclic(lark) && UpdateDefined(obj, oldObj)
    ensures Activation(obj, oldObj) ==> UserUpdateStep(lark, gs, users, ms, obj, oldObj, newId) == UserStep(Ok(()), users, ms)
    ensures oldObj.status.None? || oldObj.status.value.isActivated ==> !Activation(obj, oldObj)
  {
  }

  /**
   * The events userUpdate handles without a nil dereference or an index out of range: a
   * changed status comes with the new status, and a user whose email changed or who is
   * (re)assigned carries a first department.
   */
  predicate UpdateDefined(obj: UserObject, oldObj: UserObject)
  {
    && (oldObj.status.Some? ==> obj.status.Some?)
    && (!Activation(obj, oldObj) && (oldObj.email != "" || obj.email != "") ==> |obj.departmentIds| > 0)
  }

  /**
   * An email change: the user under the old email is deleted, a user is created from the
   * snapshot, and the created user is assigned the group of its first department.
   */
  ghost function EmailChangeStep(lark: Directory, gs: seq<Group>, users: seq<User>, ms: map<string, seq<string>>,
                                 obj: UserObject, oldObj: UserObject, newId: string): UserStep
    requires Acyclic(lark) && |obj.departmentIds| > 0
  {
    var found := UserDetail(users, oldObj.email);
    if found.Err? then UserStep(Err(found.error), users, ms)
    else if found.value.None? then UserStep(Err(UserNotFound(oldObj.email)), users, ms)
    else
      var gone := found.value.value.id;
      CreateAndAssignStep(lark, gs, RemoveUser(users, gone), ms - {gone}, obj, newId)
  }

  /** A user is created from the snapshot, found again, and assigned its department's group. */
  ghost function CreateAndAssignStep(lark: Directory, gs: seq<Group>, users: seq<User>, ms: map<string, seq<string>>,
                                     obj: UserObject, newId: string): UserStep
    requires Acyclic(lark) && |obj.departmentIds| > 0
  {
    var created := CreateUser(users, GenUser4Create(obj), newId);
    var accepted := Accepted(created.status, []);
    if accepted.Err? then UserStep(accepted, users, ms)
    else AssignStep(lark, gs, created.users, ms, newId, obj)
  }

  /**
   * A department (re)assignment: an email is required; a user not yet in the realm is
   * created; then the user is assigned the group of its first department.
   */
  ghost function DepartmentStep(lark: Directory, gs: seq<Group>, users: seq<User>, ms: map<string, seq<string>>,
                                obj: UserObject, newId: string): UserStep
    requires Acyclic(lark) && (obj.email != "" ==> |obj.departmentIds| > 0)
  {
    if obj.email == "" then UserStep(Err(EmailMissing(obj.name)), users, ms)
    else
      var found := UserDetail(users, obj.email);
      if found.Err? then UserStep(Err(found.error), users, ms)
      else if found.value.Some? then AssignStep(lark, gs, users, ms, found.value.value.id, obj)
      else CreateAndAssignStep(lark, gs, users, ms, obj, newId)
  }

  /** The field update: the stored user under the email is overwritten with genUser4Update's body. */
  function FieldUpdateStep(users: seq<User>, ms: map<string, seq<string>>, obj: UserObject, oldObj: UserObject): UserStep
    requires oldObj.status.Some? ==> obj.status.Some?
  {
    var found := UserDetail(users, obj.email);
    if found.Err? then UserStep(Err(found.error), users, ms)
    else if found.value.None? then UserStep(Err(UserNotFound(obj.email)), users, ms)
    else
      var body := UpdateBody(found.value.value, obj, oldObj);
      var answer := UpdateUser(users, body.id, body);
      UserStep(Accepted(answer.status, []), answer.users, ms)
  }

  /**
   * userUpdate: an activation is ignored; an email change recreates the user and stops
   * there; otherwise the user is (re)assigned and then its fields are updated.
   */
  ghost function UserUpdateStep(lark: Directory, gs: seq<Group>, users: seq<User>, ms: map<string, seq<string>>,
                                obj: UserObject, oldObj: UserObject, newId: string): UserStep
    requires Acyclic(lark) && UpdateDefined(obj, oldObj)
  {
    if Activation(obj, oldObj) then UserStep(Ok(()), users, ms)
    else if oldObj.email != "" then EmailChangeStep(lark, gs, users, ms, obj, oldObj, newId)
    else
      var moved := DepartmentStep(lark, gs, users, ms, obj, newId);
      if moved.outcome.Err? then moved
      else FieldUpdateStep(moved.users, moved.memberships, obj, oldObj)
  }

  /** The email-change branch of userUpdate. */
  method ChangeEmail(realm: Realm, lark: Directory, userObj: UserObject, userOldObj: UserObject, newId: string)
    returns (r: Outcome)
    requires Acyclic(lark) && |userObj.departmentIds| > 0
    modifies realm
    ensures realm.groups == old(realm.groups)
    ensures UserStep(r, realm.users, realm.memberships) ==
              EmailChangeStep(lark, old(realm.groups), old(realm.users), old(realm.memberships), userObj, userOldObj, newId)
  {
    var userInKeycloak := GetUserDetail(realm, userOldObj.email);
    if userInKeycloak.Err? {
      return Err(userInKeycloak.error);
    }
    if userInKeycloak.value.None? {
      return Err(UserNotFound(userOldObj.email));
    }
    r := DeleteUserEngine(realm, userInKeycloak.value.value.id);
    if r.Err? {
      return;
    }
    r := CreateAndAssign(realm, lark, userObj, newId);
  }

  /** The end of the email-change branch: create the user, find it again, assign its group. */
  method CreateAndAssign(realm: Realm, lark: Directory, userObj: UserObject, newId: string) returns (r: Outcome)
    requires Acyclic(lark) && |userObj.departmentIds| > 0
    modifies realm
    ensures realm.groups == old(realm.groups)
    ensures UserStep(r, realm.users, realm.memberships) ==
              CreateAndAssignStep(lark, old(realm.groups), old(realm.users), old(realm.memberships), userObj, newId)
  {
    var userCreate := GenUser4Create(userObj);
    r := CreateUserEngine(realm, userCreate, newId);
    if r.Err? {
      return;
    }
    ghost var created := userCreate.(id := newId);
    CreateUserAccepted(old(realm.users), userCreate, newId);
    assert realm.users == old(realm.users) + [created];
    assert CreateAndAssignStep(lark, old(realm.groups), old(realm.users), old(realm.memberships), userObj, newId)
        == AssignStep(lark, old(realm.groups), realm.users, old(realm.memberships), newId, userObj);
    var userCreatedInKeycloak := GetUserDetail(realm, userCreate.email);
    if userCreatedInKeycloak.Err? {
      return Err(EmptyUserList);
    }
    // the source reads the created user's id without a nil check: the search finds it
    FindUserAppend(old(realm.users), created);
    assert userCreatedInKeycloak == Ok(Some(created));
    r := AssignGroup2User(realm, lark, userCreatedInKeycloak.value.value.id, userObj);
  }

  /** An accepted create appends the user, under the id the realm gave it. */
  lemma CreateUserAccepted(users: seq<User>, rep: User, newId: string)
    ensures var a := CreateUser(users, rep, newId);
            Accepted(a.status, []).Ok? ==> a.users == users + [rep.(id := newId)]
  {
  }

  /** The department branch of userUpdate. */
  method ChangeDepartment(realm: Realm, lark: Directory, userObj: UserObject, newId: string) returns (r: Outcome)
    requires Acyclic(lark) && (userObj.email != "" ==> |userObj.departmentIds| > 0)
    modifies realm
    ensures realm.groups == old(realm.groups)
    ensures UserStep(r, realm.users, realm.memberships) ==
              DepartmentStep(lark, old(realm.groups), old(realm.users), old(realm.memberships), userObj, newId)
  {
    if |userObj.email| == 0 {
      return Err(EmailMissing(userObj.name));
    }
    var userInKeycloak := GetUserDetail(realm, userObj.email);
    if userInKeycloak.Err? {
      return Err(userInKeycloak.error);
    }
    if userInKeycloak.value.None? {
      var userCreate := GenUser4Create(userObj);
      ghost var before := realm.users;
      r := CreateUserEngine(realm, userCreate, newId);
      if r.Err? {
        return;
      }
      userInKeycloak := GetUserDetail(realm, userObj.email);
      if userInKeycloak.Err? {
        return Err(EmptyUserList);
      }
      FindUserAppend(before, userCreate.(id := newId));
    }
    r := AssignGroup2User(realm, lark, userInKeycloak.value.value.id, userObj);
  }

  method UserUpdate(realm: Realm, lark: Directory, userObj: UserObject, userOldObj: UserObject, newId: string)
    returns (r: Outcome)
    requires Acyclic(lark) && UpdateDefined(userObj, userOldObj)
    modifies realm
    ensures realm.groups == old(realm.groups)
    ensures UserStep(r, realm.users, realm.memberships) ==
              UserUpdateStep(lark, old(realm.groups), old(realm.users), old(realm.memberships), userObj, userOldObj, newId)
  {
    if userOldObj.status.Some? && !userOldObj.status.value.isActivated && userObj.status.value.isActivated {
      return Ok(());
    }
    if |userOldObj.email| > 0 {
      r := ChangeEmail(realm, lark, userObj, userOldObj, newId);
      return;
    }
    r := ChangeDepartment(realm, lark, userObj, newId);
    if r.Err? {
      return;
    }
    var userNew := GenUser4Update(realm, userObj, userOldObj);
    if userNew.Err? {
      return Err(userNew.error);
    }
    r := UpdateUserEngine(realm, userNew.value.id, userNew.value);
  }

  // ----- dispatch -----

  /**
   * processUserMsgWithType: `tokenFetch` is the outcome of fetching the realm's admin token,
   * and `newId` the id the realm gives a user it creates. A created user is left to the
   * identity provider's first login.
   */
  method ProcessUserMsg(realm: Realm, lark: Directory, tokenFetch: Outcome, msg: ContactUserMsg, newId: string)
    returns (r: Outcome)
    requires Acyclic(lark)
    requires msg.header.eventType == EventTypeUserUpdate ==> UpdateDefined(msg.obj, msg.oldObj)
    modifies realm
    ensures realm.groups == old(realm.groups)
    ensures tokenFetch.Err? ==>
              r == tokenFetch && realm.users == old(realm.users) && realm.memberships == old(realm.memberships)
    ensures tokenFetch.Ok? ==>
              var t := msg.header.eventType;
              UserStep(r, realm.users, realm.memberships) ==
                if t == EventTypeUserCreate then UserStep(Ok(()), old(realm.users), old(realm.memberships))
                else if t == EventTypeUserDelete then UserDeleteStep(old(realm.users), old(realm.memberships), msg.obj)
                else if t == EventTypeUserUpdate then
                  UserUpdateStep(lark, old(realm.groups), old(realm.users), old(realm.memberships), msg.obj, msg.oldObj, newId)
                else UserStep(Err(UnsupportedEvent(t)), old(realm.users), old(realm.memberships))
  {
    if tokenFetch.Err? {
      return tokenFetch;
    }
    var eventType := msg.header.eventType;
    if eventType == EventTypeUserCreate {
      r := Ok(());
    } else if eventType == EventTypeUserDelete {
      r := UserDelete(realm, msg.obj);
    } else if eventType == EventTypeUserUpdate {
      r := UserUpdate(realm, lark, msg.obj, msg.oldObj, newId);
    } else {
      r := Err(UnsupportedEvent(eventType));
    }
  }

  // ----- what the handlers achieve -----

  /** The realm's usernames are unique (it refuses a second user under a taken one). */
  predicate UniqueUsernames(users: seq<User>)
  {
    forall i, j :: 0 <= i < |users| && 0 <= j < |users| && users[i].username == users[j].username ==> i == j
  }

  lemma {:induction false} RemoveUserKeepsUnique(users: seq<User>, id: string)
    requires UniqueUsernames(users)
    ensures UniqueUsernames(RemoveUser(users, id))
  {
    if users != [] {
      RemoveUserKeepsUnique(users[1..], id);
      var rest := RemoveUser(users[1..], id);
      forall k | 0 <= k < |rest|
        ensures rest[k].username != users[0].username
      {
        var j :| 0 <= j < |users[1..]| && users[1..][j] == rest[k];
        assert users[j + 1] == rest[k];
      }
    }
  }

  /** Creating a user keeps the usernames unique: a taken username is refused. */
  lemma CreateUserKeepsUnique(users: seq<User>, rep: User, newId: string)
    requires UniqueUsernames(users)
    ensures UniqueUsernames(CreateUser(users, rep, newId).users)
  {
  }

  /** A user found under a unique username, once removed, leaves that username free. */
  lemma RemoveFoundUser(users: seq<User>, username: string)
    requires UniqueUsernames(users) && UsernameTaken(users, username)
    ensures !UsernameTaken(RemoveUser(users, FindUser(users, username).value.id), username)
  {
    var u := FindUser(users, username).value;
    var k0 :| 0 <= k0 < |users| && users[k0] == u;
    var rest := RemoveUser(users, u.id);
    forall i | 0 <= i < |rest|
      ensures rest[i].username != username
    {
      var k :| 0 <= k < |users| && users[k] == rest[i];
    }
  }

  /** The user found after a field update is the one found before, updated with the body. */
  lemma {:induction false} FindUserUpdateAll(users: seq<User>, username: string, id: string, body: User)
    ensures FindUser(UpdateAll(users, id, body), username) ==
              if FindUser(users, username).None? then None
              else if FindUser(users, username).value.id == id then Some(ApplyUpdate(FindUser(users, username).value, body))
              else FindUser(users, username)
  {
    if users != [] {
      assert UpdateAll(users, id, body)[1..] == UpdateAll(users[1..], id, body);
      FindUserUpdateAll(users[1..], username, id, body);
    }
  }

  /** Creating and assigning a user keeps the usernames unique: a taken username is refused. */
  lemma {:induction false} CreateAndAssignKeepsUnique(lark: Directory, gs: seq<Group>, users: seq<User>,
                                                      ms: map<string, seq<string>>, obj: UserObject, newId: string)
    requires Acyclic(lark) && |obj.departmentIds| > 0 && UniqueUsernames(users)
    ensures UniqueUsernames(CreateAndAssignStep(lark, gs, users, ms, obj, newId).users)
  {
    var created := CreateUser(users, GenUser4Create(obj), newId);
    CreateUserKeepsUnique(users, GenUser4Create(obj), newId);
    AssignKeepsUsers(lark, gs, created.users, ms, newId, obj);
  }

  /** Assigning a group never changes the users. */
  lemma AssignKeepsUsers(lark: Directory, gs: seq<Group>, users: seq<User>, ms: map<string, seq<string>>,
                         userId: string, obj: UserObject)
    requires Acyclic(lark) && |obj.departmentIds| > 0
    ensures AssignStep(lark, gs, users, ms, userId, obj).users == users
  {
  }

  lemma {:induction false} EmailChangeKeepsUnique(lark: Directory, gs: seq<Group>, users: seq<User>, ms: map<string, seq<string>>,
                                                  obj: UserObject, oldObj: UserObject, newId: string)
    requires Acyclic(lark) && |obj.departmentIds| > 0 && UniqueUsernames(users)
    ensures UniqueUsernames(EmailChangeStep(lark, gs, users, ms, obj, oldObj, newId).users)
  {
    var found := UserDetail(users, oldObj.email);
    if found.Ok? && found.value.Some? {
      var gone := found.value.value.id;
      RemoveUserKeepsUnique(users, gone);
      CreateAndAssignKeepsUnique(lark, gs, RemoveUser(users, gone), ms - {gone}, obj, newId);
    }
  }

  lemma {:induction false} DepartmentChangeKeepsUnique(lark: Directory, gs: seq<Group>, users: seq<User>, ms: map<string, seq<string>>,
                                                       obj: UserObject, newId: string)
    requires Acyclic(lark) && (obj.email != "" ==> |obj.departmentIds| > 0) && UniqueUsernames(users)
    ensures UniqueUsernames(DepartmentStep(lark, gs, users, ms, obj, newId).users)
  {
    if obj.email != "" {
      var found := UserDetail(users, obj.email);
      if found.Ok? && found.value.Some? {
        AssignKeepsUsers(lark, gs, users, ms, found.value.value.id, obj);
      } else if found.Ok? {
        CreateAndAssignKeepsUnique(lark, gs, users, ms, obj, newId);
      }
    }
  }

  lemma FieldUpdateKeepsUnique(users: seq<User>, ms: map<string, seq<string>>, obj: UserObject, oldObj: UserObject)
    requires (oldObj.status.Some? ==> obj.status.Some?) && UniqueUsernames(users)
    ensures UniqueUsernames(FieldUpdateStep(users, ms, obj, oldObj).users)
  {
    var f := FieldUpdateStep(users, ms, obj, oldObj);
    assert |f.users| == |users|;
    assert forall i :: 0 <= i < |f.users| ==> f.users[i].username == users[i].username;
  }

  /**
   * Every handler keeps the realm's usernames unique: an update recreates or creates a user
   * only under a free username and otherwise keeps usernames, and a delete only removes.
   */
  lemma HandlersKeepUsernamesUnique(lark: Directory, gs: seq<Group>, users: seq<User>, ms: map<string, seq<string>>,
                                    obj: UserObject, oldObj: UserObject, newId: string)
    requires Acyclic(lark) && UpdateDefined(obj, oldObj) && UniqueUsernames(users)
    ensures UniqueUsernames(UserUpdateStep(lark, gs, users, ms, obj, oldObj, newId).users)
    ensures UniqueUsernames(UserDeleteStep(users, ms, obj).users)
  {
    var found := UserDetail(users, obj.email);
    if found.Ok? && found.value.Some? {
      RemoveUserKeepsUnique(users, found.value.value.id);
    }
    if !Activation(obj, oldObj) {
      if oldObj.email != "" {
        EmailChangeKeepsUnique(lark, gs, users, ms, obj, oldObj, newId);
      } else {
        DepartmentChangeKeepsUnique(lark, gs, users, ms, obj, newId);
        var moved := DepartmentStep(lark, gs, users, ms, obj, newId);
        if moved.outcome.Ok? {
          FieldUpdateKeepsUnique(moved.users, moved.memberships, obj, oldObj);
        }
      }
    }
  }

  /** A deleted directory user leaves no realm user under its email, and no one else is added. */
  lemma UserDeleteForgetsUser(users: seq<User>, ms: map<string, seq<string>>, obj: UserObject)
    requires UniqueUsernames(users)
    ensures var s := UserDeleteStep(users, ms, obj);
            && (s.outcome.Ok? <==> users != [])
            && (s.outcome.Ok? ==> !UsernameTaken(s.users, obj.email))
            && (forall u :: u in s.users ==> u in users)
  {
    if users != [] && UsernameTaken(users, obj.email) {
      RemoveFoundUser(users, obj.email);
    }
  }

  /**
   * Assigning a department leaves the user in at most one group, a group of the realm, and
   * in none when the department is the root; no other user's memberships change, and a
   * failed assignment changes nothing.
   */
  lemma AssignLeavesOneGroup(lark: Directory, gs: seq<Group>, users: seq<User>, ms: map<string, seq<string>>,
                             userId: string, obj: UserObject)
    requires Acyclic(lark) && |obj.departmentIds| > 0
    ensures var s := AssignStep(lark, gs, users, ms, userId, obj);
            && s.users == users
            && (s.outcome.Err? ==> s.memberships == ms)
            && (s.outcome.Ok? ==> HasUser(users, userId))
            && (s.outcome.Ok? ==> |MembersOf(s.memberships, userId)| <= 1)
            && (s.outcome.Ok? ==> forall g :: g in MembersOf(s.memberships, userId) ==> HasId(gs, g))
            && (s.outcome.Ok? ==> forall id :: id != userId ==> MembersOf(s.memberships, id) == MembersOf(ms, id))
    ensures obj.departmentIds[0] == RootDepartmentId && GetAppToken(lark).Ok? ==>
              var s := AssignStep(lark, gs, users, ms, userId, obj);
              (s.outcome.Ok? <==> HasUser(users, userId)) && (s.outcome.Ok? ==> MembersOf(s.memberships, userId) == [])
  {
    GroupIdForUserCases(lark, gs, obj.departmentIds[0]);
  }

  /**
   * An email change that succeeds leaves the realm with the created user as the one under
   * the new email, no user under the old one, and that user in at most one group.
   */
  lemma EmailChangeRecreatesUser(lark: Directory, gs: seq<Group>, users: seq<User>, ms: map<string, seq<string>>,
                                 obj: UserObject, oldObj: UserObject, newId: string)
    requires Acyclic(lark) && |obj.departmentIds| > 0 && UniqueUsernames(users)
    requires oldObj.email != obj.email
    ensures var s := EmailChangeStep(lark, gs, users, ms, obj, oldObj, newId);
            s.outcome.Ok? ==>
              && FindUser(s.users, obj.email) == Some(GenUser4Create(obj).(id := newId))
              && !UsernameTaken(s.users, oldObj.email)
              && |MembersOf(s.memberships, newId)| <= 1
  {
    var s := EmailChangeStep(lark, gs, users, ms, obj, oldObj, newId);
    var found := UserDetail(users, oldObj.email);
    if s.outcome.Ok? {
      var gone := found.value.value.id;
      var remaining := RemoveUser(users, gone);
      RemoveFoundUser(users, oldObj.email);
      var u := GenUser4Create(obj).(id := newId);
      FindUserAppend(remaining, u);
      AppendKeepsFree(remaining, u, oldObj.email);
      AssignLeavesOneGroup(lark, gs, remaining + [u], ms - {gone}, newId, obj);
    }
  }

  lemma AppendKeepsFree(users: seq<User>, u: User, username: string)
    requires !UsernameTaken(users, username) && u.username != username
    ensures !UsernameTaken(users + [u], username)
  {
    assert forall i :: 0 <= i < |users| ==> (users + [u])[i] == users[i];
  }

  /**
   * A department assignment that succeeds leaves a realm user under the email (created when
   * missing), and that user in at most one group.
   */
  lemma DepartmentChangeAssigns(lark: Directory, gs: seq<Group>, users: seq<User>, ms: map<string, seq<string>>,
                                obj: UserObject, newId: string)
    requires Acyclic(lark) && (obj.email != "" ==> |obj.departmentIds| > 0)
    ensures var s := DepartmentStep(lark, gs, users, ms, obj, newId);
            s.outcome.Ok? ==>
              && FindUser(s.users, obj.email).Some?
              && |MembersOf(s.memberships, FindUser(s.users, obj.email).value.id)| <= 1
  {
    var s := DepartmentStep(lark, gs, users, ms, obj, newId);
    if s.outcome.Ok? {
      var found := UserDetail(users, obj.email);
      if found.value.Some? {
        AssignLeavesOneGroup(lark, gs, users, ms, found.value.value.id, obj);
      } else {
        var u := GenUser4Create(obj).(id := newId);
        FindUserAppend(users, u);
        AssignLeavesOneGroup(lark, gs, users + [u], ms, newId, obj);
      }
    }
  }

  /**
   * A field update succeeds exactly when the realm has a user under the email; that user
   * keeps its id and email, takes the parsed real name as first and last name when either
   * snapshot has a name (and blank names otherwise), gets the merged attributes, and is
   * enabled as the directory's status says when the status changed.
   */
  lemma FieldUpdateRefreshesUser(users: seq<User>, ms: map<string, seq<string>>, obj: UserObject, oldObj: UserObject)
    requires oldObj.status.Some? ==> obj.status.Some?
    ensures var s := FieldUpdateStep(users, ms, obj, oldObj);
            && (s.outcome.Ok? <==> UsernameTaken(users, obj.email))
            && s.memberships == ms
            && (s.outcome.Ok? ==>
                  var before := FindUser(users, obj.email).value;
                  var after := FindUser(s.users, obj.email);
                  && after.Some?
                  && after.value.id == before.id
                  && after.value.email == before.email
                  && !after.value.emailVerified
                  && after.value.firstName == after.value.lastName
                     == (if oldObj.name != "" || obj.name != "" then ParseName(obj.name).0 else "")
                  && after.value.attributes == MergedAttributes(before.attributes, obj, oldObj, ParseName(obj.name))
                  && after.value.enabled == if oldObj.status.Some? then !obj.status.value.isFrozen else before.enabled)
  {
    if UsernameTaken(users, obj.email) {
      var before := FindUser(users, obj.email).value;
      FindUserUpdateAll(users, obj.email, before.id, UpdateBody(before, obj, oldObj));
    }
  }

  /**
   * Updating a freshly created user from the same snapshot changes nothing, as long as the
   * name is part of the update and the user is not frozen.
   */
  lemma {:induction false} UpdateAfterCreateIsNoOp(obj: UserObject, oldObj: UserObject, id: string)
    requires oldObj.status.Some? ==> obj.status.Some? && !obj.status.value.isFrozen
    requires oldObj.name != "" || obj.name != ""
    ensures var u := GenUser4Create(obj).(id := id);
            ApplyUpdate(u, UpdateBody(u, obj, oldObj)) == u
  {
    MergeIntoCreated(obj, oldObj);
  }

  /** The created attributes already hold what a named update would merge into them. */
  lemma {:induction false} MergeIntoCreated(obj: UserObject, oldObj: UserObject)
    requires oldObj.name != "" || obj.name != ""
    ensures MergedAttributes(GenUser4Create(obj).attributes, obj, oldObj, ParseName(obj.name)) == GenUser4Create(obj).attributes
  {
    var names := ParseName(obj.name);
    assert GenUser4Create(obj).attributes ==
           map[AttributePhoneNumber := obj.mobile, AttributeRealName := names.0, AttributeNickname := names.1];
    MergeIntoSame(obj, oldObj, names);
  }

  /** Merging a named update into attributes that already hold its values changes nothing. */
  lemma {:induction false} MergeIntoSame(obj: UserObject, oldObj: UserObject, names: (string, string))
    requires oldObj.name != "" || obj.name != ""
    ensures var a := map[AttributePhoneNumber := obj.mobile, AttributeRealName := names.0, AttributeNickname := names.1];
            MergedAttributes(a, obj, oldObj, names) == a
  {
    var a := map[AttributePhoneNumber := obj.mobile, AttributeRealName := names.0, AttributeNickname := names.1];
    var m := MergedAttributes(a, obj, oldObj, names);
    AttributeKeysDistinct();
    assert m.Keys == a.Keys;
    assert forall k :: k in m ==> m[k] == a[k];
  }

  /** An update where neither snapshot has a name blanks the realm user's first and last names. */
  lemma UpdateWithoutNameBlanksNames(cur: User, obj: UserObject, oldObj: UserObject)
    requires oldObj.status.Some? ==> obj.status.Some?
    requires oldObj.name == "" && obj.name == ""
    ensures ApplyUpdate(cur, UpdateBody(cur, obj, oldObj)).firstName == ""
    ensures ApplyUpdate(cur, UpdateBody(cur, obj, oldObj)).lastName == ""
  {
  }
}

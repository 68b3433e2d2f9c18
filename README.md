# keycloak-lark-adapter, modelled in Dafny

The adapter keeps a Keycloak realm in step with a Lark (Feishu) company directory. Lark
pushes contact events, and the adapter applies each one to the realm:

- a department that is created, renamed, moved or deleted becomes a group that is created,
  renamed, moved or deleted in the realm's group forest, located by its full path
  ("/Parent/Child");
- a user who is deleted, updated, re-assigned to a department or whose email changes
  becomes a realm user that is deleted, updated, re-created, or moved into the group of
  their first department.

The project models that core: the status-code helper, the directory lookups, the group
locator, the department and user handlers, and the HTTP endpoint that routes events.

Module by module:

- `Results` holds the `Option`, `Result` and `Outcome` wrappers and the error cases the
  handlers return.
- `Utils` (pkg/utils/utils.go) decides whether a status code counts as success.
- `GoStrings` holds the parts of Go's `strings` package that the handlers use: `Index`,
  `Split`, `LastIndex`, `Contains` and `TrimSpace`, with Go's white-space set.
- `LarkModel` (internal/model/lark/lark.go) holds the event payloads, reduced to the fields
  the handlers read.
- `Lark` (cmd/lark/lark.go) models the directory. It covers the app token and the
  full-path walk from a department up to the root. `GetFullDepName` is a loop, proved equal
  to a recursive specification.
- `Keycloak` describes the realm's REST behaviour as the handlers rely on it: groups,
  users and memberships, with the status each call answers. `class Realm` holds that state
  and updates it in place, one method per REST call. `CountId` counts how often an id
  occurs in the forest. `UniqueIds` says that no id occurs twice, as in a realm whose ids
  the server hands out. Under that hypothesis the move and delete lemmas state exactly
  which groups remain.
- `Locator` (cmd/keycloak/group.go:319-384) finds a group by its full path. The search is a
  preorder walk of the listed forest.
- `DepartmentSync` (cmd/keycloak/group.go) models the department handlers. Each handler is
  a method on the realm, proved equal to a step function of the forest before it. Lemmas
  then say what each step achieves.
- `UserSync` (cmd/keycloak/user.go) models the user handlers in the same way, over the
  realm's users and memberships.
- `Api` (api/api.go) models the HTTP endpoint that checks the verification token, answers
  the URL challenge and routes events to the user and department queues.

Some inputs are not computed by the model but passed in as parameters:

- the outcome of fetching the realm's admin token (`tokenFetch`);
- the id the realm gives a new group or user (`newId`);
- the directory's answers (`Directory`: the token status, the token and the department
  records).

## Model

| member | source | states |
|---|---|---|
| Utils.ScanExceptions | pkg/utils/utils.go:7-12 | the scan over the extra codes reports a hit exactly when the status is one of them |
| Utils.IsSuccessResponse | pkg/utils/utils.go:3-13 | every 2xx status is a success whatever the extra codes; any other status is a success exactly when it is one of the extra codes |
| Utils.NoExceptionsMeans2xx | pkg/utils/utils.go:3-13 | with no extra codes, exactly the 2xx statuses are successes |
| Utils.ExceptionsAreMonotonic | pkg/utils/utils.go:3-13 | adding codes before or after the list never turns a success into a failure |
| Utils.Accepted | pkg/utils/utils.go:3-13 | a call's outcome is Ok exactly when its status is 2xx or listed; otherwise the error carries that status |
| GoStrings.IndexOf | cmd/keycloak/user.go:256-261 | the result is -1 exactly when the character is absent; otherwise the character is there and nowhere before it |
| GoStrings.Split | cmd/keycloak/user.go:256-271 | at least one piece; no piece holds the separator; joining the pieces with the separator gives back the input; a single piece exactly when the separator is absent; the first piece is the text before the first separator |
| GoStrings.SplitSecond | cmd/keycloak/user.go:258-261 | the second piece runs from just after the first separator up to the next one, or to the end |
| GoStrings.LastIndex | cmd/keycloak/group.go:186-187 | a non-negative result is an occurrence of the substring, and no occurrence starts after it |
| GoStrings.LastIndexOfSuffix | cmd/keycloak/group.go:186-187 | a string that ends with the substring has its last occurrence right at that end |
| GoStrings.ContainsPrefix | api/api.go:63-76 | a string contains each of its prefixes |
| GoStrings.TrimSpace | cmd/keycloak/user.go:264-273 | the result is a slice of the input with only white space cut from either end, and the result neither starts nor ends with white space |
| GoStrings.TrimSpaceKeepsTrimmed | cmd/keycloak/user.go:264-273 | text without white space at either end is returned unchanged |
| Lark.GetAppToken | cmd/lark/lark.go:42-62 | a token exists exactly when the response is 2xx and the token field is non-empty; the token is "Bearer " followed by the field |
| Lark.GetDepInfo | cmd/lark/lark.go:91-114 | the department record is returned exactly when the directory knows the id; otherwise a fetch error for that id |
| Lark.GetFullDepName | cmd/lark/lark.go:66-89 | the loop that walks from the department up to the root returns the recursive full path FullDepName |
| Lark.WalkUpFuel | cmd/lark/lark.go:76-88 | once the walk has ended, more steps do not change its result |
| Lark.FullDepNameByWalk | cmd/lark/lark.go:76-88 | any walk that ends gives the full path, so the path does not depend on the step bound |
| Lark.FullDepNameOfRoot | cmd/lark/lark.go:67-73 | the root's path is "" when the token can be fetched, and the token error otherwise |
| Lark.FullDepNameOfChild | cmd/lark/lark.go:76-88 | a department's path is its parent's path followed by "/" and its name; under the root it is "/" and the name |
| Lark.FullDepNameOfMissing | cmd/lark/lark.go:77-80 | a department the directory does not know gives a fetch error |
| Lark.WalkUpPath | cmd/lark/lark.go:82-87 | a walk that reaches the root gives a path that starts with "/" and is longer than the department's name |
| Lark.FullDepNameSegments | cmd/lark/lark.go:82-87 | when no name holds "/", splitting the full path at "/" gives "" followed by the names on the way from the root down to the department |
| Lark.FullDepNameShape | cmd/lark/lark.go:82-87 | a full path starts with "/" and ends with "/" followed by the department's own name |
| Locator.FirstWithPath | cmd/keycloak/group.go:329-343 | the result is the first node with the path, or none exactly when no node has it |
| Locator.PreorderAppend | cmd/keycloak/group.go:329-343 | listing two forests one after the other lists each of them in turn |
| Locator.FindGroup | cmd/keycloak/group.go:329-343 | a group found has the path searched for |
| Locator.FindGroupId | cmd/keycloak/group.go:364-378 | a non-empty id is found only where the group search finds a group with the path |
| Locator.FindGroupIsFirstInPreorder | cmd/keycloak/group.go:329-345 | the recursive search finds the first group with the path in preorder (a group before its subgroups, subgroups before the next sibling) |
| Locator.FindGroupIdAgrees | cmd/keycloak/group.go:364-378 | when every listed group has an id, the id search finds the id of the group that the group search finds |
| Locator.GetGroup | cmd/keycloak/group.go:319-353 | an empty forest is an error; otherwise the result is the first group with the path in preorder, or a not-found error |
| Locator.GetGroupIdByName | cmd/keycloak/group.go:355-384 | an empty forest is an error; an id found is non-empty and belongs to a group with the path |
| Locator.GetGroupIdByNameAgrees | cmd/keycloak/group.go:355-384 | when every listed group has an id, locating by id agrees with locating the group |
| Locator.TopLevelMatchWithoutId | cmd/keycloak/group.go:379-382 | a matching group without an id is reported as not found |
| Locator.LocatedGroupExists | cmd/keycloak/group.go:294-384 | a group located in the realm's listing is a group of the realm's forest |
| Locator.NewTopLevelGroupIsLocated | cmd/keycloak/group.go:355-384 | a new top-level group with a fresh name without "/" is located by "/" and its name |
| Keycloak.CreateTopLevelIdempotent | cmd/keycloak/group.go:106-128 | creating a top-level group a second time answers 409 and leaves the forest as the first creation made it |
| Keycloak.RenameAllLookupEach | cmd/keycloak/group.go:275-292 | after a rename every id finds the group it found before, with its name changed only when it is the renamed id, and its subtree renamed the same way |
| Keycloak.RenameAllAbsent | cmd/keycloak/group.go:275-292 | renaming an id no group has changes nothing |
| Keycloak.AttachUnderMissing | cmd/keycloak/group.go:239-273 | attaching under a parent that no group is changes nothing |
| Keycloak.AttachUnderParent | cmd/keycloak/group.go:239-273 | attaching under a parent that a group is makes the attached group the last child of the group found by the parent's id |
| Keycloak.RemoveAllCount | cmd/keycloak/group.go:153-171 | taking a group out of the forest removes exactly the occurrences of an id that lie inside the groups with that id; every other occurrence stays |
| Keycloak.AttachUnderCount | cmd/keycloak/group.go:239-273 | attaching a group under a parent adds the group's ids once for every group with the parent's id, and removes nothing |
| Keycloak.TakeOutCounts | cmd/keycloak/group.go:153-171 | with unique ids, the forest without a group plus that group's subtree hold every id exactly as often as the forest did |
| Keycloak.MoveKeepsCounts | cmd/keycloak/group.go:239-273 | with unique ids, detaching a group and re-adding it at the top, or under a parent still in the forest, keeps every id's number of occurrences |
| Keycloak.MoveKeepsGroup | cmd/keycloak/group.go:239-273 | a successful move keeps the group, with its subtree, findable by its id; a move to the top makes it the last top-level group; a move under a parent makes it the last child of the group found by the parent's id; when ids are unique, every id occurs exactly as often as before, so nothing is copied or lost |
| Keycloak.DeleteRemovesGroup | cmd/keycloak/group.go:153-171 | after a delete no group has the id; the answer is 204 when it existed and 404 otherwise; when ids are unique, exactly the ids outside the deleted group's subtree remain |
| DepartmentSync.GroupCreateEngine | cmd/keycloak/group.go:106-128 | posts a top-level group; a 409 conflict is accepted; memberships and users are untouched |
| DepartmentSync.SubGroupCreateEngine | cmd/keycloak/group.go:82-104 | posts a child group under the parent; a 409 conflict is accepted |
| DepartmentSync.GroupDeleteEngine | cmd/keycloak/group.go:153-171 | deletes the group; only 2xx is accepted |
| DepartmentSync.GroupNameUpdateEngine | cmd/keycloak/group.go:275-292 | puts the group's new name; only 2xx is accepted |
| DepartmentSync.GroupParentUpdateEngine | cmd/keycloak/group.go:239-273 | an empty parent moves the group to the top level, any other parent moves it under that group; only 2xx is accepted |
| DepartmentSync.GroupCreate | cmd/keycloak/group.go:53-80 | the realm ends as CreateStep says: a top-level group under the root, else a child of the parent department's group, or the error locating that parent |
| DepartmentSync.OldPathOfChild | cmd/keycloak/group.go:186-187 | cutting the new name off the end of "parent/new" and appending the old name gives "parent/old" |
| DepartmentSync.GroupRename | cmd/keycloak/group.go:178-198 | the realm ends as RenameStep says: the group at the department's old path gets the new name |
| DepartmentSync.GroupMove | cmd/keycloak/group.go:200-234 | the realm ends as MoveStep says: the group at the old parent's path plus the name moves under the new parent's group, or to the top level |
| DepartmentSync.UpdateStopsAtFailedRename | cmd/keycloak/group.go:189-236 | when the rename fails, its outcome and forest are the update's; when it succeeds and the parent changed, the move runs on the renamed forest |
| DepartmentSync.GroupUpdate | cmd/keycloak/group.go:173-237 | the realm ends as UpdateStep says: a rename when the name changed, then a move when the parent changed, stopping at the first error |
| DepartmentSync.GroupDelete | cmd/keycloak/group.go:130-151 | the realm ends as DeleteStep says: the group at the department's path is deleted |
| DepartmentSync.CreateAcceptsReplay | cmd/keycloak/group.go:53-128 | a create under the root always succeeds, and a create elsewhere fails only when the parent's group cannot be located; a failed create changes nothing |
| DepartmentSync.CreateTwiceAtTop | cmd/keycloak/group.go:106-128 | creating the same top-level department twice succeeds and leaves what the first create made |
| DepartmentSync.CreatedDepartmentIsLocated | cmd/keycloak/group.go:53-61 | after a new top-level department is created, its own full path locates the new group |
| DepartmentSync.RenameRebuildsOldPath | cmd/keycloak/group.go:180-187 | when the directory already holds the new name, the old path is rebuilt as the parent's path, "/" and the old name |
| DepartmentSync.RenameRenamesLocatedGroup | cmd/keycloak/group.go:178-198 | a rename succeeds exactly when a group sits at the old path, and that group then has the new name; ids are kept; every other group keeps its name; the renamed group keeps its subgroups unless its own id recurs below it; a failed rename changes nothing |
| DepartmentSync.MoveKeepsLocatedGroup | cmd/keycloak/group.go:200-234 | a successful move located the group by the old parent's path and keeps it findable by id; under the root it becomes the last top-level group; under another department, that department's group is located and the moved group becomes its last child; when ids are unique, every id occurs exactly as often as before; a failed move changes nothing |
| DepartmentSync.MoveOfLocatedGroup | cmd/keycloak/group.go:216-232 | once the moved group is located, a successful move keeps it; a move under the root makes it the last top-level group, and a move under another department makes it the last child of that department's located group; when ids are unique, every id occurs exactly as often as before |
| DepartmentSync.DeleteRemovesLocatedGroup | cmd/keycloak/group.go:130-151 | a delete succeeds exactly when the department's group is located, and then no group has that id, and when ids are unique exactly the ids outside that group's subtree remain; otherwise the error is returned and nothing changes |
| DepartmentSync.GetGroupIdInKeycloak | cmd/keycloak/group.go:386-404 | the user's first department resolves to its group id, to "" for the root, or to the lookup error |
| DepartmentSync.GroupIdForUserCases | cmd/keycloak/group.go:392-403 | only the root gives "no group"; any other department is located like a department, and a located id is a group of the realm |
| DepartmentSync.ProcessDepMsg | cmd/keycloak/group.go:17-51 | a failed token fetch is returned unchanged; each department event type runs its handler; any other type is an error that changes nothing |
| UserSync.ParseName | cmd/keycloak/user.go:255-275 | without an opening parenthesis the whole trimmed name is the real name; otherwise the nickname is the trimmed text before the first opening parenthesis (ASCII before fullwidth), and the real name holds neither that opening parenthesis nor an ASCII closing one |
| UserSync.RealNameOfParseName | cmd/keycloak/user.go:256-273 | with an ASCII opening parenthesis, the real name is the trimmed text after the first one, up to the next ASCII opening parenthesis, then cut at the first ASCII closing parenthesis or, failing that, the first fullwidth one; with only a fullwidth opening parenthesis, the same with the fullwidth one |
| UserSync.ParseNameFullwidth | cmd/keycloak/user.go:259-261 | "nick（real）" gives the trimmed real name and the trimmed nickname |
| UserSync.ParseNameMixed | cmd/keycloak/user.go:268-272 | "nick(real）" gives the trimmed real name: a fullwidth closing parenthesis also ends a name opened with an ASCII one |
| UserSync.ParseNameUnclosed | cmd/keycloak/user.go:256-273 | "nick(real" with no closing parenthesis gives the trimmed rest as the real name and the trimmed nickname |
| UserSync.ParseNamePair | cmd/keycloak/user.go:255-275 | "nick(real)" gives the trimmed real name and the trimmed nickname |
| UserSync.ParseNameExample | cmd/keycloak/user.go:255-275 | "Sam(Samuel Lee)" gives the real name "Samuel Lee" and the nickname "Sam" |
| UserSync.GenUser4Create | cmd/keycloak/user.go:430-450 | the created user has no id (the realm picks it), an unverified email, is enabled and named by the email; it carries exactly the phone, real-name and nickname attributes; its first and last names equal its real-name attribute |
| UserSync.GenUser4CreateNames | cmd/keycloak/user.go:441-447 | the created user's first and last names and real-name attribute are the real name parseName finds in the display name, and its nickname attribute is parseName's nickname |
| UserSync.MergedAttributes | cmd/keycloak/user.go:312-326 | other attributes are kept; the phone is set to the new mobile exactly when the old or the new snapshot has a mobile, and is kept otherwise; the two names are set to the parsed name exactly when the old or the new snapshot has a name, and are kept otherwise; nothing else is added |
| UserSync.FindUser | cmd/keycloak/user.go:183-188 | none exactly when no user has the username; otherwise a listed user with that username |
| UserSync.FindUserFirst | cmd/keycloak/user.go:183-188 | the user found is the first one in the listing with the username |
| UserSync.FindUserAppend | cmd/keycloak/user.go:183-188 | a user appended under a free username is the one found under it |
| UserSync.GetUserDetail | cmd/keycloak/user.go:173-192 | the scanning loop answers an error for an empty listing, and otherwise the first user with the username, or none |
| UserSync.GenUser4Update | cmd/keycloak/user.go:297-343 | the body is the error when the user cannot be found, else UpdateBody of the stored user |
| UserSync.UpdateBody | cmd/keycloak/user.go:297-343 | the body carries the stored user's id and an unverified email; applied to the stored user it keeps the id, username and email |
| UserSync.CreateUserEngine | cmd/keycloak/user.go:277-295 | posts the user; only 2xx is accepted |
| UserSync.UpdateUserEngine | cmd/keycloak/user.go:216-234 | puts the user; only 2xx is accepted |
| UserSync.DeleteUserEngine | cmd/keycloak/user.go:236-253 | deletes the user and its memberships; a user already gone (404) is accepted, so the outcome is always Ok |
| UserSync.DeleteUserGroup | cmd/keycloak/user.go:345-385 | succeeds exactly when the user exists, and then leaves the user in no group; groups and users are untouched; an unknown user is a 404 error that changes nothing |
| UserSync.AssignGroup2User | cmd/keycloak/user.go:390-428 | the realm ends as AssignStep says: the user's group is resolved first, then the user leaves every group and joins the resolved one unless it is the root |
| UserSync.AssignLeavesOneGroup | cmd/keycloak/user.go:390-428 | a successful assignment leaves the user in at most one group, which is a group of the realm, and in none for the root; other users' memberships and all users are unchanged; a failure changes nothing |
| UserSync.UserDelete | cmd/keycloak/user.go:153-171 | the realm ends as UserDeleteStep says: the user under the email is deleted; one not in the realm is skipped |
| UserSync.UserDeleteForgetsUser | cmd/keycloak/user.go:153-171 | a delete succeeds exactly when the realm has users, and leaves no user under the email; no user is added |
| UserSync.ChangeEmail | cmd/keycloak/user.go:60-98 | the realm ends as EmailChangeStep says: the user under the old email is deleted, then created again and assigned |
| UserSync.CreateAndAssign | cmd/keycloak/user.go:79-97 | the realm ends as CreateAndAssignStep says: the user is created from the snapshot, found again and assigned its department's group |
| UserSync.EmailChangeRecreatesUser | cmd/keycloak/user.go:60-98 | after a successful email change, the created user is the one under the new email, no user is under the old email, and the user is in at most one group |
| UserSync.ChangeDepartment | cmd/keycloak/user.go:100-135 | the realm ends as DepartmentStep says: an email is required, a missing user is created, then the user is assigned |
| UserSync.DepartmentChangeAssigns | cmd/keycloak/user.go:100-135 | after a successful assignment, a user exists under the email and is in at most one group |
| UserSync.FieldUpdateRefreshesUser | cmd/keycloak/user.go:137-150 | a field update succeeds exactly when a user is under the email; that user keeps id and email, has an unverified email, takes the parsed real name as first and last name when the old or the new snapshot has a name (blank names otherwise, user.go:320-325), gets the merged attributes, and is enabled as the new status says |
| UserSync.ActivationIsIgnored | cmd/keycloak/user.go:54-58 | an activation is answered Ok and changes nothing; a pair whose old status is missing or already activated is not an activation |
| UserSync.UpdateWithoutNameBlanksNames | cmd/keycloak/user.go:320-326 | an update where neither snapshot has a name blanks the stored first and last names |
| UserSync.UpdateAfterCreateIsNoOp | cmd/keycloak/user.go:297-343 | updating a freshly created user from the same named, unfrozen snapshot changes nothing |
| UserSync.MergeIntoCreated | cmd/keycloak/user.go:312-326 | the created attributes already hold what a named update merges into them |
| UserSync.MergeIntoSame | cmd/keycloak/user.go:312-326 | merging a named update into attributes that already hold its values is the identity |
| UserSync.UserUpdate | cmd/keycloak/user.go:53-151 | the realm ends as UserUpdateStep says: an activation is ignored; an email change recreates the user and stops; otherwise the user is assigned and then its fields are updated |
| UserSync.RemoveUserKeepsUnique | cmd/keycloak/user.go:165-169 | removing a user keeps usernames unique |
| UserSync.CreateUserKeepsUnique | cmd/keycloak/user.go:277-295 | creating a user keeps usernames unique, because a taken username is refused |
| UserSync.RemoveFoundUser | cmd/keycloak/user.go:64-77 | removing the user found under a unique username leaves that username free |
| UserSync.FindUserUpdateAll | cmd/keycloak/user.go:139-147 | after the update, the user found under a username is the one found before, with the body applied when it was the updated one |
| UserSync.CreateAndAssignKeepsUnique | cmd/keycloak/user.go:79-97 | creating and assigning a user keeps usernames unique |
| UserSync.AssignKeepsUsers | cmd/keycloak/user.go:390-428 | assigning a group never changes the users |
| UserSync.EmailChangeKeepsUnique | cmd/keycloak/user.go:60-98 | an email change keeps usernames unique |
| UserSync.DepartmentChangeKeepsUnique | cmd/keycloak/user.go:100-135 | a department change keeps usernames unique |
| UserSync.FieldUpdateKeepsUnique | cmd/keycloak/user.go:137-150 | a field update keeps every username, so keeps them unique |
| UserSync.HandlersKeepUsernamesUnique | cmd/keycloak/user.go:53-171 | the update and delete handlers keep the realm's usernames unique |
| UserSync.ProcessUserMsg | cmd/keycloak/user.go:16-51 | a failed token fetch is returned unchanged; a create event does nothing; delete and update run their handlers; any other type is an error that changes nothing; groups are never touched |
| Api.Decide | api/api.go:32-87 | an event is queued only for a readable request with the right token that is not a URL check, it is queued without an explicit reply, and the queued message is the payload the request carries |
| Api.Channels.Notifications | api/api.go:32-87 | the reply and the queue an event goes to are those of Decide; nothing is queued when Decide keeps the event |
| Api.UnparsedIsRefused | api/api.go:33-47 | an unreadable body is answered 500 and a malformed one 400, and neither is queued |
| Api.TokenCheckedFirst | api/api.go:50-54 | a wrong verification token is answered 400 before anything else |
| Api.ChallengeIsEchoed | api/api.go:56-61 | a URL-verification request with the right token gets its challenge echoed with 200 |
| Api.RoutingFollowsEventType | api/api.go:63-84 | an event goes to the user queue exactly when its type contains the user prefix and it carries a user payload, and likewise for departments; queued events get no explicit reply |
| Api.OtherEventsAreAcknowledged | api/api.go:86 | any other event type is answered 200 and not queued |
| Api.UserEventsReachUserQueue | api/api.go:63-73 | the three user event types reach the user queue |
| Api.DepartmentEventsReachDepartmentQueue | api/api.go:75-84 | the three department event types reach the department queue |

## Left out

- HTTP transport: request errors, JSON encoding and 5xx answers are not modelled. The realm
  answers only the success, 400, 404 and 409 statuses its operations in `Keycloak` give.
- Concurrency is not modelled: the dispatcher goroutine (cmd/keycloak/keycloak.go), the
  channels and their buffer sizes. The queues are unbounded sequences in `Api.Channels`.
- pkg/ws/ws.go, internal/config, internal/logger, api/router.go and cmd/cmd.go are not part
  of this model.
- The realm's admin-token request (cmd/keycloak/keycloak.go:66-87) is a `tokenFetch`
  parameter. Its quirk of returning an empty token on a non-2xx answer is therefore not
  modelled.
- The directory's token request and department lookups are not made over the network.
  Their answers are the fields of `Lark.Directory`.
- The user listing's `max=10000` bound is not modelled: the listing returns every user.
- Deleting a group does not remove it from users' memberships in `Keycloak.Realm`.
- Keycloak's checks for name conflicts on a rename or a child create are simplified to the
  statuses in `Keycloak`.
- Keycloak's lowercasing of usernames is not modelled: usernames compare as given.
- Strings are sequences of characters, not UTF-8 bytes.
- Attribute maps are never nil, so the nil-map branch of genUser4Update is not modelled.
- Api.Decide: when a queued event gets no explicit reply, gin's default 200 status is not
  modelled. The reply is `NothingWritten`.
- UserSync.UserUpdate: an update with an old status but no new status, or without a
  first department where one is read, would panic in Go. `UpdateDefined` requires these
  cases away.
- UserSync.UserUpdate: the status part of `UpdateDefined` is stricter than the source. When
  the old status is already activated, the activation check (cmd/keycloak/user.go:55)
  stops before it reads the new status. The email-change branch then never reads it, and
  neither does an update whose department step fails. Go handles those events without a
  new status, but the model requires one.
- UserSync.UserUpdate: the precondition asks for a first department even in some events
  where an earlier call would already have failed. This is stricter than the source.
- UserSync.ProcessUserMsg, UserSync.ChangeEmail, UserSync.CreateAndAssign,
  UserSync.AssignGroup2User and DepartmentSync.GetGroupIdInKeycloak require a first
  department. In Go its absence is an index-out-of-range panic.
- DepartmentSync.GroupRename, DepartmentSync.GroupUpdate and DepartmentSync.ProcessDepMsg
  require `RenameResolvable`. In Go, when the new name occurs nowhere in the department's
  full path, `strings.LastIndex` gives -1 and the slice at -1 panics
  (cmd/keycloak/group.go:186-187). A name found earlier in the path, but not at its end,
  is cut there without a panic, and the model does the same.
- DepartmentSync and Lark require an acyclic directory. The source's upward walk has no
  cycle guard and would not terminate on a cycle.
- UserSync.CreateAndAssign and UserSync.ChangeDepartment: after a successful create the
  re-read always finds the user, but only because usernames are not lowercased in this
  model. In Go, Keycloak stores a mixed-case email in lower case. The exact comparison in
  getUserDetail (cmd/keycloak/user.go:181-187) then finds nothing and returns nil.
  cmd/keycloak/user.go:93 and :131 then dereference nil. The model's branch for that case
  cannot be reached, and it returns a constant error.
- UserSync.ChangeEmail, UserSync.CreateAndAssign and UserSync.ChangeDepartment are the
  branches of userUpdate, written as separate methods.
- The department branch of userUpdate is guarded by `len(userOldObj.DepartmentIDs) >= 0`
  (cmd/keycloak/user.go:101). That guard is always true, so the model takes the branch
  unconditionally.

Behaviour the proofs make visible:

- A department event that both renames and moves rebuilds the old path under the
  department's NEW parent, because the directory already reports the new parent
  (`DepartmentSync.RenameRebuildsOldPath`).
  - If no group sits at that path, the rename fails. The update then stops with that
    error and the move is never attempted (`DepartmentSync.UpdateStopsAtFailedRename`).
  - If some group does sit there, that group is renamed instead
    (`DepartmentSync.RenameRenamesLocatedGroup`), and the move then runs on the renamed
    forest.
- A user update where neither the old nor the new snapshot has a name blanks the realm
  user's first and last names, as `UserSync.UpdateWithoutNameBlanksNames` states.
- Create and update both send `emailVerified` as false, because the field has no
  `omitempty` (internal/model/keycloak/keycloak.go:16). An update therefore clears a
  verified email (`UserSync.FieldUpdateRefreshesUser`).

/** User and group management rules of the admin server: the user-store version bump
    with bounded retries, the "nothing new" poll gate, batch user creation, the role
    precedence rules and the reset pass, role diffs and the role-to-module permission
    mapping, group-membership create/delete planning, scrubbing a principal out of
    policy items, masking, pagination, and the exact-match placement of a group lookup.

    The database is an object of class UserStore; what a DAO query returns is either
    read from its fields or, where the query is not part of this model, a parameter. */
module XUserMgr {
  import opened Wrappers
  import opened JavaStrings

  const MAX_DB_TRANSACTION_RETRIES: nat := 5

  /** Role names as the role constants hold them. */
  const ROLE_USER: string := "ROLE_USER"
  const ROLE_SYS_ADMIN: string := "ROLE_SYS_ADMIN"
  const ROLE_ADMIN_AUDITOR: string := "ROLE_ADMIN_AUDITOR"

  datatype Error =
    | RuntimeException(cause: string)          // the retry loop gave up, wrapping the last failure
    | RestException(message: string)           // reported to the REST caller
    | IndexOutOfBounds(index: int)
    | DataNotFound(what: string)

  // ---------------------------------------------------------------- version bump with retries

  /** Runs a database update up to MAX_DB_TRANSACTION_RETRIES + 1 times; `outcome(k)` is the
      failure of attempt k (None when it succeeds). On success the result is the number of the
      successful attempt; otherwise every attempt failed and the last failure is wrapped. */
  method RunWithRetries(outcome: nat -> Option<string>) returns (r: Result<nat, Error>)
    ensures r.Success? ==>
      && 1 <= r.value <= MAX_DB_TRANSACTION_RETRIES + 1
      && outcome(r.value).None?
      && forall k | 1 <= k < r.value :: outcome(k).Some?
    ensures r.Failure? ==>
      && (forall k | 1 <= k <= MAX_DB_TRANSACTION_RETRIES + 1 :: outcome(k).Some?)
      && r.error == RuntimeException(outcome(MAX_DB_TRANSACTION_RETRIES + 1).value)
  {
    var noOfRetries: nat := 0;
    var failure: string := "";
    while true
      invariant noOfRetries <= MAX_DB_TRANSACTION_RETRIES
      invariant forall k | 1 <= k <= noOfRetries :: outcome(k).Some?
      decreases MAX_DB_TRANSACTION_RETRIES - noOfRetries
    {
      noOfRetries := noOfRetries + 1;
      var attempt := outcome(noOfRetries);
      if attempt.None? {
        return Success(noOfRetries);
      }
      failure := attempt.value;
      if noOfRetries > MAX_DB_TRANSACTION_RETRIES {
        return Failure(RuntimeException(failure));
      }
    }
  }

  // ---------------------------------------------------------------- poll gate

  datatype RangerUserStore = RangerUserStore(userStoreVersion: Option<int>, users: set<string>)

  /** Nothing is returned when the cached store carries exactly the version the caller already
      has (two absent versions being equal); otherwise the cached store is returned. */
  function GetRangerUserStoreIfUpdated(cached: Option<RangerUserStore>, lastKnownUserStoreVersion: Option<int>)
    : (r: Option<RangerUserStore>)
    ensures r.None? <==> cached.None? || cached.value.userStoreVersion == lastKnownUserStoreVersion
    ensures r.Some? ==> r == cached
  {
    if cached.Some? && cached.value.userStoreVersion == lastKnownUserStoreVersion then None else cached
  }

  /** Polling again with the version just received returns nothing until the store changes. */
  lemma PollWithReceivedVersion(store: RangerUserStore, newer: RangerUserStore)
    requires newer.userStoreVersion != store.userStoreVersion
    ensures GetRangerUserStoreIfUpdated(Some(store), store.userStoreVersion) == None
    ensures GetRangerUserStoreIfUpdated(Some(newer), store.userStoreVersion) == Some(newer)
  {
  }

  // ---------------------------------------------------------------- batch user create/update

  datatype VXUser = VXUser(name: Option<string>, firstName: Option<string>)

  /** A name that is absent, "null" in any letter case, or blank after trimming is invalid. */
  predicate IsInvalidName(s: Option<string>) {
    s.None? || EqualsIgnoreCase("null", s.value) || Trim(s.value) == []
  }

  /** A user is processed when it is present and both its name and first name are valid. */
  predicate IsProcessed(u: Option<VXUser>) {
    u.Some? && !IsInvalidName(u.value.name) && !IsInvalidName(u.value.firstName)
  }

  function CountProcessed(users: seq<Option<VXUser>>): (n: nat)
    ensures n <= |users|
  {
    if users == [] then 0
    else CountProcessed(users[..|users| - 1]) + (if IsProcessed(users[|users| - 1]) then 1 else 0)
  }

  /** The user records after writing each processed user, in list order, a later write of the
      same name replacing an earlier one. */
  function Written(stored: map<string, VXUser>, users: seq<Option<VXUser>>): map<string, VXUser> {
    if users == [] then stored
    else
      var before := Written(stored, users[..|users| - 1]);
      var u := users[|users| - 1];
      if IsProcessed(u) then before[u.value.name.value := u.value] else before
  }

  /** The names of the processed users. */
  function WrittenNames(users: seq<Option<VXUser>>): set<string> {
    if users == [] then {}
    else
      var u := users[|users| - 1];
      WrittenNames(users[..|users| - 1]) + if IsProcessed(u) then {u.value.name.value} else {}
  }

  lemma WrittenStep(stored: map<string, VXUser>, users: seq<Option<VXUser>>, i: nat)
    requires i < |users|
    ensures CountProcessed(users[..i + 1]) == CountProcessed(users[..i]) + if IsProcessed(users[i]) then 1 else 0
    ensures WrittenNames(users[..i + 1])
         == WrittenNames(users[..i]) + if IsProcessed(users[i]) then {users[i].value.name.value} else {}
    ensures Written(stored, users[..i + 1])
         == if IsProcessed(users[i]) then Written(stored, users[..i])[users[i].value.name.value := users[i].value]
            else Written(stored, users[..i])
  {
    assert users[..i + 1][..i] == users[..i];
  }

  /** Skipped users do not count: appending one leaves the count and the records unchanged. */
  lemma SkippedUserChangesNothing(stored: map<string, VXUser>, users: seq<Option<VXUser>>, u: Option<VXUser>)
    requires !IsProcessed(u)
    ensures CountProcessed(users + [u]) == CountProcessed(users)
    ensures Written(stored, users + [u]) == Written(stored, users)
  {
    assert (users + [u])[..|users|] == users;
  }

  /** Names spelled "null" in any case, or made only of spaces and controls, are skipped. */
  lemma InvalidNameExamples(first: string)
    ensures !IsProcessed(Some(VXUser(Some("NuLl"), Some(first))))
    ensures !IsProcessed(Some(VXUser(Some(" \t"), Some(first))))
    ensures !IsProcessed(Some(VXUser(Some("alice"), None)))
  {
    assert EqualsIgnoreCase("null", "NuLl") by {
      assert LowerChar('N') == 'n' && LowerChar('L') == 'l';
    }
    assert Trim(" \t") == [] by {
      assert forall i | 0 <= i < |" \t"| :: IsTrimmable(" \t"[i]);
    }
  }

  // ---------------------------------------------------------------- role rules

  /** The role assignment rules of one request. The group maps are given as entry lists in
      their iteration order, which decides which group wins; a value may be null (None). */
  datatype RoleAssignments = RoleAssignments(
    userMap: map<string, Option<string>>,
    groupMap: seq<(string, Option<string>)>,
    whiteListUserMap: map<string, Option<string>>,
    whiteListGroupMap: seq<(string, Option<string>)>)

  /** The value of the first entry, in order, for a group the user belongs to whose value is not null. */
  function FirstGroupRole(entries: seq<(string, Option<string>)>, userGroups: set<string>): Option<string> {
    if entries == [] then None
    else if entries[0].0 in userGroups && entries[0].1.Some? then entries[0].1
    else FirstGroupRole(entries[1..], userGroups)
  }

  /** Index characterisation: the result is the value of the first matching entry, and there is
      no result exactly when no entry matches. */
  lemma {:induction false} FirstGroupRoleIsFirstMatch(entries: seq<(string, Option<string>)>, userGroups: set<string>)
    ensures FirstGroupRole(entries, userGroups).None? <==>
      forall i | 0 <= i < |entries| :: !(entries[i].0 in userGroups && entries[i].1.Some?)
    ensures FirstGroupRole(entries, userGroups).Some? ==>
      exists i | 0 <= i < |entries| ::
        && entries[i].0 in userGroups && entries[i].1 == FirstGroupRole(entries, userGroups)
        && forall j | 0 <= j < i :: !(entries[j].0 in userGroups && entries[j].1.Some?)
  {
    if entries != [] && !(entries[0].0 in userGroups && entries[0].1.Some?) {
      var rest := entries[1..];
      FirstGroupRoleIsFirstMatch(rest, userGroups);
      assert forall i | 1 <= i < |entries| :: entries[i] == rest[i - 1];
      if FirstGroupRole(rest, userGroups).Some? {
        var i :| 0 <= i < |rest| && rest[i].0 in userGroups && rest[i].1 == FirstGroupRole(rest, userGroups)
                 && forall j | 0 <= j < i :: !(rest[j].0 in userGroups && rest[j].1.Some?);
        assert entries[i + 1] == rest[i];
      }
    }
  }

  /** The role the rules compute for a user: ROLE_USER by default; the user's own entry, or
      else the first matching group entry, replaces it; the white-list user entry, or else
      the first matching white-list group entry, replaces that. None is a null role. */
  function UserRoleFor(userName: string, userGroups: set<string>, a: RoleAssignments): (r: Option<string>)
    ensures r.None? ==>
      || (userName in a.whiteListUserMap && a.whiteListUserMap[userName].None?)
      || (userName !in a.whiteListUserMap && userName in a.userMap && a.userMap[userName].None?)
  {
    var ruleRole :=
      if userName in a.userMap then a.userMap[userName]
      else Some(FirstGroupRole(a.groupMap, userGroups).GetOr(ROLE_USER));
    if userName in a.whiteListUserMap then a.whiteListUserMap[userName]
    else
      var wl := FirstGroupRole(a.whiteListGroupMap, userGroups);
      if wl.Some? then wl else ruleRole
  }

  /** The loops of the role computation, each stopping at the first non-null matching group. */
  method ComputeUserRole(userName: string, userGroups: set<string>, a: RoleAssignments) returns (userRole: Option<string>)
    ensures userRole == UserRoleFor(userName, userGroups, a)
  {
    userRole := Some(ROLE_USER);
    if |a.userMap| > 0 && userName in a.userMap {
      userRole := a.userMap[userName];
    } else if |a.groupMap| > 0 && |userGroups| > 0 {
      userRole := ScanGroups(a.groupMap, userGroups, userRole);
    } else {
      assert FirstGroupRole(a.groupMap, userGroups) == None by {
        FirstGroupRoleIsFirstMatch(a.groupMap, userGroups);
      }
    }
    if |a.whiteListUserMap| > 0 && userName in a.whiteListUserMap {
      userRole := a.whiteListUserMap[userName];
    } else if |a.whiteListGroupMap| > 0 && |userGroups| > 0 {
      userRole := ScanGroups(a.whiteListGroupMap, userGroups, userRole);
    } else {
      assert FirstGroupRole(a.whiteListGroupMap, userGroups) == None by {
        FirstGroupRoleIsFirstMatch(a.whiteListGroupMap, userGroups);
      }
    }
  }

  /** One group loop: the first matching non-null value replaces `current`, if there is one. */
  method ScanGroups(entries: seq<(string, Option<string>)>, userGroups: set<string>, current: Option<string>)
    returns (userRole: Option<string>)
    ensures userRole == (if FirstGroupRole(entries, userGroups).Some? then FirstGroupRole(entries, userGroups) else current)
  {
    userRole := current;
    for i := 0 to |entries|
      invariant FirstGroupRole(entries, userGroups) == FirstGroupRole(entries[i..], userGroups)
    {
      assert entries[i..][1..] == entries[i + 1..];
      if entries[i].0 in userGroups {
        var value := entries[i].1;
        if value.Some? {
          userRole := value;
          return;
        }
      }
    }
  }

  /** A white-list user entry decides the role whatever else applies. */
  lemma WhiteListUserWins(userName: string, userGroups: set<string>, a: RoleAssignments)
    requires userName in a.whiteListUserMap
    ensures UserRoleFor(userName, userGroups, a) == a.whiteListUserMap[userName]
  {
  }

  /** With no white-list entry applying, the user's own entry beats every group entry. */
  lemma {:induction false} UserEntryBeatsGroups(userName: string, userGroups: set<string>, a: RoleAssignments)
    requires userName in a.userMap && userName !in a.whiteListUserMap
    requires forall i | 0 <= i < |a.whiteListGroupMap| :: a.whiteListGroupMap[i].0 !in userGroups
    ensures UserRoleFor(userName, userGroups, a) == a.userMap[userName]
  {
    FirstGroupRoleIsFirstMatch(a.whiteListGroupMap, userGroups);
  }

  /** A user no rule mentions, in no group any rule mentions, gets ROLE_USER. */
  lemma {:induction false} DefaultRoleIsUser(userName: string, userGroups: set<string>, a: RoleAssignments)
    requires userName !in a.userMap && userName !in a.whiteListUserMap
    requires forall i | 0 <= i < |a.groupMap| :: a.groupMap[i].0 !in userGroups
    requires forall i | 0 <= i < |a.whiteListGroupMap| :: a.whiteListGroupMap[i].0 !in userGroups
    ensures UserRoleFor(userName, userGroups, a) == Some(ROLE_USER)
  {
    FirstGroupRoleIsFirstMatch(a.groupMap, userGroups);
    FirstGroupRoleIsFirstMatch(a.whiteListGroupMap, userGroups);
  }

  /** Group entries are tried in order: an earlier matching non-null entry wins over a later one. */
  lemma {:induction false} EarlierGroupEntryWins(entries: seq<(string, Option<string>)>, userGroups: set<string>, i: nat)
    requires i < |entries| && entries[i].0 in userGroups && entries[i].1.Some?
    requires forall j | 0 <= j < i :: !(entries[j].0 in userGroups && entries[j].1.Some?)
    ensures FirstGroupRole(entries, userGroups) == entries[i].1
  {
    FirstGroupRoleIsFirstMatch(entries, userGroups);
    if FirstGroupRole(entries, userGroups).Some? {
      var k :| 0 <= k < |entries| && entries[k].0 in userGroups && entries[k].1 == FirstGroupRole(entries, userGroups)
               && forall j | 0 <= j < k :: !(entries[j].0 in userGroups && entries[j].1.Some?);
      assert k == i;
    }
  }

  /** The new roles of a profile update: the requested non-null roles the profile does not hold yet, in order. */
  function RoleDiff(newRoles: seq<Option<string>>, oldRoles: seq<string>): (d: seq<string>)
    ensures forall r :: r in d <==> Some(r) in newRoles && r !in oldRoles
    ensures |d| <= |newRoles|
  {
    if newRoles == [] then []
    else
      var last := newRoles[|newRoles| - 1];
      assert newRoles == newRoles[..|newRoles| - 1] + [last];
      RoleDiff(newRoles[..|newRoles| - 1], oldRoles) + (if last.Some? && last.value !in oldRoles then [last.value] else [])
  }

  /** Requesting only roles the profile already holds, or a null role, changes nothing. */
  lemma RoleDiffEmpty(newRoles: seq<Option<string>>, oldRoles: seq<string>)
    requires forall i | 0 <= i < |newRoles| :: newRoles[i].None? || newRoles[i].value in oldRoles
    ensures RoleDiff(newRoles, oldRoles) == []
  {
  }

  // ---------------------------------------------------------------- role-to-module permissions

  datatype Module =
    | ResourceBasedPolicies | Reports | SecurityZone | Audit | UserGroups
    | GovernedDataSharing | TagBasedPolicies | KeyManager

  /** The two permission-assignment paths: updating an existing profile, and creating a user
      (which grants no governed-data-sharing permission). */
  datatype AssignmentPath = ForProfile | ForNewUser

  /** The modules one role grants, in the order the permissions are written; a role outside
      `validRoles` grants none. */
  function RoleModules(role: string, validRoles: set<string>, path: AssignmentPath): seq<Module>
  {
    if role !in validRoles then []
    else
      [ResourceBasedPolicies, Reports]
      + if role == ROLE_USER then [SecurityZone]
        else
          [Audit, UserGroups] + (if path == ForProfile then [GovernedDataSharing] else [])
          + if role == ROLE_SYS_ADMIN || role == ROLE_ADMIN_AUDITOR then [TagBasedPolicies, SecurityZone]
            else [KeyManager]
  }

  /** What each kind of role is granted: nothing when invalid, resource policies and reports
      always, governed data sharing only on the profile path, key manager for the roles other
      than ROLE_USER and the two admin roles, security zone for ROLE_USER and the admin roles. */
  lemma RoleModulesGrants(role: string, validRoles: set<string>, path: AssignmentPath)
    ensures var m := RoleModules(role, validRoles, path);
      && (role !in validRoles ==> m == [])
      && (role in validRoles ==> ResourceBasedPolicies in m && Reports in m)
      && (GovernedDataSharing in m <==> role in validRoles && role != ROLE_USER && path == ForProfile)
      && (KeyManager in m <==> role in validRoles && role != ROLE_USER && role != ROLE_SYS_ADMIN && role != ROLE_ADMIN_AUDITOR)
      && (Audit in m <==> role in validRoles && role != ROLE_USER)
      && (UserGroups in m <==> role in validRoles && role != ROLE_USER)
      && (SecurityZone in m <==> role in validRoles && (role == ROLE_USER || role == ROLE_SYS_ADMIN || role == ROLE_ADMIN_AUDITOR))
  {
  }

  /** All the permission writes for a role list, role by role. */
  function PermissionCalls(roles: seq<string>, validRoles: set<string>, path: AssignmentPath): seq<Module>
  {
    if roles == [] then []
    else PermissionCalls(roles[..|roles| - 1], validRoles, path) + RoleModules(roles[|roles| - 1], validRoles, path)
  }

  lemma UpdateTwice<K, V>(m: map<K, V>, k: K, x: V, y: V)
    ensures m[k := x][k := y] == m[k := y]
  {
  }

  /** The modules a user holds a permission for; none when the user has no entry. */
  function HeldModules(userPermissions: map<string, set<Module>>, userName: string): set<Module> {
    if userName in userPermissions then userPermissions[userName] else {}
  }

  function ModulesOf(calls: seq<Module>): set<Module> {
    set i | 0 <= i < |calls| :: calls[i]
  }

  /** Granting one more role adds that role's modules; an empty role list grants none. */
  lemma ModulesGrantedStep(roles: seq<string>, i: nat, validRoles: set<string>, path: AssignmentPath)
    requires i <= |roles|
    ensures i == 0 ==> ModulesOf(PermissionCalls(roles[..0], validRoles, path)) == {}
    ensures i < |roles| ==>
      ModulesOf(PermissionCalls(roles[..i + 1], validRoles, path))
      == ModulesOf(PermissionCalls(roles[..i], validRoles, path)) + ModulesOf(RoleModules(roles[i], validRoles, path))
  {
    assert roles[..0] == [];
    if i < |roles| {
      var post := roles[..i + 1];
      assert post[..|post| - 1] == roles[..i] && post[|post| - 1] == roles[i];
      assert PermissionCalls(post, validRoles, path)
          == PermissionCalls(roles[..i], validRoles, path) + RoleModules(roles[i], validRoles, path);
      ModulesOfAppend(PermissionCalls(roles[..i], validRoles, path), RoleModules(roles[i], validRoles, path));
    }
  }

  lemma ModulesOfAppend(a: seq<Module>, b: seq<Module>)
    ensures ModulesOf(a + b) == ModulesOf(a) + ModulesOf(b)
  {
    forall x | x in ModulesOf(a + b) ensures x in ModulesOf(a) + ModulesOf(b) {
      var k :| 0 <= k < |a + b| && (a + b)[k] == x;
      if k >= |a| { assert b[k - |a|] == x; }
    }
    forall x | x in ModulesOf(a) + ModulesOf(b) ensures x in ModulesOf(a + b) {
      if x in ModulesOf(a) {
        var k :| 0 <= k < |a| && a[k] == x;
        assert (a + b)[k] == x;
      } else {
        var k :| 0 <= k < |b| && b[k] == x;
        assert (a + b)[|a| + k] == x;
      }
    }
  }

  /** A role list grants a module exactly when one of its roles does. */
  lemma {:induction false} PermissionCallsByRole(roles: seq<string>, validRoles: set<string>, path: AssignmentPath, m: Module)
    ensures m in ModulesOf(PermissionCalls(roles, validRoles, path))
        <==> exists i | 0 <= i < |roles| :: m in ModulesOf(RoleModules(roles[i], validRoles, path))
  {
    if roles != [] {
      var init := roles[..|roles| - 1];
      PermissionCallsByRole(init, validRoles, path, m);
      var a := PermissionCalls(init, validRoles, path);
      var b := RoleModules(roles[|roles| - 1], validRoles, path);
      ModulesOfAppend(a, b);
      assert forall i | 0 <= i < |init| :: init[i] == roles[i];
    }
  }

  /** ROLE_USER grants resource-based policies, reports and security zones, nothing else. */
  lemma UserRoleModules(validRoles: set<string>, path: AssignmentPath)
    requires ROLE_USER in validRoles
    ensures RoleModules(ROLE_USER, validRoles, path) == [ResourceBasedPolicies, Reports, SecurityZone]
  {
  }

  /** The administrator and admin-auditor roles grant tag-based policies but never the key manager. */
  lemma {:induction false} AdminRoleModules(role: string, validRoles: set<string>, path: AssignmentPath)
    requires role == ROLE_SYS_ADMIN || role == ROLE_ADMIN_AUDITOR
    requires role in validRoles
    ensures var ms := ModulesOf(RoleModules(role, validRoles, path));
      && TagBasedPolicies in ms && SecurityZone in ms && Audit in ms && UserGroups in ms
      && KeyManager !in ms
  {
    assert role != ROLE_USER by { assert role[5] != ROLE_USER[5]; }
    var calls := RoleModules(role, validRoles, path);
    assert calls[2] == Audit && calls[3] == UserGroups;
    assert calls[|calls| - 2] == TagBasedPolicies && calls[|calls| - 1] == SecurityZone;
  }

  /** Any other valid role (the key-administration roles) grants the key manager, but neither
      tag-based policies nor security zones. */
  lemma {:induction false} OtherRoleModules(role: string, validRoles: set<string>, path: AssignmentPath)
    requires role in validRoles && role != ROLE_USER && role != ROLE_SYS_ADMIN && role != ROLE_ADMIN_AUDITOR
    ensures var ms := ModulesOf(RoleModules(role, validRoles, path));
      && KeyManager in ms && TagBasedPolicies !in ms && SecurityZone !in ms
  {
    var calls := RoleModules(role, validRoles, path);
    assert calls[|calls| - 1] == KeyManager;
  }

  /** The two assignment paths differ exactly in the governed-data-sharing permission. */
  lemma {:induction false} PathsDifferOnlyInDataSharing(role: string, validRoles: set<string>)
    ensures ModulesOf(RoleModules(role, validRoles, ForNewUser))
         == ModulesOf(RoleModules(role, validRoles, ForProfile)) - {GovernedDataSharing}
  {
    var n := RoleModules(role, validRoles, ForNewUser);
    var p := RoleModules(role, validRoles, ForProfile);
    forall m ensures m in ModulesOf(n) <==> m in ModulesOf(p) && m != GovernedDataSharing {
      if m in ModulesOf(n) {
        var k :| 0 <= k < |n| && n[k] == m;
        if role in validRoles && role != ROLE_USER && k >= 4 {
          assert p[k + 1] == m;
        } else {
          assert p[k] == m;
        }
      }
      if m in ModulesOf(p) && m != GovernedDataSharing {
        var k :| 0 <= k < |p| && p[k] == m;
        if role in validRoles && role != ROLE_USER && k >= 4 {
          assert n[k - 1] == m;
        } else {
          assert n[k] == m;
        }
      }
    }
  }

  // ---------------------------------------------------------------- group membership diff

  /** A user-to-group mapping row. */
  datatype GroupUser = GroupUser(id: int, userId: int, parentGroupId: int, name: string)

  function ParentIds(mappings: seq<GroupUser>): set<int> {
    set i | 0 <= i < |mappings| :: mappings[i].parentGroupId
  }

  function MappingsOf(mappings: seq<GroupUser>, userId: int): (r: seq<GroupUser>)
    ensures forall m :: m in r <==> m in mappings && m.userId == userId
  {
    if mappings == [] then []
    else
      assert mappings == mappings[..|mappings| - 1] + [mappings[|mappings| - 1]];
      MappingsOf(mappings[..|mappings| - 1], userId)
      + (if mappings[|mappings| - 1].userId == userId then [mappings[|mappings| - 1]] else [])
  }

  /** The requested group ids no existing mapping points to, in request order (a repeated id is
      created once per occurrence). */
  function MissingGroups(requested: seq<int>, existing: seq<GroupUser>): (r: seq<int>)
    ensures forall g :: g in r <==> g in requested && g !in ParentIds(existing)
  {
    if requested == [] then []
    else
      var last := requested[|requested| - 1];
      assert requested == requested[..|requested| - 1] + [last];
      MissingGroups(requested[..|requested| - 1], existing) + (if last !in ParentIds(existing) then [last] else [])
  }

  /** The ids of the existing mappings whose group is not requested. */
  function UnrequestedMappings(existing: seq<GroupUser>, requested: seq<int>): (r: seq<int>)
    ensures forall id :: id in r <==> exists i | 0 <= i < |existing| :: existing[i].id == id && existing[i].parentGroupId !in requested
  {
    if existing == [] then []
    else
      var init := existing[..|existing| - 1];
      var last := existing[|existing| - 1];
      assert forall i | 0 <= i < |init| :: init[i] == existing[i];
      UnrequestedMappings(init, requested) + (if last.parentGroupId !in requested then [last.id] else [])
  }

  /** The existing mappings whose group is requested: they stay. */
  function KeptMappings(existing: seq<GroupUser>, requested: seq<int>): (r: seq<GroupUser>)
    ensures forall m :: m in r <==> m in existing && m.parentGroupId in requested
  {
    if existing == [] then []
    else
      var init := existing[..|existing| - 1];
      var last := existing[|existing| - 1];
      assert existing == init + [last];
      KeptMappings(init, requested) + (if last.parentGroupId in requested then [last] else [])
  }

  /** The create and delete loops: for each requested id, a search through the existing
      mappings for one with that group; for each existing mapping, a search through the
      request for its group. */
  method PlanGroupUserDiff(existing: seq<GroupUser>, requested: seq<int>) returns (toCreate: seq<int>, toRemove: seq<int>)
    ensures toCreate == MissingGroups(requested, existing)
    ensures toRemove == UnrequestedMappings(existing, requested)
  {
    toCreate := [];
    for i := 0 to |requested|
      invariant toCreate == MissingGroups(requested[..i], existing)
    {
      var groupId := requested[i];
      var found := IsMapped(existing, groupId);
      assert requested[..i + 1][..i] == requested[..i];
      if !found {
        toCreate := toCreate + [groupId];
      }
    }
    assert requested[..|requested|] == requested;
    toRemove := [];
    for i := 0 to |existing|
      invariant toRemove == UnrequestedMappings(existing[..i], requested)
    {
      var mapping := existing[i];
      var found := IsRequested(requested, mapping.parentGroupId);
      assert existing[..i + 1][..i] == existing[..i];
      if !found {
        toRemove := toRemove + [mapping.id];
      }
    }
    assert existing[..|existing|] == existing;
  }

  /** The search through the existing mappings for one with the given group. */
  method IsMapped(existing: seq<GroupUser>, groupId: int) returns (found: bool)
    ensures found <==> groupId in ParentIds(existing)
  {
    found := false;
    for j := 0 to |existing|
      invariant found <==> exists k | 0 <= k < j :: existing[k].parentGroupId == groupId
    {
      if existing[j].parentGroupId == groupId {
        found := true;
        break;
      }
    }
  }

  /** The search through the request for the given group. */
  method IsRequested(requested: seq<int>, groupId: int) returns (found: bool)
    ensures found <==> groupId in requested
  {
    found := false;
    for j := 0 to |requested|
      invariant found <==> exists k | 0 <= k < j :: requested[k] == groupId
    {
      if requested[j] == groupId {
        found := true;
        break;
      }
    }
  }

  /** After the diff, the kept mappings and the created ones point to exactly the requested groups. */
  lemma DiffReachesRequest(existing: seq<GroupUser>, requested: seq<int>)
    ensures ParentIds(KeptMappings(existing, requested)) + (set g | g in MissingGroups(requested, existing))
         == set g | g in requested
  {
    var kept := KeptMappings(existing, requested);
    forall g | g in requested ensures g in ParentIds(kept) || g in MissingGroups(requested, existing) {
      if g in ParentIds(existing) {
        var i :| 0 <= i < |existing| && existing[i].parentGroupId == g;
        assert existing[i] in kept;
        var k :| 0 <= k < |kept| && kept[k] == existing[i];
      }
    }
    forall g | g in ParentIds(kept) ensures g in requested {
      var k :| 0 <= k < |kept| && kept[k].parentGroupId == g;
      assert kept[k] in kept;
    }
  }

  /** With distinct mapping ids, every existing mapping is either kept or deleted, never both. */
  lemma DiffPartitionsExisting(existing: seq<GroupUser>, requested: seq<int>, i: nat)
    requires i < |existing|
    requires forall j, k | 0 <= j < k < |existing| :: existing[j].id != existing[k].id
    ensures existing[i] in KeptMappings(existing, requested) <==> existing[i].parentGroupId in requested
    ensures existing[i].id in UnrequestedMappings(existing, requested) <==> existing[i].parentGroupId !in requested
  {
    if existing[i].id in UnrequestedMappings(existing, requested) {
      var j :| 0 <= j < |existing| && existing[j].id == existing[i].id && existing[j].parentGroupId !in requested;
      assert j == i;
    }
  }

  /** A request naming exactly the groups the user is already in creates and deletes nothing. */
  lemma {:induction false} DiffOfCurrentState(existing: seq<GroupUser>, requested: seq<int>)
    requires (set g | g in requested) == ParentIds(existing)
    ensures MissingGroups(requested, existing) == []
    ensures UnrequestedMappings(existing, requested) == []
  {
    NoneMissing(requested, existing);
    forall i | 0 <= i < |existing| ensures existing[i].parentGroupId in requested {
      assert existing[i].parentGroupId in ParentIds(existing);
    }
    NoneUnrequested(existing, requested);
  }

  lemma {:induction false} NoneMissing(requested: seq<int>, existing: seq<GroupUser>)
    requires forall i | 0 <= i < |requested| :: requested[i] in ParentIds(existing)
    ensures MissingGroups(requested, existing) == []
  {
    if requested != [] {
      NoneMissing(requested[..|requested| - 1], existing);
    }
  }

  lemma {:induction false} NoneUnrequested(existing: seq<GroupUser>, requested: seq<int>)
    requires forall i | 0 <= i < |existing| :: existing[i].parentGroupId in requested
    ensures UnrequestedMappings(existing, requested) == []
  {
    if existing != [] {
      NoneUnrequested(existing[..|existing| - 1], requested);
    }
  }

  /** The created mapping rows, numbered from `nextId`, named after their groups. */
  function NewMappings(userId: int, groupIds: seq<int>, nextId: int, groups: map<int, string>): (r: seq<GroupUser>)
    requires forall i | 0 <= i < |groupIds| :: groupIds[i] in groups
    ensures |r| == |groupIds|
    ensures forall i | 0 <= i < |r| :: r[i] == GroupUser(nextId + i, userId, groupIds[i], groups[groupIds[i]])
  {
    seq(|groupIds|, i requires 0 <= i < |groupIds| => GroupUser(nextId + i, userId, groupIds[i], groups[groupIds[i]]))
  }

  function WithoutIds(mappings: seq<GroupUser>, ids: seq<int>): (r: seq<GroupUser>)
    ensures forall m :: m in r <==> m in mappings && m.id !in ids
  {
    if mappings == [] then []
    else
      var init := mappings[..|mappings| - 1];
      var last := mappings[|mappings| - 1];
      assert mappings == init + [last];
      WithoutIds(init, ids) + (if last.id !in ids then [last] else [])
  }

  // ---------------------------------------------------------------- scrubbing policy items

  datatype PolicyItem = PolicyItem(users: seq<string>, groups: seq<string>, roles: seq<string>, accesses: seq<string>)

  function Without(xs: seq<string>, x: string): (r: seq<string>)
    ensures forall y :: y in r <==> y in xs && y != x
  {
    if xs == [] then []
    else
      var init := xs[..|xs| - 1];
      assert xs == init + [xs[|xs| - 1]];
      Without(init, x) + (if xs[|xs| - 1] == x then [] else [xs[|xs| - 1]])
  }

  /** The item after removing the user and the group, each only when it is a non-empty name. */
  function Scrubbed(item: PolicyItem, user: Option<string>, group: Option<string>): (r: PolicyItem)
    ensures r.roles == item.roles && r.accesses == item.accesses
    ensures forall x :: x in r.users <==> x in item.users && !(IsNotEmpty(user) && x == user.value)
    ensures forall x :: x in r.groups <==> x in item.groups && !(IsNotEmpty(group) && x == group.value)
  {
    item.(users := if IsNotEmpty(user) then Without(item.users, user.value) else item.users,
          groups := if IsNotEmpty(group) then Without(item.groups, group.value) else item.groups)
  }

  predicate HasNoPrincipals(item: PolicyItem) {
    item.users == [] && item.groups == [] && item.roles == []
  }

  /** The items after scrubbing, without those left with no users, groups or roles. */
  function ScrubbedItems(items: seq<PolicyItem>, user: Option<string>, group: Option<string>): (r: seq<PolicyItem>)
    ensures |r| <= |items|
  {
    if items == [] then []
    else
      var s := Scrubbed(items[|items| - 1], user, group);
      ScrubbedItems(items[..|items| - 1], user, group) + (if HasNoPrincipals(s) then [] else [s])
  }

  lemma ScrubbedItemsStep(items: seq<PolicyItem>, i: nat, user: Option<string>, group: Option<string>)
    requires i < |items|
    ensures var s := Scrubbed(items[i], user, group);
      ScrubbedItems(items[..i + 1], user, group) == ScrubbedItems(items[..i], user, group) + (if HasNoPrincipals(s) then [] else [s])
  {
    assert items[..i + 1][..i] == items[..i];
  }

  /** An item that is not empty and names neither the removed user nor the removed group. */
  predicate IsClean(item: PolicyItem, user: Option<string>, group: Option<string>) {
    && !HasNoPrincipals(item)
    && (IsNotEmpty(user) ==> user.value !in item.users)
    && (IsNotEmpty(group) ==> group.value !in item.groups)
  }

  /** No kept item is empty or still names the removed user or group. */
  lemma {:induction false} ScrubbedItemsClean(items: seq<PolicyItem>, user: Option<string>, group: Option<string>)
    ensures forall i | 0 <= i < |ScrubbedItems(items, user, group)| :: IsClean(ScrubbedItems(items, user, group)[i], user, group)
  {
    if items != [] {
      var init := ScrubbedItems(items[..|items| - 1], user, group);
      ScrubbedItemsClean(items[..|items| - 1], user, group);
      var s := Scrubbed(items[|items| - 1], user, group);
      var r := ScrubbedItems(items, user, group);
      assert r == init + (if HasNoPrincipals(s) then [] else [s]);
      forall i | 0 <= i < |r| ensures IsClean(r[i], user, group) {
        if i < |init| {
          assert r[i] == init[i];
        } else {
          assert r[i] == s;
        }
      }
    }
  }

  /** The scrub loop followed by the removal of the emptied items. */
  method RemoveUserGroupReferences(policyItems: seq<PolicyItem>, user: Option<string>, group: Option<string>)
    returns (r: seq<PolicyItem>)
    ensures r == ScrubbedItems(policyItems, user, group)
  {
    var scrubbed, itemsToRemove := ScrubEachItem(policyItems, user, group);
    r := [];
    for i := 0 to |scrubbed|
      invariant r == ScrubbedItems(policyItems[..i], user, group)
    {
      ScrubbedItemsStep(policyItems, i, user, group);
      if !itemsToRemove[i] {
        r := r + [scrubbed[i]];
      }
    }
    assert policyItems[..|policyItems|] == policyItems;
  }

  /** The scrub loop: each item without the user and the group, and whether it is left empty. */
  method ScrubEachItem(policyItems: seq<PolicyItem>, user: Option<string>, group: Option<string>)
    returns (scrubbed: seq<PolicyItem>, itemsToRemove: seq<bool>)
    ensures |scrubbed| == |itemsToRemove| == |policyItems|
    ensures forall k | 0 <= k < |policyItems| :: scrubbed[k] == Scrubbed(policyItems[k], user, group)
    ensures forall k | 0 <= k < |policyItems| :: itemsToRemove[k] == HasNoPrincipals(scrubbed[k])
  {
    scrubbed, itemsToRemove := [], [];
    for i := 0 to |policyItems|
      invariant |scrubbed| == |itemsToRemove| == i
      invariant forall k | 0 <= k < i :: scrubbed[k] == Scrubbed(policyItems[k], user, group)
      invariant forall k | 0 <= k < i :: itemsToRemove[k] == HasNoPrincipals(scrubbed[k])
    {
      var item := policyItems[i];
      if IsNotEmpty(user) {
        item := item.(users := Without(item.users, user.value));
      }
      if IsNotEmpty(group) {
        item := item.(groups := Without(item.groups, group.value));
      }
      scrubbed := scrubbed + [item];
      itemsToRemove := itemsToRemove + [item.users == [] && item.groups == [] && item.roles == []];
    }
  }

  /** Scrubbing twice is scrubbing once. */
  lemma {:induction false} ScrubIdempotent(items: seq<PolicyItem>, user: Option<string>, group: Option<string>)
    ensures ScrubbedItems(ScrubbedItems(items, user, group), user, group) == ScrubbedItems(items, user, group)
  {
    var r := ScrubbedItems(items, user, group);
    ScrubbedItemsClean(items, user, group);
    ScrubKeepsClean(r, user, group);
  }

  /** Items that neither mention the principals nor are empty are kept as they are. */
  lemma {:induction false} ScrubKeepsClean(items: seq<PolicyItem>, user: Option<string>, group: Option<string>)
    requires forall i | 0 <= i < |items| :: IsClean(items[i], user, group)
    ensures ScrubbedItems(items, user, group) == items
  {
    if items != [] {
      var init := items[..|items| - 1];
      var last := items[|items| - 1];
      assert items == init + [last];
      assert forall i | 0 <= i < |init| :: init[i] == items[i];
      ScrubKeepsClean(init, user, group);
      CleanItemUnchanged(last, user, group);
      assert ScrubbedItems(items, user, group) == ScrubbedItems(init, user, group) + [Scrubbed(last, user, group)];
    }
  }

  lemma CleanItemUnchanged(item: PolicyItem, user: Option<string>, group: Option<string>)
    requires IsClean(item, user, group)
    ensures Scrubbed(item, user, group) == item
  {
    WithoutAbsent(item.users, user);
    WithoutAbsent(item.groups, group);
  }

  lemma {:induction false} WithoutAbsent(xs: seq<string>, x: Option<string>)
    requires IsNotEmpty(x) ==> x.value !in xs
    ensures IsNotEmpty(x) ==> Without(xs, x.value) == xs
  {
    if IsNotEmpty(x) && xs != [] {
      var init := xs[..|xs| - 1];
      assert xs == init + [xs[|xs| - 1]];
      WithoutAbsent(init, x);
    }
  }

  /** Scrubbing keeps the relative order: the result of a concatenation is the concatenation of the results. */
  lemma {:induction false} ScrubKeepsOrder(a: seq<PolicyItem>, b: seq<PolicyItem>, user: Option<string>, group: Option<string>)
    ensures ScrubbedItems(a + b, user, group) == ScrubbedItems(a, user, group) + ScrubbedItems(b, user, group)
    decreases |b|
  {
    if b == [] {
      assert a + b == a;
    } else {
      var init := b[..|b| - 1];
      assert (a + b)[..|a + b| - 1] == a + init;
      assert (a + b)[|a + b| - 1] == b[|b| - 1];
      ScrubKeepsOrder(a, init, user, group);
      var s := Scrubbed(b[|b| - 1], user, group);
      var tail := if HasNoPrincipals(s) then [] else [s];
      assert ScrubbedItems(a + b, user, group) == ScrubbedItems(a + init, user, group) + tail;
      assert ScrubbedItems(b, user, group) == ScrubbedItems(init, user, group) + tail;
    }
  }

  // ---------------------------------------------------------------- masking

  /** As many copies of the mask as the collection has elements; an absent collection gives none. */
  method GetMaskedCollection(listUnmasked: Option<seq<string>>, maskedString: string) returns (r: seq<string>)
    ensures |r| == (if listUnmasked.None? then 0 else |listUnmasked.value|)
    ensures forall i | 0 <= i < |r| :: r[i] == maskedString
  {
    r := [];
    if listUnmasked.Some? {
      for i := 0 to |listUnmasked.value|
        invariant |r| == i
        invariant forall k | 0 <= k < i :: r[k] == maskedString
      {
        r := r + [maskedString];
      }
    }
  }

  // ---------------------------------------------------------------- pagination

  /** What a page carries besides its elements: the request's start and size, the page's
      length and the length of the whole list. */
  datatype PageList<T> = PageList(items: seq<T>, startIndex: int, pageSize: int, resultSize: int, totalCount: int)

  /** Reduces a mathematical integer to the 32-bit two's-complement range, as int addition does. */
  function Wrap32(x: int): (r: int)
    ensures INT_MIN <= r <= INT_MAX
    ensures INT_MIN <= x <= INT_MAX ==> r == x
  {
    (x - INT_MIN) % 0x1_0000_0000 + INT_MIN
  }

  function Min(a: int, b: int): int {
    if a <= b then a else b
  }

  /** The page a loop from `startIndex` up to `bound` (exclusive) and the end of the list
      collects: a negative start fails on its first read, if the loop reads at all. */
  function PageOf<T>(list: seq<T>, startIndex: int, pageSize: int, bound: int): (r: Result<PageList<T>, Error>)
    ensures r.Failure? ==> startIndex < 0
    ensures r.Success? ==>
      && |r.value.items| <= |list| && r.value.resultSize == |r.value.items| && r.value.totalCount == |list|
      && r.value.startIndex == startIndex && r.value.pageSize == pageSize
  {
    if startIndex < bound && startIndex < |list| && startIndex < 0 then Failure(IndexOutOfBounds(startIndex))
    else
      var items := if startIndex < bound && startIndex < |list| then list[startIndex..Min(bound, |list|)] else [];
      Success(PageList(items, startIndex, pageSize, |items|, |list|))
  }

  /** The page loop as written: its bound `pageSize + startIndex` is computed in 32-bit int arithmetic. */
  method PopulatePageListAsWritten<T>(list: seq<T>, startIndex: int, pageSize: int) returns (r: Result<PageList<T>, Error>)
    requires INT_MIN <= startIndex <= INT_MAX && INT_MIN <= pageSize <= INT_MAX && |list| <= INT_MAX
    ensures r == PageOf(list, startIndex, pageSize, Wrap32(pageSize + startIndex))
  {
    r := CollectPage(list, startIndex, pageSize, Wrap32(pageSize + startIndex));
  }

  /** The page loop with its bound computed without wrap-around. */
  method PopulatePageList<T>(list: seq<T>, startIndex: int, pageSize: int) returns (r: Result<PageList<T>, Error>)
    ensures r == PageOf(list, startIndex, pageSize, startIndex + pageSize)
  {
    r := CollectPage(list, startIndex, pageSize, startIndex + pageSize);
  }

  method CollectPage<T>(list: seq<T>, startIndex: int, pageSize: int, bound: int) returns (r: Result<PageList<T>, Error>)
    ensures r == PageOf(list, startIndex, pageSize, bound)
  {
    var onePageList: seq<T> := [];
    var i := startIndex;
    while i < bound && i < |list|
      invariant startIndex <= i
      invariant i > startIndex ==> 0 <= startIndex && i <= Min(bound, |list|)
      invariant i == startIndex ==> onePageList == []
      invariant i > startIndex ==> onePageList == list[startIndex..i]
      decreases |list| - i
    {
      if i < 0 {
        return Failure(IndexOutOfBounds(i));
      }
      onePageList := onePageList + [list[i]];
      i := i + 1;
    }
    r := Success(PageList(onePageList, startIndex, pageSize, |onePageList|, |list|));
  }

  /** A page holds the elements from the start index up to the page size or the end of the
      list, in order; its result size is its length and its total count the list's length. */
  lemma PageContents<T>(list: seq<T>, startIndex: nat, pageSize: nat)
    requires startIndex <= |list|
    ensures PageOf(list, startIndex, pageSize, startIndex + pageSize).Success?
    ensures var p := PageOf(list, startIndex, pageSize, startIndex + pageSize).value;
      && |p.items| == Min(pageSize, |list| - startIndex)
      && (forall k | 0 <= k < |p.items| :: p.items[k] == list[startIndex + k])
      && p.resultSize == |p.items| && p.totalCount == |list|
  {
  }

  /** Two consecutive pages together are the page of twice the size. */
  lemma ConsecutivePages<T>(list: seq<T>, startIndex: nat, pageSize: nat)
    ensures var first := PageOf(list, startIndex, pageSize, startIndex + pageSize);
      var second := PageOf(list, startIndex + pageSize, pageSize, startIndex + 2 * pageSize);
      var both := PageOf(list, startIndex, 2 * pageSize, startIndex + 2 * pageSize);
      first.Success? && second.Success? && both.Success? &&
      first.value.items + second.value.items == both.value.items
  {
    var s, m, e := startIndex, startIndex + pageSize, startIndex + 2 * pageSize;
    if s < |list| && m < |list| {
      assert list[s..Min(m, |list|)] + list[m..Min(e, |list|)] == list[s..Min(e, |list|)];
    }
  }

  /** With start 1 and the largest page size, the 32-bit bound wraps to a negative number: the
      page comes back empty where the rest of the list was meant. */
  lemma PageOverflowExample()
    ensures PageOf([10, 20, 30, 40, 50], 1, INT_MAX, Wrap32(INT_MAX + 1)).value.items == []
    ensures PageOf([10, 20, 30, 40, 50], 1, INT_MAX, 1 + INT_MAX).value.items == [20, 30, 40, 50]
  {
    assert Wrap32(INT_MAX + 1) == INT_MIN;
  }

  // ---------------------------------------------------------------- group lookup

  datatype Group = Group(id: Option<int>, name: string, isVisible: Option<int>, groupSource: Option<int>)

  /** A search parameter's value: an Integer, some other object, or null. */
  datatype ParamValue = IntParam(i: int) | OtherParam(text: string) | NullParam

  /** Objects.equals between a nullable Integer field and a parameter value. */
  predicate ObjectsEquals(field: Option<int>, v: ParamValue) {
    match field
    case None => v.NullParam?
    case Some(x) => v == IntParam(x)
  }

  /** A parameter is compatible with the exact match unless it is a visibility or group-source
      parameter (named in any letter case) whose value differs from the group's. */
  predicate ParamAgrees(g: Group, param: (string, ParamValue)) {
    var key := ToLower(param.0);
    && (key == "isvisible" ==> ObjectsEquals(g.isVisible, param.1))
    && (key == "groupsource" ==> ObjectsEquals(g.groupSource, param.1))
  }

  /** The parameter loop: the exact match survives exactly when every parameter agrees with it. */
  method FilterExactMatch(exactMatch: Option<Group>, searchParams: seq<(string, ParamValue)>) returns (r: Option<Group>)
    ensures r == (if exactMatch.Some? && forall i | 0 <= i < |searchParams| :: ParamAgrees(exactMatch.value, searchParams[i])
                  then exactMatch else None)
  {
    r := exactMatch;
    for i := 0 to |searchParams|
      invariant r == (if exactMatch.Some? && forall k | 0 <= k < i :: ParamAgrees(exactMatch.value, searchParams[k])
                      then exactMatch else None)
    {
      if r.None? {
        break;
      }
      var paramName := ToLower(searchParams[i].0);
      var paramValue := searchParams[i].1;
      if paramName == "isvisible" {
        if !ObjectsEquals(r.value.isVisible, paramValue) {
          r := None;
        }
      } else if paramName == "groupsource" {
        if !ObjectsEquals(r.value.groupSource, paramValue) {
          r := None;
        }
      }
    }
  }

  /** The first index of a group with the given id. */
  function FirstWithId(groups: seq<Group>, id: int): (r: Option<nat>)
    ensures r.Some? ==>
      && r.value < |groups| && groups[r.value].id == Some(id)
      && forall k | 0 <= k < r.value :: groups[k].id != Some(id)
    ensures r.None? ==> forall k | 0 <= k < |groups| :: groups[k].id != Some(id)
  {
    if groups == [] then None
    else if groups[0].id == Some(id) then Some(0)
    else match FirstWithId(groups[1..], id)
      case None => None
      case Some(k) => Some(k + 1)
  }

  /** The search page with the exact match moved to the front: its first copy in the page is
      removed, or the last element when it is absent, so a non-empty page keeps its length. */
  function Placed(groups: seq<Group>, exactMatch: Group): (r: seq<Group>)
    requires exactMatch.id.Some?
    ensures |r| == if groups == [] then 1 else |groups|
    ensures r[0] == exactMatch
  {
    var rest :=
      match FirstWithId(groups, exactMatch.id.value)
      case Some(i) => groups[..i] + groups[i + 1..]
      case None => if groups == [] then [] else groups[..|groups| - 1];
    [exactMatch] + rest
  }

  /** The placement block: only an exact match with an id is placed. */
  method PlaceExactMatch(groups: seq<Group>, exactMatch: Group) returns (r: seq<Group>)
    ensures exactMatch.id.None? ==> r == groups
    ensures exactMatch.id.Some? ==> r == Placed(groups, exactMatch)
  {
    r := groups;
    if exactMatch.id.Some? {
      if |r| > 0 {
        var removed := false;
        var i := 0;
        while i < |r|
          invariant 0 <= i <= |r|
          invariant forall k | 0 <= k < i :: r[k].id != exactMatch.id
          decreases |r| - i
        {
          if exactMatch.id == r[i].id {
            r := r[..i] + r[i + 1..];
            removed := true;
            break;
          }
          i := i + 1;
        }
        if !removed {
          r := r[..|r| - 1];
        }
      }
      r := [exactMatch] + r;
    }
  }

  function IdCount(groups: seq<Group>, id: int): nat {
    if groups == [] then 0 else IdCount(groups[..|groups| - 1], id) + (if groups[|groups| - 1].id == Some(id) then 1 else 0)
  }

  lemma {:induction false} IdCountAppend(a: seq<Group>, b: seq<Group>, id: int)
    ensures IdCount(a + b, id) == IdCount(a, id) + IdCount(b, id)
    decreases |b|
  {
    if b == [] {
      assert a + b == a;
    } else {
      assert (a + b)[..|a + b| - 1] == a + b[..|b| - 1];
      IdCountAppend(a, b[..|b| - 1], id);
    }
  }

  lemma {:induction false} IdCountZero(groups: seq<Group>, id: int)
    requires forall k | 0 <= k < |groups| :: groups[k].id != Some(id)
    ensures IdCount(groups, id) == 0
  {
    if groups != [] {
      IdCountZero(groups[..|groups| - 1], id);
    }
  }

  /** The placed page holds the exact match as often as the page did, and at least once:
      a page that held it once holds it once, at the front. */
  lemma {:induction false} PlacementCount(groups: seq<Group>, exactMatch: Group)
    requires exactMatch.id.Some?
    ensures var id := exactMatch.id.value;
      IdCount(Placed(groups, exactMatch), id) == if IdCount(groups, id) == 0 then 1 else IdCount(groups, id)
  {
    var id := exactMatch.id.value;
    var r := Placed(groups, exactMatch);
    assert r == [exactMatch] + r[1..];
    IdCountAppend([exactMatch], r[1..], id);
    assert IdCount([exactMatch], id) == 1 by { assert [exactMatch][..0] == []; }
    match FirstWithId(groups, id)
    case Some(i) =>
      assert r[1..] == groups[..i] + groups[i + 1..];
      RemovedOneCopy(groups, i, id);
    case None =>
      IdCountZero(groups, id);
      if groups != [] {
        assert r[1..] == groups[..|groups| - 1];
        IdCountZero(groups[..|groups| - 1], id);
      } else {
        assert r[1..] == [];
      }
  }

  /** Dropping one element with the id lowers its count by one. */
  lemma RemovedOneCopy(groups: seq<Group>, i: nat, id: int)
    requires i < |groups| && groups[i].id == Some(id)
    ensures IdCount(groups[..i] + groups[i + 1..], id) + 1 == IdCount(groups, id)
  {
    assert groups == groups[..i] + [groups[i]] + groups[i + 1..];
    IdCountAppend(groups[..i] + [groups[i]], groups[i + 1..], id);
    IdCountAppend(groups[..i], [groups[i]], id);
    IdCountAppend(groups[..i], groups[i + 1..], id);
    assert IdCount([groups[i]], id) == 1 by { assert [groups[i]][..0] == []; }
  }

  // ---------------------------------------------------------------- the store

  datatype PortalUser = PortalUser(external: bool, roles: seq<string>)

  /** The outcome of a membership update: the requested ids and the resulting group names. */
  datatype GroupSync = GroupSync(groupIdList: seq<int>, groupNames: set<string>)

  class UserStore {
    var userStoreVersion: int
    var xUsers: map<string, VXUser>
    var portalUsers: map<string, PortalUser>
    var userPermissions: map<string, set<Module>>
    var userGroups: map<string, set<string>>
    var roleAssignmentUpdatedUsers: set<string>
    var groups: map<int, string>
    var groupUsers: seq<GroupUser>
    var nextGroupUserId: int
    const validRoles: set<string>

    /** Mapping ids are distinct and below the next id to hand out. */
    predicate Valid()
      reads this
    {
      ValidMappings(groupUsers, nextGroupUserId)
    }

    constructor (validRoles: set<string>)
      ensures Valid()
      ensures this.validRoles == validRoles && userStoreVersion == 0
      ensures xUsers == map[] && portalUsers == map[] && userPermissions == map[] && userGroups == map[]
      ensures roleAssignmentUpdatedUsers == {} && groups == map[] && groupUsers == [] && nextGroupUserId == 0
    {
      this.validRoles := validRoles;
      userStoreVersion := 0;
      xUsers, portalUsers, userPermissions, userGroups := map[], map[], map[], map[];
      roleAssignmentUpdatedUsers := {};
      groups, groupUsers, nextGroupUserId := map[], [], 0;
    }

    /** Bumps the user-store version with retries; the failed attempts roll back, so only the
        successful one changes the version. */
    method OnGlobalAppDataChangeWithRetry(outcome: nat -> Option<string>) returns (r: Result<nat, Error>)
      modifies this`userStoreVersion
      ensures r.Success? <==> exists k | 1 <= k <= MAX_DB_TRANSACTION_RETRIES + 1 :: outcome(k).None?
      ensures userStoreVersion == if r.Success? then old(userStoreVersion) + 1 else old(userStoreVersion)
    {
      r := RunWithRetries(outcome);
      if r.Success? {
        userStoreVersion := userStoreVersion + 1;
      }
    }

    /** Writes every processed user in its own transaction (`txFails` names the users whose
        transaction fails, which aborts the batch with the earlier users already written), then,
        when at least one user was written, bumps the user-store version with retries. */
    method CreateOrUpdateXUsers(users: seq<Option<VXUser>>, txFails: string -> bool, bumpOutcome: nat -> Option<string>)
      returns (r: Result<nat, Error>)
      modifies this`xUsers, this`userStoreVersion
      ensures r.Success? ==> r.value == CountProcessed(users) && xUsers == Written(old(xUsers), users)
      ensures r.Success? ==> forall n | n in WrittenNames(users) :: !txFails(n)
      ensures userStoreVersion == if r.Success? && r.value > 0 then old(userStoreVersion) + 1 else old(userStoreVersion)
      ensures r.Failure? ==> exists k | 0 <= k <= |users| :: xUsers == Written(old(xUsers), users[..k])
    {
      r := WriteUsers(users, txFails);
      if r.Failure? || r.value == 0 {
        return;
      }
      var bumped := OnGlobalAppDataChangeWithRetry(bumpOutcome);
      if bumped.Failure? {
        assert users[..|users|] == users;
        return Failure(RestException("Failed to create or update users "));
      }
    }

    /** The per-user loop of the batch: users that are absent or have an invalid name or
        first name are skipped; the others are written one by one. */
    method WriteUsers(users: seq<Option<VXUser>>, txFails: string -> bool) returns (r: Result<nat, Error>)
      modifies this`xUsers
      ensures r.Success? ==> r.value == CountProcessed(users) && xUsers == Written(old(xUsers), users)
      ensures r.Success? ==> forall n | n in WrittenNames(users) :: !txFails(n)
      ensures r.Failure? ==> exists k | 0 <= k <= |users| :: xUsers == Written(old(xUsers), users[..k])
    {
      var ret: nat := 0;
      for i := 0 to |users|
        invariant ret == CountProcessed(users[..i])
        invariant xUsers == Written(old(xUsers), users[..i])
        invariant forall n | n in WrittenNames(users[..i]) :: !txFails(n)
      {
        WrittenStep(old(xUsers), users, i);
        var vXUser := users[i];
        if !IsProcessed(vXUser) {
          continue;
        }
        var userName := vXUser.value.name.value;
        if txFails(userName) {
          assert xUsers == Written(old(xUsers), users[..i]);
          return Failure(RestException("Failed to create or update users "));
        }
        xUsers := xUsers[userName := vXUser.value];
        ret := ret + 1;
      }
      assert users[..|users|] == users;
      r := Success(ret);
    }

    /** Grants the user, in addition to what it holds, the permissions its roles grant; an
        empty role list writes nothing. */
    method AssignPermissionToUser(userName: string, roles: seq<string>, path: AssignmentPath)
      modifies this`userPermissions
      ensures roles == [] ==> userPermissions == old(userPermissions)
      ensures roles != [] ==>
        userPermissions == old(userPermissions)[userName := HeldModules(old(userPermissions), userName)
                                                            + ModulesOf(PermissionCalls(roles, validRoles, path))]
    {
      if roles == [] {
        return;
      }
      ghost var base := userPermissions;
      var held := HeldModules(userPermissions, userName);
      userPermissions := userPermissions[userName := held];
      ghost var granted: set<Module> := {};
      ModulesGrantedStep(roles, 0, validRoles, path);
      assert held + granted == held;
      for i := 0 to |roles|
        invariant granted == ModulesOf(PermissionCalls(roles[..i], validRoles, path))
        invariant userName in userPermissions
        invariant userPermissions == base[userName := held + granted]
      {
        var calls := RoleModules(roles[i], validRoles, path);
        ModulesGrantedStep(roles, i, validRoles, path);
        GrantModules(userName, calls);
        UpdateTwice(base, userName, held + granted, held + granted + ModulesOf(calls));
        assert held + granted + ModulesOf(calls) == held + (granted + ModulesOf(calls));
        granted := granted + ModulesOf(calls);
      }
      assert roles[..|roles|] == roles;
    }

    /** Writes one permission per module call for the user, adding to what is held. */
    method GrantModules(userName: string, calls: seq<Module>)
      requires userName in userPermissions
      modifies this`userPermissions
      ensures userPermissions == old(userPermissions)[userName := old(userPermissions)[userName] + ModulesOf(calls)]
    {
      ghost var held := userPermissions[userName];
      assert ModulesOf(calls[..0]) == {};
      assert held + ModulesOf(calls[..0]) == held;
      assert userPermissions == old(userPermissions)[userName := held];
      for j := 0 to |calls|
        invariant userName in userPermissions
        invariant userPermissions == old(userPermissions)[userName := held + ModulesOf(calls[..j])]
      {
        assert ModulesOf(calls[..j + 1]) == ModulesOf(calls[..j]) + {calls[j]} by {
          assert calls[..j + 1] == calls[..j] + [calls[j]];
          ModulesOfAppend(calls[..j], [calls[j]]);
          assert ModulesOf([calls[j]]) == {calls[j]} by { assert [calls[j]][0] == calls[j]; }
        }
        ghost var before := userPermissions;
        assert before[userName] == held + ModulesOf(calls[..j]);
        userPermissions := userPermissions[userName := userPermissions[userName] + {calls[j]}];
        assert userPermissions[userName] == held + ModulesOf(calls[..j + 1]);
        assert userPermissions == before[userName := held + ModulesOf(calls[..j + 1])];
      }
      assert calls[..|calls|] == calls;
    }

    /** The role diff of a profile update: when some requested role is new, the profile's roles
        become exactly the new ones and its permissions are deleted and granted afresh from them;
        otherwise nothing changes. */
    method UpdateUserRolesPermissions(userName: string, roleListNewProfile: seq<Option<string>>)
      modifies this`portalUsers, this`userPermissions
      ensures userName !in old(portalUsers) ==> portalUsers == old(portalUsers) && userPermissions == old(userPermissions)
      ensures userName in old(portalUsers) ==>
        var d := RoleDiff(roleListNewProfile, old(portalUsers[userName].roles));
        if d == [] then portalUsers == old(portalUsers) && userPermissions == old(userPermissions)
        else
          && portalUsers == old(portalUsers)[userName := old(portalUsers[userName]).(roles := d)]
          && userPermissions == old(userPermissions)[userName := ModulesOf(PermissionCalls(d, validRoles, ForProfile))]
    {
      if userName !in portalUsers {
        return;
      }
      var oldRoles := portalUsers[userName].roles;
      var roleListUpdatedProfile: seq<string> := [];
      for i := 0 to |roleListNewProfile|
        invariant roleListUpdatedProfile == RoleDiff(roleListNewProfile[..i], oldRoles)
      {
        assert roleListNewProfile[..i + 1][..i] == roleListNewProfile[..i];
        var role := roleListNewProfile[i];
        if role.Some? && role.value !in oldRoles {
          roleListUpdatedProfile := roleListUpdatedProfile + [role.value];
        }
      }
      assert roleListNewProfile[..|roleListNewProfile|] == roleListNewProfile;
      if roleListUpdatedProfile != [] {
        portalUsers := portalUsers[userName := portalUsers[userName].(roles := roleListUpdatedProfile)];
        ghost var granted := ModulesOf(PermissionCalls(roleListUpdatedProfile, validRoles, ForProfile));
        ghost var before := userPermissions;
        userPermissions := userPermissions[userName := {}];
        AssignPermissionToUser(userName, roleListUpdatedProfile, ForProfile);
        assert {} + granted == granted;
        UpdateTwice(before, userName, {}, granted);
      }
    }

    /** Updates an existing user's roles as the profile update does; the user's name is
        returned when the user exists and the role list is not empty, whether or not any role
        was new. Otherwise nothing changes. */
    method SetRolesByUserName(userName: string, roleListNewProfile: seq<Option<string>>) returns (ret: Option<string>)
      modifies this`portalUsers, this`userPermissions
      ensures ret == if roleListNewProfile != [] && userName in old(portalUsers) then Some(userName) else None
      ensures ret.None? ==> portalUsers == old(portalUsers) && userPermissions == old(userPermissions)
      ensures ret.Some? ==>
        var d := RoleDiff(roleListNewProfile, old(portalUsers[userName].roles));
        if d == [] then portalUsers == old(portalUsers) && userPermissions == old(userPermissions)
        else
          && portalUsers == old(portalUsers)[userName := old(portalUsers[userName]).(roles := d)]
          && userPermissions == old(userPermissions)[userName := ModulesOf(PermissionCalls(d, validRoles, ForProfile))]
    {
      ret := None;
      if roleListNewProfile != [] {
        if userName in portalUsers {
          UpdateUserRolesPermissions(userName, roleListNewProfile);
          ret := Some(userName);
        }
      }
    }

    /** Role assignment for one page of users: for each requested external user, the computed
        role is applied when the user does not hold it yet; with reset, the user is remembered;
        on the last page of a reset, every listed user with a non-user role that was not
        remembered, on this page or an earlier one, is reset to ROLE_USER, and the remembered
        set is emptied. `nonUserRoleExternalUsers` is what the portal-user query for external
        users with a non-user role returns. */
    method UpdateUserRoleAssignments(requestedUsers: seq<string>, a: RoleAssignments, isReset: bool, isLastPage: bool,
                                     nonUserRoleExternalUsers: seq<string>) returns (updatedUsers: seq<string>)
      modifies this`portalUsers, this`userPermissions, this`roleAssignmentUpdatedUsers
      ensures var pageRoles := PageRoles(old(portalUsers), requestedUsers, userGroups, a);
        var pagePermissions := PagePermissions(old(userPermissions), old(portalUsers), requestedUsers, userGroups, a, validRoles);
        var remembered := old(roleAssignmentUpdatedUsers) + ProcessedNames(requestedUsers, old(portalUsers));
        if isReset && isLastPage then
          && portalUsers == ResetRoles(pageRoles, nonUserRoleExternalUsers, remembered)
          && userPermissions == ResetPermissions(pagePermissions, pageRoles, nonUserRoleExternalUsers, remembered, validRoles)
        else portalUsers == pageRoles && userPermissions == pagePermissions
      ensures roleAssignmentUpdatedUsers ==
        if !isReset then old(roleAssignmentUpdatedUsers)
        else if isLastPage then {}
        else old(roleAssignmentUpdatedUsers) + ProcessedNames(requestedUsers, old(portalUsers))
      ensures forall u | u in updatedUsers ::
        || u in ProcessedNames(requestedUsers, old(portalUsers))
        || (isReset && isLastPage && u in nonUserRoleExternalUsers && u in old(portalUsers)
            && u !in old(roleAssignmentUpdatedUsers) + ProcessedNames(requestedUsers, old(portalUsers)))
      ensures isReset && isLastPage ==>
        forall u | u in nonUserRoleExternalUsers && u in portalUsers
                   && u !in old(roleAssignmentUpdatedUsers) && u !in ProcessedNames(requestedUsers, old(portalUsers)) ::
          ROLE_USER in portalUsers[u].roles
    {
      updatedUsers := AssignPageRoles(requestedUsers, a, isReset);
      if isReset && isLastPage {
        ghost var pageRoles := portalUsers;
        var resetUsers := ResetUnseenUsers(nonUserRoleExternalUsers);
        forall u | u in nonUserRoleExternalUsers && u in portalUsers && u !in roleAssignmentUpdatedUsers
          ensures ROLE_USER in portalUsers[u].roles
        {
          ResetOutcome(pageRoles, old(userPermissions), nonUserRoleExternalUsers, roleAssignmentUpdatedUsers, validRoles, u);
        }
        updatedUsers := updatedUsers + resetUsers;
        roleAssignmentUpdatedUsers := {};
      }
    }

    /** The loop over one page of requested users; its outcome is PageRoles and PagePermissions. */
    method AssignPageRoles(requestedUsers: seq<string>, a: RoleAssignments, isReset: bool) returns (updatedUsers: seq<string>)
      modifies this`portalUsers, this`userPermissions, this`roleAssignmentUpdatedUsers
      ensures portalUsers == PageRoles(old(portalUsers), requestedUsers, userGroups, a)
      ensures userPermissions == PagePermissions(old(userPermissions), old(portalUsers), requestedUsers, userGroups, a, validRoles)
      ensures roleAssignmentUpdatedUsers ==
        if isReset then old(roleAssignmentUpdatedUsers) + ProcessedNames(requestedUsers, old(portalUsers))
        else old(roleAssignmentUpdatedUsers)
      ensures forall u | u in updatedUsers :: u in ProcessedNames(requestedUsers, old(portalUsers))
      ensures forall u | PageReassigns(old(portalUsers), requestedUsers, userGroups, a, u) :: u in updatedUsers
    {
      updatedUsers := [];
      PageStart(portalUsers, userPermissions, requestedUsers, userGroups, a, validRoles);
      for i := 0 to |requestedUsers|
        invariant portalUsers == PageRoles(old(portalUsers), requestedUsers[..i], userGroups, a)
        invariant userPermissions == PagePermissions(old(userPermissions), old(portalUsers), requestedUsers[..i], userGroups, a, validRoles)
        invariant roleAssignmentUpdatedUsers ==
          if isReset then old(roleAssignmentUpdatedUsers) + ProcessedNames(requestedUsers[..i], old(portalUsers))
          else old(roleAssignmentUpdatedUsers)
        invariant forall u | u in updatedUsers :: u in ProcessedNames(requestedUsers, old(portalUsers))
        invariant forall u | PageReassigns(old(portalUsers), requestedUsers[..i], userGroups, a, u) :: u in updatedUsers
      {
        updatedUsers := AssignPageUser(requestedUsers, i, a, isReset, old(portalUsers), old(userPermissions),
                                       old(roleAssignmentUpdatedUsers), updatedUsers);
      }
      assert requestedUsers[..|requestedUsers|] == requestedUsers;
    }

    /** The body of the page loop for the i-th requested user: the loop invariant of
        AssignPageRoles, stated against the state at the start of the page, moves from i to i + 1. */
    method AssignPageUser(requestedUsers: seq<string>, i: nat, a: RoleAssignments, isReset: bool,
                          ghost startUsers: map<string, PortalUser>, ghost startPermissions: map<string, set<Module>>,
                          ghost startRemembered: set<string>, updatedUsers: seq<string>)
      returns (newUpdatedUsers: seq<string>)
      requires i < |requestedUsers|
      requires portalUsers == PageRoles(startUsers, requestedUsers[..i], userGroups, a)
      requires userPermissions == PagePermissions(startPermissions, startUsers, requestedUsers[..i], userGroups, a, validRoles)
      requires roleAssignmentUpdatedUsers ==
        if isReset then startRemembered + ProcessedNames(requestedUsers[..i], startUsers) else startRemembered
      requires forall u | u in updatedUsers :: u in ProcessedNames(requestedUsers, startUsers)
      requires forall u | PageReassigns(startUsers, requestedUsers[..i], userGroups, a, u) :: u in updatedUsers
      modifies this`portalUsers, this`userPermissions, this`roleAssignmentUpdatedUsers
      ensures portalUsers == PageRoles(startUsers, requestedUsers[..i + 1], userGroups, a)
      ensures userPermissions == PagePermissions(startPermissions, startUsers, requestedUsers[..i + 1], userGroups, a, validRoles)
      ensures roleAssignmentUpdatedUsers ==
        if isReset then startRemembered + ProcessedNames(requestedUsers[..i + 1], startUsers) else startRemembered
      ensures forall u | u in newUpdatedUsers :: u in ProcessedNames(requestedUsers, startUsers)
      ensures forall u | PageReassigns(startUsers, requestedUsers[..i + 1], userGroups, a, u) :: u in newUpdatedUsers
    {
      newUpdatedUsers := updatedUsers;
      var userName := requestedUsers[i];
      ProcessedNamesStep(requestedUsers, i, startUsers);
      PageStep(startUsers, startPermissions, requestedUsers, i, userGroups, a, validRoles);
      PageReassignsStep(startUsers, requestedUsers, i, userGroups, a);
      if userName !in portalUsers || !portalUsers[userName].external {
        return;
      }
      var updatedUser := AssignUserRole(userName, a);
      if updatedUser.Some? {
        newUpdatedUsers := newUpdatedUsers + [updatedUser.value];
      }
      if isReset {
        roleAssignmentUpdatedUsers := roleAssignmentUpdatedUsers + {userName};
      }
    }

    /** One requested external user: the computed role replaces the user's roles, and that
        role's permissions the user's permissions, when the user does not hold it yet. A null
        role computes no new role and changes nothing, but the name is still returned, since a
        role update was requested. */
    method AssignUserRole(userName: string, a: RoleAssignments) returns (updatedUser: Option<string>)
      requires userName in portalUsers
      modifies this`portalUsers, this`userPermissions
      ensures var role := RoleOf(userGroups, userName, a);
        var p := old(portalUsers[userName]);
        if NeedsRole(p, role) then
          && portalUsers == old(portalUsers)[userName := p.(roles := [role.value])]
          && userPermissions == old(userPermissions)[userName := ModulesOf(PermissionCalls([role.value], validRoles, ForProfile))]
          && updatedUser == Some(userName)
        else
          && portalUsers == old(portalUsers) && userPermissions == old(userPermissions)
          && updatedUser == (if role.None? then Some(userName) else None)
    {
      updatedUser := None;
      var groupsOfUser := if userName in userGroups then userGroups[userName] else {};
      var userRole := ComputeUserRole(userName, groupsOfUser, a);
      RoleDiffSingle(userRole, portalUsers[userName].roles);
      if userRole.None? || userRole.value !in portalUsers[userName].roles {
        updatedUser := SetRolesByUserName(userName, [userRole]);
      }
    }

    /** The reset pass; its outcome is ResetRoles and ResetPermissions. */
    method ResetUnseenUsers(nonUserRoleExternalUsers: seq<string>) returns (updatedUsers: seq<string>)
      modifies this`portalUsers, this`userPermissions
      ensures portalUsers == ResetRoles(old(portalUsers), nonUserRoleExternalUsers, roleAssignmentUpdatedUsers)
      ensures userPermissions ==
        ResetPermissions(old(userPermissions), old(portalUsers), nonUserRoleExternalUsers, roleAssignmentUpdatedUsers, validRoles)
      ensures forall u | u in updatedUsers ::
        u in nonUserRoleExternalUsers && u in old(portalUsers) && u !in roleAssignmentUpdatedUsers
      ensures forall u | ResetReassigns(old(portalUsers), nonUserRoleExternalUsers, roleAssignmentUpdatedUsers, u) :: u in updatedUsers
    {
      updatedUsers := [];
      ResetStart(portalUsers, userPermissions, nonUserRoleExternalUsers, roleAssignmentUpdatedUsers, validRoles);
      for i := 0 to |nonUserRoleExternalUsers|
        invariant portalUsers == ResetRoles(old(portalUsers), nonUserRoleExternalUsers[..i], roleAssignmentUpdatedUsers)
        invariant userPermissions ==
          ResetPermissions(old(userPermissions), old(portalUsers), nonUserRoleExternalUsers[..i], roleAssignmentUpdatedUsers, validRoles)
        invariant forall u | u in updatedUsers ::
          u in nonUserRoleExternalUsers && u in old(portalUsers) && u !in roleAssignmentUpdatedUsers
        invariant forall u | ResetReassigns(old(portalUsers), nonUserRoleExternalUsers[..i], roleAssignmentUpdatedUsers, u) ::
          u in updatedUsers
      {
        var userName := nonUserRoleExternalUsers[i];
        ResetStep(old(portalUsers), old(userPermissions), nonUserRoleExternalUsers, i, roleAssignmentUpdatedUsers, validRoles);
        ResetReassignsStep(old(portalUsers), nonUserRoleExternalUsers, i, roleAssignmentUpdatedUsers);
        if userName !in roleAssignmentUpdatedUsers {
          if userName in portalUsers {
            RoleDiffSingle(Some(ROLE_USER), portalUsers[userName].roles);
          }
          var updatedUser := SetRolesByUserName(userName, [Some(ROLE_USER)]);
          if updatedUser.Some? {
            updatedUsers := updatedUsers + [updatedUser.value];
          }
        }
      }
      assert nonUserRoleExternalUsers[..|nonUserRoleExternalUsers|] == nonUserRoleExternalUsers;
    }

    /** Synchronises a user's group memberships with a requested id list: a mapping is created
        for each requested group the user is not mapped to, and every mapping of the user to an
        unrequested group is deleted. An absent list changes nothing; a group to be mapped that
        does not exist fails the update, which the enclosing transaction rolls back. */
    method CreateOrDelGrpUserWithUpdatedGrpId(userId: int, groupIdList: Option<seq<int>>) returns (r: Result<Option<GroupSync>, Error>)
      requires Valid()
      modifies this`groupUsers, this`nextGroupUserId
      ensures Valid()
      ensures groupIdList.None? ==> r == Success(None) && groupUsers == old(groupUsers)
      ensures groupIdList.Some? && !AllKnown(MissingGroups(groupIdList.value, MappingsOf(old(groupUsers), userId)), groups) ==>
        r.Failure? && groupUsers == old(groupUsers)
      ensures groupIdList.Some? && AllKnown(MissingGroups(groupIdList.value, MappingsOf(old(groupUsers), userId)), groups) ==>
        var existing := MappingsOf(old(groupUsers), userId);
        && groupUsers == AfterSync(old(groupUsers), userId, groupIdList.value, old(nextGroupUserId), groups)
        && r == Success(Some(GroupSync(groupIdList.value,
                                       GroupNamesAfter(existing, MissingGroups(groupIdList.value, existing), groupIdList.value, groups))))
      ensures forall other | other != userId :: MappingsOf(groupUsers, other) == MappingsOf(old(groupUsers), other)
    {
      if groupIdList.None? {
        return Success(None);
      }
      var requested := groupIdList.value;
      var existing := MappingsOf(groupUsers, userId);
      var toCreate, toRemove := PlanGroupUserDiff(existing, requested);
      if !AllKnown(toCreate, groups) {
        return Failure(DataNotFound("group"));
      }
      var groupNamesSet := ApplyGroupUserDiff(userId, requested, existing, toCreate, toRemove);
      forall other | other != userId
        ensures MappingsOf(groupUsers, other) == MappingsOf(old(groupUsers), other)
      {
        SyncKeepsOtherUsers(old(groupUsers), userId, requested, old(nextGroupUserId), groups, other);
      }
      r := Success(Some(GroupSync(requested, groupNamesSet)));
    }

    /** The successful part of a membership update: creates the missing mappings, deletes the
        unrequested ones and reports the resulting group names. */
    method ApplyGroupUserDiff(userId: int, requested: seq<int>, existing: seq<GroupUser>, toCreate: seq<int>, toRemove: seq<int>)
      returns (groupNamesSet: set<string>)
      requires Valid()
      requires existing == MappingsOf(groupUsers, userId)
      requires toCreate == MissingGroups(requested, existing) && toRemove == UnrequestedMappings(existing, requested)
      requires AllKnown(toCreate, groups)
      modifies this`groupUsers, this`nextGroupUserId
      ensures Valid()
      ensures groupUsers == AfterSync(old(groupUsers), userId, requested, old(nextGroupUserId), groups)
      ensures groupNamesSet == GroupNamesAfter(existing, toCreate, requested, groups)
    {
      groupNamesSet := NamesOf(existing);
      ghost var before := groupUsers;
      ghost var nextId := nextGroupUserId;
      var createdNames := CreateGroupUsers(userId, toCreate);
      NewMappingsValid(before, userId, toCreate, nextId, groups);
      groupNamesSet := groupNamesSet + createdNames;
      groupNamesSet := groupNamesSet - UnrequestedNames(existing, requested);
      WithoutIdsValid(groupUsers, toRemove, nextGroupUserId);
      groupUsers := WithoutIds(groupUsers, toRemove);
    }

    /** The create loop: one new mapping per id, numbered from the next free id; the names of
        the created mappings are returned. */
    method CreateGroupUsers(userId: int, toCreate: seq<int>) returns (names: set<string>)
      requires forall i | 0 <= i < |toCreate| :: toCreate[i] in groups
      modifies this`groupUsers, this`nextGroupUserId
      ensures groupUsers == old(groupUsers) + NewMappings(userId, toCreate, old(nextGroupUserId), groups)
      ensures nextGroupUserId == old(nextGroupUserId) + |toCreate|
      ensures names == CreatedNames(toCreate, groups)
    {
      names := {};
      for i := 0 to |toCreate|
        invariant groupUsers == old(groupUsers) + NewMappings(userId, toCreate[..i], old(nextGroupUserId), groups)
        invariant nextGroupUserId == old(nextGroupUserId) + i
        invariant names == set k | 0 <= k < i :: groups[toCreate[k]]
      {
        var groupId := toCreate[i];
        groupUsers := groupUsers + [GroupUser(nextGroupUserId, userId, groupId, groups[groupId])];
        nextGroupUserId := nextGroupUserId + 1;
        names := names + {groups[groupId]};
        assert NewMappings(userId, toCreate[..i + 1], old(nextGroupUserId), groups)
            == NewMappings(userId, toCreate[..i], old(nextGroupUserId), groups) + [GroupUser(old(nextGroupUserId) + i, userId, groupId, groups[groupId])];
      }
      assert toCreate[..|toCreate|] == toCreate;
    }
  }

  /** The group names a membership update reports: the user's current ones and the created
      ones, less the names of the deleted mappings. */
  function GroupNamesAfter(existing: seq<GroupUser>, toCreate: seq<int>, requested: seq<int>, groups: map<int, string>): set<string>
    requires forall i | 0 <= i < |toCreate| :: toCreate[i] in groups
  {
    (NamesOf(existing) + CreatedNames(toCreate, groups)) - UnrequestedNames(existing, requested)
  }

  function NamesOf(mappings: seq<GroupUser>): set<string> {
    set m | m in mappings :: m.name
  }

  function UnrequestedNames(mappings: seq<GroupUser>, requested: seq<int>): set<string> {
    set m | m in mappings && m.parentGroupId !in requested :: m.name
  }

  function CreatedNames(toCreate: seq<int>, groups: map<int, string>): set<string>
    requires forall i | 0 <= i < |toCreate| :: toCreate[i] in groups
  {
    set i | 0 <= i < |toCreate| :: groups[toCreate[i]]
  }

  /** Mapping ids are distinct and below `nextId`. */
  predicate ValidMappings(mappings: seq<GroupUser>, nextId: int) {
    && (forall i | 0 <= i < |mappings| :: mappings[i].id < nextId)
    && (forall i, j | 0 <= i < j < |mappings| :: mappings[i].id != mappings[j].id)
  }

  lemma NewMappingsValid(mappings: seq<GroupUser>, userId: int, groupIds: seq<int>, nextId: int, groups: map<int, string>)
    requires ValidMappings(mappings, nextId)
    requires forall i | 0 <= i < |groupIds| :: groupIds[i] in groups
    ensures ValidMappings(mappings + NewMappings(userId, groupIds, nextId, groups), nextId + |groupIds|)
  {
    var all := mappings + NewMappings(userId, groupIds, nextId, groups);
    forall i, j | 0 <= i < j < |all| ensures all[i].id != all[j].id {
      if j >= |mappings| && i < |mappings| {
        assert all[i] == mappings[i];
      }
    }
  }

  /** With distinct ids, a mapping is identified by its id. */
  lemma SameIdSameMapping(mappings: seq<GroupUser>, nextId: int, a: GroupUser, b: GroupUser)
    requires ValidMappings(mappings, nextId)
    requires a in mappings && b in mappings && a.id == b.id
    ensures a == b
  {
    var i :| 0 <= i < |mappings| && mappings[i] == a;
    var j :| 0 <= j < |mappings| && mappings[j] == b;
    assert i == j;
  }

  /** Every group id to be mapped names an existing group. */
  predicate AllKnown(groupIds: seq<int>, groups: map<int, string>) {
    forall i | 0 <= i < |groupIds| :: groupIds[i] in groups
  }

  /** The mapping rows after a membership update of one user. */
  function AfterSync(mappings: seq<GroupUser>, userId: int, requested: seq<int>, nextId: int, groups: map<int, string>)
    : seq<GroupUser>
    requires AllKnown(MissingGroups(requested, MappingsOf(mappings, userId)), groups)
  {
    var existing := MappingsOf(mappings, userId);
    WithoutIds(mappings + NewMappings(userId, MissingGroups(requested, existing), nextId, groups),
               UnrequestedMappings(existing, requested))
  }

  /** A membership update of one user leaves every other user's mappings as they were, in
      their order: the deleted ids are the user's own, and the created rows are the user's. */
  lemma SyncKeepsOtherUsers(mappings: seq<GroupUser>, userId: int, requested: seq<int>, nextId: int,
                            groups: map<int, string>, other: int)
    requires ValidMappings(mappings, nextId)
    requires AllKnown(MissingGroups(requested, MappingsOf(mappings, userId)), groups)
    requires other != userId
    ensures MappingsOf(AfterSync(mappings, userId, requested, nextId, groups), other) == MappingsOf(mappings, other)
  {
    var existing := MappingsOf(mappings, userId);
    var created := NewMappings(userId, MissingGroups(requested, existing), nextId, groups);
    var ids := UnrequestedMappings(existing, requested);
    forall m | m in mappings + created && m.userId == other ensures m.id !in ids {
      if m.id in ids {
        var i :| 0 <= i < |existing| && existing[i].id == m.id && existing[i].parentGroupId !in requested;
        assert existing[i] in mappings;
        SameIdSameMapping(mappings, nextId, m, existing[i]);
      }
    }
    MappingsOfWithoutIds(mappings + created, ids, other);
    MappingsOfAppend(mappings, created, other);
    MappingsOfNone(created, other);
  }

  lemma {:induction false} MappingsOfAppend(a: seq<GroupUser>, b: seq<GroupUser>, userId: int)
    ensures MappingsOf(a + b, userId) == MappingsOf(a, userId) + MappingsOf(b, userId)
    decreases |b|
  {
    if b == [] {
      assert a + b == a;
    } else {
      var ab, init, x := a + b, b[..|b| - 1], b[|b| - 1];
      var t := if x.userId == userId then [x] else [];
      assert ab[..|ab| - 1] == a + init && ab[|ab| - 1] == x;
      MappingsOfAppend(a, init, userId);
      assert MappingsOf(ab, userId) == MappingsOf(a + init, userId) + t;
      assert MappingsOf(b, userId) == MappingsOf(init, userId) + t;
    }
  }

  lemma {:induction false} MappingsOfNone(mappings: seq<GroupUser>, userId: int)
    requires forall m | m in mappings :: m.userId != userId
    ensures MappingsOf(mappings, userId) == []
  {
    if mappings != [] {
      assert mappings[|mappings| - 1] in mappings;
      MappingsOfNone(mappings[..|mappings| - 1], userId);
    }
  }

  /** Removing ids none of a user's rows carries keeps that user's rows. */
  lemma {:induction false} MappingsOfWithoutIds(mappings: seq<GroupUser>, ids: seq<int>, userId: int)
    requires forall m | m in mappings && m.userId == userId :: m.id !in ids
    ensures MappingsOf(WithoutIds(mappings, ids), userId) == MappingsOf(mappings, userId)
  {
    if mappings != [] {
      var init := mappings[..|mappings| - 1];
      var last := mappings[|mappings| - 1];
      assert mappings == init + [last];
      MappingsOfWithoutIds(init, ids, userId);
      var tail := if last.id !in ids then [last] else [];
      MappingsOfAppend(WithoutIds(init, ids), tail, userId);
      assert MappingsOf(tail, userId) == (if last.userId == userId then [last] else []) by {
        if tail != [] {
          assert tail == [] + [last];
        } else {
          assert MappingsOf(tail, userId) == [];
        }
      }
    }
  }

  /** After a successful membership update the user is mapped to exactly the requested groups. */
  lemma SyncReachesRequest(mappings: seq<GroupUser>, userId: int, requested: seq<int>, nextId: int, groups: map<int, string>)
    requires ValidMappings(mappings, nextId)
    requires AllKnown(MissingGroups(requested, MappingsOf(mappings, userId)), groups)
    ensures ParentIds(MappingsOf(AfterSync(mappings, userId, requested, nextId, groups), userId)) == set g | g in requested
  {
    SyncMapsOnlyRequested(mappings, userId, requested, nextId, groups);
    SyncMapsAllRequested(mappings, userId, requested, nextId, groups);
    SameElements(ParentIds(MappingsOf(AfterSync(mappings, userId, requested, nextId, groups), userId)), requested);
  }

  lemma SameElements(p: set<int>, q: seq<int>)
    requires forall g | g in p :: g in q
    requires forall g | g in q :: g in p
    ensures p == set g | g in q
  {
    var s := set g | g in q;
    forall g | g in p ensures g in s {
      assert g in q;
    }
    forall g | g in s ensures g in p {
      assert g in q;
    }
  }

  lemma SyncMapsOnlyRequested(mappings: seq<GroupUser>, userId: int, requested: seq<int>, nextId: int, groups: map<int, string>)
    requires AllKnown(MissingGroups(requested, MappingsOf(mappings, userId)), groups)
    ensures forall g | g in ParentIds(MappingsOf(AfterSync(mappings, userId, requested, nextId, groups), userId)) :: g in requested
  {
    var mine := MappingsOf(AfterSync(mappings, userId, requested, nextId, groups), userId);
    forall g | g in ParentIds(mine) ensures g in requested {
      var k :| 0 <= k < |mine| && mine[k].parentGroupId == g;
      assert mine[k] in mine;
      SyncKeepsOnlyRequested(mappings, userId, requested, nextId, groups, mine[k]);
    }
  }

  lemma SyncMapsAllRequested(mappings: seq<GroupUser>, userId: int, requested: seq<int>, nextId: int, groups: map<int, string>)
    requires ValidMappings(mappings, nextId)
    requires AllKnown(MissingGroups(requested, MappingsOf(mappings, userId)), groups)
    ensures forall g | g in requested :: g in ParentIds(MappingsOf(AfterSync(mappings, userId, requested, nextId, groups), userId))
  {
    var mine := MappingsOf(AfterSync(mappings, userId, requested, nextId, groups), userId);
    forall g | g in requested ensures g in ParentIds(mine) {
      var m := SyncCoversRequest(mappings, userId, requested, nextId, groups, g);
      assert m in mine;
      var k :| 0 <= k < |mine| && mine[k] == m;
    }
  }

  lemma SyncKeepsOnlyRequested(mappings: seq<GroupUser>, userId: int, requested: seq<int>, nextId: int,
                               groups: map<int, string>, m: GroupUser)
    requires AllKnown(MissingGroups(requested, MappingsOf(mappings, userId)), groups)
    requires m in AfterSync(mappings, userId, requested, nextId, groups) && m.userId == userId
    ensures m.parentGroupId in requested
  {
    var existing := MappingsOf(mappings, userId);
    var toCreate := MissingGroups(requested, existing);
    var created := NewMappings(userId, toCreate, nextId, groups);
    assert m in mappings + created;
    assert m.id !in UnrequestedMappings(existing, requested);
    if m in created {
      var j :| 0 <= j < |created| && created[j] == m;
      assert toCreate[j] in toCreate;
    } else {
      assert m in existing;
      var j :| 0 <= j < |existing| && existing[j] == m;
    }
  }

  lemma SyncCoversRequest(mappings: seq<GroupUser>, userId: int, requested: seq<int>, nextId: int,
                          groups: map<int, string>, g: int) returns (m: GroupUser)
    requires ValidMappings(mappings, nextId)
    requires AllKnown(MissingGroups(requested, MappingsOf(mappings, userId)), groups)
    requires g in requested
    ensures m in AfterSync(mappings, userId, requested, nextId, groups) && m.userId == userId && m.parentGroupId == g
  {
    var existing := MappingsOf(mappings, userId);
    if g in ParentIds(existing) {
      var j :| 0 <= j < |existing| && existing[j].parentGroupId == g;
      m := existing[j];
      SyncKeepsRequested(mappings, userId, requested, nextId, groups, j);
    } else {
      var toCreate := MissingGroups(requested, existing);
      assert g in toCreate;
      var j :| 0 <= j < |toCreate| && toCreate[j] == g;
      m := SyncCreatesMissing(mappings, userId, requested, nextId, groups, j);
    }
  }

  lemma SyncKeepsRequested(mappings: seq<GroupUser>, userId: int, requested: seq<int>, nextId: int,
                           groups: map<int, string>, j: nat)
    requires ValidMappings(mappings, nextId)
    requires AllKnown(MissingGroups(requested, MappingsOf(mappings, userId)), groups)
    requires j < |MappingsOf(mappings, userId)| && MappingsOf(mappings, userId)[j].parentGroupId in requested
    ensures MappingsOf(mappings, userId)[j] in AfterSync(mappings, userId, requested, nextId, groups)
    ensures MappingsOf(mappings, userId)[j].userId == userId
  {
    var existing := MappingsOf(mappings, userId);
    var m := existing[j];
    assert m in existing;
    forall q | 0 <= q < |existing| && existing[q].id == m.id ensures existing[q].parentGroupId in requested {
      assert existing[q] in existing;
      SameIdSameMapping(mappings, nextId, existing[q], m);
    }
    var created := NewMappings(userId, MissingGroups(requested, existing), nextId, groups);
    assert m in mappings + created;
    assert m.id !in UnrequestedMappings(existing, requested);
  }

  lemma SyncCreatesMissing(mappings: seq<GroupUser>, userId: int, requested: seq<int>, nextId: int,
                           groups: map<int, string>, j: nat) returns (m: GroupUser)
    requires ValidMappings(mappings, nextId)
    requires AllKnown(MissingGroups(requested, MappingsOf(mappings, userId)), groups)
    requires j < |MissingGroups(requested, MappingsOf(mappings, userId))|
    ensures m in AfterSync(mappings, userId, requested, nextId, groups) && m.userId == userId
    ensures m.parentGroupId == MissingGroups(requested, MappingsOf(mappings, userId))[j]
  {
    var existing := MappingsOf(mappings, userId);
    var created := NewMappings(userId, MissingGroups(requested, existing), nextId, groups);
    m := created[j];
    forall q | 0 <= q < |existing| ensures existing[q].id != m.id {
      assert existing[q] in existing;
      var p :| 0 <= p < |mappings| && mappings[p] == existing[q];
    }
    assert (mappings + created)[|mappings| + j] == m;
    assert m.id !in UnrequestedMappings(existing, requested);
  }

  lemma {:induction false} WithoutIdsValid(mappings: seq<GroupUser>, ids: seq<int>, nextId: int)
    requires ValidMappings(mappings, nextId)
    ensures ValidMappings(WithoutIds(mappings, ids), nextId)
  {
    if mappings != [] {
      var init := mappings[..|mappings| - 1];
      var last := mappings[|mappings| - 1];
      assert mappings == init + [last];
      assert forall i | 0 <= i < |init| :: init[i] == mappings[i];
      WithoutIdsValid(init, ids, nextId);
      var kept := WithoutIds(init, ids);
      assert WithoutIds(mappings, ids) == kept + (if last.id !in ids then [last] else []);
      if last.id !in ids {
        forall m | m in kept ensures m.id != last.id {
          var k :| 0 <= k < |init| && init[k] == m;
        }
        AppendValid(kept, last, nextId);
      }
    }
  }

  lemma AppendValid(kept: seq<GroupUser>, last: GroupUser, nextId: int)
    requires ValidMappings(kept, nextId) && last.id < nextId
    requires forall m | m in kept :: m.id != last.id
    ensures ValidMappings(kept + [last], nextId)
  {
    var r := kept + [last];
    forall i, j | 0 <= i < j < |r| ensures r[i].id != r[j].id {
      if j == |kept| {
        assert r[i] in kept;
      } else {
        assert r[i] == kept[i] && r[j] == kept[j];
      }
    }
  }


  /** The requested users the role loop processes: existing external users. */
  function ProcessedNames(requestedUsers: seq<string>, portalUsers: map<string, PortalUser>): set<string> {
    set u | u in requestedUsers && u in portalUsers && portalUsers[u].external
  }

  lemma ProcessedNamesStep(requestedUsers: seq<string>, i: nat, portalUsers: map<string, PortalUser>)
    requires i < |requestedUsers|
    ensures var u := requestedUsers[i];
      ProcessedNames(requestedUsers[..i + 1], portalUsers)
      == ProcessedNames(requestedUsers[..i], portalUsers) + (if u in portalUsers && portalUsers[u].external then {u} else {})
  {
    assert requestedUsers[..i + 1] == requestedUsers[..i] + [requestedUsers[i]];
  }

  // ---------------------------------------------------------------- role updates of a page and of the reset

  /** A one-element role request adds its role exactly when it is not null and not held. */
  lemma RoleDiffSingle(role: Option<string>, oldRoles: seq<string>)
    ensures RoleDiff([role], oldRoles) == if role.Some? && role.value !in oldRoles then [role.value] else []
  {
    assert [role][..0] == [];
  }

  /** A single role writes exactly that role's permissions. */
  lemma SingleRoleCalls(role: string, validRoles: set<string>, path: AssignmentPath)
    ensures PermissionCalls([role], validRoles, path) == RoleModules(role, validRoles, path)
  {
    assert [role][..0] == [];
  }

  /** The role the rules compute for a user of the store, from the groups the store records for it. */
  function RoleOf(userGroups: map<string, set<string>>, userName: string, a: RoleAssignments): Option<string> {
    UserRoleFor(userName, if userName in userGroups then userGroups[userName] else {}, a)
  }

  /** A computed role is applied to a profile only when it is not null and not held yet. */
  predicate NeedsRole(p: PortalUser, role: Option<string>) {
    role.Some? && role.value !in p.roles
  }

  /** A user that one page of role rules reassigns: requested, existing, external, and not
      holding the role computed for it. */
  predicate PageReassigns(portalUsers: map<string, PortalUser>, requestedUsers: seq<string>,
                          userGroups: map<string, set<string>>, a: RoleAssignments, u: string) {
    u in requestedUsers && u in portalUsers && portalUsers[u].external && NeedsRole(portalUsers[u], RoleOf(userGroups, u, a))
  }

  function PageReassigned(portalUsers: map<string, PortalUser>, requestedUsers: seq<string>,
                          userGroups: map<string, set<string>>, a: RoleAssignments): set<string> {
    set u | u in requestedUsers && PageReassigns(portalUsers, requestedUsers, userGroups, a, u)
  }

  /** The profiles after one page, defined user by user rather than in the loop's order: a
      reassigned user holds its computed role alone, every other profile is kept. */
  function PageRoles(portalUsers: map<string, PortalUser>, requestedUsers: seq<string>,
                     userGroups: map<string, set<string>>, a: RoleAssignments): map<string, PortalUser> {
    map u | u in portalUsers ::
      if PageReassigns(portalUsers, requestedUsers, userGroups, a, u) then portalUsers[u].(roles := [RoleOf(userGroups, u, a).value])
      else portalUsers[u]
  }

  /** The permissions after one page: a reassigned user holds its new role's permissions only. */
  function PagePermissions(userPermissions: map<string, set<Module>>, portalUsers: map<string, PortalUser>,
                           requestedUsers: seq<string>, userGroups: map<string, set<string>>, a: RoleAssignments,
                           validRoles: set<string>): map<string, set<Module>> {
    map u | u in userPermissions.Keys + PageReassigned(portalUsers, requestedUsers, userGroups, a) ::
      if PageReassigns(portalUsers, requestedUsers, userGroups, a, u)
      then ModulesOf(PermissionCalls([RoleOf(userGroups, u, a).value], validRoles, ForProfile))
      else userPermissions[u]
  }

  /** After one page, every requested existing external user holds its computed role (when it
      is not null): a user that did not hold it holds that role alone, with that role's
      permissions in place of its own. Every other user, every requested user that is missing
      or internal, and every user whose role is null or already held keeps its profile and its
      permissions. No user is added and no user's source changes. */
  lemma PageOutcome(portalUsers: map<string, PortalUser>, userPermissions: map<string, set<Module>>,
                    requestedUsers: seq<string>, userGroups: map<string, set<string>>, a: RoleAssignments,
                    validRoles: set<string>, u: string)
    ensures var after := PageRoles(portalUsers, requestedUsers, userGroups, a);
      var perms := PagePermissions(userPermissions, portalUsers, requestedUsers, userGroups, a, validRoles);
      var role := RoleOf(userGroups, u, a);
      && after.Keys == portalUsers.Keys
      && (u in portalUsers ==> after[u].external == portalUsers[u].external)
      && (u in requestedUsers && u in portalUsers && portalUsers[u].external && role.Some? ==> role.value in after[u].roles)
      && (PageReassigns(portalUsers, requestedUsers, userGroups, a, u) ==>
            && after[u].roles == [role.value]
            && u in perms && perms[u] == ModulesOf(RoleModules(role.value, validRoles, ForProfile)))
      && (!PageReassigns(portalUsers, requestedUsers, userGroups, a, u) ==>
            && (u in portalUsers ==> after[u] == portalUsers[u])
            && (u in perms <==> u in userPermissions)
            && (u in userPermissions ==> perms[u] == userPermissions[u]))
  {
    if PageReassigns(portalUsers, requestedUsers, userGroups, a, u) {
      SingleRoleCalls(RoleOf(userGroups, u, a).value, validRoles, ForProfile);
    }
  }

  lemma PageStart(portalUsers: map<string, PortalUser>, userPermissions: map<string, set<Module>>,
                  requestedUsers: seq<string>, userGroups: map<string, set<string>>, a: RoleAssignments,
                  validRoles: set<string>)
    ensures PageRoles(portalUsers, requestedUsers[..0], userGroups, a) == portalUsers
    ensures PagePermissions(userPermissions, portalUsers, requestedUsers[..0], userGroups, a, validRoles) == userPermissions
  {
    assert requestedUsers[..0] == [];
    assert PageReassigned(portalUsers, [], userGroups, a) == {};
  }

  /** Taking one more requested user reassigns at most that user. */
  lemma PageReassignsStep(portalUsers: map<string, PortalUser>, requestedUsers: seq<string>, i: nat,
                          userGroups: map<string, set<string>>, a: RoleAssignments)
    requires i < |requestedUsers|
    ensures forall u ::
      (PageReassigns(portalUsers, requestedUsers[..i + 1], userGroups, a, u)
       <==> PageReassigns(portalUsers, requestedUsers[..i], userGroups, a, u)
            || (u == requestedUsers[i] && PageReassigns(portalUsers, requestedUsers, userGroups, a, u)))
  {
    assert requestedUsers[..i + 1] == requestedUsers[..i] + [requestedUsers[i]];
  }

  /** One step of the page loop: the next requested user is reassigned exactly when it is
      existing, external, and does not hold its computed role in the profiles so far. */
  lemma PageStep(portalUsers: map<string, PortalUser>, userPermissions: map<string, set<Module>>,
                 requestedUsers: seq<string>, i: nat, userGroups: map<string, set<string>>, a: RoleAssignments,
                 validRoles: set<string>)
    requires i < |requestedUsers|
    ensures var u := requestedUsers[i];
      var role := RoleOf(userGroups, u, a);
      var cur := PageRoles(portalUsers, requestedUsers[..i], userGroups, a);
      var curPerms := PagePermissions(userPermissions, portalUsers, requestedUsers[..i], userGroups, a, validRoles);
      var next := PageRoles(portalUsers, requestedUsers[..i + 1], userGroups, a);
      var nextPerms := PagePermissions(userPermissions, portalUsers, requestedUsers[..i + 1], userGroups, a, validRoles);
      && (u in cur <==> u in portalUsers)
      && (u in portalUsers ==> cur[u].external == portalUsers[u].external)
      && if u in portalUsers && portalUsers[u].external && NeedsRole(cur[u], role) then
           && next == cur[u := cur[u].(roles := [role.value])]
           && nextPerms == curPerms[u := ModulesOf(PermissionCalls([role.value], validRoles, ForProfile))]
         else next == cur && nextPerms == curPerms
  {
    var u := requestedUsers[i];
    var pre, post := requestedUsers[..i], requestedUsers[..i + 1];
    PageReassignsStep(portalUsers, requestedUsers, i, userGroups, a);
    var isNew := PageReassigns(portalUsers, post, userGroups, a, u) && !PageReassigns(portalUsers, pre, userGroups, a, u);
    PageNewUser(portalUsers, requestedUsers, i, userGroups, a);
    PageRolesStep(portalUsers, pre, post, u, userGroups, a, isNew);
    PagePermissionsStep(userPermissions, portalUsers, pre, post, u, userGroups, a, validRoles, isNew);
  }

  /** The next user is newly reassigned exactly when it needs its role in the profiles so far. */
  lemma PageNewUser(portalUsers: map<string, PortalUser>, requestedUsers: seq<string>, i: nat,
                    userGroups: map<string, set<string>>, a: RoleAssignments)
    requires i < |requestedUsers|
    ensures var u := requestedUsers[i];
      var pre, post := requestedUsers[..i], requestedUsers[..i + 1];
      var cur := PageRoles(portalUsers, pre, userGroups, a);
      (PageReassigns(portalUsers, post, userGroups, a, u) && !PageReassigns(portalUsers, pre, userGroups, a, u))
      <==> u in portalUsers && portalUsers[u].external && NeedsRole(cur[u], RoleOf(userGroups, u, a))
  {
    var u := requestedUsers[i];
    var pre, post := requestedUsers[..i], requestedUsers[..i + 1];
    assert post == pre + [u];
    var cur := PageRoles(portalUsers, pre, userGroups, a);
    if u in portalUsers && PageReassigns(portalUsers, pre, userGroups, a, u) {
      assert cur[u].roles == [RoleOf(userGroups, u, a).value];
    }
  }

  lemma PageRolesStep(portalUsers: map<string, PortalUser>, pre: seq<string>, post: seq<string>, u: string,
                      userGroups: map<string, set<string>>, a: RoleAssignments, isNew: bool)
    requires forall v | v != u :: PageReassigns(portalUsers, post, userGroups, a, v) == PageReassigns(portalUsers, pre, userGroups, a, v)
    requires PageReassigns(portalUsers, pre, userGroups, a, u) ==> PageReassigns(portalUsers, post, userGroups, a, u)
    requires isNew == (PageReassigns(portalUsers, post, userGroups, a, u) && !PageReassigns(portalUsers, pre, userGroups, a, u))
    ensures var cur := PageRoles(portalUsers, pre, userGroups, a);
      var next := PageRoles(portalUsers, post, userGroups, a);
      if isNew then u in cur && next == cur[u := cur[u].(roles := [RoleOf(userGroups, u, a).value])] else next == cur
  {
  }

  lemma PagePermissionsStep(userPermissions: map<string, set<Module>>, portalUsers: map<string, PortalUser>,
                            pre: seq<string>, post: seq<string>, u: string,
                            userGroups: map<string, set<string>>, a: RoleAssignments, validRoles: set<string>, isNew: bool)
    requires forall v | v != u :: PageReassigns(portalUsers, post, userGroups, a, v) == PageReassigns(portalUsers, pre, userGroups, a, v)
    requires PageReassigns(portalUsers, pre, userGroups, a, u) ==> PageReassigns(portalUsers, post, userGroups, a, u)
    requires isNew == (PageReassigns(portalUsers, post, userGroups, a, u) && !PageReassigns(portalUsers, pre, userGroups, a, u))
    ensures var curPerms := PagePermissions(userPermissions, portalUsers, pre, userGroups, a, validRoles);
      var nextPerms := PagePermissions(userPermissions, portalUsers, post, userGroups, a, validRoles);
      if isNew then nextPerms == curPerms[u := ModulesOf(PermissionCalls([RoleOf(userGroups, u, a).value], validRoles, ForProfile))]
      else nextPerms == curPerms
  {
    PageReassignedStep(portalUsers, pre, post, u, userGroups, a, isNew);
    if isNew {
      PagePermissionsGrow(userPermissions, portalUsers, pre, post, u, userGroups, a, validRoles);
    } else {
      PagePermissionsKeep(userPermissions, portalUsers, pre, post, u, userGroups, a, validRoles);
    }
  }

  lemma PagePermissionsGrow(userPermissions: map<string, set<Module>>, portalUsers: map<string, PortalUser>,
                            pre: seq<string>, post: seq<string>, u: string,
                            userGroups: map<string, set<string>>, a: RoleAssignments, validRoles: set<string>)
    requires forall v | v != u :: PageReassigns(portalUsers, post, userGroups, a, v) == PageReassigns(portalUsers, pre, userGroups, a, v)
    requires PageReassigns(portalUsers, post, userGroups, a, u) && !PageReassigns(portalUsers, pre, userGroups, a, u)
    requires PageReassigned(portalUsers, post, userGroups, a) == PageReassigned(portalUsers, pre, userGroups, a) + {u}
    ensures PagePermissions(userPermissions, portalUsers, post, userGroups, a, validRoles)
         == PagePermissions(userPermissions, portalUsers, pre, userGroups, a, validRoles)
              [u := ModulesOf(PermissionCalls([RoleOf(userGroups, u, a).value], validRoles, ForProfile))]
  {
    var nextPerms := PagePermissions(userPermissions, portalUsers, post, userGroups, a, validRoles);
    var curPerms := PagePermissions(userPermissions, portalUsers, pre, userGroups, a, validRoles);
    var granted := ModulesOf(PermissionCalls([RoleOf(userGroups, u, a).value], validRoles, ForProfile));
    PagePermissionsKeys(userPermissions, portalUsers, pre, post, u, userGroups, a, validRoles);
    forall v | v in nextPerms ensures nextPerms[v] == curPerms[u := granted][v] {
      if v != u {
        PagePermissionsOther(userPermissions, portalUsers, pre, post, v, userGroups, a, validRoles);
      }
    }
  }

  lemma PagePermissionsKeys(userPermissions: map<string, set<Module>>, portalUsers: map<string, PortalUser>,
                            pre: seq<string>, post: seq<string>, u: string,
                            userGroups: map<string, set<string>>, a: RoleAssignments, validRoles: set<string>)
    requires PageReassigns(portalUsers, post, userGroups, a, u)
    requires PageReassigned(portalUsers, post, userGroups, a) == PageReassigned(portalUsers, pre, userGroups, a) + {u}
    ensures PagePermissions(userPermissions, portalUsers, post, userGroups, a, validRoles).Keys
         == PagePermissions(userPermissions, portalUsers, pre, userGroups, a, validRoles).Keys + {u}
  {
  }

  /** A user whose reassignment does not change between two request lists keeps its permissions. */
  lemma PagePermissionsOther(userPermissions: map<string, set<Module>>, portalUsers: map<string, PortalUser>,
                             pre: seq<string>, post: seq<string>, v: string,
                             userGroups: map<string, set<string>>, a: RoleAssignments, validRoles: set<string>)
    requires PageReassigns(portalUsers, post, userGroups, a, v) == PageReassigns(portalUsers, pre, userGroups, a, v)
    requires v in PagePermissions(userPermissions, portalUsers, post, userGroups, a, validRoles)
    requires v in PagePermissions(userPermissions, portalUsers, pre, userGroups, a, validRoles)
    ensures PagePermissions(userPermissions, portalUsers, post, userGroups, a, validRoles)[v]
         == PagePermissions(userPermissions, portalUsers, pre, userGroups, a, validRoles)[v]
  {
  }

  lemma PagePermissionsKeep(userPermissions: map<string, set<Module>>, portalUsers: map<string, PortalUser>,
                            pre: seq<string>, post: seq<string>, u: string,
                            userGroups: map<string, set<string>>, a: RoleAssignments, validRoles: set<string>)
    requires forall v :: PageReassigns(portalUsers, post, userGroups, a, v) == PageReassigns(portalUsers, pre, userGroups, a, v)
    requires PageReassigned(portalUsers, post, userGroups, a) == PageReassigned(portalUsers, pre, userGroups, a)
    ensures PagePermissions(userPermissions, portalUsers, post, userGroups, a, validRoles)
         == PagePermissions(userPermissions, portalUsers, pre, userGroups, a, validRoles)
  {
  }

  lemma PageReassignedStep(portalUsers: map<string, PortalUser>, pre: seq<string>, post: seq<string>, u: string,
                           userGroups: map<string, set<string>>, a: RoleAssignments, isNew: bool)
    requires forall v | v != u :: PageReassigns(portalUsers, post, userGroups, a, v) == PageReassigns(portalUsers, pre, userGroups, a, v)
    requires PageReassigns(portalUsers, pre, userGroups, a, u) ==> PageReassigns(portalUsers, post, userGroups, a, u)
    requires isNew == (PageReassigns(portalUsers, post, userGroups, a, u) && !PageReassigns(portalUsers, pre, userGroups, a, u))
    ensures PageReassigned(portalUsers, post, userGroups, a)
         == PageReassigned(portalUsers, pre, userGroups, a) + (if isNew then {u} else {})
  {
  }

  /** A user the reset pass sets back to ROLE_USER: listed, not remembered, existing, and not
      holding ROLE_USER. */
  predicate ResetReassigns(portalUsers: map<string, PortalUser>, listed: seq<string>, remembered: set<string>, u: string) {
    u in listed && u !in remembered && u in portalUsers && NeedsRole(portalUsers[u], Some(ROLE_USER))
  }

  function ResetReassigned(portalUsers: map<string, PortalUser>, listed: seq<string>, remembered: set<string>): set<string> {
    set u | u in listed && ResetReassigns(portalUsers, listed, remembered, u)
  }

  /** The profiles after the reset pass: a reset user holds ROLE_USER alone. */
  function ResetRoles(portalUsers: map<string, PortalUser>, listed: seq<string>, remembered: set<string>): map<string, PortalUser> {
    map u | u in portalUsers ::
      if ResetReassigns(portalUsers, listed, remembered, u) then portalUsers[u].(roles := [ROLE_USER]) else portalUsers[u]
  }

  /** The permissions after the reset pass: a reset user holds ROLE_USER's permissions only. */
  function ResetPermissions(userPermissions: map<string, set<Module>>, portalUsers: map<string, PortalUser>,
                            listed: seq<string>, remembered: set<string>, validRoles: set<string>): map<string, set<Module>> {
    map u | u in userPermissions.Keys + ResetReassigned(portalUsers, listed, remembered) ::
      if ResetReassigns(portalUsers, listed, remembered, u) then ModulesOf(PermissionCalls([ROLE_USER], validRoles, ForProfile))
      else userPermissions[u]
  }

  /** After the reset pass every listed existing user that was not remembered holds ROLE_USER;
      one that did not hold it holds it alone, with ROLE_USER's permissions (resource-based
      policies, reports and security zones) in place of its own. Remembered users, users not
      listed, and users already holding ROLE_USER keep their profile and their permissions. */
  lemma ResetOutcome(portalUsers: map<string, PortalUser>, userPermissions: map<string, set<Module>>,
                     listed: seq<string>, remembered: set<string>, validRoles: set<string>, u: string)
    ensures var after := ResetRoles(portalUsers, listed, remembered);
      var perms := ResetPermissions(userPermissions, portalUsers, listed, remembered, validRoles);
      && after.Keys == portalUsers.Keys
      && (u in portalUsers ==> after[u].external == portalUsers[u].external)
      && (u in listed && u !in remembered && u in portalUsers ==> ROLE_USER in after[u].roles)
      && (ResetReassigns(portalUsers, listed, remembered, u) ==>
            && after[u].roles == [ROLE_USER] && u in perms
            && (ROLE_USER in validRoles ==> perms[u] == {ResourceBasedPolicies, Reports, SecurityZone}))
      && (!ResetReassigns(portalUsers, listed, remembered, u) ==>
            && (u in portalUsers ==> after[u] == portalUsers[u])
            && (u in perms <==> u in userPermissions)
            && (u in userPermissions ==> perms[u] == userPermissions[u]))
  {
    if ResetReassigns(portalUsers, listed, remembered, u) && ROLE_USER in validRoles {
      SingleRoleCalls(ROLE_USER, validRoles, ForProfile);
      UserRoleModules(validRoles, ForProfile);
      var calls := RoleModules(ROLE_USER, validRoles, ForProfile);
      assert ModulesOf(calls) == {ResourceBasedPolicies, Reports, SecurityZone} by {
        assert calls[0] == ResourceBasedPolicies && calls[1] == Reports && calls[2] == SecurityZone;
      }
    }
  }

  lemma ResetStart(portalUsers: map<string, PortalUser>, userPermissions: map<string, set<Module>>,
                   listed: seq<string>, remembered: set<string>, validRoles: set<string>)
    ensures ResetRoles(portalUsers, listed[..0], remembered) == portalUsers
    ensures ResetPermissions(userPermissions, portalUsers, listed[..0], remembered, validRoles) == userPermissions
  {
    assert listed[..0] == [];
    assert ResetReassigned(portalUsers, [], remembered) == {};
  }

  lemma ResetReassignsStep(portalUsers: map<string, PortalUser>, listed: seq<string>, i: nat, remembered: set<string>)
    requires i < |listed|
    ensures forall u ::
      (ResetReassigns(portalUsers, listed[..i + 1], remembered, u)
       <==> ResetReassigns(portalUsers, listed[..i], remembered, u)
            || (u == listed[i] && ResetReassigns(portalUsers, listed, remembered, u)))
  {
    assert listed[..i + 1] == listed[..i] + [listed[i]];
  }

  /** One step of the reset loop: the next listed user is reset exactly when it is not
      remembered, exists, and does not hold ROLE_USER in the profiles so far. */
  lemma ResetStep(portalUsers: map<string, PortalUser>, userPermissions: map<string, set<Module>>,
                  listed: seq<string>, i: nat, remembered: set<string>, validRoles: set<string>)
    requires i < |listed|
    ensures var u := listed[i];
      var cur := ResetRoles(portalUsers, listed[..i], remembered);
      var curPerms := ResetPermissions(userPermissions, portalUsers, listed[..i], remembered, validRoles);
      var next := ResetRoles(portalUsers, listed[..i + 1], remembered);
      var nextPerms := ResetPermissions(userPermissions, portalUsers, listed[..i + 1], remembered, validRoles);
      && (u in cur <==> u in portalUsers)
      && if u !in remembered && u in portalUsers && NeedsRole(cur[u], Some(ROLE_USER)) then
           && next == cur[u := cur[u].(roles := [ROLE_USER])]
           && nextPerms == curPerms[u := ModulesOf(PermissionCalls([ROLE_USER], validRoles, ForProfile))]
         else next == cur && nextPerms == curPerms
  {
    var u := listed[i];
    var pre, post := listed[..i], listed[..i + 1];
    ResetReassignsStep(portalUsers, listed, i, remembered);
    var cur := ResetRoles(portalUsers, pre, remembered);
    var next := ResetRoles(portalUsers, post, remembered);
    var curPerms := ResetPermissions(userPermissions, portalUsers, pre, remembered, validRoles);
    var nextPerms := ResetPermissions(userPermissions, portalUsers, post, remembered, validRoles);
    var isNew := ResetReassigns(portalUsers, post, remembered, u) && !ResetReassigns(portalUsers, pre, remembered, u);
    assert isNew <==> u !in remembered && u in portalUsers && NeedsRole(cur[u], Some(ROLE_USER)) by {
      if u in portalUsers && ResetReassigns(portalUsers, pre, remembered, u) {
        assert cur[u].roles == [ROLE_USER];
      }
    }
    forall v | v != u
      ensures ResetReassigns(portalUsers, post, remembered, v) == ResetReassigns(portalUsers, pre, remembered, v)
    {
    }
    if isNew {
      assert next == cur[u := cur[u].(roles := [ROLE_USER])];
      assert nextPerms.Keys == curPerms.Keys + {u};
      assert nextPerms == curPerms[u := ModulesOf(PermissionCalls([ROLE_USER], validRoles, ForProfile))];
    } else {
      assert next == cur;
      assert ResetReassigned(portalUsers, post, remembered) == ResetReassigned(portalUsers, pre, remembered);
      assert nextPerms == curPerms;
    }
  }
}

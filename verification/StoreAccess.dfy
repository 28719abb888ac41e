/**
 What a user may see and do: the two places of the in-memory store that compute
 it, and the recursive queries of the SQL store
 (`backend/repository/sqlite_store.go`, `backend/repository/departments.go`).
 */
module StoreAccess {
  import opened Prelude
  import opened Forest
  import opened Permissions
  import opened StoreSpec
  import opened StoreRows
  import opened StoreInvariant

  // ---- the permission page against enforcement

  lemma GrantedMenusExist(t: Tables, userID: int, id: int)
    requires Consistent(t) && Find(t.users, userID).Some?
    requires var user := Find(t.users, userID).value;
      id in DepartmentGrant(t, user) + RoleGrant(t, user) + Granted(t.userMenuIDs, userID)
    ensures id in IDs(t.menus)
  {
    hide MenusFit, DepartmentsFit, RolesFit, CachesFit, Sound, Find;
    var user := Find(t.users, userID).value;
    var menus := SetOf(IDs(t.menus));
    assert id in menus by {
      if id in DepartmentGrant(t, user) {
        assert id in SetOf(t.departmentMenuIDs[user.departmentID.value]);
      } else if id in RoleGrant(t, user) {
        assert id in SetOf(t.roleMenuIDs[user.roleID.value]);
      } else {
        assert id in SetOf(t.userMenuIDs[userID]);
      }
    }
  }

  /** Closing existing menus under parents stays among existing menus. */
  lemma ExpandedMenusExist(menus: seq<Row<Menu>>, next: int, ids: seq<int>)
    requires MenusFit(menus, next) && SetOf(ids) <= SetOf(IDs(menus))
    ensures SetOf(Expand(MenuParents(menus), ids)) <= SetOf(IDs(menus))
  {
    hide Sound, Expand, MenuParents;
    var m := MenuParents(menus);
    ExpandIsLeast(m, ids);
    MenuIDsAreKeys(menus);
    ParentsInside(m);
    assert ClosedUp(m, SetOf(IDs(menus)));
  }

  lemma MenuIDsAreKeys(menus: seq<Row<Menu>>)
    ensures MenuParents(menus).Keys == SetOf(IDs(menus))
  {
  }

  lemma ParentsInside(m: Parents)
    requires IsForest(m)
    ensures ClosedUp(m, m.Keys)
  {
    forall id | id in m && m[id].Some? ensures m[id].value in m {
      var path :| RootPath(m, path) && path[0] == id;
      assert RootPath(m, path[1..]) && path[1..][0] == m[id].value;
    }
  }

  lemma ExpandIgnoresOrder(m: Parents, a: seq<int>, b: seq<int>)
    requires SetOf(a) == SetOf(b)
    ensures SetOf(Expand(m, a)) == SetOf(Expand(m, b))
  {
    ExpandAgreesWithQuery(m, a);
    ExpandAgreesWithQuery(m, b);
  }

  /** The menus the permission page calls effective are the ones a request is checked against. */
  lemma EffectiveMenusAgree(t: Tables, catalogue: seq<Definition>, userID: int)
    requires Consistent(t) && Find(t.users, userID).Some?
    ensures SetOf(GetUserPermissionDetail(t, catalogue, userID).value.effectiveMenuIDs) ==
      SetOf(IDs(ListUserMenus(t, userID).value))
  {
    hide Merged, RoleCodes, MenusFit, DepartmentsFit, RolesFit, CachesFit, AllGrantsFit, Sound, Expand,
      DepartmentGrant, RoleGrant, Granted, MenuParents;
    var user := Find(t.users, userID).value;
    var own := Granted(t.userMenuIDs, userID);
    var shown := DepartmentGrant(t, user) + RoleGrant(t, user) + own;
    var enforced := own + DepartmentGrant(t, user) + RoleGrant(t, user);
    var m := MenuParents(t.menus);
    forall id | id in shown ensures id in IDs(t.menus) { GrantedMenusExist(t, userID, id); }
    assert SetOf(shown) == SetOf(enforced);
    ExpandIgnoresOrder(m, shown, enforced);
    ExpandedMenusExist(t.menus, t.nextMenuID, enforced);
    forall id | id in Expand(m, enforced) ensures Find(t.menus, id).Some? {
      assert id in SetOf(Expand(m, enforced));
      FoundID(t.menus, id);
    }
    assert SetOf(IDs(MenusOf(t.menus, Expand(m, enforced)))) == SetOf(Expand(m, enforced));
  }

  /** The actions the permission page calls effective are, in order, the ones enforced, in any state whatever. */
  lemma EffectiveActionsAgree(t: Tables, catalogue: seq<Definition>, userID: int)
    requires TrimmedCodes(catalogue) && Find(t.users, userID).Some?
    ensures GetUserPermissionDetail(t, catalogue, userID).value.effectiveActionCodes ==
      ListUserActions(t, catalogue, userID).value
  {
    hide Merged, Expand, DepartmentGrant, RoleGrant, Granted, MenuParents, IsAdministratorRoleCode;
    var user := Find(t.users, userID).value;
    var own := ActionsOf(t, userID);
    var roleCodes := if user.roleID.Some? && RoleEnabled(t, user.roleID.value)
                     then RoleCodes(catalogue, Find(t.roles, user.roleID.value).value.code) else [];
    MergedAbsorbs(catalogue, roleCodes, own);
    MergedIsIdempotent(catalogue, [own]);
    EmptyGroupAddsNothing(catalogue, own);
  }

  lemma EmptyGroupAddsNothing(catalogue: seq<Definition>, codes: seq<string>)
    ensures Merged(catalogue, [[], codes]) == Merged(catalogue, [codes])
  {
    forall code | Catalogued(catalogue, code) ensures code in Requested([[], codes]) <==> code in Requested([codes]) {
      RequestedOfPair([], codes, code);
    }
    MergedIgnoresOrder(catalogue, [[], codes], [codes]);
  }

  /**
   The user may use what `d` stands for: as an administrator, through the
   enabled role whose row is found, or by an action granted personally.
   */
  predicate MayUse(t: Tables, userID: int, d: Definition) {
    var user := Find(t.users, userID);
    user.Some? &&
    (var role := if user.value.roleID.Some? then Find(t.roles, user.value.roleID.value) else None;
     || IsAdministratorRoleCode(user.value.roleCode)
     || (role.Some? && role.value.status == ENABLED && (d.readOnly || IsAdministratorRoleCode(role.value.code)))
     || (userID in t.userActionCodes && exists c | c in t.userActionCodes[userID] :: Trim(c) == d.code))
  }

  /** The enforced actions are, in catalogue order, exactly those of the definitions the user may use. */
  lemma ActionsAreExact(t: Tables, catalogue: seq<Definition>, userID: int)
    requires TrimmedCodes(catalogue) && Find(t.users, userID).Some?
    ensures ListUserActions(t, catalogue, userID).Ok?
    ensures var codes := ListUserActions(t, catalogue, userID).value;
      && FollowsCatalogue(catalogue, codes)
      && forall code :: code in codes <==> exists d | d in catalogue :: d.code == code && MayUse(t, userID, d)
  {
    hide IsAdministratorRoleCode, FollowsCatalogue, ListedAt, Merged, AllCodes, RoleCodes;
    var user := Find(t.users, userID).value;
    if IsAdministratorRoleCode(user.roleCode) {
      AllCodesFollowCatalogue(catalogue);
      forall code ensures code in AllCodes(catalogue) <==> exists d | d in catalogue :: d.code == code {
        AllCodesAreAll(catalogue, code);
      }
    } else {
      var role := if user.roleID.Some? && RoleEnabled(t, user.roleID.value)
                  then RoleCodes(catalogue, Find(t.roles, user.roleID.value).value.code) else [];
      var own := ActionsOf(t, userID);
      MergeFollowsCatalogue(catalogue, [role, own]);
      forall c | c in role ensures Catalogued(catalogue, c) {
        RoleAllows(catalogue, Find(t.roles, user.roleID.value).value.code, c);
      }
      forall code ensures code in Merged(catalogue, [role, own]) <==>
        exists d | d in catalogue :: d.code == code && MayUse(t, userID, d)
      {
        RoleOrOwn(catalogue, role, own, code);
        if user.roleID.Some? && RoleEnabled(t, user.roleID.value) {
          RoleAllows(catalogue, Find(t.roles, user.roleID.value).value.code, code);
        }
      }
    }
  }

  lemma AllCodesAreAll(catalogue: seq<Definition>, code: string)
    ensures code in AllCodes(catalogue) <==> exists d | d in catalogue :: d.code == code
  {
  }

  lemma RoleAllows(catalogue: seq<Definition>, roleCode: string, code: string)
    ensures code in RoleCodes(catalogue, roleCode) <==>
      exists d | d in catalogue :: d.code == code && (d.readOnly || IsAdministratorRoleCode(roleCode))
  {
    hide IsAdministratorRoleCode;
  }

  lemma MergeFollowsCatalogue(catalogue: seq<Definition>, groups: seq<seq<string>>)
    ensures FollowsCatalogue(catalogue, Merged(catalogue, groups))
  {
    hide ListedAt;
    var places := SelectedFollowsCatalogue(catalogue, Requested(groups));
  }

  lemma RoleOrOwn(catalogue: seq<Definition>, role: seq<string>, own: seq<string>, code: string)
    requires TrimmedCodes(catalogue) && forall c | c in role :: Catalogued(catalogue, c)
    ensures code in Merged(catalogue, [role, own]) <==>
      Catalogued(catalogue, code) && (code in role || exists c | c in own :: Trim(c) == code)
  {
    forall c | c in role ensures Trim(c) == c {
      TrimmedStays(c);
    }
    MergedIsExact(catalogue, [role, own], code);
    if Catalogued(catalogue, code) && code in role {
      assert role in [role, own];
    }
    if c :| c in own && Trim(c) == code {
      assert own in [role, own];
    }
  }

  /** Without an enabled role a user who is no administrator has the personally granted actions and no others. */
  lemma DisabledRoleAddsNothing(t: Tables, catalogue: seq<Definition>, userID: int, code: string)
    requires TrimmedCodes(catalogue) && Find(t.users, userID).Some?
    requires var user := Find(t.users, userID).value;
      && !IsAdministratorRoleCode(user.roleCode)
      && (user.roleID.Some? ==> Find(t.roles, user.roleID.value).Some? ==>
            Find(t.roles, user.roleID.value).value.status != ENABLED)
    ensures code in ListUserActions(t, catalogue, userID).value <==>
      && (exists d | d in catalogue :: d.code == code)
      && userID in t.userActionCodes && exists c | c in t.userActionCodes[userID] :: Trim(c) == code
  {
    hide IsAdministratorRoleCode, ListUserActions, FollowsCatalogue, Trim;
    ActionsAreExact(t, catalogue, userID);
  }

  /**
   The page shows apart what comes from the department, the role and the user,
   whether or not the department or role is enabled.
   */
  lemma DetailShowsSources(t: Tables, catalogue: seq<Definition>, userID: int)
    requires Find(t.users, userID).Some?
    ensures var user := Find(t.users, userID).value;
      var detail := GetUserPermissionDetail(t, catalogue, userID).value;
      && NoDuplicates(detail.departmentMenuIDs) && NoDuplicates(detail.roleMenuIDs) && NoDuplicates(detail.userMenuIDs)
      && SetOf(detail.departmentMenuIDs) ==
         (if user.departmentID.Some? then SetOf(Granted(t.departmentMenuIDs, user.departmentID.value)) else {})
      && SetOf(detail.roleMenuIDs) ==
         (if user.roleID.Some? then SetOf(Granted(t.roleMenuIDs, user.roleID.value)) else {})
      && SetOf(detail.userMenuIDs) == SetOf(Granted(t.userMenuIDs, userID))
  {
    hide Merged, RoleCodes, AllCodes, Expand, Unique, MenuParents, IsAdministratorRoleCode, DepartmentGrant, RoleGrant;
  }

  /** The actions it shows for the role are the row's, and for the user the personal ones. */
  lemma DetailShowsActions(t: Tables, catalogue: seq<Definition>, userID: int, code: string)
    requires Find(t.users, userID).Some?
    ensures var user := Find(t.users, userID).value;
      var role := if user.roleID.Some? then Find(t.roles, user.roleID.value) else None;
      var detail := GetUserPermissionDetail(t, catalogue, userID).value;
      && (code in detail.roleActionCodes <==>
            role.Some? && exists d | d in catalogue ::
              d.code == code && (d.readOnly || IsAdministratorRoleCode(role.value.code)))
      && (code in detail.userActionCodes <==>
            && Catalogued(catalogue, code)
            && userID in t.userActionCodes && exists c | c in t.userActionCodes[userID] :: Trim(c) == code)
  {
    hide Merged, RoleCodes, AllCodes, Expand, Unique, MenuParents, IsAdministratorRoleCode, DepartmentGrant, RoleGrant,
      Trim;
    var user := Find(t.users, userID).value;
    if user.roleID.Some? && Find(t.roles, user.roleID.value).Some? {
      RoleAllows(catalogue, Find(t.roles, user.roleID.value).value.code, code);
    }
    MergedIsExact(catalogue, [ActionsOf(t, userID)], code);
    assert ActionsOf(t, userID) in [ActionsOf(t, userID)];
  }

  // ---- ListUserMenus as a query

  /** The rows of directly_granted: personal grants and those of the enabled department and role. */
  function DirectlyGranted(t: Tables, userID: int): set<int> {
    (set id | id in Granted(t.userMenuIDs, userID))
    + (set u, d, id | u in t.users && d in t.departments && u.id == userID && u.value.departmentID == Some(d.id)
                      && d.value.status == ENABLED && id in Granted(t.departmentMenuIDs, d.id) :: id)
    + (set u, r, id | u in t.users && r in t.roles && u.id == userID && u.value.roleID == Some(r.id)
                      && r.value.status == ENABLED && id in Granted(t.roleMenuIDs, r.id) :: id)
  }

  function QueryUserMenus(t: Tables, userID: int): set<Row<Menu>> {
    var effective := ParentClosure(MenuParents(t.menus), DirectlyGranted(t, userID));
    set m | m in t.menus && m.id in effective
  }

  lemma GrantsAreTheJoins(t: Tables, userID: int)
    requires Sound(t.users, t.nextUserID) && Sound(t.departments, t.nextDepartmentID) && Sound(t.roles, t.nextRoleID)
    requires Find(t.users, userID).Some?
    ensures var user := Find(t.users, userID).value;
      SetOf(Granted(t.userMenuIDs, userID) + DepartmentGrant(t, user) + RoleGrant(t, user)) ==
        DirectlyGranted(t, userID)
  {
    hide DepartmentGrant, RoleGrant, Sound, Find;
    var user := Find(t.users, userID).value;
    var all := Granted(t.userMenuIDs, userID) + DepartmentGrant(t, user) + RoleGrant(t, user);
    forall id ensures id in SetOf(all) <==> id in DirectlyGranted(t, userID) {
      DepartmentJoin(t, userID, id);
      RoleJoin(t, userID, id);
    }
  }

  lemma DepartmentJoin(t: Tables, userID: int, id: int)
    requires Sound(t.users, t.nextUserID) && Sound(t.departments, t.nextDepartmentID) && Find(t.users, userID).Some?
    ensures id in DepartmentGrant(t, Find(t.users, userID).value) <==>
      exists u, d | u in t.users && d in t.departments :: u.id == userID && u.value.departmentID == Some(d.id)
        && d.value.status == ENABLED && id in Granted(t.departmentMenuIDs, d.id)
  {
    hide NoDuplicates, Granted;
    var user := Row(userID, Find(t.users, userID).value);
    if id in DepartmentGrant(t, user.value) {
      var d := Row(user.value.departmentID.value, Find(t.departments, user.value.departmentID.value).value);
      assert user in t.users && d in t.departments;
    }
    forall u, d | u in t.users && d in t.departments && u.id == userID && u.value.departmentID == Some(d.id)
                  && d.value.status == ENABLED && id in Granted(t.departmentMenuIDs, d.id)
      ensures id in DepartmentGrant(t, user.value)
    {
      FindRow(t.users, u);
      FindRow(t.departments, d);
    }
  }

  lemma RoleJoin(t: Tables, userID: int, id: int)
    requires Sound(t.users, t.nextUserID) && Sound(t.roles, t.nextRoleID) && Find(t.users, userID).Some?
    ensures id in RoleGrant(t, Find(t.users, userID).value) <==>
      exists u, r | u in t.users && r in t.roles :: u.id == userID && u.value.roleID == Some(r.id)
        && r.value.status == ENABLED && id in Granted(t.roleMenuIDs, r.id)
  {
    hide NoDuplicates, Granted;
    var user := Row(userID, Find(t.users, userID).value);
    if id in RoleGrant(t, user.value) {
      var r := Row(user.value.roleID.value, Find(t.roles, user.value.roleID.value).value);
      assert user in t.users && r in t.roles;
    }
    forall u, r | u in t.users && r in t.roles && u.id == userID && u.value.roleID == Some(r.id)
                  && r.value.status == ENABLED && id in Granted(t.roleMenuIDs, r.id)
      ensures id in RoleGrant(t, user.value)
    {
      FindRow(t.users, u);
      FindRow(t.roles, r);
    }
  }

  /** The in-memory listing returns exactly the rows of the recursive query, each once. */
  lemma UserMenusAgreeWithQuery(t: Tables, userID: int)
    requires Consistent(t) && Find(t.users, userID).Some?
    ensures SetOf(ListUserMenus(t, userID).value) == QueryUserMenus(t, userID)
    ensures NoDuplicates(IDs(ListUserMenus(t, userID).value))
  {
    hide CachesFit, AllGrantsFit, IsForest, MenuParents, DirectlyGranted, DepartmentGrant, RoleGrant, Granted, Expand,
      ParentClosure, NoDuplicates, DistinctCodes;
    var user := Find(t.users, userID).value;
    var ids := Granted(t.userMenuIDs, userID) + DepartmentGrant(t, user) + RoleGrant(t, user);
    var m := MenuParents(t.menus);
    GrantsAreTheJoins(t, userID);
    ExpandAgreesWithQuery(m, ids);
    ExpandIsLeast(m, ids);
    ListedRows(t.menus, Expand(m, ids));
  }

  lemma ListedRows(menus: seq<Row<Menu>>, ids: seq<int>)
    requires NoDuplicates(IDs(menus)) && NoDuplicates(ids)
    ensures SetOf(MenusOf(menus, ids)) == set m | m in menus && m.id in SetOf(ids)
    ensures NoDuplicates(IDs(MenusOf(menus, ids)))
  {
    hide NoDuplicates;
    var listed := MenusOf(menus, ids);
    forall row ensures row in listed <==> row in menus && row.id in SetOf(ids) {
      if row in listed {
        RowID(listed, row);
      }
      if row in menus && row.id in ids {
        FindRow(menus, row);
        assert row.id in IDs(listed);
        var i :| 0 <= i < |listed| && IDs(listed)[i] == row.id;
        FindRow(menus, listed[i]);
      }
    }
    ListedOnce(menus, ids);
  }

  lemma {:induction false} ListedOnce(menus: seq<Row<Menu>>, ids: seq<int>)
    requires NoDuplicates(ids)
    ensures NoDuplicates(IDs(MenusOf(menus, ids)))
    decreases |ids|
  {
    if ids != [] {
      ListedOnce(menus, ids[1..]);
      var rest := MenusOf(menus, ids[1..]);
      if Find(menus, ids[0]).Some? {
        assert ids[0] !in IDs(rest);
        NewHead(Row(ids[0], Find(menus, ids[0]).value), rest);
      }
    }
  }

  /** A listed menu comes with its parent, so no listed menu hangs from nothing. */
  lemma ListedMenusHaveParents(t: Tables, userID: int, menu: Row<Menu>)
    requires Consistent(t) && Find(t.users, userID).Some?
    requires menu in ListUserMenus(t, userID).value && menu.value.parentID.Some?
    ensures menu.value.parentID.value in IDs(ListUserMenus(t, userID).value)
  {
    hide CachesFit, AllGrantsFit, DepartmentsFit, RolesFit, IsForest, Expand, NoDuplicates, DepartmentGrant,
      RoleGrant, Granted, LeastClosedUp, MenuParents;
    var user := Find(t.users, userID).value;
    var ids := Granted(t.userMenuIDs, userID) + DepartmentGrant(t, user) + RoleGrant(t, user);
    var m := MenuParents(t.menus);
    var expanded := Expand(m, ids);
    RowID(ListUserMenus(t, userID).value, menu);
    FindRow(t.menus, menu);
    MenuParentOf(t.menus, t.nextMenuID, menu);
    ParentIsExpanded(m, ids, menu.id, menu.value.parentID.value);
  }

  lemma MenuParentOf(menus: seq<Row<Menu>>, next: int, menu: Row<Menu>)
    requires MenusFit(menus, next) && menu in menus
    ensures menu.id in MenuParents(menus) && MenuParents(menus)[menu.id] == menu.value.parentID
    ensures menu.value.parentID.Some? ==> Find(menus, menu.value.parentID.value).Some?
  {
    hide NoDuplicates;
    FindRow(menus, menu);
    MenuInParents(menus, menu.id);
    if menu.value.parentID.Some? {
      ParentsInside(MenuParents(menus));
      MenuInParents(menus, menu.value.parentID.value);
    }
  }

  lemma ParentIsExpanded(m: Parents, ids: seq<int>, id: int, parent: int)
    requires id in m && m[id] == Some(parent) && id in Expand(m, ids)
    ensures parent in Expand(m, ids)
  {
    hide Expand;
    ExpandIsLeast(m, ids);
    assert id in SetOf(Expand(m, ids));
    assert parent in SetOf(Expand(m, ids));
  }

  // ---- moving a menu or a department as a query

  /** The parent checks of the SQL store: self, existence, then membership in the descendants query. */
  function QueryRefusal(m: Parents, id: int, parent: int): Option<StoreError> {
    if parent == id then Some(ParentIsSelf)
    else if parent !in m then Some(ParentNotFound)
    else if parent in Descendants(m, id) then Some(ParentIsBelow)
    else None
  }

  lemma WalkRefusal(m: Parents, id: int, parent: int)
    requires IsForest(m) && id in m
    ensures WalkVerdict(m, id, parent) ==
      match QueryRefusal(m, id, parent) {
        case None => Accepted
        case Some(e) => if e == ParentNotFound then LeavesTable else MeetsMoved
      }
  {
    if parent != id && parent in m {
      WalkAgreesWithQuery(m, id, parent);
    }
  }

  /** A menu is moved exactly when the query allows it, and refused for the same reason. */
  lemma MenuMovesAgree(t: Tables, id: int, request: MenuRequest)
    requires Consistent(t) && Find(t.menus, id).Some? && request.parentID.Some?
    ensures var refusal := QueryRefusal(MenuParents(t.menus), id, request.parentID.value);
      && (refusal.Some? ==> UpdateMenu(t, id, request) == Err(refusal.value))
      && (refusal.None? ==> UpdateMenu(t, id, request).Ok?)
  {
    hide DepartmentsFit, RolesFit, CachesFit, AllGrantsFit, IsForest, Sound, Descendants, MenuParents, WalkVerdict;
    MenuInParents(t.menus, id);
    WalkRefusal(MenuParents(t.menus), id, request.parentID.value);
  }

  /** The checks of UpdateDepartment before the parents are looked at. */
  function EarlierRefusal(t: Tables, id: int, current: Department, request: DepartmentRequest): Option<StoreError> {
    var code := Lower(Trim(request.code));
    var taken := FindDepartmentByCode(t.departments, code);
    if current.code == ROOT_CODE && code != ROOT_CODE then Some(RootCodeFixed)
    else if current.code == ROOT_CODE && request.parentID.Some? then Some(RootHasNoParent)
    else if current.code == ROOT_CODE && request.status != ENABLED then Some(RootStaysEnabled)
    else if taken.Some? && taken.value.id != id then Some(CodeTaken)
    else None
  }

  /**
   A department is moved exactly when the query allows it; only the reason
   given for making it its own parent differs.
   */
  lemma DepartmentMovesAgree(t: Tables, id: int, request: DepartmentRequest)
    requires Consistent(t) && Find(t.departments, id).Some? && request.parentID.Some?
    requires EarlierRefusal(t, id, Find(t.departments, id).value, request).None?
    ensures var refusal := QueryRefusal(DepartmentParents(t.departments), id, request.parentID.value);
      && (refusal.Some? ==>
            var reason := if refusal.value == ParentIsSelf then ParentIsBelow else refusal.value;
            UpdateDepartment(t, id, request) == Err(reason))
      && (refusal.None? ==> UpdateDepartment(t, id, request).Ok?)
  {
    hide MenusFit, RolesFit, CachesFit, AllGrantsFit, IsForest, Sound, Descendants, DepartmentParents, WalkVerdict,
      DistinctCodes, FindDepartmentByCode, Lower, Trim;
    DepartmentInParents(t.departments, id);
    WalkRefusal(DepartmentParents(t.departments), id, request.parentID.value);
  }

  // ---- "keeps all menus" checked three ways

  predicate Ascending(s: seq<int>) {
    forall i, j | 0 <= i < j < |s| :: s[i] < s[j]
  }

  function Inserted(s: seq<int>, x: int): (r: seq<int>)
    requires Ascending(s)
    ensures Ascending(r) && forall y :: y in r <==> y in s || y == x
  {
    if s == [] then [x]
    else if x < s[0] then [x] + s
    else if x == s[0] then s
    else
      var rest := Inserted(s[1..], x);
      assert forall y | y in rest :: s[0] < y;
      assert forall y :: y in s <==> y == s[0] || y in s[1..];
      assert forall y :: y in [s[0]] + rest <==> y == s[0] || y in rest;
      assert forall k | 0 <= k < |rest| :: rest[k] in rest;
      [s[0]] + rest
  }

  /** uniqueIDs of the SQL store: distinct ids in ascending order. */
  function SortedIDs(ids: seq<int>): (r: seq<int>)
    ensures Ascending(r) && SetOf(r) == SetOf(ids)
  {
    if ids == [] then []
    else
      assert forall y :: y in ids <==> y == ids[0] || y in ids[1..];
      assert forall y :: y in SortedIDs(ids[1..]) <==> y in SetOf(SortedIDs(ids[1..]));
      Inserted(SortedIDs(ids[1..]), ids[0])
  }

  lemma HasMember<T>(s: seq<T>)
    requires s != []
    ensures exists x :: x in s
  {
    assert s[0] in s;
  }

  lemma {:induction false} AscendingUnique(a: seq<int>, b: seq<int>)
    requires Ascending(a) && Ascending(b) && forall x :: x in a <==> x in b
    ensures a == b
    decreases |a|
  {
    if a == [] {
      if b != [] {
        HasMember(b);
        assert false;
      }
    } else {
      assert a[0] in b && b[0] in a;
      assert a[0] == b[0];
      forall x ensures x in a[1..] <==> x in b[1..] {
        assert x in a <==> x == a[0] || x in a[1..];
        assert x in b <==> x == b[0] || x in b[1..];
      }
      AscendingUnique(a[1..], b[1..]);
      assert a == [a[0]] + a[1..] && b == [b[0]] + b[1..];
    }
  }

  /** equalIDs of the SQL store decides equality as sets. */
  method EqualIDs(left: seq<int>, right: seq<int>) returns (equal: bool)
    ensures equal <==> SetOf(left) == SetOf(right)
  {
    var l, r := SortedIDs(left), SortedIDs(right);
    if SetOf(left) == SetOf(right) {
      assert forall x :: x in l <==> x in SetOf(left);
      assert forall x :: x in r <==> x in SetOf(right);
      AscendingUnique(l, r);
    }
    if |l| != |r| {
      return false;
    }
    for index := 0 to |l|
      invariant forall k | 0 <= k < index :: l[k] == r[k]
    {
      if l[index] != r[index] {
        assert l != r;
        return false;
      }
    }
    assert l == r;
    return true;
  }

  /** sameIDs of the in-memory store decides equality as sets. */
  method SameIDs(left: seq<int>, right: seq<int>) returns (same: bool)
    ensures same <==> SetOf(left) == SetOf(right)
  {
    var l := UniqueIDs(left);
    var r := UniqueIDs(right);
    DistinctSize(l);
    DistinctSize(r);
    if |l| != |r| {
      return false;
    }
    var rightSet := SetOf(r);
    for i := 0 to |l|
      invariant forall k | 0 <= k < i :: l[k] in rightSet
    {
      if l[i] !in rightSet {
        assert l[i] in SetOf(l);
        return false;
      }
    }
    SubsetOfSameSize(SetOf(l), SetOf(r));
    return true;
  }

  /** On requests for existing menus the length comparison decides the same. */
  lemma LengthsSuffice(menus: seq<Row<Menu>>, menuIDs: seq<int>)
    requires MenusExist(menus, menuIDs)
    ensures |Unique(menuIDs)| == |Unique(IDs(menus))| <==> SetOf(menuIDs) == SetOf(IDs(menus))
  {
    RequestedMenusExist(menus, menuIDs);
    if |Unique(menuIDs)| == |Unique(IDs(menus))| {
      LengthsDecide(Unique(menuIDs), IDs(menus));
    }
    DistinctSize(Unique(menuIDs));
    DistinctSize(Unique(IDs(menus)));
  }
}

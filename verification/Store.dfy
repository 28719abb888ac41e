/** The in-memory store as an object that its operations update in place (`backend/store/store.go`). */
module Store {
  import opened Prelude
  import opened Forest
  import opened Permissions
  import opened StoreSpec
  import opened StoreRows
  import opened StoreInvariant
  import opened StoreSeed
  import opened StoreAccess

  /** A refused operation reports why and leaves everything; an accepted one does what its function says. */
  ghost predicate Carried(before: Tables, outcome: Outcome, after: Tables, message: Option<StoreError>) {
    match outcome
    case Ok(t) => after == t && message == None
    case Err(e) => after == before && message == Some(e)
  }

  // ---- loops over rows, id lists and grant tables

  method FindIndex<V>(rows: seq<Row<V>>, id: int) returns (index: Option<nat>)
    ensures index.None? <==> Find(rows, id).None?
    ensures index.Some? ==>
      && index.value < |rows| && rows[index.value].id == id && Find(rows, id) == Some(rows[index.value].value)
      && rows[..index.value] + rows[index.value + 1..] == Remove(rows, id)
      && forall v :: rows[index.value := Row(id, v)] == Replace(rows, id, v)
  {
    for i := 0 to |rows|
      invariant forall k | 0 <= k < i :: rows[k].id != id
    {
      if rows[i].id == id {
        forall v ensures rows[i := Row(id, v)] == Replace(rows, id, v) {
          FirstMatch(rows, id, i, v);
        }
        FirstMatch(rows, id, i, rows[i].value);
        return Some(i);
      }
    }
    return None;
  }

  method AllExist(menus: seq<Row<Menu>>, menuIDs: seq<int>) returns (exist: bool)
    ensures exist <==> MenusExist(menus, menuIDs)
  {
    for i := 0 to |menuIDs|
      invariant forall k | 0 <= k < i :: Find(menus, menuIDs[k]).Some?
    {
      if Find(menus, menuIDs[i]).None? {
        return false;
      }
    }
    return true;
  }

  lemma {:induction false} WithoutAppend(ids: seq<int>, x: int, removed: int)
    ensures Without(ids + [x], removed) == Without(ids, removed) + (if x == removed then [] else [x])
    decreases |ids|
  {
    if ids == [] {
      assert [x][1..] == [];
    } else {
      assert (ids + [x])[1..] == ids[1..] + [x];
      WithoutAppend(ids[1..], x, removed);
    }
  }

  method RemoveMenuID(menuIDs: seq<int>, removed: int) returns (filtered: seq<int>)
    ensures filtered == Without(menuIDs, removed)
  {
    filtered := [];
    for i := 0 to |menuIDs|
      invariant filtered == Without(menuIDs[..i], removed)
    {
      assert menuIDs[..i + 1] == menuIDs[..i] + [menuIDs[i]];
      WithoutAppend(menuIDs[..i], menuIDs[i], removed);
      if menuIDs[i] != removed {
        filtered := filtered + [menuIDs[i]];
      }
    }
    assert menuIDs[..|menuIDs|] == menuIDs;
  }

  method RevokeEverywhere(grants: Grants, menuID: int) returns (after: Grants)
    ensures after == Revoke(grants, menuID)
  {
    after := grants;
    var keys := grants.Keys;
    while exists k :: k in keys
      invariant keys <= grants.Keys && after.Keys == grants.Keys
      invariant forall k | k in grants ::
        after[k] == if k in keys then grants[k] else Without(grants[k], menuID)
      decreases keys
    {
      var k :| k in keys;
      var filtered := RemoveMenuID(after[k], menuID);
      after := after[k := filtered];
      keys := keys - {k};
    }
    assert forall k | k in after.Keys :: after[k] == Revoke(grants, menuID)[k];
  }

  method GrantToDepartment(departments: seq<Row<Department>>, grants: Grants, code: string, menuID: int)
    returns (after: Grants)
    ensures after == GrantDepartment(departments, grants, code, menuID)
  {
    after := grants;
    var department := FindDepartmentByCode(departments, code);
    if department.Some? {
      after := Append(after, department.value.id, menuID);
    }
  }

  method GrantToAdministrators(roles: seq<Row<Role>>, grants: Grants, menuID: int) returns (after: Grants)
    ensures after == GrantAdministrators(roles, grants, menuID)
  {
    after := grants;
    for i := 0 to |roles|
      invariant GrantAdministrators(roles[i..], after, menuID) == GrantAdministrators(roles, grants, menuID)
    {
      assert roles[i..][1..] == roles[i + 1..];
      if IsAdministratorRoleCode(roles[i].value.code) {
        after := Append(after, roles[i].id, menuID);
      }
    }
  }

  method RenameInUsers(users: seq<Row<User>>, id: int, name: string) returns (renamed: seq<Row<User>>)
    ensures renamed == RenameDepartment(users, id, name)
  {
    renamed := users;
    for i := 0 to |users|
      invariant |renamed| == |users|
      invariant forall k | 0 <= k < i :: renamed[k] == Row(users[k].id, InDepartment(users[k].value, id, name))
      invariant forall k | i <= k < |users| :: renamed[k] == users[k]
    {
      if renamed[i].value.departmentID == Some(id) {
        renamed := renamed[i := Row(renamed[i].id, renamed[i].value.(department := name))];
      }
    }
  }

  method RecastInUsers(users: seq<Row<User>>, id: int, name: string, code: string) returns (recast: seq<Row<User>>)
    ensures recast == RenameRole(users, id, name, code)
  {
    recast := users;
    for i := 0 to |users|
      invariant |recast| == |users|
      invariant forall k | 0 <= k < i :: recast[k] == Row(users[k].id, InRole(users[k].value, id, name, code))
      invariant forall k | i <= k < |users| :: recast[k] == users[k]
    {
      if recast[i].value.roleID == Some(id) {
        recast := recast[i := Row(recast[i].id, recast[i].value.(role := name, roleCode := code))];
      }
    }
  }

  lemma {:induction false} MenusOfAppend(menus: seq<Row<Menu>>, ids: seq<int>, id: int)
    ensures MenusOf(menus, ids + [id]) ==
      MenusOf(menus, ids) + (if Find(menus, id).Some? then [Row(id, Find(menus, id).value)] else [])
    decreases |ids|
  {
    if ids == [] {
      assert [id][1..] == [];
    } else {
      assert (ids + [id])[1..] == ids[1..] + [id];
      MenusOfAppend(menus, ids[1..], id);
    }
  }

  method CollectMenus(menus: seq<Row<Menu>>, ids: seq<int>) returns (collected: seq<Row<Menu>>)
    ensures collected == MenusOf(menus, ids)
  {
    collected := [];
    for i := 0 to |ids|
      invariant collected == MenusOf(menus, ids[..i])
    {
      assert ids[..i + 1] == ids[..i] + [ids[i]];
      MenusOfAppend(menus, ids[..i], ids[i]);
      var menu := Find(menus, ids[i]);
      if menu.Some? {
        collected := collected + [Row(ids[i], menu.value)];
      }
    }
    assert ids[..|ids|] == ids;
  }

  // ---- the store

  class MemoryStore {
    var users: seq<Row<User>>
    var departments: seq<Row<Department>>
    var roles: seq<Row<Role>>
    var menus: seq<Row<Menu>>
    var userMenuIDs: Grants
    var userActionCodes: map<int, seq<string>>
    var departmentMenuIDs: Grants
    var roleMenuIDs: Grants
    var nextUserID: int
    var nextDepartmentID: int
    var nextRoleID: int
    var nextMenuID: int

    function View(): Tables
      reads this
    {
      Tables(users, departments, roles, menus, userMenuIDs, userActionCodes, departmentMenuIDs, roleMenuIDs,
             nextUserID, nextDepartmentID, nextRoleID, nextMenuID)
    }

    constructor ()
      ensures View() == SEED && Consistent(View())
    {
      hide Consistent, SEED_USERS, SEED_DEPARTMENTS, SEED_ROLES, SEED_MENUS;
      users, departments, roles, menus := SEED.users, SEED.departments, SEED.roles, SEED.menus;
      userMenuIDs, userActionCodes := SEED.userMenuIDs, SEED.userActionCodes;
      departmentMenuIDs, roleMenuIDs := SEED.departmentMenuIDs, SEED.roleMenuIDs;
      nextUserID, nextDepartmentID, nextRoleID, nextMenuID := 5, 4, 12, 5;
      new;
      SeedIsConsistent();
    }

    method CreateMenu(request: MenuRequest) returns (message: Option<StoreError>)
      requires Consistent(View())
      modifies this
      ensures Carried(old(View()), StoreSpec.CreateMenu(old(View()), request), View(), message)
      ensures Consistent(View())
    {
      hide Consistent, GrantAdministrators, GrantDepartment, Find;
      ghost var before := View();
      if request.parentID.Some? && Find(menus, request.parentID.value).None? {
        return Some(ParentNotFound);
      }
      var id := nextMenuID;
      nextMenuID := nextMenuID + 1;
      menus := menus + [Row(id, Menu(request.name, request.code, request.parentID, request.sort, request.status))];
      departmentMenuIDs := GrantToDepartment(departments, departmentMenuIDs, ROOT_CODE, id);
      departmentMenuIDs := GrantToDepartment(departments, departmentMenuIDs, "board-office", id);
      roleMenuIDs := GrantToAdministrators(roles, roleMenuIDs, id);
      CreateMenuKeeps(before, request);
      return None;
    }

    method UpdateMenu(id: int, request: MenuRequest) returns (message: Option<StoreError>)
      requires Consistent(View())
      modifies this
      ensures Carried(old(View()), StoreSpec.UpdateMenu(old(View()), id, request), View(), message)
      ensures Consistent(View())
    {
      hide Consistent, WalkVerdict, MenuParents, Replace;
      ghost var before := View();
      assert IsForest(MenuParents(menus)) by { ConsistentForests(before); }
      var index := FindIndex(menus, id);
      if index.None? {
        return Some(MenuNotFound);
      }
      if request.parentID.Some? {
        var verdict := WalkUp(MenuParents(menus), id, request.parentID.value);
        if verdict.MeetsMoved? {
          return Some(if request.parentID.value == id then ParentIsSelf else ParentIsBelow);
        }
        if verdict.LeavesTable? {
          SelfMeets(MenuParents(menus), id);
          return Some(ParentNotFound);
        }
      }
      menus := menus[index.value :=
        Row(id, Menu(request.name, request.code, request.parentID, request.sort, request.status))];
      UpdateMenuKeeps(before, id, request);
      return None;
    }

    method DeleteMenu(id: int) returns (message: Option<StoreError>)
      requires Consistent(View())
      modifies this
      ensures Carried(old(View()), StoreSpec.DeleteMenu(old(View()), id), View(), message)
      ensures Consistent(View())
    {
      hide Consistent, Revoke, Remove;
      ghost var before := View();
      var index := FindIndex(menus, id);
      if index.None? {
        return Some(MenuNotFound);
      }
      for i := 0 to |menus|
        invariant View() == before
        invariant forall k | 0 <= k < i :: menus[k].value.parentID != Some(id)
      {
        if menus[i].value.parentID == Some(id) {
          assert menus[i] in menus;
          return Some(MenuHasChildren);
        }
      }
      menus := menus[..index.value] + menus[index.value + 1..];
      userMenuIDs := RevokeEverywhere(userMenuIDs, id);
      departmentMenuIDs := RevokeEverywhere(departmentMenuIDs, id);
      roleMenuIDs := RevokeEverywhere(roleMenuIDs, id);
      DeleteMenuKeeps(before, id);
      return None;
    }

    method CreateDepartment(request: DepartmentRequest) returns (message: Option<StoreError>)
      requires Consistent(View())
      modifies this
      ensures Carried(old(View()), StoreSpec.CreateDepartment(old(View()), request), View(), message)
      ensures Consistent(View())
    {
      hide Consistent, Lower, Trim, FindDepartmentByCode, Find, DashboardMenuIDs, IDs;
      ghost var before := View();
      var code := Lower(Trim(request.code));
      if FindDepartmentByCode(departments, code).Some? {
        return Some(CodeTaken);
      }
      if request.parentID.Some? && Find(departments, request.parentID.value).None? {
        return Some(ParentNotFound);
      }
      var id := nextDepartmentID;
      nextDepartmentID := nextDepartmentID + 1;
      departments := departments + [Row(id, Department(Trim(request.name), code, request.parentID, request.status))];
      departmentMenuIDs :=
        departmentMenuIDs[id := if code == "board-office" then IDs(menus) else DashboardMenuIDs(menus)];
      CreateDepartmentKeeps(before, request);
      return None;
    }

    method UpdateDepartment(id: int, request: DepartmentRequest) returns (message: Option<StoreError>)
      requires Consistent(View())
      modifies this
      ensures Carried(old(View()), StoreSpec.UpdateDepartment(old(View()), id, request), View(), message)
      ensures Consistent(View())
    {
      hide Consistent, WalkVerdict, DepartmentParents, Replace, FindDepartmentByCode, Lower, Trim, RenameDepartment;
      ghost var before := View();
      assert IsForest(DepartmentParents(departments)) by { ConsistentForests(before); }
      var index := FindIndex(departments, id);
      if index.None? {
        return Some(DepartmentNotFound);
      }
      var code := Lower(Trim(request.code));
      var current := departments[index.value].value;
      if current.code == ROOT_CODE && code != ROOT_CODE {
        return Some(RootCodeFixed);
      }
      if current.code == ROOT_CODE && request.parentID.Some? {
        return Some(RootHasNoParent);
      }
      if current.code == ROOT_CODE && request.status != ENABLED {
        return Some(RootStaysEnabled);
      }
      var other := FindDepartmentByCode(departments, code);
      if other.Some? && other.value.id != id {
        return Some(CodeTaken);
      }
      if request.parentID.Some? {
        var verdict := WalkUp(DepartmentParents(departments), id, request.parentID.value);
        if verdict.MeetsMoved? {
          return Some(ParentIsBelow);
        }
        if verdict.LeavesTable? {
          return Some(ParentNotFound);
        }
      }
      var name := Trim(request.name);
      departments := departments[index.value := Row(id, Department(name, code, request.parentID, request.status))];
      if current.name != name {
        users := RenameInUsers(users, id, name);
      }
      UpdateDepartmentKeeps(before, id, request);
      return None;
    }

    method DeleteDepartment(id: int) returns (message: Option<StoreError>)
      requires Consistent(View())
      modifies this
      ensures Carried(old(View()), StoreSpec.DeleteDepartment(old(View()), id), View(), message)
      ensures Consistent(View())
    {
      hide Consistent, Remove;
      ghost var before := View();
      var index := FindIndex(departments, id);
      if index.None? {
        return Some(DepartmentNotFound);
      }
      for i := 0 to |departments|
        invariant View() == before
        invariant forall k | 0 <= k < i :: departments[k].value.parentID != Some(id)
      {
        if departments[i].value.parentID == Some(id) {
          assert departments[i] in departments;
          return Some(DepartmentHasChildren);
        }
      }
      for i := 0 to |users|
        invariant View() == before
        invariant forall k | 0 <= k < i :: users[k].value.departmentID != Some(id)
      {
        if users[i].value.departmentID == Some(id) {
          assert users[i] in users;
          return Some(DepartmentHasUsers);
        }
      }
      departments := departments[..index.value] + departments[index.value + 1..];
      departmentMenuIDs := departmentMenuIDs - {id};
      DeleteDepartmentKeeps(before, id);
      return None;
    }

    method UpdateDepartmentMenus(id: int, menuIDs: seq<int>) returns (message: Option<StoreError>)
      requires Consistent(View())
      modifies this
      ensures Carried(old(View()), StoreSpec.UpdateDepartmentMenus(old(View()), id, menuIDs), View(), message)
      ensures Consistent(View())
    {
      hide Consistent, Unique, IDs, MenusExist;
      ghost var before := View();
      var department := Find(departments, id);
      if department.None? {
        return Some(DepartmentNotFound);
      }
      var exist := AllExist(menus, menuIDs);
      if !exist {
        return Some(MenuNotFound);
      }
      var ids := UniqueIDs(menuIDs);
      if department.value.code == ROOT_CODE {
        var all := UniqueIDs(IDs(menus));
        if |ids| != |all| {
          return Some(RootKeepsAllMenus);
        }
      }
      departmentMenuIDs := departmentMenuIDs[id := ids];
      UpdateDepartmentMenusKeeps(before, id, menuIDs);
      return None;
    }

    method CreateRole(request: RoleRequest) returns (message: Option<StoreError>)
      requires Consistent(View())
      modifies this
      ensures Carried(old(View()), StoreSpec.CreateRole(old(View()), request), View(), message)
      ensures Consistent(View())
    {
      hide Consistent, Lower, Trim, FindRoleByCode, DashboardMenuIDs;
      ghost var before := View();
      var code := Lower(Trim(request.code));
      if FindRoleByCode(roles, code).Some? {
        return Some(CodeTaken);
      }
      var id := nextRoleID;
      nextRoleID := nextRoleID + 1;
      roles := roles + [Row(id, Role(Trim(request.name), code, request.status))];
      roleMenuIDs := roleMenuIDs[id := DashboardMenuIDs(menus)];
      CreateRoleKeeps(before, request);
      return None;
    }

    method UpdateRole(id: int, request: RoleRequest) returns (message: Option<StoreError>)
      requires Consistent(View())
      modifies this
      ensures Carried(old(View()), StoreSpec.UpdateRole(old(View()), id, request), View(), message)
      ensures Consistent(View())
    {
      hide Consistent, Lower, Trim, FindRoleByCode, Replace, RenameRole;
      ghost var before := View();
      var index := FindIndex(roles, id);
      if index.None? {
        return Some(RoleNotFound);
      }
      var existing := roles[index.value].value;
      var code := Lower(Trim(request.code));
      var name := Trim(request.name);
      if code != existing.code {
        return Some(RoleCodeFixed);
      }
      if existing.code == SUPER_ADMIN && (name != SUPER_ADMIN_NAME || request.status != ENABLED) {
        return Some(AdministratorRoleFixed);
      }
      if existing.code == SYSTEM_ADMIN && (name != SYSTEM_ADMIN_NAME || request.status != ENABLED) {
        return Some(AdministratorRoleFixed);
      }
      var other := FindRoleByCode(roles, code);
      if other.Some? && other.value.id != id {
        return Some(CodeTaken);
      }
      roles := roles[index.value := Row(id, Role(name, code, request.status))];
      users := RecastInUsers(users, id, name, code);
      UpdateRoleKeeps(before, id, request);
      return None;
    }

    method DeleteRole(id: int) returns (message: Option<StoreError>)
      requires Consistent(View())
      modifies this
      ensures Carried(old(View()), StoreSpec.DeleteRole(old(View()), id), View(), message)
      ensures Consistent(View())
    {
      hide Consistent, Remove, IsAdministratorRoleCode;
      ghost var before := View();
      var index := FindIndex(roles, id);
      if index.None? {
        return Some(RoleNotFound);
      }
      if IsAdministratorRoleCode(roles[index.value].value.code) {
        return Some(AdministratorRoleStays);
      }
      for i := 0 to |users|
        invariant View() == before
        invariant forall k | 0 <= k < i :: users[k].value.roleID != Some(id)
      {
        if users[i].value.roleID == Some(id) {
          assert users[i] in users;
          return Some(RoleHasUsers);
        }
      }
      roles := roles[..index.value] + roles[index.value + 1..];
      roleMenuIDs := roleMenuIDs - {id};
      DeleteRoleKeeps(before, id);
      return None;
    }

    method UpdateRoleMenus(id: int, menuIDs: seq<int>) returns (message: Option<StoreError>)
      requires Consistent(View())
      modifies this
      ensures Carried(old(View()), StoreSpec.UpdateRoleMenus(old(View()), id, menuIDs), View(), message)
      ensures Consistent(View())
    {
      hide Consistent, Unique, IDs, MenusExist, IsAdministratorRoleCode;
      ghost var before := View();
      var role := Find(roles, id);
      if role.None? {
        return Some(RoleNotFound);
      }
      var exist := AllExist(menus, menuIDs);
      if !exist {
        return Some(MenuNotFound);
      }
      var ids := UniqueIDs(menuIDs);
      if IsAdministratorRoleCode(role.value.code) {
        var same := SameIDs(ids, IDs(menus));
        if !same {
          return Some(AdministratorKeepsAllMenus);
        }
      }
      roleMenuIDs := roleMenuIDs[id := ids];
      UpdateRoleMenusKeeps(before, id, menuIDs);
      return None;
    }

    method CreateUser(request: UserRequest) returns (message: Option<StoreError>)
      requires Consistent(View())
      modifies this
      ensures Carried(old(View()), StoreSpec.CreateUser(old(View()), request), View(), message)
      ensures Consistent(View())
    {
      hide Consistent, Trim, FindUserByName, ResolveDepartment, ResolveRole;
      ghost var before := View();
      if FindUserByName(users, Trim(request.username)).Some? {
        return Some(UsernameTaken);
      }
      var user := MakeUser(View(), request, if request.age.Some? then request.age.value else 0);
      if user.Err? {
        return Some(user.error);
      }
      var id := nextUserID;
      nextUserID := nextUserID + 1;
      users := users + [Row(id, user.value)];
      userMenuIDs := userMenuIDs[id := []];
      CreateUserKeeps(before, request);
      return None;
    }

    method UpdateUser(id: int, request: UserRequest) returns (message: Option<StoreError>)
      requires Consistent(View())
      modifies this
      ensures Carried(old(View()), StoreSpec.UpdateUser(old(View()), id, request), View(), message)
      ensures Consistent(View())
    {
      hide Consistent, Trim, FindUserByName, MakeUser, Replace;
      ghost var before := View();
      var index := FindIndex(users, id);
      if index.None? {
        return Some(UserNotFound);
      }
      var existing := FindUserByName(users, Trim(request.username));
      if existing.Some? && existing.value.id != id {
        return Some(UsernameTaken);
      }
      var age := if request.age.Some? then request.age.value else users[index.value].value.age;
      var user := MakeUser(View(), request, age);
      if user.Err? {
        return Some(user.error);
      }
      users := users[index.value := Row(id, user.value)];
      UpdateUserKeeps(before, id, request);
      return None;
    }

    method DeleteUser(id: int) returns (message: Option<StoreError>)
      requires Consistent(View())
      modifies this
      ensures Carried(old(View()), StoreSpec.DeleteUser(old(View()), id), View(), message)
      ensures Consistent(View())
    {
      hide Consistent, Remove;
      ghost var before := View();
      var index := FindIndex(users, id);
      if index.None? {
        return Some(UserNotFound);
      }
      users := users[..index.value] + users[index.value + 1..];
      userMenuIDs := userMenuIDs - {id};
      userActionCodes := userActionCodes - {id};
      DeleteUserKeeps(before, id);
      return None;
    }

    method UpdateUserMenus(id: int, menuIDs: seq<int>) returns (message: Option<StoreError>)
      requires Consistent(View())
      modifies this`userMenuIDs
      ensures Carried(old(View()), StoreSpec.UpdateUserMenus(old(View()), id, menuIDs), View(), message)
      ensures Consistent(View())
    {
      hide Consistent, Unique, MenusExist;
      ghost var before := View();
      if Find(users, id).None? {
        return Some(UserNotFound);
      }
      var exist := AllExist(menus, menuIDs);
      if !exist {
        return Some(MenuNotFound);
      }
      var ids := UniqueIDs(menuIDs);
      userMenuIDs := userMenuIDs[id := ids];
      UpdateUserMenusKeeps(before, id, menuIDs);
      return None;
    }

    method UpdateUserActions(catalogue: seq<Definition>, id: int, codes: seq<string>)
      returns (message: Option<StoreError>)
      requires Consistent(View())
      modifies this`userActionCodes
      ensures Carried(old(View()), StoreSpec.UpdateUserActions(old(View()), catalogue, id, codes), View(), message)
      ensures Consistent(View())
    {
      hide Consistent, IsKnown, Merged, IsAdministratorRoleCode;
      ghost var before := View();
      var user := Find(users, id);
      if user.None? {
        return Some(UserNotFound);
      }
      if IsAdministratorRoleCode(user.value.roleCode) {
        return Some(ActionsFixed);
      }
      var normalized := NormalizeCodes(catalogue, codes);
      if normalized.None? {
        return Some(UnknownAction);
      }
      userActionCodes := userActionCodes[id := normalized.value];
      UpdateUserActionsKeeps(before, catalogue, id, codes);
      return None;
    }

    method ListUserMenus(userID: int) returns (listed: Result<seq<Row<Menu>>, StoreError>)
      ensures listed == StoreSpec.ListUserMenus(View(), userID)
      ensures Consistent(View()) && listed.Ok? ==> SetOf(listed.value) == QueryUserMenus(View(), userID)
    {
      hide Consistent, MenuParents, QueryUserMenus, SetOf;
      var user := Find(users, userID);
      if user.None? {
        return Err(UserNotFound);
      }
      var menuIDs := Granted(userMenuIDs, userID);
      if user.value.departmentID.Some? {
        var department := Find(departments, user.value.departmentID.value);
        if department.Some? && department.value.status == ENABLED {
          menuIDs := menuIDs + Granted(departmentMenuIDs, user.value.departmentID.value);
        }
      }
      if user.value.roleID.Some? {
        var role := Find(roles, user.value.roleID.value);
        if role.Some? && role.value.status == ENABLED {
          menuIDs := menuIDs + Granted(roleMenuIDs, user.value.roleID.value);
        }
      }
      assert menuIDs == Granted(userMenuIDs, userID) + DepartmentGrant(View(), user.value)
        + RoleGrant(View(), user.value);
      var expanded := ExpandAncestors(MenuParents(menus), menuIDs);
      var collected := CollectMenus(menus, expanded);
      if Consistent(View()) {
        UserMenusAgreeWithQuery(View(), userID);
      }
      return Ok(collected);
    }

    method ListUserActionPermissions(catalogue: seq<Definition>, userID: int)
      returns (codes: Result<seq<string>, StoreError>)
      ensures codes == ListUserActions(View(), catalogue, userID)
      ensures codes.Ok? <==> exists user | user in users :: user.id == userID
      ensures codes.Ok? && TrimmedCodes(catalogue) ==>
        && FollowsCatalogue(catalogue, codes.value)
        && forall code :: code in codes.value <==>
             exists d | d in catalogue :: d.code == code && MayUse(View(), userID, d)
    {
      hide Merged, IsAdministratorRoleCode, TrimmedCodes, FollowsCatalogue, MayUse;
      if TrimmedCodes(catalogue) && Find(users, userID).Some? {
        ActionsAreExact(View(), catalogue, userID);
      }
      var user := Find(users, userID);
      if user.None? {
        return Err(UserNotFound);
      }
      if IsAdministratorRoleCode(user.value.roleCode) {
        return Ok(AllCodes(catalogue));
      }
      var roleCodes := [];
      if user.value.roleID.Some? {
        var role := Find(roles, user.value.roleID.value);
        if role.Some? && role.value.status == ENABLED {
          roleCodes := RoleCodes(catalogue, role.value.code);
        }
      }
      var merged := MergeCodes(catalogue, [roleCodes, ActionsOf(View(), userID)]);
      return Ok(merged);
    }

    method GetUserPermissionDetail(catalogue: seq<Definition>, userID: int)
      returns (detail: Result<PermissionDetail, StoreError>)
      ensures detail == StoreSpec.GetUserPermissionDetail(View(), catalogue, userID)
    {
      hide Merged, IsAdministratorRoleCode, MenuParents, Unique, Expand, RoleCodes, AllCodes;
      var user := Find(users, userID);
      if user.None? {
        return Err(UserNotFound);
      }
      var departmentIDs := if user.value.departmentID.Some? then
        Granted(departmentMenuIDs, user.value.departmentID.value) else [];
      var roleIDs := if user.value.roleID.Some? then Granted(roleMenuIDs, user.value.roleID.value) else [];
      var own := Granted(userMenuIDs, userID);
      var effective := DepartmentGrant(View(), user.value) + RoleGrant(View(), user.value) + own;
      var roleActions := if user.value.roleID.Some? && Find(roles, user.value.roleID.value).Some?
                         then RoleCodes(catalogue, Find(roles, user.value.roleID.value).value.code) else [];
      var userActions := MergeCodes(catalogue, [ActionsOf(View(), userID)]);
      var effectiveActions := MergeCodes(catalogue, [userActions]);
      if IsAdministratorRoleCode(user.value.roleCode) {
        effectiveActions := AllCodes(catalogue);
      } else if user.value.roleID.Some? {
        var role := Find(roles, user.value.roleID.value);
        if role.Some? && role.value.status == ENABLED {
          effectiveActions := MergeCodes(catalogue, [roleActions, userActions]);
        }
      }
      var shownDepartment := UniqueIDs(departmentIDs);
      var shownRole := UniqueIDs(roleIDs);
      var shownOwn := UniqueIDs(own);
      var expanded := ExpandAncestors(MenuParents(menus), effective);
      return Ok(PermissionDetail(shownDepartment, shownRole, shownOwn, expanded, roleActions, userActions,
        effectiveActions));
    }
  }

  lemma ConsistentForests(t: Tables)
    requires Consistent(t)
    ensures IsForest(MenuParents(t.menus)) && IsForest(DepartmentParents(t.departments))
  {
  }

  lemma SelfMeets(m: Parents, id: int)
    ensures WalkVerdict(m, id, id).MeetsMoved?
  {
  }
}

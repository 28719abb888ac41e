/**
 What each operation of the in-memory store decides and writes, said of the
 rows themselves: which requests are refused and why, which row is added,
 changed or dropped, and who is granted what afterwards.
 */
module StoreWrites {
  import opened Prelude
  import opened Forest
  import opened Permissions
  import opened StoreSpec
  import opened StoreRows
  import opened StoreInvariant
  import opened StoreAccess
  import opened StoreSeed
  import opened StoreTheorems

  predicate CodeInUse(departments: seq<Row<Department>>, code: string) {
    exists d | d in departments :: EqualFold(d.value.code, code)
  }

  predicate RoleCodeInUse(roles: seq<Row<Role>>, code: string) {
    exists r | r in roles :: EqualFold(r.value.code, code)
  }

  predicate NameInUse(users: seq<Row<User>>, username: string) {
    exists u | u in users :: EqualFold(u.value.username, username)
  }

  function CodeOf(role: Role): string { role.code }

  function NameOf(user: User): string { user.username }

  /** No two rows have keys that a lookup would confuse. */
  ghost predicate Apart<V>(rows: seq<Row<V>>, key: V -> string) {
    forall a, b | a in rows && b in rows :: EqualFold(key(a.value), key(b.value)) ==> a.id == b.id
  }

  ghost predicate NamesOnlyRows(menus: seq<Row<Menu>>, menuIDs: seq<int>) {
    forall id | id in menuIDs :: HasRow(menus, id)
  }

  // `after` grants `owner` exactly the menus of `menuIDs`, each once, and everybody else what `before` does.
  predicate GrantsSet(before: Grants, after: Grants, owner: int, menuIDs: seq<int>) {
    && owner in after && NoDuplicates(after[owner]) && SetOf(after[owner]) == SetOf(menuIDs)
    && after == before[owner := after[owner]]
  }

  // ---- menus

  /** A new menu goes to both administrator roles, the root department and the board office, and to nobody else. */
  lemma CreateMenuWrites(t: Tables, request: MenuRequest)
    requires Consistent(t)
    ensures var outcome := CreateMenu(t, request);
      if request.parentID.Some? && !HasRow(t.menus, request.parentID.value) then outcome == Err(ParentNotFound)
      else
        var menu := Menu(request.name, request.code, request.parentID, request.sort, request.status);
        var id := t.nextMenuID;
        && outcome.Ok?
        && var after := outcome.value;
        && after == t.(menus := t.menus + [Row(id, menu)], nextMenuID := id + 1,
                       departmentMenuIDs := after.departmentMenuIDs, roleMenuIDs := after.roleMenuIDs)
        && (forall k :: SetOf(Granted(after.roleMenuIDs, k)) ==
              SetOf(Granted(t.roleMenuIDs, k)) + if k == 1 || k == 2 then {id} else {})
        && (forall k :: SetOf(Granted(after.departmentMenuIDs, k)) ==
              SetOf(Granted(t.departmentMenuIDs, k)) + if GetsNewMenus(t.departments, k) then {id} else {})
  {
    hide MenusFit, CachesFit, AllGrantsFit, IsForest, GrantDepartment, GrantAdministrators, RolesFit, DepartmentsFit,
      SetOf, Granted;
    if CreateMenu(t, request).Ok? {
      var id := t.nextMenuID;
      var middle := GrantDepartment(t.departments, t.departmentMenuIDs, ROOT_CODE, id);
      forall k ensures SetOf(Granted(CreateMenu(t, request).value.roleMenuIDs, k)) ==
        SetOf(Granted(t.roleMenuIDs, k)) + if k == 1 || k == 2 then {id} else {}
      {
        GrantedToAdministrators(t.roles, t.roleMenuIDs, id, k);
        AdministratorsAreFound(t.roles, t.nextRoleID, k);
      }
      forall k ensures SetOf(Granted(CreateMenu(t, request).value.departmentMenuIDs, k)) ==
        SetOf(Granted(t.departmentMenuIDs, k)) + if GetsNewMenus(t.departments, k) then {id} else {}
      {
        GrantedToDepartment(t.departments, t.departmentMenuIDs, ROOT_CODE, id, k);
        GrantedToDepartment(t.departments, middle, "board-office", id, k);
        BothAreFound(t.departments, t.nextDepartmentID, k);
      }
    }
  }

  predicate GetsNewMenus(departments: seq<Row<Department>>, id: int) {
    exists d | d in departments ::
      d.id == id && (EqualFold(d.value.code, ROOT_CODE) || EqualFold(d.value.code, "board-office"))
  }

  lemma CodeFinds(departments: seq<Row<Department>>, code: string, id: int)
    requires DistinctCodes(departments) && IsTrimmed(code)
    ensures var found := FindDepartmentByCode(departments, code);
      (found.Some? && found.value.id == id) <==>
      exists d | d in departments :: d.id == id && EqualFold(d.value.code, code)
  {
    TrimmedStays(code);
    var found := FindDepartmentByCode(departments, code);
    forall d | d in departments && EqualFold(d.value.code, code) ensures found.Some? && found.value.id == d.id {
      assert EqualFold(d.value.code, found.value.value.code);
    }
  }

  lemma BothAreFound(departments: seq<Row<Department>>, next: int, id: int)
    requires DepartmentsFit(departments, next)
    ensures var root := FindDepartmentByCode(departments, ROOT_CODE);
      var office := FindDepartmentByCode(departments, "board-office");
      GetsNewMenus(departments, id) <==>
        (root.Some? && root.value.id == id) || (office.Some? && office.value.id == id)
  {
    hide FindDepartmentByCode, EqualFold, IsForest, Sound, DistinctCodes;
    CodeFinds(departments, ROOT_CODE, id);
    CodeFinds(departments, "board-office", id);
  }

  /** An accepted update gives the one menu the requested values; at the top any existing menu is accepted. */
  lemma UpdateMenuWrites(t: Tables, id: int, request: MenuRequest)
    ensures var outcome := UpdateMenu(t, id, request);
      && (outcome == Err(MenuNotFound) <==> !HasRow(t.menus, id))
      && (HasRow(t.menus, id) && request.parentID.None? ==> outcome.Ok?)
      && (outcome.Ok? ==>
            var after := outcome.value;
            && after == t.(menus := after.menus)
            && Edited(t.menus, after.menus, id,
                 Menu(request.name, request.code, request.parentID, request.sort, request.status)))
  {
    hide WalkVerdict, MenuParents;
    if HasRow(t.menus, id) {
      ReplaceEdits(t.menus, id, Menu(request.name, request.code, request.parentID, request.sort, request.status));
    }
  }

  /** A menu without children goes, and is taken from everybody it was granted to. */
  lemma DeleteMenuWrites(t: Tables, id: int)
    ensures var outcome := DeleteMenu(t, id);
      if !HasRow(t.menus, id) then outcome == Err(MenuNotFound)
      else if exists m | m in t.menus :: m.value.parentID == Some(id) then outcome == Err(MenuHasChildren)
      else
        && outcome.Ok?
        && var after := outcome.value;
        && after == t.(menus := after.menus, userMenuIDs := after.userMenuIDs,
                       departmentMenuIDs := after.departmentMenuIDs, roleMenuIDs := after.roleMenuIDs)
        && Dropped(t.menus, after.menus, id)
        && TakenAway(t.userMenuIDs, after.userMenuIDs, id)
        && TakenAway(t.departmentMenuIDs, after.departmentMenuIDs, id)
        && TakenAway(t.roleMenuIDs, after.roleMenuIDs, id)
  {
    hide Revoke, TakenAway;
    if DeleteMenu(t, id).Ok? {
      ReplaceEdits(t.menus, id, Find(t.menus, id).value);
      RevokeTakesAway(t.userMenuIDs, id);
      RevokeTakesAway(t.departmentMenuIDs, id);
      RevokeTakesAway(t.roleMenuIDs, id);
    }
  }

  predicate TakenAway(before: Grants, after: Grants, menuID: int) {
    after.Keys == before.Keys && forall k | k in before :: SetOf(after[k]) == SetOf(before[k]) - {menuID}
  }

  lemma RevokeTakesAway(grants: Grants, menuID: int)
    ensures TakenAway(grants, Revoke(grants, menuID), menuID)
  {
  }

  // ---- departments

  // What a new department or role is granted: the first dashboard menu, if there is one.
  ghost predicate IsDashboard(menus: seq<Row<Menu>>, ids: seq<int>) {
    || (ids == [] && forall m | m in menus :: m.value.code != "dashboard")
    || exists i: nat :: FirstDashboard(menus, i) && ids == [menus[i].id]
  }

  predicate FirstDashboard(menus: seq<Row<Menu>>, i: nat) {
    i < |menus| && menus[i].value.code == "dashboard" && forall k | 0 <= k < i :: menus[k].value.code != "dashboard"
  }

  lemma {:induction false} DashboardIsFirst(menus: seq<Row<Menu>>)
    ensures IsDashboard(menus, DashboardMenuIDs(menus))
    decreases |menus|
  {
    if menus != [] && menus[0].value.code == "dashboard" {
      assert FirstDashboard(menus, 0);
    } else if menus != [] {
      DashboardIsFirst(menus[1..]);
      if i: nat :| FirstDashboard(menus[1..], i) && DashboardMenuIDs(menus) == [menus[1..][i].id] {
        assert FirstDashboard(menus, i + 1);
      }
    }
  }

  /** A department with a new code is added; the board office starts with all menus, any other with the dashboard. */
  lemma CreateDepartmentWrites(t: Tables, request: DepartmentRequest)
    ensures var outcome := CreateDepartment(t, request);
      var code := Lower(Trim(request.code));
      if CodeInUse(t.departments, code) then outcome == Err(CodeTaken)
      else if request.parentID.Some? && !HasRow(t.departments, request.parentID.value) then
        outcome == Err(ParentNotFound)
      else
        var id := t.nextDepartmentID;
        var row := Row(id, Department(Trim(request.name), code, request.parentID, request.status));
        && outcome.Ok?
        && var after := outcome.value;
        && after == t.(departments := t.departments + [row], nextDepartmentID := id + 1,
                       departmentMenuIDs := t.departmentMenuIDs[id := Granted(after.departmentMenuIDs, id)])
        && (if code == "board-office" then Granted(after.departmentMenuIDs, id) == IDs(t.menus)
            else IsDashboard(t.menus, Granted(after.departmentMenuIDs, id)))
  {
    hide Lower, Trim, EqualFold, IsDashboard, DashboardMenuIDs, IDs;
    CodeIsTrimmed(request.code);
    DashboardIsFirst(t.menus);
  }

  /**
   A department's update without a parent is refused exactly as said, and an
   accepted one gives the row the requested values and its users the new name.
   */
  lemma UpdateDepartmentWrites(t: Tables, id: int, request: DepartmentRequest)
    requires Consistent(t)
    ensures var outcome := UpdateDepartment(t, id, request);
      var code := Lower(Trim(request.code));
      && (!HasRow(t.departments, id) ==> outcome == Err(DepartmentNotFound))
      && (HasRow(t.departments, id) && request.parentID.None? ==>
            var isRoot := Find(t.departments, id).value.code == ROOT_CODE;
            (outcome.Ok? || outcome.error !in {DepartmentNotFound, RootHasNoParent, ParentIsBelow, ParentNotFound})
            && (outcome == Err(RootCodeFixed) <==> isRoot && code != ROOT_CODE)
            && (outcome == Err(RootStaysEnabled) <==> isRoot && code == ROOT_CODE && request.status != ENABLED)
            && (outcome == Err(CodeTaken) <==>
                  && (isRoot ==> code == ROOT_CODE && request.status == ENABLED)
                  && exists d | d in t.departments :: d.id != id && EqualFold(d.value.code, code)))
  {
    hide MenusFit, RolesFit, CachesFit, AllGrantsFit, IsForest, Sound, WalkVerdict, DepartmentParents, Lower, Trim,
      EqualFold, Replace, RenameDepartment;
    CodeIsTrimmed(request.code);
    if HasRow(t.departments, id) {
      OtherUses(t.departments, id, Lower(Trim(request.code)));
    }
  }

  lemma OtherUses(departments: seq<Row<Department>>, id: int, code: string)
    requires DistinctCodes(departments) && Trim(code) == code
    ensures var taken := FindDepartmentByCode(departments, code);
      (taken.Some? && taken.value.id != id) <==>
      exists d | d in departments :: d.id != id && EqualFold(d.value.code, code)
  {
    var taken := FindDepartmentByCode(departments, code);
    forall d | d in departments && EqualFold(d.value.code, code) ensures taken.Some? && taken.value.id == d.id {
      assert EqualFold(d.value.code, taken.value.value.code);
    }
  }

  // In a consistent store nobody has to be renamed when the name stays.
  lemma RenamedEitherWay(t: Tables, id: int, name: string, i: nat)
    requires CachesFit(t.users, t.roles, t.departments) && Find(t.departments, id).Some? && i < |t.users|
    ensures var renamed := RenameDepartment(t.users, id, name);
      var after := if Find(t.departments, id).value.name != name then renamed else t.users;
      var user := t.users[i].value;
      |after| == |t.users| && after[i] == Row(t.users[i].id,
        if user.departmentID == Some(id) then user.(department := name) else user)
  {
    hide RoleCached;
    assert DepartmentCached(t.users[i].value, t.departments);
  }

  /** Whatever made a department's update acceptable, this is what it writes. */
  lemma UpdatedDepartmentRow(t: Tables, id: int, request: DepartmentRequest)
    requires Consistent(t) && UpdateDepartment(t, id, request).Ok?
    ensures var after := UpdateDepartment(t, id, request).value;
      var row := Department(Trim(request.name), Lower(Trim(request.code)), request.parentID, request.status);
      && after == t.(departments := after.departments, users := after.users)
      && Edited(t.departments, after.departments, id, row)
      && |after.users| == |t.users|
      && forall i | 0 <= i < |t.users| ::
           var user := t.users[i].value;
           after.users[i] == Row(t.users[i].id,
             if user.departmentID == Some(id) then user.(department := Trim(request.name)) else user)
  {
    hide MenusFit, RolesFit, DepartmentsFit, AllGrantsFit, CachesFit, Sound, WalkVerdict, DepartmentParents, Lower,
      Trim, FindDepartmentByCode, EqualFold, Replace, Edited, RenameDepartment;
    var row := Department(Trim(request.name), Lower(Trim(request.code)), request.parentID, request.status);
    assert HasRow(t.departments, id) by { IsThere(t.departments, id); }
    ReplaceEdits(t.departments, id, row);
    forall i: nat | i < |t.users| ensures
      var user := t.users[i].value;
      var after := UpdateDepartment(t, id, request).value.users;
      |after| == |t.users| && after[i] == Row(t.users[i].id,
        if user.departmentID == Some(id) then user.(department := Trim(request.name)) else user)
    {
      RenamedEitherWay(t, id, Trim(request.name), i);
    }
  }

  lemma IsThere<V>(rows: seq<Row<V>>, id: int)
    ensures HasRow(rows, id) <==> Find(rows, id).Some?
  {
  }

  /** An empty department without sub-departments goes, and its grants with it. */
  lemma DeleteDepartmentWrites(t: Tables, id: int)
    ensures var outcome := DeleteDepartment(t, id);
      if !HasRow(t.departments, id) then outcome == Err(DepartmentNotFound)
      else if exists d | d in t.departments :: d.value.parentID == Some(id) then outcome == Err(DepartmentHasChildren)
      else if exists u | u in t.users :: u.value.departmentID == Some(id) then outcome == Err(DepartmentHasUsers)
      else
        && outcome.Ok?
        && var after := outcome.value;
        && after == t.(departments := after.departments, departmentMenuIDs := t.departmentMenuIDs - {id})
        && Dropped(t.departments, after.departments, id)
  {
    hide Dropped;
    if HasRow(t.departments, id) {
      ReplaceEdits(t.departments, id, Find(t.departments, id).value);
    }
  }

  lemma ExistenceAgrees(menus: seq<Row<Menu>>, menuIDs: seq<int>)
    ensures MenusExist(menus, menuIDs) <==> NamesOnlyRows(menus, menuIDs)
  {
    forall id ensures Find(menus, id).Some? <==> HasRow(menus, id) {}
  }

  /** A department is granted exactly the menus asked for; the root department keeps them all. */
  lemma UpdateDepartmentMenusWrites(t: Tables, id: int, menuIDs: seq<int>)
    requires Consistent(t)
    ensures var outcome := UpdateDepartmentMenus(t, id, menuIDs);
      if !HasRow(t.departments, id) then outcome == Err(DepartmentNotFound)
      else if !NamesOnlyRows(t.menus, menuIDs) then outcome == Err(MenuNotFound)
      else if Find(t.departments, id).value.code == ROOT_CODE && SetOf(menuIDs) != SetOf(IDs(t.menus)) then
        outcome == Err(RootKeepsAllMenus)
      else
        && outcome.Ok? && outcome.value == t.(departmentMenuIDs := outcome.value.departmentMenuIDs)
        && GrantsSet(t.departmentMenuIDs, outcome.value.departmentMenuIDs, id, menuIDs)
  {
    hide MenusFit, RolesFit, DepartmentsFit, CachesFit, AllGrantsFit, SetOf, IDs;
    ExistenceAgrees(t.menus, menuIDs);
    if NamesOnlyRows(t.menus, menuIDs) {
      LengthsSuffice(t.menus, menuIDs);
    }
  }

  // ---- roles

  lemma CreateRoleWrites(t: Tables, request: RoleRequest)
    ensures var outcome := CreateRole(t, request);
      var code := Lower(Trim(request.code));
      if RoleCodeInUse(t.roles, code) then outcome == Err(CodeTaken)
      else
        var id := t.nextRoleID;
        && outcome.Ok?
        && var after := outcome.value;
        && after == t.(roles := t.roles + [Row(id, Role(Trim(request.name), code, request.status))],
                       nextRoleID := id + 1,
                       roleMenuIDs := t.roleMenuIDs[id := Granted(after.roleMenuIDs, id)])
        && IsDashboard(t.menus, Granted(after.roleMenuIDs, id))
  {
    hide Lower, Trim, EqualFold, IsDashboard, DashboardMenuIDs;
    CodeIsTrimmed(request.code);
    DashboardIsFirst(t.menus);
  }

  /** A role keeps its code, an administrator role everything; an accepted update reaches every user of the role. */
  lemma UpdateRoleWrites(t: Tables, id: int, request: RoleRequest)
    requires Apart(t.roles, CodeOf)
    ensures var outcome := UpdateRole(t, id, request);
      var code, name := Lower(Trim(request.code)), Trim(request.name);
      if !HasRow(t.roles, id) then outcome == Err(RoleNotFound)
      else if code != Find(t.roles, id).value.code then outcome == Err(RoleCodeFixed)
      else if (code == SUPER_ADMIN && (name != SUPER_ADMIN_NAME || request.status != ENABLED))
              || (code == SYSTEM_ADMIN && (name != SYSTEM_ADMIN_NAME || request.status != ENABLED)) then
        outcome == Err(AdministratorRoleFixed)
      else
        && outcome.Ok?
        && var after := outcome.value;
        && after == t.(roles := after.roles, users := after.users)
        && Edited(t.roles, after.roles, id, Role(name, code, request.status))
        && |after.users| == |t.users|
        && forall i | 0 <= i < |t.users| ::
             var user := t.users[i].value;
             after.users[i] == Row(t.users[i].id,
               if user.roleID == Some(id) then user.(role := name, roleCode := code) else user)
  {
    hide Lower, Trim, EqualFold, Edited, Replace, Apart;
    var code := Lower(Trim(request.code));
    CodeIsTrimmed(request.code);
    if HasRow(t.roles, id) {
      ReplaceEdits(t.roles, id, Role(Trim(request.name), code, request.status));
      if code == Find(t.roles, id).value.code {
        OwnCodeFinds(t.roles, id);
      }
    }
  }

  lemma OwnCodeFinds(roles: seq<Row<Role>>, id: int)
    requires Apart(roles, CodeOf) && HasRow(roles, id)
    requires var code := Find(roles, id).value.code; Trim(code) == code
    ensures var taken := FindRoleByCode(roles, Find(roles, id).value.code); taken.Some? && taken.value.id == id
  {
    var own := Row(id, Find(roles, id).value);
    assert EqualFold(CodeOf(own.value), own.value.code);
    var taken := FindRoleByCode(roles, own.value.code);
    assert EqualFold(CodeOf(taken.value.value), CodeOf(own.value));
  }

  /** A role nobody has goes, except an administrator role. */
  lemma DeleteRoleWrites(t: Tables, id: int)
    requires Consistent(t)
    ensures var outcome := DeleteRole(t, id);
      if !HasRow(t.roles, id) then outcome == Err(RoleNotFound)
      else if id == 1 || id == 2 then outcome == Err(AdministratorRoleStays)
      else if exists u | u in t.users :: u.value.roleID == Some(id) then outcome == Err(RoleHasUsers)
      else
        && outcome.Ok?
        && outcome.value == t.(roles := outcome.value.roles, roleMenuIDs := t.roleMenuIDs - {id})
        && Dropped(t.roles, outcome.value.roles, id)
  {
    hide MenusFit, DepartmentsFit, CachesFit, AllGrantsFit, Sound, IsAdministratorRoleCode, Dropped;
    if HasRow(t.roles, id) {
      ReplaceEdits(t.roles, id, Find(t.roles, id).value);
      AdministratorByID(t, id);
    }
  }

  lemma AdministratorByID(t: Tables, id: int)
    requires Consistent(t) && HasRow(t.roles, id)
    ensures IsAdministratorRoleCode(Find(t.roles, id).value.code) <==> id == 1 || id == 2
  {
    hide MenusFit, DepartmentsFit, CachesFit, AllGrantsFit;
    TrimmedStays(SUPER_ADMIN);
    TrimmedStays(SYSTEM_ADMIN);
    assert Row(id, Find(t.roles, id).value) in t.roles;
  }

  /** A role is granted exactly the menus asked for; an administrator role keeps them all. */
  lemma UpdateRoleMenusWrites(t: Tables, id: int, menuIDs: seq<int>)
    requires Consistent(t)
    ensures var outcome := UpdateRoleMenus(t, id, menuIDs);
      if !HasRow(t.roles, id) then outcome == Err(RoleNotFound)
      else if !NamesOnlyRows(t.menus, menuIDs) then outcome == Err(MenuNotFound)
      else if (id == 1 || id == 2) && SetOf(menuIDs) != SetOf(IDs(t.menus)) then
        outcome == Err(AdministratorKeepsAllMenus)
      else
        && outcome.Ok? && outcome.value == t.(roleMenuIDs := outcome.value.roleMenuIDs)
        && GrantsSet(t.roleMenuIDs, outcome.value.roleMenuIDs, id, menuIDs)
  {
    hide Consistent, IsAdministratorRoleCode, SetOf, IDs;
    ExistenceAgrees(t.menus, menuIDs);
    if HasRow(t.roles, id) {
      AdministratorByID(t, id);
    }
  }

  // ---- users

  // What a user request comes to: references by id, or by the name of the first row that has it.
  ghost predicate Resolves(t: Tables, request: UserRequest, age: int, user: User) {
    && user.username == Trim(request.username) && user.age == age && 0 <= age <= 150
    && user.roleID.Some? && HasRow(t.roles, user.roleID.value)
    && (request.roleID.Some? ==> user.roleID == request.roleID)
    && (request.roleID.None? ==> user.role == Trim(request.role))
    && (exists r | r in t.roles ::
          r.id == user.roleID.value && user.role == r.value.name && user.roleCode == r.value.code)
    && (request.departmentID.Some? ==> user.departmentID == request.departmentID)
    && (request.departmentID.None? ==> user.department == Trim(request.department))
    && (user.departmentID.Some? ==>
          exists d | d in t.departments :: d.id == user.departmentID.value && user.department == d.value.name)
    && (user.departmentID.None? ==> forall d | d in t.departments :: d.value.name != user.department)
  }

  ghost predicate Resolvable(t: Tables, request: UserRequest, age: int) {
    && 0 <= age <= 150
    && (if request.roleID.Some? then HasRow(t.roles, request.roleID.value)
        else exists r | r in t.roles :: r.value.name == Trim(request.role))
    && (request.departmentID.Some? ==> HasRow(t.departments, request.departmentID.value))
  }

  lemma MadeUserResolves(t: Tables, request: UserRequest, age: int)
    ensures MakeUser(t, request, age).Ok? <==> Resolvable(t, request, age)
    ensures MakeUser(t, request, age).Ok? ==> Resolves(t, request, age, MakeUser(t, request, age).value)
    ensures MakeUser(t, request, age) == Err(AgeOutOfRange) ==> !(0 <= age <= 150)
    ensures MakeUser(t, request, age) == Err(DepartmentNotFound) ==>
      request.departmentID.Some? && !HasRow(t.departments, request.departmentID.value)
    ensures MakeUser(t, request, age).Err? ==>
      MakeUser(t, request, age).error in {AgeOutOfRange, DepartmentNotFound, RoleNotFound}
    ensures MakeUser(t, request, age) == Err(RoleNotFound) ==>
      if request.roleID.Some? then !HasRow(t.roles, request.roleID.value)
      else forall r | r in t.roles :: r.value.name != Trim(request.role)
  {
    hide Trim;
    RoleByName(t.roles, Trim(request.role));
    DepartmentByName(t.departments, Trim(request.department));
  }

  lemma {:induction false} RoleByName(roles: seq<Row<Role>>, name: string)
    ensures FindRoleByName(roles, name).Some? <==> exists r | r in roles :: r.value.name == name
    decreases |roles|
  {
    if roles != [] {
      RoleByName(roles[1..], name);
      assert forall r :: r in roles <==> r == roles[0] || r in roles[1..];
    }
  }

  lemma {:induction false} DepartmentByName(departments: seq<Row<Department>>, name: string)
    ensures FindDepartmentByName(departments, name).Some? <==> exists d | d in departments :: d.value.name == name
    decreases |departments|
  {
    if departments != [] {
      DepartmentByName(departments[1..], name);
      assert forall d :: d in departments <==> d == departments[0] || d in departments[1..];
    }
  }

  /** A new user is refused exactly for a taken name or an unresolvable request, and starts without personal menus. */
  lemma CreateUserWrites(t: Tables, request: UserRequest)
    ensures var outcome := CreateUser(t, request);
      var age := if request.age.Some? then request.age.value else 0;
      && (outcome == Err(UsernameTaken) <==> NameInUse(t.users, Trim(request.username)))
      && (outcome.Ok? <==> !NameInUse(t.users, Trim(request.username)) && Resolvable(t, request, age))
      && (outcome.Ok? ==>
            var id, after := t.nextUserID, outcome.value;
            && after == t.(users := after.users, nextUserID := id + 1, userMenuIDs := t.userMenuIDs[id := []])
            && exists user :: Resolves(t, request, age, user) && after.users == t.users + [Row(id, user)])
  {
    hide MakeUser, Resolvable, Resolves, EqualFold, Trim;
    TrimTwice(request.username);
    MadeUserResolves(t, request, if request.age.Some? then request.age.value else 0);
  }

  lemma TrimTwice(s: string)
    ensures Trim(Trim(s)) == Trim(s)
  {
    hide Trim;
    var i, j := TrimIsExact(s);
    TrimmedStays(Trim(s));
  }

  ghost predicate OtherHasName(users: seq<Row<User>>, id: int, username: string) {
    exists u | u in users :: u.id != id && EqualFold(u.value.username, username)
  }

  /** An update keeps the age it does not name, and is refused exactly for the same reasons. */
  lemma UpdateUserWrites(t: Tables, id: int, request: UserRequest)
    requires Apart(t.users, NameOf) && HasRow(t.users, id)
    ensures var outcome := UpdateUser(t, id, request);
      var age := if request.age.Some? then request.age.value else Find(t.users, id).value.age;
      && (outcome == Err(UsernameTaken) <==> OtherHasName(t.users, id, Trim(request.username)))
      && (outcome.Ok? <==> !OtherHasName(t.users, id, Trim(request.username)) && Resolvable(t, request, age))
      && (outcome.Ok? ==>
            var after := outcome.value;
            && after == t.(users := after.users)
            && exists user :: Resolves(t, request, age, user) && Edited(t.users, after.users, id, user))
  {
    hide MakeUser, Resolvable, Resolves, EqualFold, Trim, Edited, Apart, OtherHasName;
    var age := if request.age.Some? then request.age.value else Find(t.users, id).value.age;
    TrimTwice(request.username);
    OtherIsFound(t.users, id, Trim(request.username));
    MadeUserResolves(t, request, age);
    if MakeUser(t, request, age).Ok? {
      ReplaceEdits(t.users, id, MakeUser(t, request, age).value);
    }
  }

  lemma OtherIsFound(users: seq<Row<User>>, id: int, username: string)
    requires Apart(users, NameOf) && Trim(username) == username
    ensures var taken := FindUserByName(users, username);
      OtherHasName(users, id, username) <==> taken.Some? && taken.value.id != id
  {
    var taken := FindUserByName(users, username);
    forall u | u in users && EqualFold(u.value.username, username) ensures taken.Some? && taken.value.id == u.id {
      assert EqualFold(NameOf(u.value), NameOf(taken.value.value));
    }
  }

  /** A user goes together with the personal menus and actions. */
  lemma DeleteUserWrites(t: Tables, id: int)
    ensures var outcome := DeleteUser(t, id);
      if !HasRow(t.users, id) then outcome == Err(UserNotFound)
      else
        && outcome.Ok?
        && outcome.value == t.(users := outcome.value.users, userMenuIDs := t.userMenuIDs - {id},
                               userActionCodes := t.userActionCodes - {id})
        && Dropped(t.users, outcome.value.users, id)
  {
    hide Dropped;
    if HasRow(t.users, id) {
      ReplaceEdits(t.users, id, Find(t.users, id).value);
    }
  }

  /** A user is granted exactly the menus asked for. */
  lemma UpdateUserMenusWrites(t: Tables, id: int, menuIDs: seq<int>)
    ensures var outcome := UpdateUserMenus(t, id, menuIDs);
      if !HasRow(t.users, id) then outcome == Err(UserNotFound)
      else if !NamesOnlyRows(t.menus, menuIDs) then outcome == Err(MenuNotFound)
      else
        && outcome.Ok? && outcome.value == t.(userMenuIDs := outcome.value.userMenuIDs)
        && GrantsSet(t.userMenuIDs, outcome.value.userMenuIDs, id, menuIDs)
  {
    hide SetOf;
    ExistenceAgrees(t.menus, menuIDs);
  }

  /** A user is granted exactly the actions asked for, in catalogue order; an administrator's stay all. */
  lemma UpdateUserActionsWrites(t: Tables, catalogue: seq<Definition>, id: int, codes: seq<string>)
    ensures var outcome := UpdateUserActions(t, catalogue, id, codes);
      if !HasRow(t.users, id) then outcome == Err(UserNotFound)
      else if IsAdministratorRoleCode(Find(t.users, id).value.roleCode) then outcome == Err(ActionsFixed)
      else if exists c | c in codes :: forall d | d in catalogue :: d.code != Trim(c) then
        outcome == Err(UnknownAction)
      else
        && outcome.Ok? && id in outcome.value.userActionCodes
        && var granted := outcome.value.userActionCodes[id];
        && outcome.value == t.(userActionCodes := t.userActionCodes[id := granted])
        && FollowsCatalogue(catalogue, granted)
        && forall code :: code in granted <==> exists c | c in codes :: Trim(c) == code
  {
    hide IsAdministratorRoleCode, Merged, FollowsCatalogue, Trim;
    MergeFollowsCatalogue(catalogue, [codes]);
    forall code ensures code in Merged(catalogue, [codes]) <==>
      Catalogued(catalogue, code) && exists c | c in codes :: Trim(c) == code
    {
      MergedIsExact(catalogue, [codes], code);
      assert codes in [codes];
    }
  }

  // ---- login names and role codes stay apart

  lemma AddedApart<V>(rows: seq<Row<V>>, key: V -> string, row: Row<V>)
    requires Apart(rows, key) && forall r | r in rows :: !EqualFold(key(r.value), key(row.value))
    ensures Apart(rows + [row], key)
  {
    assert forall r | r in rows :: !EqualFold(key(row.value), key(r.value));
  }

  lemma EditedApart<V>(rows: seq<Row<V>>, after: seq<Row<V>>, key: V -> string, id: int, value: V)
    requires NoDuplicates(IDs(rows)) && Apart(rows, key) && Edited(rows, after, id, value)
    requires forall r | r in rows && r.id != id :: !EqualFold(key(r.value), key(value))
    ensures Apart(after, key)
  {
    var i: nat :| i < |rows| && rows[i].id == id && after == rows[i := Row(id, value)];
    forall a, b | a in after && b in after && EqualFold(key(a.value), key(b.value)) ensures a.id == b.id {
      EditedRow(rows, i, value, a);
      EditedRow(rows, i, value, b);
    }
  }

  lemma EditedRow<V>(rows: seq<Row<V>>, i: nat, value: V, row: Row<V>)
    requires NoDuplicates(IDs(rows)) && i < |rows| && row in rows[i := Row(rows[i].id, value)]
    ensures row == Row(rows[i].id, value) || (row in rows && row.id != rows[i].id)
  {
    var k :| 0 <= k < |rows| && rows[i := Row(rows[i].id, value)][k] == row;
    assert IDs(rows)[k] == rows[k].id && IDs(rows)[i] == rows[i].id;
  }

  lemma DroppedApart<V>(rows: seq<Row<V>>, after: seq<Row<V>>, key: V -> string, id: int)
    requires Apart(rows, key) && Dropped(rows, after, id)
    ensures Apart(after, key)
  {
  }

  lemma SameKeysApart<V>(rows: seq<Row<V>>, after: seq<Row<V>>, key: V -> string)
    requires Apart(rows, key) && |after| == |rows|
    requires forall i | 0 <= i < |rows| :: after[i].id == rows[i].id && key(after[i].value) == key(rows[i].value)
    ensures Apart(after, key)
  {
    forall a, b | a in after && b in after && EqualFold(key(a.value), key(b.value)) ensures a.id == b.id {
      var i :| 0 <= i < |after| && after[i] == a;
      var j :| 0 <= j < |after| && after[j] == b;
      assert rows[i] in rows && rows[j] in rows;
    }
  }

  ghost predicate AllApart(t: Tables) {
    Apart(t.roles, CodeOf) && Apart(t.users, NameOf)
  }

  lemma RoleWritesKeepApart(t: Tables, op: Op, catalogue: seq<Definition>)
    requires Consistent(t) && AllApart(t) && Perform(t, catalogue, op).Ok?
    requires op.AddRole? || op.EditRole? || op.DropRole?
    ensures AllApart(Perform(t, catalogue, op).value)
  {
    hide MenusFit, DepartmentsFit, CachesFit, AllGrantsFit, CreateRole, UpdateRole, DeleteRole, EqualFold, Apart,
      Edited, Dropped, IsDashboard, Lower, Trim, IDs, Find;
    match op {
      case AddRole(r) =>
        CreateRoleWrites(t, r);
        AddedApart(t.roles, CodeOf, Row(t.nextRoleID, Role(Trim(r.name), Lower(Trim(r.code)), r.status)));
      case EditRole(id, r) =>
        UpdateRoleWrites(t, id, r);
        var after := UpdateRole(t, id, r).value;
        EditedRoleApart(t.roles, t.nextRoleID, after.roles, id, Role(Trim(r.name), Lower(Trim(r.code)), r.status));
        SameKeysApart(t.users, after.users, NameOf);
      case DropRole(id) =>
        DeleteRoleWrites(t, id);
        DroppedApart(t.roles, DeleteRole(t, id).value.roles, CodeOf, id);
    }
  }

  // The edited role keeps its code, which no other has.
  lemma EditedRoleApart(roles: seq<Row<Role>>, next: int, after: seq<Row<Role>>, id: int, role: Role)
    requires RolesFit(roles, next) && Apart(roles, CodeOf) && HasRow(roles, id)
    requires role.code == Find(roles, id).value.code && Edited(roles, after, id, role)
    ensures Apart(after, CodeOf)
  {
    hide EqualFold, Edited, NoDuplicates;
    var own := Row(id, Find(roles, id).value);
    forall r | r in roles && r.id != id ensures !EqualFold(CodeOf(r.value), CodeOf(role)) {
      assert CodeOf(role) == CodeOf(own.value) && own in roles;
    }
    EditedApart(roles, after, CodeOf, id, role);
  }

  lemma UserWritesKeepApart(t: Tables, op: Op, catalogue: seq<Definition>)
    requires Consistent(t) && AllApart(t) && Perform(t, catalogue, op).Ok?
    requires op.AddUser? || op.EditUser? || op.DropUser?
    ensures AllApart(Perform(t, catalogue, op).value)
  {
    hide MenusFit, DepartmentsFit, RolesFit, CachesFit, AllGrantsFit, CreateUser, UpdateUser, DeleteUser, EqualFold,
      Apart, Edited, Dropped, Trim, IDs, Find, Resolvable;
    match op {
      case AddUser(r) =>
        CreateUserWrites(t, r);
        var age := if r.age.Some? then r.age.value else 0;
        var user :| Resolves(t, r, age, user) && CreateUser(t, r).value.users == t.users + [Row(t.nextUserID, user)];
        AddedApart(t.users, NameOf, Row(t.nextUserID, user));
      case EditUser(id, r) =>
        UserIsThere(t, id, r);
        UpdateUserWrites(t, id, r);
        var after := UpdateUser(t, id, r).value;
        var age := if r.age.Some? then r.age.value else Find(t.users, id).value.age;
        var user :| Resolves(t, r, age, user) && Edited(t.users, after.users, id, user);
        EditedApart(t.users, after.users, NameOf, id, user);
      case DropUser(id) =>
        DeleteUserWrites(t, id);
        DroppedApart(t.users, DeleteUser(t, id).value.users, NameOf, id);
    }
  }

  lemma UserIsThere(t: Tables, id: int, request: UserRequest)
    requires UpdateUser(t, id, request).Ok?
    ensures HasRow(t.users, id)
  {
  }

  lemma PerformKeepsApart(t: Tables, catalogue: seq<Definition>, op: Op)
    requires Consistent(t) && AllApart(t) && Perform(t, catalogue, op).Ok?
    ensures AllApart(Perform(t, catalogue, op).value)
  {
    hide Consistent, Apart;
    if op.AddRole? || op.EditRole? || op.DropRole? {
      RoleWritesKeepApart(t, op, catalogue);
    } else if op.AddUser? || op.EditUser? || op.DropUser? {
      UserWritesKeepApart(t, op, catalogue);
    } else if op.EditDepartment? {
      UpdatedDepartmentRow(t, op.id, op.department);
      SameKeysApart(t.users, Perform(t, catalogue, op).value.users, NameOf);
    } else {
      OthersKeepRows(t, catalogue, op);
    }
  }

  lemma OthersKeepRows(t: Tables, catalogue: seq<Definition>, op: Op)
    requires Perform(t, catalogue, op).Ok?
    requires !op.AddRole? && !op.EditRole? && !op.DropRole? && !op.AddUser? && !op.EditUser? && !op.DropUser?
    requires !op.EditDepartment?
    ensures Perform(t, catalogue, op).value.roles == t.roles && Perform(t, catalogue, op).value.users == t.users
  {
    hide Find, EqualFold, Lower, Trim, FindDepartmentByCode, Merged, Unique, Replace, Remove, WalkVerdict, MenuParents,
      GrantDepartment, GrantAdministrators, Revoke, DashboardMenuIDs, IDs;
  }

  lemma SeedIsApart()
    ensures AllApart(SEED)
  {
    hide Apart, EqualFold;
    SeedRoleCodesDiffer();
    SeedNamesDiffer();
    FirstLettersTell(SEED_ROLES, CodeOf);
    FirstLettersTell(SEED_USERS, NameOf);
  }

  lemma SeedRoleCodesDiffer()
    ensures forall i, j | 0 <= i < j < |SEED_ROLES| ::
      Differ(CodeOf(SEED_ROLES[i].value), CodeOf(SEED_ROLES[j].value))
  {
  }

  lemma SeedNamesDiffer()
    ensures forall i, j | 0 <= i < j < |SEED_USERS| ::
      Differ(NameOf(SEED_USERS[i].value), NameOf(SEED_USERS[j].value))
  {
  }

  // Of different lengths, or with first letters that differ in every case.
  predicate Differ(a: string, b: string) {
    |a| != |b| || (a != [] && b != [] && FoldChar(a[0]) != FoldChar(b[0]))
  }

  lemma DifferentFold(a: string, b: string)
    ensures Differ(a, b) || Differ(b, a) ==> !EqualFold(a, b)
  {
  }

  lemma FirstLettersTell<V>(rows: seq<Row<V>>, key: V -> string)
    requires forall i, j | 0 <= i < j < |rows| :: Differ(key(rows[i].value), key(rows[j].value))
    ensures Apart(rows, key)
  {
    forall a, b | a in rows && b in rows && EqualFold(key(a.value), key(b.value)) ensures a.id == b.id {
      var i :| 0 <= i < |rows| && rows[i] == a;
      var j :| 0 <= j < |rows| && rows[j] == b;
      DifferentFold(key(a.value), key(b.value));
    }
  }

  /** In every state any sequence of operations reaches, no two users share a login name and no two roles a code. */
  lemma {:induction false} RunKeepsApart(catalogue: seq<Definition>, ops: seq<Op>)
    ensures AllApart(Run(SEED, catalogue, ops))
    decreases |ops|
  {
    hide Consistent, Perform, Apart;
    if ops == [] {
      SeedIsApart();
    } else {
      var before := Run(SEED, catalogue, ops[..|ops| - 1]);
      RunIsConsistent(catalogue, ops[..|ops| - 1]);
      RunKeepsApart(catalogue, ops[..|ops| - 1]);
      if Perform(before, catalogue, ops[|ops| - 1]).Ok? {
        PerformKeepsApart(before, catalogue, ops[|ops| - 1]);
      }
    }
  }
}

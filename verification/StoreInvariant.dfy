/** What every operation of the in-memory store keeps. */
module StoreInvariant {
  import opened Prelude
  import opened Forest
  import opened Permissions
  import opened StoreSpec
  import opened StoreRows

  const ROOT_CODE := "huajian"
  const ROOT_DEPARTMENT := 1
  const SUPER_ADMIN_NAME := "超级管理员"
  const SYSTEM_ADMIN_NAME := "系统管理员"

  ghost predicate MenusFit(menus: seq<Row<Menu>>, next: int) {
    Sound(menus, next) && IsForest(MenuParents(menus))
  }

  /** No two departments carry codes that a lookup would confuse. */
  predicate DistinctCodes(departments: seq<Row<Department>>) {
    forall a, b | a in departments && b in departments :: EqualFold(a.value.code, b.value.code) ==> a.id == b.id
  }

  ghost predicate DepartmentsFit(departments: seq<Row<Department>>, next: int) {
    && Sound(departments, next) && IsForest(DepartmentParents(departments))
    && DistinctCodes(departments)
    && ROOT_DEPARTMENT < next
    && (var root := Find(departments, ROOT_DEPARTMENT);
        root.Some? ==> root.value.code == ROOT_CODE && root.value.parentID.None? && root.value.status == ENABLED)
  }

  /** The two seeded administrator roles are as seeded, and no other role carries an administrator code. */
  ghost predicate RolesFit(roles: seq<Row<Role>>, next: int) {
    && Sound(roles, next)
    && Find(roles, 1) == Some(Role(SUPER_ADMIN_NAME, SUPER_ADMIN, ENABLED))
    && Find(roles, 2) == Some(Role(SYSTEM_ADMIN_NAME, SYSTEM_ADMIN, ENABLED))
    && forall r | r in roles :: IsAdministratorRoleCode(r.value.code) ==> r.id == 1 || r.id == 2
  }

  predicate RoleCached(u: User, roles: seq<Row<Role>>) {
    if u.roleID.None? then u.roleCode == ""
    else
      var role := Find(roles, u.roleID.value);
      role.Some? && u.role == role.value.name && u.roleCode == role.value.code
  }

  predicate DepartmentCached(u: User, departments: seq<Row<Department>>) {
    u.departmentID.Some? ==>
      var department := Find(departments, u.departmentID.value);
      department.Some? && u.department == department.value.name
  }

  predicate CachesFit(users: seq<Row<User>>, roles: seq<Row<Role>>, departments: seq<Row<Department>>) {
    && (forall u | u in users :: RoleCached(u.value, roles))
    && (forall u | u in users :: DepartmentCached(u.value, departments))
  }

  /** Grants belong to rows that exist and name menus that exist. */
  predicate GrantsFit(grants: Grants, owners: set<int>, menus: set<int>) {
    grants.Keys <= owners && forall k | k in grants :: SetOf(grants[k]) <= menus
  }

  predicate HoldsAll(grants: Grants, id: int, menus: set<int>) {
    SetOf(Granted(grants, id)) == menus
  }

  ghost predicate AllGrantsFit(t: Tables) {
    var menus := SetOf(IDs(t.menus));
    && GrantsFit(t.userMenuIDs, SetOf(IDs(t.users)), menus)
    && GrantsFit(t.departmentMenuIDs, SetOf(IDs(t.departments)), menus)
    && GrantsFit(t.roleMenuIDs, SetOf(IDs(t.roles)), menus)
    && t.userActionCodes.Keys <= SetOf(IDs(t.users))
    && HoldsAll(t.roleMenuIDs, 1, menus) && HoldsAll(t.roleMenuIDs, 2, menus)
    && (Find(t.departments, ROOT_DEPARTMENT).Some? ==> HoldsAll(t.departmentMenuIDs, ROOT_DEPARTMENT, menus))
  }

  ghost predicate Consistent(t: Tables) {
    && MenusFit(t.menus, t.nextMenuID)
    && DepartmentsFit(t.departments, t.nextDepartmentID)
    && RolesFit(t.roles, t.nextRoleID)
    && Sound(t.users, t.nextUserID)
    && CachesFit(t.users, t.roles, t.departments)
    && AllGrantsFit(t)
  }

  // ---- menus

  lemma Appended(grants: Grants, id: int, menuID: int, k: int)
    ensures SetOf(Granted(Append(grants, id, menuID), k)) ==
      SetOf(Granted(grants, k)) + if k == id then {menuID} else {}
  {
  }

  lemma GrantedToDepartment(departments: seq<Row<Department>>, grants: Grants, code: string, menuID: int, k: int)
    ensures SetOf(Granted(GrantDepartment(departments, grants, code, menuID), k)) ==
      var found := FindDepartmentByCode(departments, code);
      SetOf(Granted(grants, k)) + if found.Some? && found.value.id == k then {menuID} else {}
    ensures GrantDepartment(departments, grants, code, menuID).Keys <= grants.Keys + SetOf(IDs(departments))
  {
  }

  lemma {:induction false} GrantedToAdministrators(roles: seq<Row<Role>>, grants: Grants, menuID: int, k: int)
    ensures SetOf(Granted(GrantAdministrators(roles, grants, menuID), k)) ==
      SetOf(Granted(grants, k)) +
      if exists r | r in roles :: r.id == k && IsAdministratorRoleCode(r.value.code) then {menuID} else {}
    ensures GrantAdministrators(roles, grants, menuID).Keys <= grants.Keys + SetOf(IDs(roles))
    decreases |roles|
  {
    if roles != [] {
      var next := if IsAdministratorRoleCode(roles[0].value.code) then Append(grants, roles[0].id, menuID) else grants;
      Appended(grants, roles[0].id, menuID, k);
      GrantedToAdministrators(roles[1..], next, menuID, k);
      assert forall r :: r in roles <==> r == roles[0] || r in roles[1..];
      IDsTail(roles);
      assert IDs(roles)[0] == roles[0].id;
    }
  }

  /** Grants that grow at most by `menuID` fit the menus with `menuID` added. */
  lemma GrownGrantsFit(before: Grants, after: Grants, owners: set<int>, menus: set<int>, menuID: int)
    requires GrantsFit(before, owners, menus) && after.Keys <= owners
    requires forall k :: SetOf(Granted(after, k)) <= SetOf(Granted(before, k)) + {menuID}
    ensures GrantsFit(after, owners, menus + {menuID})
  {
    forall k | k in after ensures SetOf(after[k]) <= menus + {menuID} {
      assert SetOf(Granted(after, k)) <= SetOf(Granted(before, k)) + {menuID};
    }
  }

  lemma RootIsFound(departments: seq<Row<Department>>, next: int)
    requires DepartmentsFit(departments, next) && Find(departments, ROOT_DEPARTMENT).Some?
    ensures FindDepartmentByCode(departments, ROOT_CODE) ==
      Some(Row(ROOT_DEPARTMENT, Find(departments, ROOT_DEPARTMENT).value))
  {
    var root := Row(ROOT_DEPARTMENT, Find(departments, ROOT_DEPARTMENT).value);
    TrimmedStays(ROOT_CODE);
    assert EqualFold(root.value.code, ROOT_CODE);
    var found := FindDepartmentByCode(departments, ROOT_CODE);
    assert EqualFold(root.value.code, found.value.value.code);
    FindRow(departments, found.value);
  }

  lemma AdministratorsAreFound(roles: seq<Row<Role>>, next: int, k: int)
    requires RolesFit(roles, next)
    ensures (exists r | r in roles :: r.id == k && IsAdministratorRoleCode(r.value.code)) <==> k == 1 || k == 2
  {
    TrimmedStays(SUPER_ADMIN);
    TrimmedStays(SYSTEM_ADMIN);
    assert Row(1, Find(roles, 1).value) in roles && Row(2, Find(roles, 2).value) in roles;
  }

  lemma CreateMenuDepartmentGrants(t: Tables, menus: set<int>, menuID: int)
    requires DepartmentsFit(t.departments, t.nextDepartmentID)
    requires GrantsFit(t.departmentMenuIDs, SetOf(IDs(t.departments)), menus)
    requires Find(t.departments, ROOT_DEPARTMENT).Some? ==> HoldsAll(t.departmentMenuIDs, ROOT_DEPARTMENT, menus)
    ensures var after := GrantDepartment(t.departments,
      GrantDepartment(t.departments, t.departmentMenuIDs, ROOT_CODE, menuID), "board-office", menuID);
      && GrantsFit(after, SetOf(IDs(t.departments)), menus + {menuID})
      && (Find(t.departments, ROOT_DEPARTMENT).Some? ==> HoldsAll(after, ROOT_DEPARTMENT, menus + {menuID}))
  {
    hide GrantDepartment, FindDepartmentByCode, DepartmentsFit;
    var middle := GrantDepartment(t.departments, t.departmentMenuIDs, ROOT_CODE, menuID);
    var after := GrantDepartment(t.departments, middle, "board-office", menuID);
    forall k ensures SetOf(Granted(after, k)) <= SetOf(Granted(t.departmentMenuIDs, k)) + {menuID} {
      GrantedToDepartment(t.departments, t.departmentMenuIDs, ROOT_CODE, menuID, k);
      GrantedToDepartment(t.departments, middle, "board-office", menuID, k);
    }
    GrantedToDepartment(t.departments, t.departmentMenuIDs, ROOT_CODE, menuID, ROOT_DEPARTMENT);
    GrantedToDepartment(t.departments, middle, "board-office", menuID, ROOT_DEPARTMENT);
    GrownGrantsFit(t.departmentMenuIDs, after, SetOf(IDs(t.departments)), menus, menuID);
    if Find(t.departments, ROOT_DEPARTMENT).Some? {
      RootIsFound(t.departments, t.nextDepartmentID);
    }
  }

  lemma CreateMenuRoleGrants(t: Tables, menus: set<int>, menuID: int)
    requires RolesFit(t.roles, t.nextRoleID)
    requires GrantsFit(t.roleMenuIDs, SetOf(IDs(t.roles)), menus)
    requires HoldsAll(t.roleMenuIDs, 1, menus) && HoldsAll(t.roleMenuIDs, 2, menus)
    ensures var after := GrantAdministrators(t.roles, t.roleMenuIDs, menuID);
      && GrantsFit(after, SetOf(IDs(t.roles)), menus + {menuID})
      && HoldsAll(after, 1, menus + {menuID}) && HoldsAll(after, 2, menus + {menuID})
  {
    hide GrantAdministrators, RolesFit, IsAdministratorRoleCode;
    var after := GrantAdministrators(t.roles, t.roleMenuIDs, menuID);
    forall k ensures SetOf(Granted(after, k)) ==
      SetOf(Granted(t.roleMenuIDs, k)) + if k == 1 || k == 2 then {menuID} else {}
    {
      GrantedToAdministrators(t.roles, t.roleMenuIDs, menuID, k);
      AdministratorsAreFound(t.roles, t.nextRoleID, k);
    }
    GrantedToAdministrators(t.roles, t.roleMenuIDs, menuID, 1);
    GrownGrantsFit(t.roleMenuIDs, after, SetOf(IDs(t.roles)), menus, menuID);
  }

  lemma CreateMenuGrants(t: Tables, request: MenuRequest)
    requires Consistent(t) && CreateMenu(t, request).Ok?
    ensures AllGrantsFit(CreateMenu(t, request).value)
  {
    hide GrantDepartment, GrantAdministrators, HoldsAll, RolesFit, DepartmentsFit, CachesFit, IsForest;
    var menus := SetOf(IDs(t.menus));
    var menu := Menu(request.name, request.code, request.parentID, request.sort, request.status);
    AppendSound(t.menus, t.nextMenuID, menu);
    assert SetOf(IDs(t.menus + [Row(t.nextMenuID, menu)])) == menus + {t.nextMenuID};
    CreateMenuDepartmentGrants(t, menus, t.nextMenuID);
    CreateMenuRoleGrants(t, menus, t.nextMenuID);
    GrownGrantsFit(t.userMenuIDs, t.userMenuIDs, SetOf(IDs(t.users)), menus, t.nextMenuID);
  }

  lemma CreateMenuKeeps(t: Tables, request: MenuRequest)
    requires Consistent(t) && CreateMenu(t, request).Ok?
    ensures Consistent(CreateMenu(t, request).value)
  {
    var menu := Menu(request.name, request.code, request.parentID, request.sort, request.status);
    AppendSound(t.menus, t.nextMenuID, menu);
    AppendMenuParents(t.menus, t.nextMenuID, menu);
    FoundID(t.menus, t.nextMenuID);
    if request.parentID.Some? {
      FoundID(t.menus, request.parentID.value);
    }
    AddKeepsForest(MenuParents(t.menus), t.nextMenuID, request.parentID);
    CreateMenuGrants(t, request);
  }

  lemma MenuInParents(menus: seq<Row<Menu>>, id: int)
    ensures id in MenuParents(menus) <==> Find(menus, id).Some?
  {
  }

  lemma MovedMenuFits(menus: seq<Row<Menu>>, next: int, id: int, menu: Menu)
    requires MenusFit(menus, next) && Find(menus, id).Some?
    requires menu.parentID.Some? ==> WalkVerdict(MenuParents(menus), id, menu.parentID.value).Accepted?
    ensures MenusFit(Replace(menus, id, menu), next) && IDs(Replace(menus, id, menu)) == IDs(menus)
  {
    hide MenuParents, NoDuplicates, Replace;
    ReplaceSound(menus, next, id, menu);
    ReplaceMenuParents(menus, id, menu);
    MenuInParents(menus, id);
    MoveKeepsForest(MenuParents(menus), id, menu.parentID);
  }

  lemma UpdateMenuKeeps(t: Tables, id: int, request: MenuRequest)
    requires Consistent(t) && UpdateMenu(t, id, request).Ok?
    ensures Consistent(UpdateMenu(t, id, request).value)
  {
    hide MenusFit, DepartmentsFit, RolesFit, CachesFit, Sound, GrantsFit, HoldsAll, WalkVerdict;
    MovedMenuFits(t.menus, t.nextMenuID, id,
      Menu(request.name, request.code, request.parentID, request.sort, request.status));
  }

  lemma Revoked(grants: Grants, menuID: int, k: int)
    ensures SetOf(Granted(Revoke(grants, menuID), k)) == SetOf(Granted(grants, k)) - {menuID}
  {
  }

  lemma RevokedGrantsFit(grants: Grants, owners: set<int>, menus: set<int>, menuID: int)
    requires GrantsFit(grants, owners, menus)
    ensures GrantsFit(Revoke(grants, menuID), owners, menus - {menuID})
  {
  }

  lemma DeleteMenuKeeps(t: Tables, id: int)
    requires Consistent(t) && DeleteMenu(t, id).Ok?
    ensures Consistent(DeleteMenu(t, id).value)
  {
    RemoveSound(t.menus, t.nextMenuID, id);
    RemoveMenuParents(t.menus, t.nextMenuID, id);
    NoChildInTable(t.menus, id);
    RemoveKeepsForest(MenuParents(t.menus), id);
    var menus := SetOf(IDs(t.menus));
    RevokedGrantsFit(t.userMenuIDs, SetOf(IDs(t.users)), menus, id);
    RevokedGrantsFit(t.departmentMenuIDs, SetOf(IDs(t.departments)), menus, id);
    RevokedGrantsFit(t.roleMenuIDs, SetOf(IDs(t.roles)), menus, id);
    Revoked(t.roleMenuIDs, id, 1);
    Revoked(t.roleMenuIDs, id, 2);
    Revoked(t.departmentMenuIDs, id, ROOT_DEPARTMENT);
  }

  // ---- grants set as a whole

  lemma GrantSet(grants: Grants, owners: set<int>, menus: set<int>, id: int, ids: seq<int>)
    requires GrantsFit(grants, owners, menus) && SetOf(ids) <= menus
    ensures GrantsFit(grants[id := ids], owners + {id}, menus)
    ensures forall k | k != id :: Granted(grants[id := ids], k) == Granted(grants, k)
    ensures Granted(grants[id := ids], id) == ids
  {
  }

  lemma GrantDropped(grants: Grants, owners: set<int>, menus: set<int>, id: int)
    requires GrantsFit(grants, owners, menus)
    ensures GrantsFit(grants - {id}, owners - {id}, menus)
    ensures forall k | k != id :: Granted(grants - {id}, k) == Granted(grants, k)
  {
  }

  lemma RequestedMenusExist(menus: seq<Row<Menu>>, ids: seq<int>)
    requires MenusExist(menus, ids)
    ensures SetOf(Unique(ids)) <= SetOf(IDs(menus))
  {
    forall id | id in Unique(ids) ensures id in IDs(menus) {
      assert id in SetOf(ids);
      FoundID(menus, id);
    }
  }

  lemma {:induction false} DashboardExists(menus: seq<Row<Menu>>)
    ensures SetOf(DashboardMenuIDs(menus)) <= SetOf(IDs(menus))
    decreases |menus|
  {
    if menus != [] {
      IDsTail(menus);
      assert IDs(menus)[0] == menus[0].id;
      DashboardExists(menus[1..]);
    }
  }

  lemma UpdateUserMenusKeeps(t: Tables, id: int, menuIDs: seq<int>)
    requires Consistent(t) && UpdateUserMenus(t, id, menuIDs).Ok?
    ensures Consistent(UpdateUserMenus(t, id, menuIDs).value)
  {
    hide MenusFit, DepartmentsFit, RolesFit, CachesFit, Sound;
    RequestedMenusExist(t.menus, menuIDs);
    FoundID(t.users, id);
    GrantSet(t.userMenuIDs, SetOf(IDs(t.users)), SetOf(IDs(t.menus)), id, Unique(menuIDs));
    assert SetOf(IDs(t.users)) + {id} == SetOf(IDs(t.users));
  }

  lemma UpdateUserActionsKeeps(t: Tables, catalogue: seq<Definition>, id: int, codes: seq<string>)
    requires Consistent(t) && UpdateUserActions(t, catalogue, id, codes).Ok?
    ensures Consistent(UpdateUserActions(t, catalogue, id, codes).value)
  {
    hide MenusFit, DepartmentsFit, RolesFit, CachesFit, Sound, GrantsFit, HoldsAll, Merged;
    FoundID(t.users, id);
  }

  /** The length comparison is enough: a root department that keeps as many menus as there are keeps them all. */
  lemma UpdateDepartmentMenusKeeps(t: Tables, id: int, menuIDs: seq<int>)
    requires Consistent(t) && UpdateDepartmentMenus(t, id, menuIDs).Ok?
    ensures Consistent(UpdateDepartmentMenus(t, id, menuIDs).value)
  {
    hide MenusFit, DistinctCodes, IsForest, RolesFit, CachesFit, Sound;
    RequestedMenusExist(t.menus, menuIDs);
    FoundID(t.departments, id);
    GrantSet(t.departmentMenuIDs, SetOf(IDs(t.departments)), SetOf(IDs(t.menus)), id, Unique(menuIDs));
    assert SetOf(IDs(t.departments)) + {id} == SetOf(IDs(t.departments));
    if id == ROOT_DEPARTMENT {
      LengthsDecide(Unique(menuIDs), IDs(t.menus));
    }
  }

  lemma SeededCodes()
    ensures IsAdministratorRoleCode(SUPER_ADMIN) && IsAdministratorRoleCode(SYSTEM_ADMIN)
  {
    TrimmedStays(SUPER_ADMIN);
    TrimmedStays(SYSTEM_ADMIN);
  }

  lemma UpdateRoleMenusKeeps(t: Tables, id: int, menuIDs: seq<int>)
    requires Consistent(t) && UpdateRoleMenus(t, id, menuIDs).Ok?
    ensures Consistent(UpdateRoleMenus(t, id, menuIDs).value)
  {
    hide MenusFit, DepartmentsFit, CachesFit, Sound, IsAdministratorRoleCode, MenusExist, GrantsFit, Find;
    SeededCodes();
    RequestedMenusExist(t.menus, menuIDs);
    GrantSet(t.roleMenuIDs, SetOf(IDs(t.roles)), SetOf(IDs(t.menus)), id, Unique(menuIDs));
    FoundID(t.roles, id);
    assert SetOf(IDs(t.roles)) + {id} == SetOf(IDs(t.roles));
  }

  // ---- departments

  lemma AddedDepartmentFits(departments: seq<Row<Department>>, next: int, department: Department)
    requires DepartmentsFit(departments, next) && Trim(department.code) == department.code
    requires FindDepartmentByCode(departments, department.code).None?
    requires department.parentID.Some? ==> Find(departments, department.parentID.value).Some?
    ensures DepartmentsFit(departments + [Row(next, department)], next + 1)
  {
    hide NoDuplicates, EqualFold, DepartmentParents;
    AppendSound(departments, next, department);
    AppendDepartmentParents(departments, next, department);
    DepartmentInParents(departments, next);
    if department.parentID.Some? {
      DepartmentInParents(departments, department.parentID.value);
    }
    AddKeepsForest(DepartmentParents(departments), next, department.parentID);
    FindAppended(departments, Row(next, department), ROOT_DEPARTMENT);
    AddedCodeIsDistinct(departments, Row(next, department));
  }

  lemma DepartmentInParents(departments: seq<Row<Department>>, id: int)
    ensures id in DepartmentParents(departments) <==> Find(departments, id).Some?
  {
  }

  lemma AddedCodeIsDistinct(departments: seq<Row<Department>>, row: Row<Department>)
    requires DistinctCodes(departments) && Trim(row.value.code) == row.value.code
    requires FindDepartmentByCode(departments, row.value.code).None?
    ensures DistinctCodes(departments + [row])
  {
  }

  lemma DepartmentAddedForUsers(users: seq<Row<User>>, departments: seq<Row<Department>>, row: Row<Department>)
    requires forall u | u in users :: DepartmentCached(u.value, departments)
    ensures forall u | u in users :: DepartmentCached(u.value, departments + [row])
  {
    forall u | u in users ensures DepartmentCached(u.value, departments + [row]) {
      if u.value.departmentID.Some? {
        FindAppended(departments, row, u.value.departmentID.value);
      }
    }
  }

  lemma CreateDepartmentRows(t: Tables, request: DepartmentRequest)
    requires Consistent(t) && CreateDepartment(t, request).Ok?
    ensures var t' := CreateDepartment(t, request).value;
      && DepartmentsFit(t'.departments, t'.nextDepartmentID)
      && SetOf(IDs(t'.departments)) == SetOf(IDs(t.departments)) + {t.nextDepartmentID}
      && CachesFit(t.users, t.roles, t'.departments)
  {
    hide MenusFit, RolesFit, AllGrantsFit, RoleCached, DepartmentCached, NoDuplicates, IsForest, DistinctCodes,
      FindDepartmentByCode, Trim, Lower;
    var department :=
      Department(Trim(request.name), Lower(Trim(request.code)), request.parentID, request.status);
    CodeIsTrimmed(request.code);
    AddedDepartmentFits(t.departments, t.nextDepartmentID, department);
    AppendSound(t.departments, t.nextDepartmentID, department);
    DepartmentAddedForUsers(t.users, t.departments, Row(t.nextDepartmentID, department));
  }

  lemma CreateDepartmentKeeps(t: Tables, request: DepartmentRequest)
    requires Consistent(t) && CreateDepartment(t, request).Ok?
    ensures Consistent(CreateDepartment(t, request).value)
  {
    var id := t.nextDepartmentID;
    var t' := CreateDepartment(t, request).value;
    CreateDepartmentRows(t, request);
    DashboardExists(t.menus);
    GrantSet(t.departmentMenuIDs, SetOf(IDs(t.departments)), SetOf(IDs(t.menus)), id, t'.departmentMenuIDs[id]);
    FindAppended(t.departments, t'.departments[|t.departments|], ROOT_DEPARTMENT);
  }

  lemma MovedDepartmentFits(departments: seq<Row<Department>>, next: int, id: int, department: Department)
    requires Sound(departments, next) && IsForest(DepartmentParents(departments)) && Find(departments, id).Some?
    requires department.parentID.Some? ==>
      WalkVerdict(DepartmentParents(departments), id, department.parentID.value).Accepted?
    ensures var after := Replace(departments, id, department);
      Sound(after, next) && IsForest(DepartmentParents(after)) && IDs(after) == IDs(departments)
  {
    hide DepartmentParents, NoDuplicates, Replace;
    ReplaceSound(departments, next, id, department);
    ReplaceDepartmentParents(departments, id, department);
    DepartmentInParents(departments, id);
    MoveKeepsForest(DepartmentParents(departments), id, department.parentID);
  }

  lemma RecodedDepartmentFits(departments: seq<Row<Department>>, next: int, id: int, department: Department)
    requires Sound(departments, next) && DistinctCodes(departments) && Trim(department.code) == department.code
    requires var taken := FindDepartmentByCode(departments, department.code); taken.Some? ==> taken.value.id == id
    ensures DistinctCodes(Replace(departments, id, department))
  {
    hide NoDuplicates, EqualFold, FindDepartmentByCode, Trim;
    var after := Replace(departments, id, department);
    forall a, b | a in after && b in after && EqualFold(a.value.code, b.value.code) ensures a.id == b.id {
      ReplacedRow(departments, id, department, a);
      ReplacedRow(departments, id, department, b);
      if a.id != id && b.id == id {
        CodeStaysDistinct(departments, id, department.code, a);
      } else if a.id == id && b.id != id {
        CodeStaysDistinct(departments, id, department.code, b);
      }
    }
  }

  lemma UpdateDepartmentRows(t: Tables, id: int, request: DepartmentRequest)
    requires Consistent(t) && UpdateDepartment(t, id, request).Ok?
    ensures var t' := UpdateDepartment(t, id, request).value;
      DepartmentsFit(t'.departments, t'.nextDepartmentID) && IDs(t'.departments) == IDs(t.departments)
  {
    hide MenusFit, RolesFit, AllGrantsFit, CachesFit, Sound, EqualFold, IsForest, DistinctCodes, Trim, Lower,
      WalkVerdict, DepartmentParents;
    var department :=
      Department(Trim(request.name), Lower(Trim(request.code)), request.parentID, request.status);
    MovedDepartmentFits(t.departments, t.nextDepartmentID, id, department);
    CodeIsTrimmed(request.code);
    RecodedDepartmentFits(t.departments, t.nextDepartmentID, id, department);
    FindReplaced(t.departments, id, department, ROOT_DEPARTMENT);
  }

  // When the first department with this code is the updated one or none, no other department has it.
  lemma CodeStaysDistinct(departments: seq<Row<Department>>, id: int, code: string, other: Row<Department>)
    requires DistinctCodes(departments) && Trim(code) == code
    requires other in departments && other.id != id
    requires var taken := FindDepartmentByCode(departments, code); taken.Some? ==> taken.value.id == id
    ensures !EqualFold(other.value.code, code) && !EqualFold(code, other.value.code)
  {
  }

  lemma RenamedUsers(users: seq<Row<User>>, users': seq<Row<User>>)
    requires |users| == |users'| && forall i | 0 <= i < |users| :: users'[i].id == users[i].id
    ensures IDs(users') == IDs(users)
  {
  }

  lemma DepartmentRenamedForUsers(users: seq<Row<User>>, departments: seq<Row<Department>>, id: int,
    department: Department)
    requires forall u | u in users :: DepartmentCached(u.value, departments)
    requires Find(departments, id).Some?
    ensures forall u | u in RenameDepartment(users, id, department.name) ::
      DepartmentCached(u.value, Replace(departments, id, department))
    ensures Find(departments, id).value.name == department.name ==>
      forall u | u in users :: DepartmentCached(u.value, Replace(departments, id, department))
  {
    var renamed := RenameDepartment(users, id, department.name);
    forall i | 0 <= i < |users|
      ensures DepartmentCached(renamed[i].value, Replace(departments, id, department))
      ensures Find(departments, id).value.name == department.name ==>
        DepartmentCached(users[i].value, Replace(departments, id, department))
    {
      assert DepartmentCached(users[i].value, departments);
      if users[i].value.departmentID.Some? {
        FindReplaced(departments, id, department, users[i].value.departmentID.value);
      }
    }
  }

  lemma UpdateDepartmentUsers(t: Tables, id: int, request: DepartmentRequest)
    requires Consistent(t) && UpdateDepartment(t, id, request).Ok?
    ensures var t' := UpdateDepartment(t, id, request).value;
      && Sound(t'.users, t'.nextUserID) && IDs(t'.users) == IDs(t.users)
      && CachesFit(t'.users, t'.roles, t'.departments)
  {
    hide MenusFit, RolesFit, AllGrantsFit, DepartmentsFit, NoDuplicates, DepartmentCached, RoleCached, WalkVerdict,
      FindDepartmentByCode, Lower, Trim, Replace, DepartmentParents;
    var department :=
      Department(Trim(request.name), Lower(Trim(request.code)), request.parentID, request.status);
    var renamed := RenameDepartment(t.users, id, department.name);
    DepartmentRenamedForUsers(t.users, t.departments, id, department);
    RenamedUsers(t.users, renamed);
    forall u | u in renamed ensures u.id < t.nextUserID && RoleCached(u.value, t.roles) {
      var i :| 0 <= i < |renamed| && renamed[i] == u;
      assert t.users[i] in t.users;
      SameRole(t.users[i].value, u.value, t.roles);
    }
  }

  lemma SameRole(u: User, v: User, roles: seq<Row<Role>>)
    requires u.roleID == v.roleID && u.role == v.role && u.roleCode == v.roleCode
    ensures RoleCached(u, roles) <==> RoleCached(v, roles)
  {
  }

  lemma SameDepartment(u: User, v: User, departments: seq<Row<Department>>)
    requires u.departmentID == v.departmentID && u.department == v.department
    ensures DepartmentCached(u, departments) <==> DepartmentCached(v, departments)
  {
  }

  lemma UpdateDepartmentKeeps(t: Tables, id: int, request: DepartmentRequest)
    requires Consistent(t) && UpdateDepartment(t, id, request).Ok?
    ensures Consistent(UpdateDepartment(t, id, request).value)
  {
    UpdateDepartmentRows(t, id, request);
    UpdateDepartmentUsers(t, id, request);
    FoundID(t.departments, ROOT_DEPARTMENT);
    FoundID(UpdateDepartment(t, id, request).value.departments, ROOT_DEPARTMENT);
  }

  lemma DeleteDepartmentKeeps(t: Tables, id: int)
    requires Consistent(t) && DeleteDepartment(t, id).Ok?
    ensures Consistent(DeleteDepartment(t, id).value)
  {
    var after := Remove(t.departments, id);
    RemoveSound(t.departments, t.nextDepartmentID, id);
    RemoveDepartmentParents(t.departments, t.nextDepartmentID, id);
    NoSubDepartmentInTable(t.departments, id);
    RemoveKeepsForest(DepartmentParents(t.departments), id);
    FindRemoved(t.departments, id, ROOT_DEPARTMENT);
    GrantDropped(t.departmentMenuIDs, SetOf(IDs(t.departments)), SetOf(IDs(t.menus)), id);
    forall u | u in t.users ensures DepartmentCached(u.value, after) {
      assert DepartmentCached(u.value, t.departments);
      if u.value.departmentID.Some? {
        FindRemoved(t.departments, id, u.value.departmentID.value);
      }
    }
  }

  // ---- roles

  lemma CreateRoleRows(t: Tables, request: RoleRequest)
    requires Consistent(t) && CreateRole(t, request).Ok?
    ensures var t' := CreateRole(t, request).value;
      && RolesFit(t'.roles, t'.nextRoleID)
      && SetOf(IDs(t'.roles)) == SetOf(IDs(t.roles)) + {t.nextRoleID}
      && CachesFit(t.users, t'.roles, t.departments)
  {
    hide MenusFit, AllGrantsFit, DepartmentsFit, NoDuplicates, DepartmentCached;
    var code := Lower(Trim(request.code));
    var row := Row(t.nextRoleID, Role(Trim(request.name), code, request.status));
    AppendSound(t.roles, t.nextRoleID, row.value);
    CodeIsTrimmed(request.code);
    assert Row(1, Find(t.roles, 1).value) in t.roles && Row(2, Find(t.roles, 2).value) in t.roles;
    assert !EqualFold(SUPER_ADMIN, code) && !EqualFold(SYSTEM_ADMIN, code);
    FindAppended(t.roles, row, 1);
    FindAppended(t.roles, row, 2);
    forall u | u in t.users ensures RoleCached(u.value, t.roles + [row]) {
      assert RoleCached(u.value, t.roles);
      if u.value.roleID.Some? {
        FindAppended(t.roles, row, u.value.roleID.value);
      }
    }
  }

  lemma CreateRoleKeeps(t: Tables, request: RoleRequest)
    requires Consistent(t) && CreateRole(t, request).Ok?
    ensures Consistent(CreateRole(t, request).value)
  {
    CreateRoleRows(t, request);
    DashboardExists(t.menus);
    GrantSet(t.roleMenuIDs, SetOf(IDs(t.roles)), SetOf(IDs(t.menus)), t.nextRoleID, DashboardMenuIDs(t.menus));
    FoundID(t.roles, 1);
    FoundID(t.roles, 2);
    FoundID(t.roles, t.nextRoleID);
    AppendSound(t.roles, t.nextRoleID, Role("", "", ""));
  }

  lemma UpdateRoleRows(t: Tables, id: int, request: RoleRequest)
    requires Consistent(t) && UpdateRole(t, id, request).Ok?
    ensures var t' := UpdateRole(t, id, request).value;
      RolesFit(t'.roles, t'.nextRoleID) && IDs(t'.roles) == IDs(t.roles)
  {
    var role := Role(Trim(request.name), Lower(Trim(request.code)), request.status);
    var current := Find(t.roles, id).value;
    ReplaceSound(t.roles, t.nextRoleID, id, role);
    FindReplaced(t.roles, id, role, 1);
    FindReplaced(t.roles, id, role, 2);
    assert Row(id, current) in t.roles && role.code == current.code;
    forall r | r in Replace(t.roles, id, role) && IsAdministratorRoleCode(r.value.code) ensures r.id == 1 || r.id == 2 {
      ReplacedRow(t.roles, id, role, r);
    }
  }

  lemma RoleRenamedForUsers(users: seq<Row<User>>, roles: seq<Row<Role>>, id: int, role: Role)
    requires forall u | u in users :: RoleCached(u.value, roles)
    requires Find(roles, id).Some?
    ensures forall u | u in RenameRole(users, id, role.name, role.code) :: RoleCached(u.value, Replace(roles, id, role))
  {
    var renamed := RenameRole(users, id, role.name, role.code);
    forall i | 0 <= i < |users| ensures RoleCached(renamed[i].value, Replace(roles, id, role)) {
      assert RoleCached(users[i].value, roles);
      if users[i].value.roleID.Some? {
        FindReplaced(roles, id, role, users[i].value.roleID.value);
      }
    }
  }

  lemma UpdateRoleUsers(t: Tables, id: int, request: RoleRequest)
    requires Consistent(t) && UpdateRole(t, id, request).Ok?
    ensures var t' := UpdateRole(t, id, request).value;
      && Sound(t'.users, t'.nextUserID) && IDs(t'.users) == IDs(t.users)
      && CachesFit(t'.users, t'.roles, t'.departments)
  {
    hide MenusFit, RolesFit, AllGrantsFit, DepartmentsFit, NoDuplicates, DepartmentCached, RoleCached, FindRoleByCode,
      Lower, Trim, Replace;
    var role := Role(Trim(request.name), Lower(Trim(request.code)), request.status);
    var renamed := RenameRole(t.users, id, role.name, role.code);
    RoleRenamedForUsers(t.users, t.roles, id, role);
    RenamedUsers(t.users, renamed);
    forall u | u in renamed ensures u.id < t.nextUserID && DepartmentCached(u.value, t.departments) {
      var i :| 0 <= i < |renamed| && renamed[i] == u;
      assert t.users[i] in t.users;
      SameDepartment(t.users[i].value, u.value, t.departments);
    }
  }

  lemma UpdateRoleKeeps(t: Tables, id: int, request: RoleRequest)
    requires Consistent(t) && UpdateRole(t, id, request).Ok?
    ensures Consistent(UpdateRole(t, id, request).value)
  {
    hide MenusFit, RolesFit, DepartmentsFit, EqualFold, CachesFit, Sound, GrantsFit, HoldsAll;
    UpdateRoleRows(t, id, request);
    UpdateRoleUsers(t, id, request);
  }

  lemma DroppedRoleFits(roles: seq<Row<Role>>, next: int, id: int)
    requires RolesFit(roles, next) && Find(roles, id).Some? && !IsAdministratorRoleCode(Find(roles, id).value.code)
    ensures id != 1 && id != 2 && RolesFit(Remove(roles, id), next)
  {
    hide IsAdministratorRoleCode, NoDuplicates;
    SeededCodes();
    RemoveSound(roles, next, id);
    FindRemoved(roles, id, 1);
    FindRemoved(roles, id, 2);
  }

  lemma RoleDroppedForUsers(users: seq<Row<User>>, roles: seq<Row<Role>>, id: int)
    requires NoDuplicates(IDs(roles)) && forall u | u in users :: RoleCached(u.value, roles)
    requires !exists u | u in users :: u.value.roleID == Some(id)
    ensures forall u | u in users :: RoleCached(u.value, Remove(roles, id))
  {
    hide NoDuplicates;
    forall u | u in users ensures RoleCached(u.value, Remove(roles, id)) {
      if u.value.roleID.Some? {
        FindRemoved(roles, id, u.value.roleID.value);
      }
    }
  }

  lemma DeleteRoleKeeps(t: Tables, id: int)
    requires Consistent(t) && DeleteRole(t, id).Ok?
    ensures Consistent(DeleteRole(t, id).value)
  {
    hide MenusFit, DepartmentsFit, NoDuplicates, DepartmentCached, RoleCached, IsAdministratorRoleCode, Remove;
    DroppedRoleFits(t.roles, t.nextRoleID, id);
    RoleDroppedForUsers(t.users, t.roles, id);
    RemoveSound(t.roles, t.nextRoleID, id);
    GrantDropped(t.roleMenuIDs, SetOf(IDs(t.roles)), SetOf(IDs(t.menus)), id);
  }

  // ---- users

  /** A user record made from a request caches what the tables say. */
  lemma MadeUserFits(t: Tables, request: UserRequest, age: int)
    requires Consistent(t) && MakeUser(t, request, age).Ok?
    ensures RoleCached(MakeUser(t, request, age).value, t.roles)
    ensures DepartmentCached(MakeUser(t, request, age).value, t.departments)
  {
    var role := ResolveRole(t, request.roleID, request.role).value;
    if request.roleID.None? {
      FindRow(t.roles, role);
    }
    if request.departmentID.None? {
      var found := FindDepartmentByName(t.departments, Trim(request.department));
      if found.Some? {
        FindRow(t.departments, found.value);
      }
    }
  }

  lemma AppendedSet(ids: seq<int>, id: int)
    ensures SetOf(ids + [id]) == SetOf(ids) + {id}
  {
  }

  lemma CreateUserKeeps(t: Tables, request: UserRequest)
    requires Consistent(t) && CreateUser(t, request).Ok?
    ensures Consistent(CreateUser(t, request).value)
  {
    hide MenusFit, DepartmentsFit, RolesFit, RoleCached, DepartmentCached, Sound, MakeUser, FindUserByName, Trim,
      GrantsFit, Find;
    var age := if request.age.Some? then request.age.value else 0;
    var user := MakeUser(t, request, age).value;
    MadeUserFits(t, request, age);
    AppendSound(t.users, t.nextUserID, user);
    GrantSet(t.userMenuIDs, SetOf(IDs(t.users)), SetOf(IDs(t.menus)), t.nextUserID, []);
    AppendedSet(IDs(t.users), t.nextUserID);
    assert SetOf(IDs(t.users + [Row(t.nextUserID, user)])) == SetOf(IDs(t.users)) + {t.nextUserID};
  }

  lemma UpdateUserKeeps(t: Tables, id: int, request: UserRequest)
    requires Consistent(t) && UpdateUser(t, id, request).Ok?
    ensures Consistent(UpdateUser(t, id, request).value)
  {
    var age := if request.age.Some? then request.age.value else Find(t.users, id).value.age;
    var user := MakeUser(t, request, age).value;
    MadeUserFits(t, request, age);
    ReplaceSound(t.users, t.nextUserID, id, user);
    forall u | u in Replace(t.users, id, user)
      ensures RoleCached(u.value, t.roles) && DepartmentCached(u.value, t.departments)
    {
      ReplacedRow(t.users, id, user, u);
    }
  }

  lemma DeleteUserKeeps(t: Tables, id: int)
    requires Consistent(t) && DeleteUser(t, id).Ok?
    ensures Consistent(DeleteUser(t, id).value)
  {
    RemoveSound(t.users, t.nextUserID, id);
    FindRemoved(t.users, id, id);
    GrantDropped(t.userMenuIDs, SetOf(IDs(t.users)), SetOf(IDs(t.menus)), id);
  }
}

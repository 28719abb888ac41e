/** Runs of the store, and what holds in every state a run reaches. */
module StoreTheorems {
  import opened Prelude
  import opened Forest
  import opened Permissions
  import opened StoreSpec
  import opened StoreRows
  import opened StoreInvariant
  import opened StoreSeed

  // ---- runs

  datatype Op =
    | AddMenu(menu: MenuRequest) | EditMenu(id: int, menu: MenuRequest) | DropMenu(id: int)
    | AddDepartment(department: DepartmentRequest) | EditDepartment(id: int, department: DepartmentRequest)
    | DropDepartment(id: int) | GrantToDepartment(id: int, menuIDs: seq<int>)
    | AddRole(role: RoleRequest) | EditRole(id: int, role: RoleRequest) | DropRole(id: int)
    | GrantToRole(id: int, menuIDs: seq<int>)
    | AddUser(user: UserRequest) | EditUser(id: int, user: UserRequest) | DropUser(id: int)
    | GrantToUser(id: int, menuIDs: seq<int>) | AllowUser(id: int, codes: seq<string>)

  ghost function Perform(t: Tables, catalogue: seq<Definition>, op: Op): Outcome {
    match op
    case AddMenu(r) => CreateMenu(t, r)
    case EditMenu(id, r) => UpdateMenu(t, id, r)
    case DropMenu(id) => DeleteMenu(t, id)
    case AddDepartment(r) => CreateDepartment(t, r)
    case EditDepartment(id, r) => UpdateDepartment(t, id, r)
    case DropDepartment(id) => DeleteDepartment(t, id)
    case GrantToDepartment(id, ids) => UpdateDepartmentMenus(t, id, ids)
    case AddRole(r) => CreateRole(t, r)
    case EditRole(id, r) => UpdateRole(t, id, r)
    case DropRole(id) => DeleteRole(t, id)
    case GrantToRole(id, ids) => UpdateRoleMenus(t, id, ids)
    case AddUser(r) => CreateUser(t, r)
    case EditUser(id, r) => UpdateUser(t, id, r)
    case DropUser(id) => DeleteUser(t, id)
    case GrantToUser(id, ids) => UpdateUserMenus(t, id, ids)
    case AllowUser(id, codes) => UpdateUserActions(t, catalogue, id, codes)
  }

  /** The tables after the operations, in order; a refused one changes nothing. */
  ghost function Run(t: Tables, catalogue: seq<Definition>, ops: seq<Op>): Tables
    decreases |ops|
  {
    if ops == [] then t
    else
      var before := Run(t, catalogue, ops[..|ops| - 1]);
      var outcome := Perform(before, catalogue, ops[|ops| - 1]);
      if outcome.Ok? then outcome.value else before
  }

  lemma PerformKeeps(t: Tables, catalogue: seq<Definition>, op: Op)
    requires Consistent(t) && Perform(t, catalogue, op).Ok?
    ensures Consistent(Perform(t, catalogue, op).value)
  {
    hide Consistent, CreateMenu, UpdateMenu, DeleteMenu, CreateDepartment, UpdateDepartment, DeleteDepartment,
      UpdateDepartmentMenus, CreateRole, UpdateRole, DeleteRole, UpdateRoleMenus, CreateUser, UpdateUser, DeleteUser,
      UpdateUserMenus, UpdateUserActions;
    match op {
      case AddMenu(r) => CreateMenuKeeps(t, r);
      case EditMenu(id, r) => UpdateMenuKeeps(t, id, r);
      case DropMenu(id) => DeleteMenuKeeps(t, id);
      case AddDepartment(r) => CreateDepartmentKeeps(t, r);
      case EditDepartment(id, r) => UpdateDepartmentKeeps(t, id, r);
      case DropDepartment(id) => DeleteDepartmentKeeps(t, id);
      case GrantToDepartment(id, ids) => UpdateDepartmentMenusKeeps(t, id, ids);
      case AddRole(r) => CreateRoleKeeps(t, r);
      case EditRole(id, r) => UpdateRoleKeeps(t, id, r);
      case DropRole(id) => DeleteRoleKeeps(t, id);
      case GrantToRole(id, ids) => UpdateRoleMenusKeeps(t, id, ids);
      case AddUser(r) => CreateUserKeeps(t, r);
      case EditUser(id, r) => UpdateUserKeeps(t, id, r);
      case DropUser(id) => DeleteUserKeeps(t, id);
      case GrantToUser(id, ids) => UpdateUserMenusKeeps(t, id, ids);
      case AllowUser(id, codes) => UpdateUserActionsKeeps(t, catalogue, id, codes);
    }
  }

  /** Every state any sequence of operations reaches from the seeded tables is consistent. */
  lemma {:induction false} RunIsConsistent(catalogue: seq<Definition>, ops: seq<Op>)
    ensures Consistent(Run(SEED, catalogue, ops))
    decreases |ops|
  {
    hide Consistent, Perform;
    if ops == [] {
      SeedIsConsistent();
    } else {
      var before := Run(SEED, catalogue, ops[..|ops| - 1]);
      RunIsConsistent(catalogue, ops[..|ops| - 1]);
      if Perform(before, catalogue, ops[|ops| - 1]).Ok? {
        PerformKeeps(before, catalogue, ops[|ops| - 1]);
      }
    }
  }

  // ---- administrators and the root department

  /** In every reachable state exactly the two seeded roles carry administrator codes, and each holds all menus. */
  lemma AdministratorsHoldEverything(catalogue: seq<Definition>, ops: seq<Op>, role: Row<Role>)
    requires role in Run(SEED, catalogue, ops).roles
    ensures var t := Run(SEED, catalogue, ops);
      && (IsAdministratorRoleCode(role.value.code) <==> role.id == 1 || role.id == 2)
      && (IsAdministratorRoleCode(role.value.code) ==>
            role.value.status == ENABLED && SetOf(Granted(t.roleMenuIDs, role.id)) == SetOf(IDs(t.menus)))
  {
    hide EqualFold, MenusFit, DepartmentsFit, CachesFit, Run;
    var t := Run(SEED, catalogue, ops);
    RunIsConsistent(catalogue, ops);
    SeededCodes();
    FindRow(t.roles, role);
  }

  /** The administrator roles can be neither lost nor multiplied. */
  lemma BothAdministratorsStay(catalogue: seq<Definition>, ops: seq<Op>)
    ensures var t := Run(SEED, catalogue, ops);
      && Find(t.roles, 1) == Some(Role(SUPER_ADMIN_NAME, SUPER_ADMIN, ENABLED))
      && Find(t.roles, 2) == Some(Role(SYSTEM_ADMIN_NAME, SYSTEM_ADMIN, ENABLED))
  {
    hide EqualFold, MenusFit, DepartmentsFit, CachesFit, Run;
    RunIsConsistent(catalogue, ops);
  }

  /** While it exists, the seeded root department is on top, enabled and holds exactly all menus. */
  lemma RootHoldsEverything(catalogue: seq<Definition>, ops: seq<Op>)
    requires Find(Run(SEED, catalogue, ops).departments, ROOT_DEPARTMENT).Some?
    ensures var t := Run(SEED, catalogue, ops);
      && SetOf(Granted(t.departmentMenuIDs, ROOT_DEPARTMENT)) == SetOf(IDs(t.menus))
      && (var root := Find(t.departments, ROOT_DEPARTMENT).value;
          root.code == ROOT_CODE && root.parentID.None? && root.status == ENABLED)
  {
    hide EqualFold, MenusFit, RolesFit, CachesFit, Run, IsForest;
    RunIsConsistent(catalogue, ops);
  }

  /** What a user record repeats about its role and department is what those rows say. */
  lemma CachedNamesMatch(catalogue: seq<Definition>, ops: seq<Op>, user: Row<User>)
    requires user in Run(SEED, catalogue, ops).users
    ensures var t := Run(SEED, catalogue, ops);
      && (user.value.roleID.Some? ==>
            && var role := Find(t.roles, user.value.roleID.value);
            && role.Some? && user.value.role == role.value.name && user.value.roleCode == role.value.code)
      && (user.value.roleID.None? ==> user.value.roleCode == "")
      && (user.value.departmentID.Some? ==>
            && var department := Find(t.departments, user.value.departmentID.value);
            && department.Some? && user.value.department == department.value.name)
  {
    hide EqualFold, MenusFit, RolesFit, DepartmentsFit, AllGrantsFit, Run;
    var t := Run(SEED, catalogue, ops);
    RunIsConsistent(catalogue, ops);
    assert RoleCached(user.value, t.roles) && DepartmentCached(user.value, t.departments);
  }

  lemma SingleMenu(menu: Row<Menu>)
    ensures SetOf(DashboardMenuIDs([menu])) == SetOf(IDs([menu])) <==> menu.value.code == "dashboard"
  {
    assert [menu][1..] == [];
    assert menu.id in SetOf(IDs([menu]));
  }

  lemma SeveralMenus(menus: seq<Row<Menu>>)
    requires NoDuplicates(IDs(menus)) && |menus| > 1
    ensures SetOf(DashboardMenuIDs(menus)) != SetOf(IDs(menus))
  {
    hide NoDuplicates, DashboardMenuIDs;
    DistinctSize(IDs(menus));
    DashboardIsShort(menus);
  }

  lemma NoMenu(menus: seq<Row<Menu>>)
    requires menus == []
    ensures DashboardMenuIDs(menus) == IDs(menus)
  {
  }

  lemma OnlyDashboard(menus: seq<Row<Menu>>)
    requires NoDuplicates(IDs(menus))
    ensures SetOf(DashboardMenuIDs(menus)) == SetOf(IDs(menus)) <==>
      menus == [] || (|menus| == 1 && menus[0].value.code == "dashboard")
  {
    hide SetOf, NoDuplicates, IDs, DashboardMenuIDs;
    if |menus| == 1 {
      assert menus == [menus[0]];
      SingleMenu(menus[0]);
    } else if |menus| > 1 {
      SeveralMenus(menus);
    } else {
      NoMenu(menus);
    }
  }

  lemma {:induction false} DashboardCount(menus: seq<Row<Menu>>)
    ensures |DashboardMenuIDs(menus)| <= 1
    decreases |menus|
  {
    if menus != [] {
      DashboardCount(menus[1..]);
    }
  }

  lemma DashboardIsShort(menus: seq<Row<Menu>>)
    ensures |SetOf(DashboardMenuIDs(menus))| <= 1
  {
    var ids := DashboardMenuIDs(menus);
    DashboardCount(menus);
    if |ids| == 1 {
      assert SetOf(ids) == {ids[0]};
    } else {
      assert SetOf(ids) == {};
    }
  }

  /**
   A department gets all menus when it is created exactly if it is the board
   office or there is nothing besides the dashboard; being called like the root
   department does not help.
   */
  lemma NewDepartmentHoldsAll(t: Tables, request: DepartmentRequest)
    requires Consistent(t) && CreateDepartment(t, request).Ok?
    ensures HoldsAll(CreateDepartment(t, request).value.departmentMenuIDs, t.nextDepartmentID, SetOf(IDs(t.menus))) <==>
      || Lower(Trim(request.code)) == "board-office" || t.menus == []
      || (|t.menus| == 1 && t.menus[0].value.code == "dashboard")
  {
    hide DepartmentsFit, RolesFit, CachesFit, AllGrantsFit, FindDepartmentByCode, Find, IsForest, Lower, Trim;
    OnlyDashboard(t.menus);
  }

  /**
   Changing a department, also giving it the root department's code, grants
   nothing: it holds all menus afterwards exactly if it did before.
   */
  lemma RecodedDepartmentHoldsAll(t: Tables, id: int, request: DepartmentRequest)
    requires Consistent(t) && UpdateDepartment(t, id, request).Ok?
    ensures var after := UpdateDepartment(t, id, request).value;
      && Find(after.departments, id).Some? && Find(after.departments, id).value.code == Lower(Trim(request.code))
      && forall k :: HoldsAll(after.departmentMenuIDs, k, SetOf(IDs(after.menus))) <==>
           HoldsAll(t.departmentMenuIDs, k, SetOf(IDs(t.menus)))
  {
    hide Consistent, WalkVerdict, Lower, Trim, FindDepartmentByCode, EqualFold, HoldsAll;
    FindReplaced(t.departments, id,
      Department(Trim(request.name), Lower(Trim(request.code)), request.parentID, request.status), id);
  }

  /** The department with the root department's code, whichever it is, never loses a menu once it holds them all. */
  lemma RootCodeKeepsAll(t: Tables, catalogue: seq<Definition>, op: Op, id: int)
    requires Consistent(t) && Perform(t, catalogue, op).Ok?
    requires Find(t.departments, id).Some? && Find(t.departments, id).value.code == ROOT_CODE
    requires HoldsAll(t.departmentMenuIDs, id, SetOf(IDs(t.menus)))
    ensures var after := Perform(t, catalogue, op).value;
      Find(after.departments, id).Some? ==> HoldsAll(after.departmentMenuIDs, id, SetOf(IDs(after.menus)))
  {
    hide Consistent, Find, HoldsAll, CreateMenu, UpdateMenu, DeleteMenu;
    hide CreateDepartment, UpdateDepartment, DeleteDepartment, UpdateDepartmentMenus;
    match op {
      case AddMenu(request) => AddedMenuReachesRoot(t, request, id);
      case EditMenu(menuID, request) => EditedMenuKeepsIDs(t, menuID, request);
      case DropMenu(menuID) => DroppedMenuLeavesRoot(t, menuID, id);
      case GrantToDepartment(owner, menuIDs) => GrantedRootHoldsAll(t, owner, menuIDs, id);
      case AddDepartment(request) => OtherDepartmentsKeep(t, request, id);
      case EditDepartment(other, request) => RecodedDepartmentHoldsAll(t, other, request);
      case DropDepartment(gone) => OthersStayWhole(t, gone, id);
      case _ => OthersLeaveGrants(t, catalogue, op);
    }
  }

  lemma OthersLeaveGrants(t: Tables, catalogue: seq<Definition>, op: Op)
    requires Perform(t, catalogue, op).Ok?
    requires !op.AddMenu? && !op.EditMenu? && !op.DropMenu? && !op.GrantToDepartment?
    requires !op.AddDepartment? && !op.EditDepartment? && !op.DropDepartment?
    ensures var after := Perform(t, catalogue, op).value;
      after.departmentMenuIDs == t.departmentMenuIDs && after.menus == t.menus && after.departments == t.departments
  {
    hide Find, EqualFold, Lower, Trim, FindRoleByCode, FindUserByName, Merged, Unique, Replace, Remove, RenameRole;
  }

  lemma EditedMenuKeepsIDs(t: Tables, menuID: int, request: MenuRequest)
    requires Consistent(t) && UpdateMenu(t, menuID, request).Ok?
    ensures var after := UpdateMenu(t, menuID, request).value;
      IDs(after.menus) == IDs(t.menus) && after.departmentMenuIDs == t.departmentMenuIDs
  {
    hide DepartmentsFit, RolesFit, CachesFit, AllGrantsFit, IsForest, WalkVerdict;
    ReplaceSound(t.menus, t.nextMenuID, menuID,
      Menu(request.name, request.code, request.parentID, request.sort, request.status));
  }

  lemma OtherDepartmentsKeep(t: Tables, request: DepartmentRequest, id: int)
    requires Consistent(t) && CreateDepartment(t, request).Ok? && Find(t.departments, id).Some?
    ensures var after := CreateDepartment(t, request).value;
      Granted(after.departmentMenuIDs, id) == Granted(t.departmentMenuIDs, id) && after.menus == t.menus
    ensures var after := CreateDepartment(t, request).value;
      forall menus :: HoldsAll(after.departmentMenuIDs, id, menus) <==> HoldsAll(t.departmentMenuIDs, id, menus)
  {
    hide MenusFit, RolesFit, CachesFit, AllGrantsFit, IsForest, FindDepartmentByCode, Lower, Trim, EqualFold, Find;
    assert Row(id, Find(t.departments, id).value) in t.departments;
  }

  lemma OthersStayWhole(t: Tables, gone: int, id: int)
    requires Consistent(t) && DeleteDepartment(t, gone).Ok?
    requires HoldsAll(t.departmentMenuIDs, id, SetOf(IDs(t.menus)))
    ensures var after := DeleteDepartment(t, gone).value;
      Find(after.departments, id).Some? ==> HoldsAll(after.departmentMenuIDs, id, SetOf(IDs(after.menus)))
  {
    hide MenusFit, RolesFit, CachesFit, AllGrantsFit, IsForest, Find;
    GoneIsGone(t.departments, t.nextDepartmentID, gone);
  }

  lemma AddedMenuReachesRoot(t: Tables, request: MenuRequest, id: int)
    requires Consistent(t) && CreateMenu(t, request).Ok?
    requires Find(t.departments, id).Some? && Find(t.departments, id).value.code == ROOT_CODE
    requires HoldsAll(t.departmentMenuIDs, id, SetOf(IDs(t.menus)))
    ensures var after := CreateMenu(t, request).value;
      HoldsAll(after.departmentMenuIDs, id, SetOf(IDs(after.menus)))
  {
    hide MenusFit, RolesFit, CachesFit, AllGrantsFit, IsForest;
    hide GrantDepartment, GrantAdministrators, FindDepartmentByCode;
    var menuID := t.nextMenuID;
    var middle := GrantDepartment(t.departments, t.departmentMenuIDs, ROOT_CODE, menuID);
    CodeIsFound(t.departments, t.nextDepartmentID, id);
    GrantedToDepartment(t.departments, t.departmentMenuIDs, ROOT_CODE, menuID, id);
    GrantedToDepartment(t.departments, middle, "board-office", menuID, id);
    var menu := Row(menuID, Menu(request.name, request.code, request.parentID, request.sort, request.status));
    AppendedIDs(t.menus, menu);
  }

  lemma CodeIsFound(departments: seq<Row<Department>>, next: int, id: int)
    requires DepartmentsFit(departments, next)
    requires Find(departments, id).Some? && Find(departments, id).value.code == ROOT_CODE
    ensures var found := FindDepartmentByCode(departments, ROOT_CODE); found.Some? && found.value.id == id
  {
    var row := Row(id, Find(departments, id).value);
    TrimmedStays(ROOT_CODE);
    assert EqualFold(row.value.code, ROOT_CODE);
    var found := FindDepartmentByCode(departments, ROOT_CODE);
    assert EqualFold(row.value.code, found.value.value.code);
  }

  lemma AppendedIDs<V>(rows: seq<Row<V>>, row: Row<V>)
    ensures SetOf(IDs(rows + [row])) == SetOf(IDs(rows)) + {row.id}
  {
    assert IDs(rows + [row]) == IDs(rows) + [row.id];
  }

  lemma DroppedMenuLeavesRoot(t: Tables, menuID: int, id: int)
    requires Consistent(t) && DeleteMenu(t, menuID).Ok?
    requires HoldsAll(t.departmentMenuIDs, id, SetOf(IDs(t.menus)))
    ensures var after := DeleteMenu(t, menuID).value;
      HoldsAll(after.departmentMenuIDs, id, SetOf(IDs(after.menus)))
  {
    hide DepartmentsFit, RolesFit, CachesFit, AllGrantsFit, IsForest;
    RemoveSound(t.menus, t.nextMenuID, menuID);
    Revoked(t.departmentMenuIDs, menuID, id);
  }

  lemma GrantedRootHoldsAll(t: Tables, owner: int, menuIDs: seq<int>, id: int)
    requires Consistent(t) && UpdateDepartmentMenus(t, owner, menuIDs).Ok?
    requires Find(t.departments, id).Some? && Find(t.departments, id).value.code == ROOT_CODE
    requires owner == id || HoldsAll(t.departmentMenuIDs, id, SetOf(IDs(t.menus)))
    ensures var after := UpdateDepartmentMenus(t, owner, menuIDs).value;
      after.menus == t.menus && HoldsAll(after.departmentMenuIDs, id, SetOf(IDs(t.menus)))
  {
    hide MenusFit, DepartmentsFit, RolesFit, CachesFit, AllGrantsFit;
    RequestedMenusExist(t.menus, menuIDs);
    if owner == id {
      LengthsDecide(Unique(menuIDs), IDs(t.menus));
    }
  }

  lemma GoneIsGone<V>(rows: seq<Row<V>>, next: int, gone: int)
    requires Sound(rows, next) && Find(rows, gone).Some?
    ensures Find(Remove(rows, gone), gone).None?
  {
    RemoveSound(rows, next, gone);
    FoundID(Remove(rows, gone), gone);
  }

  // ---- a reachable store whose root department was deleted and created again

  lemma {:induction false} RunStep(t: Tables, catalogue: seq<Definition>, ops: seq<Op>, op: Op)
    ensures Run(t, catalogue, ops + [op]) ==
      var before := Run(t, catalogue, ops);
      var outcome := Perform(before, catalogue, op);
      if outcome.Ok? then outcome.value else before
  {
    assert (ops + [op])[..|ops + [op]| - 1] == ops;
  }

  lemma UsersCanLeave(catalogue: seq<Definition>) returns (ops: seq<Op>)
    ensures var t := Run(SEED, catalogue, ops);
      t.users == [] && t.departments == SEED_DEPARTMENTS && t.menus == SEED_MENUS && t.nextDepartmentID == 4
  {
    hide SEED_USERS, SEED_DEPARTMENTS, SEED_MENUS, Run;
    SeedRows();
    ops := [];
    assert Run(SEED, catalogue, ops) == SEED by { StartsAtSeed(catalogue); }
    for i := 0 to 4
      invariant var t := Run(SEED, catalogue, ops);
        t.users == SEED_USERS[i..] && t.departments == SEED_DEPARTMENTS && t.menus == SEED_MENUS
          && t.nextDepartmentID == 4
    {
      var t := Run(SEED, catalogue, ops);
      RunStep(SEED, catalogue, ops, DropUser(t.users[0].id));
      ops := ops + [DropUser(t.users[0].id)];
    }
  }

  lemma StartsAtSeed(catalogue: seq<Definition>)
    ensures Run(SEED, catalogue, []) == SEED
  {
  }

  lemma DepartmentsCanLeave(catalogue: seq<Definition>) returns (ops: seq<Op>)
    ensures var t := Run(SEED, catalogue, ops);
      t.users == [] && t.departments == [] && t.menus == SEED_MENUS && t.nextDepartmentID == 4
  {
    hide SEED_USERS, SEED_MENUS, Run, DeleteDepartment;
    SeedRows();
    ops := UsersCanLeave(catalogue);
    for i := 0 to 3
      invariant var t := Run(SEED, catalogue, ops);
        t.users == [] && t.departments == SEED_DEPARTMENTS[..3 - i] && t.menus == SEED_MENUS && t.nextDepartmentID == 4
    {
      var t := Run(SEED, catalogue, ops);
      var id := 3 - i;
      RunStep(SEED, catalogue, ops, DropDepartment(id));
      LastLeaves(t, id);
      ops := ops + [DropDepartment(id)];
    }
  }

  lemma LastLeaves(t: Tables, id: int)
    requires t.users == [] && |t.departments| == id > 0 && Numbered(t.departments)
    requires forall i | 0 <= i < id :: t.departments[i].value.parentID != Some(id)
    ensures DeleteDepartment(t, id) ==
      Ok(t.(departments := t.departments[..id - 1], departmentMenuIDs := t.departmentMenuIDs - {id}))
  {
    hide Sound, IDs;
    NumberedRows(t.departments);
    assert Find(t.departments, t.departments[id - 1].id).Some?;
    RemoveLast(t.departments, id);
  }

  lemma {:induction false} RemoveLast<V>(rows: seq<Row<V>>, id: int)
    requires rows != [] && rows[|rows| - 1].id == id && forall i | 0 <= i < |rows| - 1 :: rows[i].id != id
    ensures Remove(rows, id) == rows[..|rows| - 1]
    decreases |rows|
  {
    if |rows| > 1 {
      RemoveLast(rows[1..], id);
      assert [rows[0]] + rows[1..][..|rows| - 2] == rows[..|rows| - 1];
    }
  }

  /** Re-creating the root department by its code leaves it without most menus. */
  lemma RecreatedRootLacksMenus(catalogue: seq<Definition>) returns (ops: seq<Op>)
    ensures var t := Run(SEED, catalogue, ops);
      && (exists d | d in t.departments :: d.value.code == ROOT_CODE && d.value.parentID.None? && d.id == 4)
      && !HoldsAll(t.departmentMenuIDs, 4, SetOf(IDs(t.menus)))
  {
    hide SEED_USERS, SEED_MENUS, Run, HoldsAll, Trim, Lower, Consistent;
    SeedRows();
    ops := DepartmentsCanLeave(catalogue);
    var t := Run(SEED, catalogue, ops);
    var request := DepartmentRequest("HuaJian技术有限公司", ROOT_CODE, None, ENABLED);
    RunIsConsistent(catalogue, ops);
    RunStep(SEED, catalogue, ops, AddDepartment(request));
    RootCodeStays();
    NewDepartmentHoldsAll(t, request);
    ops := ops + [AddDepartment(request)];
    var row := Row(4, Department(Trim(request.name), ROOT_CODE, None, ENABLED));
    assert row in t.departments + [row];
  }

  lemma RootCodeStays()
    ensures Lower(Trim(ROOT_CODE)) == ROOT_CODE
  {
    TrimmedStays(ROOT_CODE);
    assert Lower(ROOT_CODE) == ROOT_CODE;
  }
}

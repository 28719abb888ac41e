/**
 The access-control tables of the in-memory store and every operation on them
 as a function from tables to tables (`backend/store/store.go`).  A refused
 operation leaves the tables as they were and names its reason.
 */
module StoreSpec {
  import opened Prelude
  import opened Forest
  import opened Permissions

  const ENABLED := "启用"

  // A table row: the generated id and the rest of the record.
  datatype Row<+V> = Row(id: int, value: V)

  datatype Menu = Menu(name: string, code: string, parentID: Option<int>, sort: int, status: string)

  datatype Department = Department(name: string, code: string, parentID: Option<int>, status: string)

  datatype Role = Role(name: string, code: string, status: string)

  datatype User = User(
    username: string,
    roleID: Option<int>,
    role: string,
    roleCode: string,
    departmentID: Option<int>,
    department: string,
    age: int)

  type Grants = map<int, seq<int>>

  datatype Tables = Tables(
    users: seq<Row<User>>,
    departments: seq<Row<Department>>,
    roles: seq<Row<Role>>,
    menus: seq<Row<Menu>>,
    userMenuIDs: Grants,
    userActionCodes: map<int, seq<string>>,
    departmentMenuIDs: Grants,
    roleMenuIDs: Grants,
    nextUserID: int,
    nextDepartmentID: int,
    nextRoleID: int,
    nextMenuID: int)

  datatype StoreError =
    | MenuNotFound | ParentNotFound | ParentIsSelf | ParentIsBelow | MenuHasChildren
    | DepartmentNotFound | DepartmentHasChildren | DepartmentHasUsers
    | RootCodeFixed | RootHasNoParent | RootStaysEnabled | RootKeepsAllMenus
    | RoleNotFound | RoleCodeFixed | AdministratorRoleFixed | AdministratorRoleStays | AdministratorKeepsAllMenus
    | RoleHasUsers | CodeTaken | UserNotFound | UsernameTaken | AgeOutOfRange
    | ActionsFixed | UnknownAction

  type Outcome = Result<Tables, StoreError>

  // ---- rows: lookups return the first match

  function Find<V>(rows: seq<Row<V>>, id: int): (r: Option<V>)
    ensures r.Some? ==> Row(id, r.value) in rows
    ensures r.None? ==> forall row | row in rows :: row.id != id
  {
    if rows == [] then None else if rows[0].id == id then Some(rows[0].value) else Find(rows[1..], id)
  }

  function IDs<V>(rows: seq<Row<V>>): (r: seq<int>)
    ensures |r| == |rows| && forall i {:trigger r[i]} | 0 <= i < |rows| :: r[i] == rows[i].id
  {
    if rows == [] then [] else [rows[0].id] + IDs(rows[1..])
  }

  function Replace<V>(rows: seq<Row<V>>, id: int, value: V): seq<Row<V>> {
    if rows == [] then []
    else if rows[0].id == id then [Row(id, value)] + rows[1..]
    else [rows[0]] + Replace(rows[1..], id, value)
  }

  function Remove<V>(rows: seq<Row<V>>, id: int): seq<Row<V>> {
    if rows == [] then [] else if rows[0].id == id then rows[1..] else [rows[0]] + Remove(rows[1..], id)
  }

  function FindDepartmentByCode(departments: seq<Row<Department>>, code: string): (r: Option<Row<Department>>)
    ensures r.Some? ==> r.value in departments && EqualFold(r.value.value.code, Trim(code))
    ensures r.None? ==> forall d | d in departments :: !EqualFold(d.value.code, Trim(code))
  {
    if departments == [] then None
    else if EqualFold(departments[0].value.code, Trim(code)) then Some(departments[0])
    else FindDepartmentByCode(departments[1..], code)
  }

  function FindDepartmentByName(departments: seq<Row<Department>>, name: string): (r: Option<Row<Department>>)
    ensures r.Some? ==> r.value in departments && r.value.value.name == name
  {
    if departments == [] then None
    else if departments[0].value.name == name then Some(departments[0])
    else FindDepartmentByName(departments[1..], name)
  }

  function FindRoleByCode(roles: seq<Row<Role>>, code: string): (r: Option<Row<Role>>)
    ensures r.Some? ==> r.value in roles && EqualFold(r.value.value.code, Trim(code))
    ensures r.None? ==> forall x | x in roles :: !EqualFold(x.value.code, Trim(code))
  {
    if roles == [] then None
    else if EqualFold(roles[0].value.code, Trim(code)) then Some(roles[0])
    else FindRoleByCode(roles[1..], code)
  }

  function FindRoleByName(roles: seq<Row<Role>>, name: string): (r: Option<Row<Role>>)
    ensures r.Some? ==> r.value in roles && r.value.value.name == name
  {
    if roles == [] then None
    else if roles[0].value.name == name then Some(roles[0])
    else FindRoleByName(roles[1..], name)
  }

  function FindUserByName(users: seq<Row<User>>, username: string): (r: Option<Row<User>>)
    ensures r.Some? ==> r.value in users && EqualFold(r.value.value.username, Trim(username))
    ensures r.None? ==> forall u | u in users :: !EqualFold(u.value.username, Trim(username))
  {
    if users == [] then None
    else if EqualFold(users[0].value.username, Trim(username)) then Some(users[0])
    else FindUserByName(users[1..], username)
  }

  predicate MenusExist(menus: seq<Row<Menu>>, ids: seq<int>) {
    forall id | id in ids :: Find(menus, id).Some?
  }

  /** The parent table the upward walks look into. */
  function MenuParents(menus: seq<Row<Menu>>): Parents {
    map id | id in IDs(menus) :: var row := Find(menus, id); if row.Some? then row.value.parentID else None
  }

  function DepartmentParents(departments: seq<Row<Department>>): Parents {
    map id | id in IDs(departments) ::
      var row := Find(departments, id); if row.Some? then row.value.parentID else None
  }

  function Granted(grants: Grants, id: int): seq<int> {
    if id in grants then grants[id] else []
  }

  function DashboardMenuIDs(menus: seq<Row<Menu>>): seq<int> {
    if menus == [] then []
    else if menus[0].value.code == "dashboard" then [menus[0].id]
    else DashboardMenuIDs(menus[1..])
  }

  // ---- menus

  datatype MenuRequest = MenuRequest(name: string, code: string, parentID: Option<int>, sort: int, status: string)

  function Append(grants: Grants, id: int, menuID: int): Grants {
    grants[id := Granted(grants, id) + [menuID]]
  }

  function GrantDepartment(departments: seq<Row<Department>>, grants: Grants, code: string, menuID: int): Grants {
    match FindDepartmentByCode(departments, code)
    case Some(d) => Append(grants, d.id, menuID)
    case None => grants
  }

  function GrantAdministrators(roles: seq<Row<Role>>, grants: Grants, menuID: int): Grants {
    if roles == [] then grants
    else GrantAdministrators(
           roles[1..],
           if IsAdministratorRoleCode(roles[0].value.code) then Append(grants, roles[0].id, menuID) else grants,
           menuID)
  }

  function CreateMenu(t: Tables, request: MenuRequest): Outcome {
    if request.parentID.Some? && Find(t.menus, request.parentID.value).None? then Err(ParentNotFound)
    else
      var id := t.nextMenuID;
      var menu := Menu(request.name, request.code, request.parentID, request.sort, request.status);
      Ok(t.(menus := t.menus + [Row(id, menu)],
            nextMenuID := id + 1,
            departmentMenuIDs :=
              GrantDepartment(t.departments, GrantDepartment(t.departments, t.departmentMenuIDs, "huajian", id),
                "board-office", id),
            roleMenuIDs := GrantAdministrators(t.roles, t.roleMenuIDs, id)))
  }

  ghost function UpdateMenu(t: Tables, id: int, request: MenuRequest): Outcome {
    if Find(t.menus, id).None? then Err(MenuNotFound)
    else if request.parentID.Some? && !WalkVerdict(MenuParents(t.menus), id, request.parentID.value).Accepted? then
      if request.parentID == Some(id) then Err(ParentIsSelf)
      else if WalkVerdict(MenuParents(t.menus), id, request.parentID.value).MeetsMoved? then Err(ParentIsBelow)
      else Err(ParentNotFound)
    else
      Ok(t.(menus := Replace(t.menus, id,
                       Menu(request.name, request.code, request.parentID, request.sort, request.status))))
  }

  function Without(ids: seq<int>, id: int): (r: seq<int>)
    ensures forall x :: x in r <==> x in ids && x != id
  {
    if ids == [] then []
    else if ids[0] == id then Without(ids[1..], id)
    else [ids[0]] + Without(ids[1..], id)
  }

  function Revoke(grants: Grants, menuID: int): Grants {
    map k | k in grants :: Without(grants[k], menuID)
  }

  function DeleteMenu(t: Tables, id: int): Outcome {
    if Find(t.menus, id).None? then Err(MenuNotFound)
    else if exists m | m in t.menus :: m.value.parentID == Some(id) then Err(MenuHasChildren)
    else
      Ok(t.(menus := Remove(t.menus, id),
            userMenuIDs := Revoke(t.userMenuIDs, id),
            departmentMenuIDs := Revoke(t.departmentMenuIDs, id),
            roleMenuIDs := Revoke(t.roleMenuIDs, id)))
  }

  // ---- departments

  datatype DepartmentRequest = DepartmentRequest(name: string, code: string, parentID: Option<int>, status: string)

  function CreateDepartment(t: Tables, request: DepartmentRequest): Outcome {
    var code := Lower(Trim(request.code));
    if FindDepartmentByCode(t.departments, code).Some? then Err(CodeTaken)
    else if request.parentID.Some? && Find(t.departments, request.parentID.value).None? then
      Err(ParentNotFound)
    else
      var id := t.nextDepartmentID;
      var menus := if code == "board-office" then IDs(t.menus) else DashboardMenuIDs(t.menus);
      Ok(t.(departments := t.departments
        + [Row(id, Department(Trim(request.name), code, request.parentID, request.status))],
            nextDepartmentID := id + 1,
            departmentMenuIDs := t.departmentMenuIDs[id := menus]))
  }

  function InDepartment(user: User, id: int, name: string): User {
    if user.departmentID == Some(id) then user.(department := name) else user
  }

  function RenameDepartment(users: seq<Row<User>>, id: int, name: string): (r: seq<Row<User>>)
    ensures |r| == |users|
    ensures forall i | 0 <= i < |users| :: r[i] == Row(users[i].id, InDepartment(users[i].value, id, name))
  {
    if users == [] then []
    else [Row(users[0].id, InDepartment(users[0].value, id, name))] + RenameDepartment(users[1..], id, name)
  }

  ghost function UpdateDepartment(t: Tables, id: int, request: DepartmentRequest): Outcome {
    match Find(t.departments, id)
    case None => Err(DepartmentNotFound)
    case Some(current) =>
      var code := Lower(Trim(request.code));
      var name := Trim(request.name);
      var taken := FindDepartmentByCode(t.departments, code);
      if current.code == "huajian" && code != "huajian" then Err(RootCodeFixed)
      else if current.code == "huajian" && request.parentID.Some? then Err(RootHasNoParent)
      else if current.code == "huajian" && request.status != ENABLED then Err(RootStaysEnabled)
      else if taken.Some? && taken.value.id != id then Err(CodeTaken)
      else if request.parentID.Some?
              && WalkVerdict(DepartmentParents(t.departments), id, request.parentID.value).MeetsMoved? then
        Err(ParentIsBelow)
      else if request.parentID.Some?
              && WalkVerdict(DepartmentParents(t.departments), id, request.parentID.value).LeavesTable? then
        Err(ParentNotFound)
      else
        Ok(t.(departments := Replace(t.departments, id,
                               Department(name, code, request.parentID, request.status)),
              users := if current.name != name then RenameDepartment(t.users, id, name) else t.users))
  }

  function DeleteDepartment(t: Tables, id: int): Outcome {
    if Find(t.departments, id).None? then Err(DepartmentNotFound)
    else if exists d | d in t.departments :: d.value.parentID == Some(id) then Err(DepartmentHasChildren)
    else if exists u | u in t.users :: u.value.departmentID == Some(id) then Err(DepartmentHasUsers)
    else
      Ok(t.(departments := Remove(t.departments, id), departmentMenuIDs := t.departmentMenuIDs - {id}))
  }

  function UpdateDepartmentMenus(t: Tables, id: int, menuIDs: seq<int>): Outcome {
    match Find(t.departments, id)
    case None => Err(DepartmentNotFound)
    case Some(department) =>
      var ids := Unique(menuIDs);
      if !MenusExist(t.menus, menuIDs) then Err(MenuNotFound)
      else if department.code == "huajian" && |ids| != |Unique(IDs(t.menus))| then Err(RootKeepsAllMenus)
      else Ok(t.(departmentMenuIDs := t.departmentMenuIDs[id := ids]))
  }

  // ---- roles

  datatype RoleRequest = RoleRequest(name: string, code: string, status: string)

  function CreateRole(t: Tables, request: RoleRequest): Outcome {
    var code := Lower(Trim(request.code));
    if FindRoleByCode(t.roles, code).Some? then Err(CodeTaken)
    else
      var id := t.nextRoleID;
      Ok(t.(roles := t.roles + [Row(id, Role(Trim(request.name), code, request.status))],
            nextRoleID := id + 1,
            roleMenuIDs := t.roleMenuIDs[id := DashboardMenuIDs(t.menus)]))
  }

  function InRole(user: User, id: int, name: string, code: string): User {
    if user.roleID == Some(id) then user.(role := name, roleCode := code) else user
  }

  function RenameRole(users: seq<Row<User>>, id: int, name: string, code: string): (r: seq<Row<User>>)
    ensures |r| == |users|
    ensures forall i | 0 <= i < |users| :: r[i] == Row(users[i].id, InRole(users[i].value, id, name, code))
  {
    if users == [] then []
    else [Row(users[0].id, InRole(users[0].value, id, name, code))] + RenameRole(users[1..], id, name, code)
  }

  function UpdateRole(t: Tables, id: int, request: RoleRequest): Outcome {
    match Find(t.roles, id)
    case None => Err(RoleNotFound)
    case Some(current) =>
      var code := Lower(Trim(request.code));
      var name := Trim(request.name);
      var taken := FindRoleByCode(t.roles, code);
      if code != current.code then Err(RoleCodeFixed)
      else if current.code == SUPER_ADMIN && (name != "超级管理员" || request.status != ENABLED) then
        Err(AdministratorRoleFixed)
      else if current.code == SYSTEM_ADMIN && (name != "系统管理员" || request.status != ENABLED) then
        Err(AdministratorRoleFixed)
      else if taken.Some? && taken.value.id != id then Err(CodeTaken)
      else
        Ok(t.(roles := Replace(t.roles, id, Role(name, code, request.status)),
              users := RenameRole(t.users, id, name, code)))
  }

  function DeleteRole(t: Tables, id: int): Outcome {
    match Find(t.roles, id)
    case None => Err(RoleNotFound)
    case Some(role) =>
      if IsAdministratorRoleCode(role.code) then Err(AdministratorRoleStays)
      else if exists u | u in t.users :: u.value.roleID == Some(id) then Err(RoleHasUsers)
      else Ok(t.(roles := Remove(t.roles, id), roleMenuIDs := t.roleMenuIDs - {id}))
  }

  function UpdateRoleMenus(t: Tables, id: int, menuIDs: seq<int>): Outcome {
    match Find(t.roles, id)
    case None => Err(RoleNotFound)
    case Some(role) =>
      var ids := Unique(menuIDs);
      if !MenusExist(t.menus, menuIDs) then Err(MenuNotFound)
      else if IsAdministratorRoleCode(role.code) && SetOf(ids) != SetOf(IDs(t.menus)) then
        Err(AdministratorKeepsAllMenus)
      else Ok(t.(roleMenuIDs := t.roleMenuIDs[id := ids]))
  }

  // ---- users

  datatype UserRequest = UserRequest(
    username: string,
    roleID: Option<int>,
    role: string,
    departmentID: Option<int>,
    department: string,
    age: Option<int>)

  function ResolveDepartment(t: Tables, id: Option<int>, legacyName: string)
    : Result<(Option<int>, string), StoreError>
  {
    if id.Some? then
      match Find(t.departments, id.value)
      case None => Err(DepartmentNotFound)
      case Some(d) => Ok((id, d.name))
    else
      match FindDepartmentByName(t.departments, Trim(legacyName))
      case None => Ok((None, Trim(legacyName)))
      case Some(d) => Ok((Some(d.id), d.value.name))
  }

  function ResolveRole(t: Tables, id: Option<int>, legacyName: string): Result<Row<Role>, StoreError> {
    if id.Some? then
      match Find(t.roles, id.value)
      case None => Err(RoleNotFound)
      case Some(role) => Ok(Row(id.value, role))
    else
      match FindRoleByName(t.roles, Trim(legacyName))
      case None => Err(RoleNotFound)
      case Some(role) => Ok(role)
  }

  // The checks and the record that creating and updating a user share.
  function MakeUser(t: Tables, request: UserRequest, age: int): Result<User, StoreError> {
    var department := ResolveDepartment(t, request.departmentID, request.department);
    var role := ResolveRole(t, request.roleID, request.role);
    if department.Err? then Err(department.error)
    else if role.Err? then Err(role.error)
    else if age < 0 || age > 150 then Err(AgeOutOfRange)
    else
      Ok(User(Trim(request.username), Some(role.value.id), role.value.value.name, role.value.value.code,
              department.value.0, department.value.1, age))
  }

  function CreateUser(t: Tables, request: UserRequest): Outcome {
    var user := MakeUser(t, request, if request.age.Some? then request.age.value else 0);
    if FindUserByName(t.users, Trim(request.username)).Some? then Err(UsernameTaken)
    else if user.Err? then Err(user.error)
    else
      var id := t.nextUserID;
      Ok(t.(users := t.users + [Row(id, user.value)], nextUserID := id + 1, userMenuIDs := t.userMenuIDs[id := []]))
  }

  function UpdateUser(t: Tables, id: int, request: UserRequest): Outcome {
    match Find(t.users, id)
    case None => Err(UserNotFound)
    case Some(current) =>
      var taken := FindUserByName(t.users, Trim(request.username));
      var user := MakeUser(t, request, if request.age.Some? then request.age.value else current.age);
      if taken.Some? && taken.value.id != id then Err(UsernameTaken)
      else if user.Err? then Err(user.error)
      else Ok(t.(users := Replace(t.users, id, user.value)))
  }

  function DeleteUser(t: Tables, id: int): Outcome {
    if Find(t.users, id).None? then Err(UserNotFound)
    else
      Ok(t.(users := Remove(t.users, id),
            userMenuIDs := t.userMenuIDs - {id},
            userActionCodes := t.userActionCodes - {id}))
  }

  function UpdateUserMenus(t: Tables, id: int, menuIDs: seq<int>): Outcome {
    if Find(t.users, id).None? then Err(UserNotFound)
    else if !MenusExist(t.menus, menuIDs) then Err(MenuNotFound)
    else Ok(t.(userMenuIDs := t.userMenuIDs[id := Unique(menuIDs)]))
  }

  function UpdateUserActions(t: Tables, catalogue: seq<Definition>, id: int, codes: seq<string>): Outcome {
    match Find(t.users, id)
    case None => Err(UserNotFound)
    case Some(user) =>
      if IsAdministratorRoleCode(user.roleCode) then Err(ActionsFixed)
      else if exists c | c in codes :: !IsKnown(catalogue, c) then Err(UnknownAction)
      else Ok(t.(userActionCodes := t.userActionCodes[id := Merged(catalogue, [codes])]))
  }

  // ---- effective permissions

  function ActionsOf(t: Tables, userID: int): seq<string> {
    if userID in t.userActionCodes then t.userActionCodes[userID] else []
  }

  function DepartmentEnabled(t: Tables, id: int): bool {
    Find(t.departments, id).Some? && Find(t.departments, id).value.status == ENABLED
  }

  function RoleEnabled(t: Tables, id: int): bool {
    Find(t.roles, id).Some? && Find(t.roles, id).value.status == ENABLED
  }

  function DepartmentGrant(t: Tables, user: User): seq<int> {
    if user.departmentID.Some? && DepartmentEnabled(t, user.departmentID.value) then
      Granted(t.departmentMenuIDs, user.departmentID.value)
    else []
  }

  function RoleGrant(t: Tables, user: User): seq<int> {
    if user.roleID.Some? && RoleEnabled(t, user.roleID.value) then Granted(t.roleMenuIDs, user.roleID.value)
    else []
  }

  function MenusOf(menus: seq<Row<Menu>>, ids: seq<int>): (r: seq<Row<Menu>>)
    ensures forall id :: id in IDs(r) <==> id in ids && Find(menus, id).Some?
    ensures forall m | m in r :: m in menus
  {
    if ids == [] then []
    else
      var rest := MenusOf(menus, ids[1..]);
      match Find(menus, ids[0])
      case Some(m) =>
        assert IDs([Row(ids[0], m)] + rest) == [ids[0]] + IDs(rest);
        [Row(ids[0], m)] + rest
      case None => rest
  }

  /** What a request by the user is checked against. */
  function ListUserMenus(t: Tables, userID: int): Result<seq<Row<Menu>>, StoreError> {
    match Find(t.users, userID)
    case None => Err(UserNotFound)
    case Some(user) =>
      var ids := Granted(t.userMenuIDs, userID) + DepartmentGrant(t, user) + RoleGrant(t, user);
      Ok(MenusOf(t.menus, Expand(MenuParents(t.menus), ids)))
  }

  function ListUserActions(t: Tables, catalogue: seq<Definition>, userID: int): Result<seq<string>, StoreError> {
    match Find(t.users, userID)
    case None => Err(UserNotFound)
    case Some(user) =>
      if IsAdministratorRoleCode(user.roleCode) then Ok(AllCodes(catalogue))
      else
        var roleCodes := if user.roleID.Some? && RoleEnabled(t, user.roleID.value)
                         then RoleCodes(catalogue, Find(t.roles, user.roleID.value).value.code) else [];
        Ok(Merged(catalogue, [roleCodes, ActionsOf(t, userID)]))
  }

  datatype PermissionDetail = PermissionDetail(
    departmentMenuIDs: seq<int>,
    roleMenuIDs: seq<int>,
    userMenuIDs: seq<int>,
    effectiveMenuIDs: seq<int>,
    roleActionCodes: seq<string>,
    userActionCodes: seq<string>,
    effectiveActionCodes: seq<string>)

  /** What the permission page shows for the user. */
  function GetUserPermissionDetail(t: Tables, catalogue: seq<Definition>, userID: int)
    : Result<PermissionDetail, StoreError>
  {
    match Find(t.users, userID)
    case None => Err(UserNotFound)
    case Some(user) =>
      var department := if user.departmentID.Some? then Granted(t.departmentMenuIDs, user.departmentID.value) else [];
      var role := if user.roleID.Some? then Granted(t.roleMenuIDs, user.roleID.value) else [];
      var own := Granted(t.userMenuIDs, userID);
      var roleActions := if user.roleID.Some? && Find(t.roles, user.roleID.value).Some?
                         then RoleCodes(catalogue, Find(t.roles, user.roleID.value).value.code) else [];
      var userActions := Merged(catalogue, [ActionsOf(t, userID)]);
      var effective :=
        if IsAdministratorRoleCode(user.roleCode) then AllCodes(catalogue)
        else if user.roleID.Some? && RoleEnabled(t, user.roleID.value) then
          Merged(catalogue, [roleActions, userActions])
        else Merged(catalogue, [userActions]);
      Ok(PermissionDetail(
           Unique(department), Unique(role), Unique(own),
           Expand(MenuParents(t.menus), DepartmentGrant(t, user) + RoleGrant(t, user) + own),
           roleActions, userActions, effective))
  }
}

/** The tables a new store starts with (`backend/store/store.go:59-169`), and that they are consistent. */
module StoreSeed {
  import opened Prelude
  import opened Forest
  import opened Permissions
  import opened StoreSpec
  import opened StoreRows
  import opened StoreInvariant

  const SEED_USERS: seq<Row<User>> := [
    Row(1, User("MH", Some(1), SUPER_ADMIN_NAME, SUPER_ADMIN, Some(1), "HuaJian技术有限公司", 0)),
    Row(2, User("zhang.gong", None, "产线主管", "", Some(2), "制造部", 0)),
    Row(3, User("li.min", None, "质量工程师", "", Some(3), "质量与流程IT部", 0)),
    Row(4, User("wang.qiang", None, "设备维护", "", Some(2), "制造部", 0))]

  const SEED_DEPARTMENTS: seq<Row<Department>> := [
    Row(1, Department("HuaJian技术有限公司", ROOT_CODE, None, ENABLED)),
    Row(2, Department("制造部", "manufacturing", Some(1), ENABLED)),
    Row(3, Department("质量与流程IT部", "quality-process-it", Some(1), ENABLED))]

  const SEED_ROLES: seq<Row<Role>> := [
    Row(1, Role(SUPER_ADMIN_NAME, SUPER_ADMIN, ENABLED)),
    Row(2, Role(SYSTEM_ADMIN_NAME, SYSTEM_ADMIN, ENABLED)),
    Row(3, Role("部门管理员", "department-admin", ENABLED)),
    Row(4, Role("内容编辑", "content-editor", ENABLED)),
    Row(5, Role("审核员", "auditor", ENABLED)),
    Row(6, Role("普通用户", "viewer", ENABLED)),
    Row(7, Role("商品管理员", "product-manager", ENABLED)),
    Row(8, Role("订单管理员", "order-manager", ENABLED)),
    Row(9, Role("仓库管理员", "warehouse-manager", ENABLED)),
    Row(10, Role("客服专员", "customer-service", ENABLED)),
    Row(11, Role("财务人员", "finance", ENABLED))]

  const SEED_MENUS: seq<Row<Menu>> := [
    Row(1, Menu("工作台", "dashboard", None, 10, ENABLED)),
    Row(2, Menu("工单管理", "workorder.manage", Some(1), 20, ENABLED)),
    Row(3, Menu("质量追溯", "quality.trace", None, 30, ENABLED)),
    Row(4, Menu("设备点检", "equipment.inspection", None, 40, ENABLED))]

  const SEED: Tables := Tables(
    SEED_USERS, SEED_DEPARTMENTS, SEED_ROLES, SEED_MENUS,
    map[1 := [1, 2, 3, 4], 2 := [1, 2, 3, 4], 3 := [1, 3], 4 := [1, 4]],
    map[],
    map[1 := [1, 2, 3, 4], 2 := [1], 3 := [1]],
    map[1 := [1, 2, 3, 4], 2 := [1, 2, 3, 4], 3 := [1], 4 := [1], 5 := [1], 6 := [1], 7 := [1], 8 := [1],
        9 := [1], 10 := [1], 11 := [1]],
    5, 4, 12, 5)

  /** Rows numbered from 1 in order. */
  ghost predicate Numbered<V>(rows: seq<Row<V>>) {
    forall i | 0 <= i < |rows| :: rows[i].id == i + 1
  }

  lemma {:induction false} NumberedRows<V>(rows: seq<Row<V>>)
    requires Numbered(rows)
    ensures Sound(rows, |rows| + 1)
    ensures forall id :: id in SetOf(IDs(rows)) <==> 1 <= id <= |rows|
    ensures forall i | 0 <= i < |rows| :: Find(rows, rows[i].id) == Some(rows[i].value)
  {
    hide Find, IDs;
    assert NoDuplicates(IDs(rows)) by {
      forall i, j | 0 <= i < j < |rows| ensures IDs(rows)[i] != IDs(rows)[j] {}
    }
    forall i | 0 <= i < |rows| ensures Find(rows, rows[i].id) == Some(rows[i].value) {
      FindRow(rows, rows[i]);
    }
    forall id ensures id in IDs(rows) <==> 1 <= id <= |rows| {
      if 1 <= id <= |rows| {
        RowID(rows, rows[id - 1]);
      }
    }
  }

  lemma SeedRows()
    ensures |SEED_USERS| == 4 && Numbered(SEED_USERS)
    ensures |SEED_DEPARTMENTS| == 3 && Numbered(SEED_DEPARTMENTS)
    ensures |SEED_ROLES| == 11 && Numbered(SEED_ROLES)
    ensures |SEED_MENUS| == 4 && Numbered(SEED_MENUS)
  {
  }

  // ---- the seed is consistent; the tables are read only through these facts

  lemma OtherCode(code: string)
    requires IsTrimmed(code) && |code| != 11 && |code| != 12
    ensures !IsAdministratorRoleCode(code)
  {
    TrimmedStays(code);
  }

  lemma SeedRoleFacts()
    ensures SEED_ROLES[0].value == Role(SUPER_ADMIN_NAME, SUPER_ADMIN, ENABLED)
    ensures SEED_ROLES[1].value == Role(SYSTEM_ADMIN_NAME, SYSTEM_ADMIN, ENABLED)
    ensures forall i | 2 <= i < 11 ::
      var code := SEED_ROLES[i].value.code; IsTrimmed(code) && |code| != 11 && |code| != 12
  {
    forall i | 2 <= i < 11
      ensures var code := SEED_ROLES[i].value.code; IsTrimmed(code) && |code| != 11 && |code| != 12
    {
    }
  }

  lemma SeedRolesFit()
    ensures RolesFit(SEED_ROLES, 12)
  {
    SeedRows();
    SeedRoleFacts();
    RolesNumberedFit(SEED_ROLES);
  }

  lemma RolesNumberedFit(roles: seq<Row<Role>>)
    requires Numbered(roles) && |roles| > 2
    requires roles[0].value == Role(SUPER_ADMIN_NAME, SUPER_ADMIN, ENABLED)
    requires roles[1].value == Role(SYSTEM_ADMIN_NAME, SYSTEM_ADMIN, ENABLED)
    requires forall i | 2 <= i < |roles| ::
      var code := roles[i].value.code; IsTrimmed(code) && |code| != 11 && |code| != 12
    ensures RolesFit(roles, |roles| + 1)
  {
    hide IsAdministratorRoleCode, IsTrimmed;
    NumberedRows(roles);
    forall i | 2 <= i < |roles| ensures !IsAdministratorRoleCode(roles[i].value.code) {
      OtherCode(roles[i].value.code);
    }
  }

  lemma MenusNumberedFit(menus: seq<Row<Menu>>)
    requires Numbered(menus) && |menus| > 1 && menus[1].value.parentID == Some(1)
    requires forall i | 0 <= i < |menus| && i != 1 :: menus[i].value.parentID == None
    ensures MenusFit(menus, |menus| + 1)
  {
    hide MenuParents;
    NumberedRows(menus);
    var m := MenuParents(menus);
    forall id | id in m ensures Rooted(m, id) {
      MenuInParents(menus, id);
      FoundID(menus, id);
      MenuParent(menus, menus[0]);
      MenuParent(menus, menus[id - 1]);
      var path := if id == 2 then [2, 1] else [id];
      assert id == 2 ==> path[1..] == [1];
      assert RootPath(m, path);
    }
  }

  lemma MenuParent(menus: seq<Row<Menu>>, row: Row<Menu>)
    requires NoDuplicates(IDs(menus)) && row in menus
    ensures row.id in MenuParents(menus) && MenuParents(menus)[row.id] == row.value.parentID
  {
    FindRow(menus, row);
    RowID(menus, row);
  }

  lemma DepartmentParent(departments: seq<Row<Department>>, row: Row<Department>)
    requires NoDuplicates(IDs(departments)) && row in departments
    ensures row.id in DepartmentParents(departments) && DepartmentParents(departments)[row.id] == row.value.parentID
  {
    FindRow(departments, row);
    RowID(departments, row);
  }

  lemma DepartmentsNumberedFit(departments: seq<Row<Department>>)
    requires Numbered(departments) && |departments| > 0
    requires var root := departments[0].value; root.code == ROOT_CODE && root.parentID == None && root.status == ENABLED
    requires forall i | 0 < i < |departments| :: departments[i].value.parentID == Some(1)
    requires DistinctCodes(departments)
    ensures DepartmentsFit(departments, |departments| + 1)
  {
    hide DepartmentParents, DistinctCodes;
    NumberedRows(departments);
    var m := DepartmentParents(departments);
    forall id | id in m ensures Rooted(m, id) {
      DepartmentInParents(departments, id);
      FoundID(departments, id);
      DepartmentParent(departments, departments[0]);
      DepartmentParent(departments, departments[id - 1]);
      var path := if id == 1 then [1] else [id, 1];
      assert id != 1 ==> path[1..] == [1];
      assert RootPath(m, path);
    }
    assert Find(departments, departments[0].id) == Some(departments[0].value);
  }

  // Codes of different lengths are never confused.
  lemma LengthsTellApart(departments: seq<Row<Department>>)
    requires forall i, j | 0 <= i < j < |departments| :: |departments[i].value.code| != |departments[j].value.code|
    ensures DistinctCodes(departments)
  {
    hide EqualFold;
    forall a, b | a in departments && b in departments && EqualFold(a.value.code, b.value.code) ensures a.id == b.id {
      SameLength(a.value.code, b.value.code);
      var i :| 0 <= i < |departments| && departments[i] == a;
      var j :| 0 <= j < |departments| && departments[j] == b;
      assert i == j;
    }
  }

  lemma SameLength(a: string, b: string)
    requires EqualFold(a, b)
    ensures |a| == |b|
  {
  }

  lemma CachesNumberedFit(users: seq<Row<User>>, roles: seq<Row<Role>>, departments: seq<Row<Department>>)
    requires Numbered(roles) && Numbered(departments)
    requires forall i | 0 <= i < |users| ::
      var u := users[i].value;
      if u.roleID.None? then u.roleCode == ""
      else 1 <= u.roleID.value <= |roles| && u.role == roles[u.roleID.value - 1].value.name
           && u.roleCode == roles[u.roleID.value - 1].value.code
    requires forall i | 0 <= i < |users| ::
      var u := users[i].value;
      u.departmentID.Some? && 1 <= u.departmentID.value <= |departments|
      && u.department == departments[u.departmentID.value - 1].value.name
    ensures CachesFit(users, roles, departments)
  {
    NumberedRows(roles);
    NumberedRows(departments);
    forall i | 0 <= i < |users|
      ensures RoleCached(users[i].value, roles) && DepartmentCached(users[i].value, departments)
    {
      var u := users[i].value;
      if u.roleID.Some? {
        assert Find(roles, roles[u.roleID.value - 1].id) == Some(roles[u.roleID.value - 1].value);
      }
      assert Find(departments, departments[u.departmentID.value - 1].id).Some?;
    }
  }

  lemma SeedMenusFit()
    ensures MenusFit(SEED_MENUS, 5)
  {
    hide MenusFit;
    SeedRows();
    MenusNumberedFit(SEED_MENUS);
  }

  lemma SeedDepartmentsFit()
    ensures DepartmentsFit(SEED_DEPARTMENTS, 4)
  {
    hide DepartmentsFit;
    SeedRows();
    LengthsTellApart(SEED_DEPARTMENTS);
    DepartmentsNumberedFit(SEED_DEPARTMENTS);
  }

  lemma SeedCachesFit()
    ensures CachesFit(SEED_USERS, SEED_ROLES, SEED_DEPARTMENTS)
  {
    hide CachesFit;
    SeedRows();
    CachesNumberedFit(SEED_USERS, SEED_ROLES, SEED_DEPARTMENTS);
  }

  lemma SeedGrantsFit()
    ensures AllGrantsFit(SEED)
  {
    hide SEED_USERS, SEED_ROLES, SEED_MENUS, SEED_DEPARTMENTS, Find, IDs;
    SeedRows();
    NumberedRows(SEED_USERS);
    NumberedRows(SEED_ROLES);
    NumberedRows(SEED_MENUS);
    NumberedRows(SEED_DEPARTMENTS);
    assert SetOf(IDs(SEED_MENUS)) == {1, 2, 3, 4};
    assert SetOf([1, 2, 3, 4]) == {1, 2, 3, 4} by { assert [1, 2, 3, 4][0] == 1; }
  }

  lemma SeedIsConsistent()
    ensures Consistent(SEED)
  {
    hide SEED_USERS, SEED_ROLES, SEED_MENUS, SEED_DEPARTMENTS, MenusFit, RolesFit, DepartmentsFit, CachesFit,
      AllGrantsFit;
    SeedRows();
    NumberedRows(SEED_USERS);
    SeedMenusFit();
    SeedRolesFit();
    SeedDepartmentsFit();
    SeedCachesFit();
    SeedGrantsFit();
  }
}

/** The menus a user may see, as the store lists them and the page flattens them. */
module UserMenuTree {
  import opened Prelude
  import opened Forest
  import opened StoreSpec
  import opened StoreRows
  import opened StoreInvariant
  import opened StoreAccess
  import MenuTree

  function ForPage(rows: seq<Row<Menu>>): (r: seq<MenuTree.Menu>)
    ensures |r| == |rows|
    ensures forall i | 0 <= i < |rows| :: r[i] == MenuTree.Menu(rows[i].id, rows[i].value.parentID, rows[i].value.sort)
  {
    if rows == [] then []
    else [MenuTree.Menu(rows[0].id, rows[0].value.parentID, rows[0].value.sort)] + ForPage(rows[1..])
  }

  lemma PageMenusAreUnique(rows: seq<Row<Menu>>)
    requires NoDuplicates(IDs(rows))
    ensures MenuTree.UniqueMenus(ForPage(rows))
  {
    forall i, j | 0 <= i < j < |rows| ensures rows[i].id != rows[j].id {
      assert IDs(rows)[i] != IDs(rows)[j];
    }
  }

  // The page's parent table agrees with the store's on the listed menus.
  lemma PageParent(rows: seq<Row<Menu>>, row: Row<Menu>)
    requires NoDuplicates(IDs(rows)) && row in rows
    ensures row.id in MenuTree.ParentsOf(ForPage(rows))
      && MenuTree.ParentsOf(ForPage(rows))[row.id] == row.value.parentID
  {
    PageMenusAreUnique(rows);
    var i :| 0 <= i < |rows| && rows[i] == row;
    MenuTree.ParentOf(ForPage(rows), ForPage(rows)[i]);
  }

  lemma ListedRow(t: Tables, userID: int, id: int) returns (row: Row<Menu>)
    requires Consistent(t) && Find(t.users, userID).Some? && id in IDs(ListUserMenus(t, userID).value)
    ensures row in ListUserMenus(t, userID).value && row.id == id && row in t.menus
  {
    hide Consistent;
    var listed := ListUserMenus(t, userID).value;
    var i :| 0 <= i < |listed| && IDs(listed)[i] == id;
    row := listed[i];
  }

  /** The whole path from a listed menu to its root is listed. */
  lemma {:induction false} ListedPath(t: Tables, userID: int, path: seq<int>)
    requires Consistent(t) && Find(t.users, userID).Some? && RootPath(MenuParents(t.menus), path)
    requires path[0] in IDs(ListUserMenus(t, userID).value)
    ensures RootPath(MenuTree.ParentsOf(ForPage(ListUserMenus(t, userID).value)), path)
    decreases |path|
  {
    hide Consistent, MenusOf, Expand, DepartmentGrant, RoleGrant, Granted, MenuParents, MenuTree.ParentsOf,
      NoDuplicates;
    var listed := ListUserMenus(t, userID).value;
    var row := ListedRow(t, userID, path[0]);
    UserMenusAgreeWithQuery(t, userID);
    PageParent(listed, row);
    StoreParent(t, row);
    if row.value.parentID.Some? {
      ListedMenusHaveParents(t, userID, row);
      ListedPath(t, userID, path[1..]);
    }
  }

  lemma StoreParent(t: Tables, row: Row<Menu>)
    requires Consistent(t) && row in t.menus
    ensures row.id in MenuParents(t.menus) && MenuParents(t.menus)[row.id] == row.value.parentID
  {
    MenuParentOf(t.menus, t.nextMenuID, row);
  }

  lemma ListedIsRooted(t: Tables, userID: int, id: int)
    requires Consistent(t) && Find(t.users, userID).Some? && id in IDs(ListUserMenus(t, userID).value)
    ensures Rooted(MenuTree.ParentsOf(ForPage(ListUserMenus(t, userID).value)), id)
  {
    hide Consistent, MenusOf, Expand, DepartmentGrant, RoleGrant, Granted, MenuParents, MenuTree.ParentsOf,
      NoDuplicates;
    var row := ListedRow(t, userID, id);
    StoreParent(t, row);
    MenusAreRooted(t, id);
    var path :| RootPath(MenuParents(t.menus), path) && path[0] == id;
    ListedPath(t, userID, path);
  }

  lemma MenusAreRooted(t: Tables, id: int)
    requires Consistent(t) && id in MenuParents(t.menus)
    ensures Rooted(MenuParents(t.menus), id)
  {
  }

  /** In every consistent store the page shows every menu the user may see. */
  lemma PageDropsNothing(t: Tables, userID: int)
    requires Consistent(t) && Find(t.users, userID).Some?
    ensures var listed := ForPage(ListUserMenus(t, userID).value);
      MenuTree.UniqueMenus(listed)
      && forall x | x in listed :: exists node | node in MenuTree.BuildMenuTree(listed) :: node.menu == x
  {
    hide Consistent, MenusOf, Expand, DepartmentGrant, RoleGrant, Granted, MenuParents, MenuTree.ParentsOf,
      MenuTree.BuildMenuTree, NoDuplicates, Rooted;
    var rows := ListUserMenus(t, userID).value;
    var listed := ForPage(rows);
    UserMenusAgreeWithQuery(t, userID);
    PageMenusAreUnique(rows);
    forall id | id in MenuTree.ParentsOf(listed) ensures Rooted(MenuTree.ParentsOf(listed), id) {
      var x := MenuTree.MenuOf(listed, id);
      var i :| 0 <= i < |listed| && listed[i] == x;
      RowID(rows, rows[i]);
      ListedIsRooted(t, userID, id);
    }
    MenuTree.NothingDroppedFromForest(listed);
  }
}

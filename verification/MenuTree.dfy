/**
 The menu list flattened depth-first (`frontend/src/utils/menu.ts`).  Only the
 fields that decide the order are kept.
 */
module MenuTree {
  import opened Prelude
  import opened Forest

  // A missing parent id is the same as null.
  datatype Menu = Menu(id: int, parentID: Option<int>, sort: int)

  datatype MenuNode = MenuNode(menu: Menu, depth: nat)

  ghost predicate UniqueMenus(menus: seq<Menu>) {
    forall i, j | 0 <= i < j < |menus| :: menus[i].id != menus[j].id
  }

  // ---- sorting

  predicate Before(a: Menu, b: Menu) {
    a.sort < b.sort || (a.sort == b.sort && a.id <= b.id)
  }

  predicate Ordered(menus: seq<Menu>) {
    forall i, j | 0 <= i < j < |menus| :: Before(menus[i], menus[j])
  }

  function Insert(menu: Menu, sorted: seq<Menu>): seq<Menu> {
    if sorted == [] || Before(menu, sorted[0]) then [menu] + sorted else [sorted[0]] + Insert(menu, sorted[1..])
  }

  function Sorted(menus: seq<Menu>): seq<Menu> {
    if menus == [] then [] else Insert(menus[0], Sorted(menus[1..]))
  }

  lemma {:induction false} InsertHolds(menu: Menu, sorted: seq<Menu>, m: Menu)
    ensures m in Insert(menu, sorted) <==> m in sorted || m == menu
    decreases |sorted|
  {
    if sorted != [] && !Before(menu, sorted[0]) {
      InsertHolds(menu, sorted[1..], m);
      assert m in sorted <==> m == sorted[0] || m in sorted[1..];
    }
  }

  lemma {:induction false} InsertOrders(menu: Menu, sorted: seq<Menu>)
    requires Ordered(sorted)
    ensures Ordered(Insert(menu, sorted))
    decreases |sorted|
  {
    if sorted != [] && !Before(menu, sorted[0]) {
      InsertOrders(menu, sorted[1..]);
      var rest := Insert(menu, sorted[1..]);
      forall k | 0 <= k < |rest| ensures Before(sorted[0], rest[k]) {
        InsertHolds(menu, sorted[1..], rest[k]);
      }
    }
  }

  lemma {:induction false} InsertKeepsUnique(menu: Menu, sorted: seq<Menu>)
    requires UniqueMenus(sorted) && forall m | m in sorted :: m.id != menu.id
    ensures UniqueMenus(Insert(menu, sorted))
    decreases |sorted|
  {
    if sorted != [] && !Before(menu, sorted[0]) {
      InsertKeepsUnique(menu, sorted[1..]);
      var rest := Insert(menu, sorted[1..]);
      forall k | 0 <= k < |rest| ensures sorted[0].id != rest[k].id {
        InsertHolds(menu, sorted[1..], rest[k]);
      }
    }
  }

  /** Sorting orders the menus and neither loses, adds nor repeats one. */
  lemma {:induction false} SortedIsPermutation(menus: seq<Menu>)
    requires UniqueMenus(menus)
    ensures Ordered(Sorted(menus)) && UniqueMenus(Sorted(menus))
    ensures forall m :: m in Sorted(menus) <==> m in menus
    decreases |menus|
  {
    if menus != [] {
      var rest := Sorted(menus[1..]);
      SortedIsPermutation(menus[1..]);
      InsertOrders(menus[0], rest);
      InsertKeepsUnique(menus[0], rest);
      forall m ensures m in Sorted(menus) <==> m in menus {
        InsertHolds(menus[0], rest, m);
        assert m in menus <==> m == menus[0] || m in menus[1..];
      }
    }
  }

  // ---- the parent table of a list

  function ParentsOf(menus: seq<Menu>): Parents {
    if menus == [] then map[] else ParentsOf(menus[1..])[menus[0].id := menus[0].parentID]
  }

  lemma {:induction false} ParentOf(menus: seq<Menu>, m: Menu)
    requires UniqueMenus(menus) && m in menus
    ensures m.id in ParentsOf(menus) && ParentsOf(menus)[m.id] == m.parentID
    decreases |menus|
  {
    if m != menus[0] {
      assert m in menus[1..];
      ParentOf(menus[1..], m);
      var k :| 0 <= k < |menus[1..]| && menus[1..][k] == m;
      assert menus[k + 1] == m;
    }
  }

  lemma {:induction false} MenuOf(menus: seq<Menu>, id: int) returns (m: Menu)
    requires id in ParentsOf(menus)
    ensures m in menus && m.id == id
    decreases |menus|
  {
    if menus[0].id == id {
      m := menus[0];
    } else {
      m := MenuOf(menus[1..], id);
    }
  }

  lemma SameMenu(menus: seq<Menu>, a: Menu, b: Menu)
    requires UniqueMenus(menus) && a in menus && b in menus && a.id == b.id
    ensures a == b
  {
  }

  // ---- the recursion

  /** `path` climbs from the menu whose children are being listed to a root; it is empty at the top. */
  ghost predicate Leads(sorted: seq<Menu>, parent: Option<int>, path: seq<int>) {
    if parent.None? then path == [] else RootPath(ParentsOf(sorted), path) && path[0] == parent.value
  }

  lemma StepsDown(sorted: seq<Menu>, menu: Menu, path: seq<int>)
    requires UniqueMenus(sorted) && menu in sorted && Leads(sorted, menu.parentID, path)
    ensures Leads(sorted, Some(menu.id), [menu.id] + path) && |path| < |ParentsOf(sorted)|
  {
    ParentOf(sorted, menu);
    assert ([menu.id] + path)[1..] == path;
    PathIsShort(ParentsOf(sorted), [menu.id] + path);
  }

  /**
   The menus of `rest` under `parent`, each followed by everything below it.
   The ghost path shows that a cycle is never entered, so the recursion ends.
   */
  function AppendChildren(sorted: seq<Menu>, rest: seq<Menu>, parent: Option<int>, depth: nat,
    ghost path: seq<int>): seq<MenuNode>
    requires UniqueMenus(sorted) && Leads(sorted, parent, path) && forall m | m in rest :: m in sorted
    decreases |ParentsOf(sorted)| - |path|, |rest|
  {
    if rest == [] then []
    else if rest[0].parentID == parent then
      StepsDown(sorted, rest[0], path);
      [MenuNode(rest[0], depth)]
      + AppendChildren(sorted, sorted, Some(rest[0].id), depth + 1, [rest[0].id] + path)
      + AppendChildren(sorted, rest[1..], parent, depth, path)
    else AppendChildren(sorted, rest[1..], parent, depth, path)
  }

  function BuildMenuTree(menus: seq<Menu>): seq<MenuNode>
    requires UniqueMenus(menus)
  {
    SortedIsPermutation(menus);
    AppendChildren(Sorted(menus), Sorted(menus), None, 0, [])
  }

  // ---- what is listed

  /** The path from a menu to its root. */
  ghost function Chain(m: Parents, id: int): (path: seq<int>)
    requires Rooted(m, id)
    ensures RootPath(m, path) && path[0] == id
  {
    var path :| RootPath(m, path) && path[0] == id;
    path
  }

  lemma ChainIs(m: Parents, path: seq<int>)
    requires RootPath(m, path)
    ensures Rooted(m, path[0]) && Chain(m, path[0]) == path
  {
    RootPathUnique(m, path, Chain(m, path[0]));
  }

  /** The menu's chain runs through `c` directly above `path`. */
  ghost predicate Through(m: Parents, id: int, c: int, path: seq<int>) {
    Rooted(m, id)
    && var q := Chain(m, id);
       |q| > |path| && q[|q| - |path|..] == path && q[|q| - |path| - 1] == c
  }

  ghost predicate Belongs(sorted: seq<Menu>, rest: seq<Menu>, path: seq<int>, x: Menu) {
    x in sorted && exists c | c in rest :: Through(ParentsOf(sorted), x.id, c.id, path)
  }

  lemma HeadGoesThrough(sorted: seq<Menu>, c: Menu, path: seq<int>)
    requires UniqueMenus(sorted) && c in sorted && Leads(sorted, c.parentID, path)
    ensures Through(ParentsOf(sorted), c.id, c.id, path)
    ensures Chain(ParentsOf(sorted), c.id) == [c.id] + path
  {
    StepsDown(sorted, c, path);
    ChainIs(ParentsOf(sorted), [c.id] + path);
    assert ([c.id] + path)[1..] == path;
  }

  lemma DeeperGoesThrough(m: Parents, id: int, below: int, c: int, path: seq<int>)
    requires Through(m, id, below, [c] + path)
    ensures Through(m, id, c, path) && |Chain(m, id)| > |path| + 1
  {
  }

  lemma GoesDeeper(sorted: seq<Menu>, x: Menu, c: int, path: seq<int>)
    requires UniqueMenus(sorted) && x in sorted && Through(ParentsOf(sorted), x.id, c, path)
    requires |Chain(ParentsOf(sorted), x.id)| > |path| + 1
    ensures Belongs(sorted, sorted, [c] + path, x)
  {
    var m := ParentsOf(sorted);
    var q := Chain(m, x.id);
    assert q[|q| - |path| - 1..] == [c] + path;
    PathStaysInside(m, q);
    var below := MenuOf(sorted, q[|q| - |path| - 2]);
    assert Through(m, x.id, below.id, [c] + path);
  }

  lemma ThroughIsChild(sorted: seq<Menu>, x: Menu, c: Menu, parent: Option<int>, path: seq<int>)
    requires UniqueMenus(sorted) && c in sorted && Leads(sorted, parent, path)
      && Through(ParentsOf(sorted), x.id, c.id, path)
    ensures c.parentID == parent
  {
    var m := ParentsOf(sorted);
    var q := Chain(m, x.id);
    SuffixIsRootPath(m, q, |q| - |path| - 1);
    assert q[|q| - |path| - 1..] == [c.id] + path;
    ParentOf(sorted, c);
  }

  /** Each listed node belongs under the path, and its depth is the length of its chain less one. */
  lemma {:induction false} ListedBelongs(sorted: seq<Menu>, rest: seq<Menu>, parent: Option<int>, path: seq<int>,
    node: MenuNode)
    requires UniqueMenus(sorted) && Leads(sorted, parent, path) && forall m | m in rest :: m in sorted
    requires node in AppendChildren(sorted, rest, parent, |path|, path)
    ensures Belongs(sorted, rest, path, node.menu) && node.depth == |Chain(ParentsOf(sorted), node.menu.id)| - 1
    decreases |ParentsOf(sorted)| - |path|, |rest|
  {
    var c := rest[0];
    if c.parentID == parent {
      StepsDown(sorted, c, path);
      HeadGoesThrough(sorted, c, path);
      var sub := AppendChildren(sorted, sorted, Some(c.id), |path| + 1, [c.id] + path);
      var tail := AppendChildren(sorted, rest[1..], parent, |path|, path);
      if node in sub {
        ListedBelongs(sorted, sorted, Some(c.id), [c.id] + path, node);
        var below :| below in sorted && Through(ParentsOf(sorted), node.menu.id, below.id, [c.id] + path);
        DeeperGoesThrough(ParentsOf(sorted), node.menu.id, below.id, c.id, path);
      } else if node in tail {
        ListedBelongs(sorted, rest[1..], parent, path, node);
      } else {
        assert node == MenuNode(c, |path|);
      }
    } else {
      ListedBelongs(sorted, rest[1..], parent, path, node);
    }
  }

  /** Whatever belongs under the path is listed. */
  lemma {:induction false} BelongingIsListed(sorted: seq<Menu>, rest: seq<Menu>, parent: Option<int>, path: seq<int>,
    x: Menu)
    requires UniqueMenus(sorted) && Leads(sorted, parent, path) && forall m | m in rest :: m in sorted
    requires Belongs(sorted, rest, path, x)
    ensures exists node | node in AppendChildren(sorted, rest, parent, |path|, path) :: node.menu == x
    decreases |ParentsOf(sorted)| - |path|, |rest|
  {
    var m := ParentsOf(sorted);
    var c :| c in rest && Through(m, x.id, c.id, path);
    ThroughIsChild(sorted, x, c, parent, path);
    if c == rest[0] {
      StepsDown(sorted, c, path);
      if |Chain(m, x.id)| == |path| + 1 {
        SameMenu(sorted, x, c);
        assert MenuNode(c, |path|) in AppendChildren(sorted, rest, parent, |path|, path);
      } else {
        GoesDeeper(sorted, x, c.id, path);
        BelongingIsListed(sorted, sorted, Some(c.id), [c.id] + path, x);
      }
    } else {
      assert c in rest[1..];
      if rest[0].parentID == parent {
        StepsDown(sorted, rest[0], path);
      }
      BelongingIsListed(sorted, rest[1..], parent, path, x);
    }
  }

  // ---- in which order

  // What the head's part and the rest's part of a listing can share.
  lemma PartsApart(m: Parents, x: int, c: int, d: int, path: seq<int>)
    requires Through(m, x, c, path) && Through(m, x, d, path)
    ensures c == d
  {
  }

  /** No menu is listed twice. */
  lemma {:induction false} ListedOnce(sorted: seq<Menu>, rest: seq<Menu>, parent: Option<int>, path: seq<int>,
    j: nat, k: nat)
    requires UniqueMenus(sorted) && UniqueMenus(rest) && Leads(sorted, parent, path)
      && forall m | m in rest :: m in sorted
    requires j < k < |AppendChildren(sorted, rest, parent, |path|, path)|
    ensures var out := AppendChildren(sorted, rest, parent, |path|, path); out[j].menu.id != out[k].menu.id
    decreases |ParentsOf(sorted)| - |path|, |rest|
  {
    hide Belongs, Through, UniqueMenus, Leads;
    var c, out := rest[0], AppendChildren(sorted, rest, parent, |path|, path);
    if c.parentID == parent {
      StepsDown(sorted, c, path);
      var sub := AppendChildren(sorted, sorted, Some(c.id), |path| + 1, [c.id] + path);
      var tail := AppendChildren(sorted, rest[1..], parent, |path|, path);
      var below := 1 + |sub|;
      TailIsUnique(rest);
      assert out == [MenuNode(c, |path|)] + sub + tail;
      if j >= below {
        ListedOnce(sorted, rest[1..], parent, path, j - below, k - below);
      } else if k < below && j > 0 {
        ListedOnce(sorted, sorted, Some(c.id), [c.id] + path, j - 1, k - 1);
      } else if k < below {
        HeadGoesThrough(sorted, c, path);
        InSub(sorted, c, path, sub[k - 1]);
      } else {
        InHeadOrSub(sorted, rest, parent, path, j);
        InTail(sorted, rest, parent, path, tail[k - below]);
        if out[j].menu.id == out[k].menu.id {
          var d :| d in rest[1..] && Through(ParentsOf(sorted), out[k].menu.id, d.id, path);
          PartsApart(ParentsOf(sorted), out[j].menu.id, c.id, d.id, path);
          assert false;
        }
      }
    } else {
      TailIsUnique(rest);
      ListedOnce(sorted, rest[1..], parent, path, j, k);
    }
  }

  lemma TailIsUnique(rest: seq<Menu>)
    requires UniqueMenus(rest) && rest != []
    ensures UniqueMenus(rest[1..]) && forall d | d in rest[1..] :: d.id != rest[0].id
  {
  }

  lemma InSub(sorted: seq<Menu>, c: Menu, path: seq<int>, node: MenuNode)
    requires UniqueMenus(sorted) && c in sorted && Leads(sorted, c.parentID, path)
    requires Leads(sorted, Some(c.id), [c.id] + path)
    requires node in AppendChildren(sorted, sorted, Some(c.id), |path| + 1, [c.id] + path)
    ensures Through(ParentsOf(sorted), node.menu.id, c.id, path)
      && |Chain(ParentsOf(sorted), node.menu.id)| > |path| + 1
  {
    ListedBelongs(sorted, sorted, Some(c.id), [c.id] + path, node);
    var below :| below in sorted && Through(ParentsOf(sorted), node.menu.id, below.id, [c.id] + path);
    DeeperGoesThrough(ParentsOf(sorted), node.menu.id, below.id, c.id, path);
  }

  lemma InHeadOrSub(sorted: seq<Menu>, rest: seq<Menu>, parent: Option<int>, path: seq<int>, j: nat)
    requires UniqueMenus(sorted) && Leads(sorted, parent, path) && rest != [] && rest[0].parentID == parent
    requires forall m | m in rest :: m in sorted
    requires Leads(sorted, Some(rest[0].id), [rest[0].id] + path)
    requires j < 1 + |AppendChildren(sorted, sorted, Some(rest[0].id), |path| + 1, [rest[0].id] + path)|
    ensures Through(ParentsOf(sorted), AppendChildren(sorted, rest, parent, |path|, path)[j].menu.id, rest[0].id, path)
  {
    hide Through;
    HeadGoesThrough(sorted, rest[0], path);
    if j > 0 {
      InSub(sorted, rest[0], path,
        AppendChildren(sorted, sorted, Some(rest[0].id), |path| + 1, [rest[0].id] + path)[j - 1]);
    }
  }

  lemma InTail(sorted: seq<Menu>, rest: seq<Menu>, parent: Option<int>, path: seq<int>, node: MenuNode)
    requires UniqueMenus(sorted) && Leads(sorted, parent, path) && rest != [] && forall m | m in rest :: m in sorted
    requires node in AppendChildren(sorted, rest[1..], parent, |path|, path)
    ensures exists d | d in rest[1..] :: Through(ParentsOf(sorted), node.menu.id, d.id, path)
  {
    ListedBelongs(sorted, rest[1..], parent, path, node);
  }

  /** A listed menu comes after its parent and one level below it, unless its parent is the one being listed. */
  lemma {:induction false} ListedAfterParent(sorted: seq<Menu>, rest: seq<Menu>, parent: Option<int>, path: seq<int>,
    k: nat)
    requires UniqueMenus(sorted) && Leads(sorted, parent, path) && forall m | m in rest :: m in sorted
    requires k < |AppendChildren(sorted, rest, parent, |path|, path)|
    ensures var out := AppendChildren(sorted, rest, parent, |path|, path);
      (out[k].menu.parentID == parent && out[k].depth == |path|)
      || exists j :: 0 <= j < k && out[k].menu.parentID == Some(out[j].menu.id) && out[k].depth == out[j].depth + 1
    decreases |ParentsOf(sorted)| - |path|, |rest|
  {
    hide Leads, UniqueMenus;
    var c, out := rest[0], AppendChildren(sorted, rest, parent, |path|, path);
    if c.parentID == parent {
      StepsDown(sorted, c, path);
      var sub := AppendChildren(sorted, sorted, Some(c.id), |path| + 1, [c.id] + path);
      var tail := AppendChildren(sorted, rest[1..], parent, |path|, path);
      var below := 1 + |sub|;
      assert out == [MenuNode(c, |path|)] + sub + tail;
      if k >= below {
        ListedAfterParent(sorted, rest[1..], parent, path, k - below);
        if !(out[k].menu.parentID == parent && out[k].depth == |path|) {
          var j :| 0 <= j < k - below && tail[k - below].menu.parentID == Some(tail[j].menu.id)
            && tail[k - below].depth == tail[j].depth + 1;
          assert out[below + j] == tail[j];
        }
      } else if k > 0 {
        ListedAfterParent(sorted, sorted, Some(c.id), [c.id] + path, k - 1);
        if sub[k - 1].menu.parentID == Some(c.id) && sub[k - 1].depth == |path| + 1 {
          assert out[0] == MenuNode(c, |path|);
        } else {
          var j :| 0 <= j < k - 1 && sub[k - 1].menu.parentID == Some(sub[j].menu.id)
            && sub[k - 1].depth == sub[j].depth + 1;
          assert out[1 + j] == sub[j];
        }
      }
    } else {
      ListedAfterParent(sorted, rest[1..], parent, path, k);
    }
  }

  /** Menus with one parent have equally long chains that differ only in the menu itself. */
  lemma SiblingChains(sorted: seq<Menu>, a: Menu, b: Menu)
    requires UniqueMenus(sorted) && a in sorted && b in sorted && a.parentID == b.parentID
    requires Rooted(ParentsOf(sorted), a.id) && Rooted(ParentsOf(sorted), b.id)
    ensures Chain(ParentsOf(sorted), a.id)[1..] == Chain(ParentsOf(sorted), b.id)[1..]
  {
    var m := ParentsOf(sorted);
    var p, q := Chain(m, a.id), Chain(m, b.id);
    ParentOf(sorted, a);
    ParentOf(sorted, b);
    if a.parentID.Some? {
      RootPathUnique(m, p[1..], q[1..]);
    }
  }

  lemma SameAbove(p: seq<int>, q: seq<int>, i: nat)
    requires 1 <= i < |p| == |q| && p[1..] == q[1..]
    ensures p[i] == q[i]
  {
  }

  // The head's part of a listing precedes the rest's part also among siblings.
  lemma HeadBeforeTail(sorted: seq<Menu>, rest: seq<Menu>, path: seq<int>, a: Menu, b: Menu, c: Menu, d: Menu)
    requires UniqueMenus(sorted) && a in sorted && b in sorted && a.parentID == b.parentID
    requires c in sorted && d in sorted && c.id != d.id
    requires Through(ParentsOf(sorted), a.id, c.id, path) && Through(ParentsOf(sorted), b.id, d.id, path)
    ensures a == c && b == d
  {
    SiblingChains(sorted, a, b);
    var p, q := Chain(ParentsOf(sorted), a.id), Chain(ParentsOf(sorted), b.id);
    assert |p| == |q|;
    if |p| > |path| + 1 {
      SameAbove(p, q, |p| - |path| - 1);
      assert false;
    }
    SameMenu(sorted, a, c);
    SameMenu(sorted, b, d);
  }

  /** Siblings come in the order of their sort number, then id. */
  lemma {:induction false} SiblingsOrdered(sorted: seq<Menu>, rest: seq<Menu>, parent: Option<int>, path: seq<int>,
    j: nat, k: nat)
    requires UniqueMenus(sorted) && Ordered(sorted) && UniqueMenus(rest) && Ordered(rest)
    requires Leads(sorted, parent, path) && forall m | m in rest :: m in sorted
    requires j < k < |AppendChildren(sorted, rest, parent, |path|, path)|
    requires var out := AppendChildren(sorted, rest, parent, |path|, path); out[j].menu.parentID == out[k].menu.parentID
    ensures var out := AppendChildren(sorted, rest, parent, |path|, path); Before(out[j].menu, out[k].menu)
    decreases |ParentsOf(sorted)| - |path|, |rest|
  {
    hide Through, UniqueMenus, Leads, Before;
    var c, out := rest[0], AppendChildren(sorted, rest, parent, |path|, path);
    TailIsUnique(rest);
    if c.parentID == parent {
      StepsDown(sorted, c, path);
      var sub := AppendChildren(sorted, sorted, Some(c.id), |path| + 1, [c.id] + path);
      var tail := AppendChildren(sorted, rest[1..], parent, |path|, path);
      var below := 1 + |sub|;
      assert out == [MenuNode(c, |path|)] + sub + tail;
      if j >= below {
        SiblingsOrdered(sorted, rest[1..], parent, path, j - below, k - below);
      } else if k < below && j > 0 {
        SiblingsOrdered(sorted, sorted, Some(c.id), [c.id] + path, j - 1, k - 1);
      } else {
        ListedBelongs(sorted, rest, parent, path, out[j]);
        ListedBelongs(sorted, rest, parent, path, out[k]);
        InHeadOrSub(sorted, rest, parent, path, j);
        if k < below {
          InSub(sorted, c, path, sub[k - 1]);
          HeadGoesThrough(sorted, c, path);
          HeadAboveSub(sorted, c, out[k].menu, path);
        } else {
          InTail(sorted, rest, parent, path, tail[k - below]);
          var d :| d in rest[1..] && Through(ParentsOf(sorted), out[k].menu.id, d.id, path);
          HeadBeforeTail(sorted, rest, path, out[j].menu, out[k].menu, c, d);
        }
      }
    } else {
      SiblingsOrdered(sorted, rest[1..], parent, path, j, k);
    }
  }

  lemma HeadAboveSub(sorted: seq<Menu>, c: Menu, x: Menu, path: seq<int>)
    requires UniqueMenus(sorted) && c in sorted && x in sorted
    requires Through(ParentsOf(sorted), c.id, c.id, path) && Chain(ParentsOf(sorted), c.id) == [c.id] + path
    requires Through(ParentsOf(sorted), x.id, c.id, path) && |Chain(ParentsOf(sorted), x.id)| > |path| + 1
    ensures x.parentID != c.parentID
  {
    if x.parentID == c.parentID {
      SiblingChains(sorted, x, c);
    }
  }

  // ---- the whole list

  lemma SortedParents(menus: seq<Menu>)
    requires UniqueMenus(menus)
    ensures UniqueMenus(Sorted(menus)) && ParentsOf(Sorted(menus)) == ParentsOf(menus)
  {
    var sorted := Sorted(menus);
    SortedIsPermutation(menus);
    forall id ensures id in ParentsOf(sorted) <==> id in ParentsOf(menus)
      ensures id in ParentsOf(sorted) && id in ParentsOf(menus) ==> ParentsOf(sorted)[id] == ParentsOf(menus)[id]
    {
      if id in ParentsOf(sorted) {
        var x := MenuOf(sorted, id);
        ParentOf(sorted, x);
        ParentOf(menus, x);
      }
      if id in ParentsOf(menus) {
        var x := MenuOf(menus, id);
        ParentOf(sorted, x);
      }
    }
    assert forall id | id in ParentsOf(sorted).Keys :: ParentsOf(sorted)[id] == ParentsOf(menus)[id];
  }

  /** The list holds exactly the menus whose parents lead to a root, cyclic and orphaned ones excluded. */
  lemma TreeHoldsRootedMenus(menus: seq<Menu>, x: Menu)
    requires UniqueMenus(menus)
    ensures (exists node | node in BuildMenuTree(menus) :: node.menu == x) <==>
      x in menus && Rooted(ParentsOf(menus), x.id)
  {
    var sorted := Sorted(menus);
    SortedIsPermutation(menus);
    SortedParents(menus);
    if node :| node in BuildMenuTree(menus) && node.menu == x {
      ListedBelongs(sorted, sorted, None, [], node);
    }
    if x in menus && Rooted(ParentsOf(menus), x.id) {
      var q := Chain(ParentsOf(sorted), x.id);
      PathStaysInside(ParentsOf(sorted), q);
      var top := MenuOf(sorted, q[|q| - 1]);
      assert q[|q|..] == [];
      assert Through(ParentsOf(sorted), x.id, top.id, []);
      BelongingIsListed(sorted, sorted, None, [], x);
    }
  }

  /** Each menu once, after its parent and one level deeper; roots at depth 0; siblings by sort, then id. */
  lemma TreeIsWellOrdered(menus: seq<Menu>, k: nat)
    requires UniqueMenus(menus) && k < |BuildMenuTree(menus)|
    ensures var out := BuildMenuTree(menus);
      && (forall j | 0 <= j < k :: out[j].menu.id != out[k].menu.id)
      && (out[k].menu.parentID.None? ==> out[k].depth == 0)
      && (out[k].menu.parentID.Some? ==>
            exists j :: 0 <= j < k && out[k].menu.parentID == Some(out[j].menu.id) && out[k].depth == out[j].depth + 1)
      && (forall j | 0 <= j < k && out[j].menu.parentID == out[k].menu.parentID ::
            var a, b := out[j].menu, out[k].menu; a.sort < b.sort || (a.sort == b.sort && a.id < b.id))
  {
    var sorted, out := Sorted(menus), BuildMenuTree(menus);
    SortedIsPermutation(menus);
    forall j | 0 <= j < k ensures out[j].menu.id != out[k].menu.id {
      ListedOnce(sorted, sorted, None, [], j, k);
    }
    ListedAfterParent(sorted, sorted, None, [], k);
    forall j | 0 <= j < k && out[j].menu.parentID == out[k].menu.parentID ensures Before(out[j].menu, out[k].menu) {
      SiblingsOrdered(sorted, sorted, None, [], j, k);
    }
  }

  /** From a list whose menus all lead to roots nothing is dropped. */
  lemma NothingDroppedFromForest(menus: seq<Menu>)
    requires UniqueMenus(menus) && IsForest(ParentsOf(menus))
    ensures forall x | x in menus :: exists node | node in BuildMenuTree(menus) :: node.menu == x
  {
    forall x | x in menus ensures exists node | node in BuildMenuTree(menus) :: node.menu == x {
      ParentOf(menus, x);
      TreeHoldsRootedMenus(menus, x);
    }
  }
}

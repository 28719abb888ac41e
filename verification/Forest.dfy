/**
 Parent links of menus and departments: the upward walks and the closure of
 the in-memory store, and the recursive queries of the SQL store, over one
 table from ids to optional parents.
 */
module Forest {
  import opened Prelude

  type Parents = map<int, Option<int>>

  // ---- forests

  // `path` climbs from its first id to a root of the table.
  predicate RootPath(m: Parents, path: seq<int>)
    decreases |path|
  {
    && |path| > 0 && path[0] in m
    && (if m[path[0]].None? then |path| == 1
        else |path| > 1 && path[1] == m[path[0]].value && RootPath(m, path[1..]))
  }

  ghost predicate Rooted(m: Parents, id: int) {
    exists path :: RootPath(m, path) && path[0] == id
  }

  /** No dangling parent and no cycle: from every id the walk ends at a root. */
  ghost predicate IsForest(m: Parents) {
    forall id | id in m :: Rooted(m, id)
  }

  lemma {:induction false} RootPathUnique(m: Parents, p: seq<int>, q: seq<int>)
    requires RootPath(m, p) && RootPath(m, q) && p[0] == q[0]
    ensures p == q
    decreases |p|
  {
    if |p| > 1 {
      RootPathUnique(m, p[1..], q[1..]);
      assert p == [p[0]] + p[1..] && q == [q[0]] + q[1..];
    }
  }

  lemma {:induction false} SuffixIsRootPath(m: Parents, p: seq<int>, k: nat)
    requires RootPath(m, p) && k < |p|
    ensures RootPath(m, p[k..])
    decreases k
  {
    if k == 0 {
      assert p[0..] == p;
    } else {
      SuffixIsRootPath(m, p[1..], k - 1);
      assert p[1..][k - 1..] == p[k..];
    }
  }

  lemma {:induction false} SamePath(m: Parents, m': Parents, p: seq<int>)
    requires RootPath(m, p)
    requires forall x | x in p :: x in m && x in m' && m'[x] == m[x]
    ensures RootPath(m', p)
    decreases |p|
  {
    var x := p[0];
    assert x in p && m'[x] == m[x];
    if |p| > 1 {
      SamePath(m, m', p[1..]);
    }
  }

  lemma {:induction false} PathStaysInside(m: Parents, p: seq<int>)
    requires RootPath(m, p)
    ensures forall x | x in p :: x in m
    decreases |p|
  {
    if |p| > 1 {
      PathStaysInside(m, p[1..]);
    }
    forall x | x in p ensures x in m {
      assert x == p[0] || x in p[1..];
    }
  }

  lemma {:induction false} PathAvoidsChildless(m: Parents, p: seq<int>, id: int)
    requires RootPath(m, p) && p[0] != id && forall x | x in m :: m[x] != Some(id)
    ensures id !in p
    decreases |p|
  {
    if |p| > 1 {
      PathAvoidsChildless(m, p[1..], id);
      assert p == [p[0]] + p[1..];
    } else {
      assert p == [p[0]];
    }
  }

  // ---- keeping the forest

  lemma AddKeepsForest(m: Parents, id: int, parent: Option<int>)
    requires IsForest(m) && id !in m && (parent.Some? ==> parent.value in m)
    ensures IsForest(m[id := parent])
  {
    var m' := m[id := parent];
    forall x | x in m' ensures Rooted(m', x) {
      if x != id {
        var p :| RootPath(m, p) && p[0] == x;
        PathStaysInside(m, p);
        SamePath(m, m', p);
      } else if parent.Some? {
        var p :| RootPath(m, p) && p[0] == parent.value;
        PathStaysInside(m, p);
        SamePath(m, m', p);
        assert ([id] + p)[1..] == p;
        assert RootPath(m', [id] + p);
      } else {
        assert RootPath(m', [id]);
      }
    }
  }

  lemma RemoveKeepsForest(m: Parents, id: int)
    requires IsForest(m) && forall x | x in m :: m[x] != Some(id)
    ensures IsForest(m - {id})
  {
    forall x | x in m - {id} ensures Rooted(m - {id}, x) {
      var p :| RootPath(m, p) && p[0] == x;
      PathAvoidsChildless(m, p, id);
      PathStaysInside(m, p);
      SamePath(m, m - {id}, p);
    }
  }

  lemma {:induction false} Rerouted(m: Parents, m': Parents, id: int, tail: seq<int>, p: seq<int>)
    requires RootPath(m, p) && RootPath(m', tail) && tail[0] == id
    requires m'.Keys == m.Keys && forall x | x in m && x != id :: m'[x] == m[x]
    ensures Rooted(m', p[0])
    decreases |p|
  {
    if p[0] != id && |p| == 1 {
      assert RootPath(m', p);
    } else if p[0] != id {
      assert RootPath(m, p[1..]);
      Rerouted(m, m', id, tail, p[1..]);
      var q :| RootPath(m', q) && q[0] == p[1];
      assert ([p[0]] + q)[1..] == q;
      assert RootPath(m', [p[0]] + q);
    }
  }

  /** Hanging `id` under a node whose own path avoids `id` keeps every path finite. */
  lemma MoveKeepsForest(m: Parents, id: int, parent: Option<int>)
    requires IsForest(m) && id in m && (parent.Some? ==> WalkAccepts(m, id, parent.value))
    ensures IsForest(m[id := parent])
  {
    var m' := m[id := parent];
    var tail := [id];
    if parent.Some? {
      var q :| RootPath(m, q) && q[0] == parent.value && id !in q;
      PathStaysInside(m, q);
      SamePath(m, m', q);
      tail := [id] + q;
      assert tail[1..] == q;
    }
    assert RootPath(m', tail);
    forall x | x in m' ensures Rooted(m', x) {
      var p :| RootPath(m, p) && p[0] == x;
      Rerouted(m, m', id, tail, p);
    }
  }

  // ---- the upward walk of UpdateMenu and UpdateDepartment

  datatype WalkResult = Accepted | MeetsMoved | LeavesTable

  /** The walk from `parent` to the root never meets `id`. */
  ghost predicate WalkAccepts(m: Parents, id: int, parent: int) {
    exists path :: RootPath(m, path) && path[0] == parent && id !in path
  }

  ghost function WalkVerdict(m: Parents, id: int, start: int): WalkResult {
    if start == id then MeetsMoved
    else if start !in m then LeavesTable
    else if WalkAccepts(m, id, start) then Accepted
    else MeetsMoved
  }

  /** The loop of the source; on a forest it always comes to an end. */
  method WalkUp(m: Parents, id: int, start: int) returns (result: WalkResult)
    requires IsForest(m)
    ensures result == WalkVerdict(m, id, start)
  {
    ghost var path: seq<int> := [];
    if start in m {
      path :| RootPath(m, path) && path[0] == start;
    }
    ghost var climbed := 0;
    var at := Some(start);
    while at.Some?
      invariant 0 <= climbed <= |path|
      invariant if start in m then at == (if climbed < |path| then Some(path[climbed]) else None)
                else climbed == 0 && at == Some(start)
      invariant id !in path[..climbed]
      decreases |path| - climbed
    {
      if at.value == id {
        if start in m {
          assert path[climbed] in path;
          PathDecides(m, id, path);
        }
        return MeetsMoved;
      }
      if at.value !in m {
        if start in m {
          PathStaysInside(m, path);
          assert false;
        }
        return LeavesTable;
      }
      SuffixIsRootPath(m, path, climbed);
      assert path[climbed..][0] == path[climbed] && path[..climbed + 1] == path[..climbed] + [path[climbed]];
      at := m[at.value];
      climbed := climbed + 1;
    }
    assert path[..climbed] == path;
    return Accepted;
  }

  lemma PathDecides(m: Parents, id: int, path: seq<int>)
    requires RootPath(m, path)
    ensures WalkAccepts(m, id, path[0]) <==> id !in path
  {
  }

  // ---- the downward query

  function Children(m: Parents, ids: set<int>): set<int> {
    set x | x in m && m[x].Some? && m[x].value in ids
  }

  /** Rows of a recursive query that keeps joining children to what it already has. */
  function ChildrenClosure(m: Parents, rows: set<int>): (r: set<int>)
    requires rows <= m.Keys
    ensures rows <= r <= m.Keys && Children(m, r) <= r
    decreases m.Keys - rows
  {
    var more := rows + Children(m, rows);
    if more == rows then rows else ChildrenClosure(m, more)
  }

  /** WITH RECURSIVE descendants(id): the children of `id` and everything below. */
  function Descendants(m: Parents, id: int): (r: set<int>)
    ensures r <= m.Keys
  {
    ChildrenClosure(m, Children(m, {id}))
  }

  lemma {:induction false} ClosureIsLeast(m: Parents, rows: set<int>, bound: set<int>)
    requires rows <= m.Keys && rows <= bound && Children(m, bound) <= bound
    ensures ChildrenClosure(m, rows) <= bound
    decreases m.Keys - rows
  {
    var more := rows + Children(m, rows);
    if more != rows {
      forall x | x in Children(m, rows) ensures x in bound { assert x in Children(m, bound); }
      ClosureIsLeast(m, more, bound);
    }
  }

  lemma {:induction false} BelowIsDescendant(m: Parents, id: int, path: seq<int>, k: int)
    requires RootPath(m, path) && 0 < k < |path| && path[k] == id
    ensures path[0] in Descendants(m, id)
    decreases k
  {
    if k == 1 {
      assert path[0] in Children(m, {id});
    } else {
      BelowIsDescendant(m, id, path[1..], k - 1);
      assert path[0] in Children(m, Descendants(m, id));
    }
  }

  lemma DescendantIsBelow(m: Parents, id: int, q: int)
    requires IsForest(m) && q in Descendants(m, id)
    ensures !WalkAccepts(m, id, q)
  {
    var reach := set x | x in m && !WalkAccepts(m, id, x);
    forall x | x in Children(m, reach + {id}) ensures x in reach {
      var p :| RootPath(m, p) && p[0] == x;
      assert p == [p[0]] + p[1..];
      PathDecides(m, id, p);
      PathDecides(m, id, p[1..]);
    }
    forall x | x in Children(m, reach) ensures x in reach { assert x in Children(m, reach + {id}); }
    forall x | x in Children(m, {id}) ensures x in reach { assert x in Children(m, reach + {id}); }
    ClosureIsLeast(m, Children(m, {id}), reach);
  }

  /** On a forest the upward walk refuses exactly the node itself and its descendants. */
  lemma WalkAgreesWithQuery(m: Parents, id: int, parent: int)
    requires IsForest(m) && parent in m
    ensures WalkAccepts(m, id, parent) <==> parent != id && parent !in Descendants(m, id)
  {
    var p :| RootPath(m, p) && p[0] == parent;
    PathDecides(m, id, p);
    if parent in Descendants(m, id) {
      DescendantIsBelow(m, id, parent);
    }
    if id in p && parent != id {
      var k :| 0 <= k < |p| && p[k] == id;
      BelowIsDescendant(m, id, p, k);
    }
  }

  // ---- UNION ALL: every round of the query returns the children of the round before

  function Level(m: Parents, id: int, n: nat): set<int> {
    if n == 0 then Children(m, {id}) else Children(m, Level(m, id, n - 1))
  }

  function Levels(m: Parents, id: int, n: nat): set<int> {
    if n == 0 then {} else Levels(m, id, n - 1) + Level(m, id, n - 1)
  }

  lemma {:induction false} LevelIsDeep(m: Parents, id: int, n: nat, path: seq<int>)
    requires RootPath(m, path) && path[0] in Level(m, id, n)
    ensures |path| > n + 1
    decreases n
  {
    if n > 0 {
      LevelIsDeep(m, id, n - 1, path[1..]);
    }
  }

  lemma PathIsShort(m: Parents, path: seq<int>)
    requires RootPath(m, path)
    ensures |path| <= |m|
  {
    forall i, j | 0 <= i < j < |path| ensures path[i] != path[j] {
      SuffixIsRootPath(m, path, i);
      SuffixIsRootPath(m, path, j);
      if path[i] == path[j] {
        RootPathUnique(m, path[i..], path[j..]);
        assert false;
      }
    }
    DistinctSize(path);
    PathStaysInside(m, path);
    SubsetSize(SetOf(path), m.Keys);
  }

  lemma SubsetSize<T>(a: set<T>, b: set<T>)
    requires a <= b
    ensures |a| <= |b|
  {
    assert |b - a| == |b| - |a|;
  }

  lemma {:induction false} LevelsInside(m: Parents, id: int, n: nat)
    ensures Levels(m, id, n) <= Descendants(m, id) && Level(m, id, n) <= Descendants(m, id)
    ensures Children(m, Levels(m, id, n)) + Children(m, {id}) <= Levels(m, id, n) + Level(m, id, n)
    decreases n
  {
    if n > 0 {
      LevelsInside(m, id, n - 1);
      forall x | x in Level(m, id, n) ensures x in Descendants(m, id) {
        assert x in Children(m, Descendants(m, id));
      }
    }
  }

  /**
   On a forest the query that keeps duplicates still ends, after at most as many
   rounds as there are rows, and has then returned exactly the descendants.
   */
  lemma UnionAllEnds(m: Parents, id: int)
    requires IsForest(m)
    ensures Level(m, id, |m|) == {} && Levels(m, id, |m|) == Descendants(m, id)
  {
    forall x | x in Level(m, id, |m|) ensures false {
      assert x in m;
      var path :| RootPath(m, path) && path[0] == x;
      LevelIsDeep(m, id, |m|, path);
      PathIsShort(m, path);
    }
    LevelsInside(m, id, |m|);
    ClosureIsLeast(m, Children(m, {id}), Levels(m, id, |m|));
  }

  /** Off a forest it need not: below a node that is its own ancestor every round finds rows. */
  lemma {:induction false} UnionAllLoops(m: Parents, id: int, cycle: seq<int>, n: nat)
    requires |cycle| > 1 && cycle[0] == id && cycle[|cycle| - 1] == id
    requires forall i | 0 <= i < |cycle| - 1 :: cycle[i] in m && m[cycle[i]] == Some(cycle[i + 1])
    ensures exists k :: 0 <= k < |cycle| - 1 && cycle[k] in Level(m, id, n)
    decreases n
  {
    var last := |cycle| - 2;
    if n == 0 {
      assert cycle[last] in Level(m, id, n);
    } else {
      UnionAllLoops(m, id, cycle, n - 1);
      var k :| 0 <= k < |cycle| - 1 && cycle[k] in Level(m, id, n - 1);
      var below := if k == 0 then last else k - 1;
      assert m[cycle[below]] == Some(cycle[below + 1]);
      assert cycle[below] in Level(m, id, n);
    }
  }

  // ---- the ancestor closure

  predicate ClosedUp(m: Parents, ids: set<int>) {
    forall id | id in ids && id in m && m[id].Some? :: m[id].value in ids
  }

  /** The least superset of `ids` that holds every parent of its members. */
  ghost predicate LeastClosedUp(m: Parents, ids: set<int>, closure: set<int>) {
    && ids <= closure && ClosedUp(m, closure)
    && forall other: set<int> | ids <= other && ClosedUp(m, other) :: closure <= other
  }

  lemma LeastClosedUpUnique(m: Parents, ids: set<int>, a: set<int>, b: set<int>)
    requires LeastClosedUp(m, ids, a) && LeastClosedUp(m, ids, b)
    ensures a == b
  {
  }

  function ParentIDs(m: Parents): set<int> {
    set id | id in m && m[id].Some? :: m[id].value
  }

  lemma NewParents(m: Parents, rows: set<int>, parents: set<int>)
    requires parents <= ParentIDs(m) && !(parents <= rows)
    ensures ParentIDs(m) - (rows + parents) < ParentIDs(m) - rows
  {
  }

  /** WITH RECURSIVE effective_menus: rows joined with their parents until nothing is new. */
  function ParentClosure(m: Parents, rows: set<int>): (r: set<int>)
    ensures rows <= r
    decreases ParentIDs(m) - rows
  {
    var parents := set id | id in rows && id in m && m[id].Some? :: m[id].value;
    if parents <= rows then rows
    else
      assert ParentIDs(m) - (rows + parents) < ParentIDs(m) - rows by { NewParents(m, rows, parents); }
      ParentClosure(m, rows + parents)
  }

  lemma {:induction false} ParentClosureIsLeast(m: Parents, rows: set<int>)
    ensures LeastClosedUp(m, rows, ParentClosure(m, rows))
    decreases ParentIDs(m) - rows
  {
    var parents := set id | id in rows && id in m && m[id].Some? :: m[id].value;
    if !(parents <= rows) {
      NewParents(m, rows, parents);
      ParentClosureIsLeast(m, rows + parents);
    } else {
      assert forall id | id in rows && id in m && m[id].Some? :: m[id].value in parents;
    }
  }

  function SetOf<T>(s: seq<T>): set<T> {
    set x | x in s
  }

  predicate NoDuplicates<T(==)>(s: seq<T>) {
    forall i, j | 0 <= i < j < |s| :: s[i] != s[j]
  }

  lemma {:induction false} DistinctSize(ids: seq<int>)
    requires NoDuplicates(ids)
    ensures |SetOf(ids)| == |ids|
    decreases |ids|
  {
    if ids == [] {
      assert SetOf(ids) == {};
    } else {
      DistinctSize(ids[1..]);
      assert SetOf(ids) == SetOf(ids[1..]) + {ids[0]};
      assert ids[0] !in ids[1..];
    }
  }

  /** uniqueIDs: first occurrences, in order. */
  function Unique(ids: seq<int>): (r: seq<int>)
    ensures NoDuplicates(r) && SetOf(r) == SetOf(ids) && |r| <= |ids|
  {
    if ids == [] then []
    else
      var front := Unique(ids[..|ids| - 1]);
      var last := ids[|ids| - 1];
      assert ids == ids[..|ids| - 1] + [last];
      assert SetOf(ids) == SetOf(ids[..|ids| - 1]) + {last};
      assert last !in front ==> SetOf(front + [last]) == SetOf(front) + {last};
      if last in front then front else front + [last]
  }

  /** An earlier id of the result occurs before the first occurrence of a later one. */
  lemma {:induction false} UniqueKeepsOrder(ids: seq<int>, i: nat, j: nat) returns (p: nat)
    requires i < j < |Unique(ids)|
    ensures p < |ids| && ids[p] == Unique(ids)[i] && Unique(ids)[j] !in ids[..p + 1]
    decreases |ids|
  {
    var rest, last := ids[..|ids| - 1], ids[|ids| - 1];
    var front := Unique(rest);
    if j < |front| {
      p := UniqueKeepsOrder(rest, i, j);
      assert ids[..p + 1] == rest[..p + 1];
    } else {
      assert front[i] in SetOf(rest);
      p :| 0 <= p < |rest| && rest[p] == front[i];
      assert last !in SetOf(rest);
      assert forall k | 0 <= k < p + 1 :: ids[k] == rest[k] && rest[k] in SetOf(rest);
    }
  }

  method UniqueIDs(ids: seq<int>) returns (unique: seq<int>)
    ensures unique == Unique(ids)
  {
    var seen: set<int> := {};
    unique := [];
    for i := 0 to |ids|
      invariant unique == Unique(ids[..i]) && seen == SetOf(ids[..i])
    {
      assert ids[..i + 1] == ids[..i] + [ids[i]];
      assert ids[..i + 1][..i] == ids[..i];
      if ids[i] !in seen {
        seen := seen + {ids[i]};
        unique := unique + [ids[i]];
      }
    }
    assert ids[..|ids|] == ids;
  }

  lemma FewerParents(m: Parents, expanded: seq<int>, id: int)
    requires id in m && m[id].Some? && m[id].value !in expanded
    ensures SetOf(expanded + [m[id].value]) == SetOf(expanded) + {m[id].value}
    ensures ParentIDs(m) - SetOf(expanded + [m[id].value]) < ParentIDs(m) - SetOf(expanded)
  {
  }

  /** The worklist as a function: position `i` of `expanded` is the next id to look up. */
  function ExpandFrom(m: Parents, expanded: seq<int>, i: nat): (r: seq<int>)
    requires i <= |expanded|
    ensures expanded <= r
    decreases ParentIDs(m) - SetOf(expanded), |expanded| - i
  {
    if i == |expanded| then expanded
    else if expanded[i] in m && m[expanded[i]].Some? && m[expanded[i]].value !in expanded then
      var parent := m[expanded[i]].value;
      assert ParentIDs(m) - SetOf(expanded + [parent]) < ParentIDs(m) - SetOf(expanded) by {
        FewerParents(m, expanded, expanded[i]);
      }
      ExpandFrom(m, expanded + [parent], i + 1)
    else ExpandFrom(m, expanded, i + 1)
  }

  function Expand(m: Parents, ids: seq<int>): seq<int> {
    ExpandFrom(m, Unique(ids), 0)
  }

  lemma {:induction false} ExpandFromIsLeast(m: Parents, expanded: seq<int>, i: nat)
    requires i <= |expanded| && NoDuplicates(expanded)
    requires forall k | 0 <= k < i :: expanded[k] in m && m[expanded[k]].Some? ==> m[expanded[k]].value in expanded
    ensures NoDuplicates(ExpandFrom(m, expanded, i))
    ensures LeastClosedUp(m, SetOf(expanded), SetOf(ExpandFrom(m, expanded, i)))
    decreases ParentIDs(m) - SetOf(expanded), |expanded| - i
  {
    if i < |expanded| {
      if expanded[i] in m && m[expanded[i]].Some? && m[expanded[i]].value !in expanded {
        var parent := m[expanded[i]].value;
        FewerParents(m, expanded, expanded[i]);
        ExpandFromIsLeast(m, expanded + [parent], i + 1);
        forall other: set<int> | SetOf(expanded) <= other && ClosedUp(m, other)
          ensures SetOf(expanded + [parent]) <= other
        {
          assert expanded[i] in other;
        }
      } else {
        ExpandFromIsLeast(m, expanded, i + 1);
      }
    }
  }

  /** Termination needs no forest: the worklist returns the least closure, each id once, even over cycles. */
  lemma ExpandIsLeast(m: Parents, ids: seq<int>)
    ensures NoDuplicates(Expand(m, ids))
    ensures LeastClosedUp(m, SetOf(ids), SetOf(Expand(m, ids)))
  {
    ExpandFromIsLeast(m, Unique(ids), 0);
  }

  /** The in-memory worklist and the SQL query compute the same set. */
  lemma ExpandAgreesWithQuery(m: Parents, ids: seq<int>)
    ensures SetOf(Expand(m, ids)) == ParentClosure(m, SetOf(ids))
  {
    ExpandIsLeast(m, ids);
    ParentClosureIsLeast(m, SetOf(ids));
    LeastClosedUpUnique(m, SetOf(ids), SetOf(Expand(m, ids)), ParentClosure(m, SetOf(ids)));
  }

  method ExpandAncestors(m: Parents, ids: seq<int>) returns (expanded: seq<int>)
    ensures expanded == Expand(m, ids)
    ensures NoDuplicates(expanded) && LeastClosedUp(m, SetOf(ids), SetOf(expanded))
  {
    expanded := UniqueIDs(ids);
    var seen := SetOf(expanded);
    var index := 0;
    while index < |expanded|
      invariant 0 <= index <= |expanded| && seen == SetOf(expanded)
      invariant ExpandFrom(m, expanded, index) == Expand(m, ids)
      decreases ParentIDs(m) - seen, |expanded| - index
    {
      var id := expanded[index];
      index := index + 1;
      if id !in m || m[id].None? || m[id].value in seen {
        continue;
      }
      var parent := m[id].value;
      FewerParents(m, expanded, id);
      seen := seen + {parent};
      expanded := expanded + [parent];
    }
    ExpandIsLeast(m, ids);
  }
}

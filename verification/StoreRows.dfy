/** Facts about the rows of a table whose ids are unique. */
module StoreRows {
  import opened Prelude
  import opened Forest
  import opened Permissions
  import opened StoreSpec

  /** Ids are unique and below the counter that hands out the next one. */
  ghost predicate Sound<V>(rows: seq<Row<V>>, next: int) {
    NoDuplicates(IDs(rows)) && forall row | row in rows :: row.id < next
  }

  lemma RowID<V>(rows: seq<Row<V>>, row: Row<V>)
    requires row in rows
    ensures row.id in IDs(rows)
  {
  }

  lemma IDsTail<V>(rows: seq<Row<V>>)
    requires rows != []
    ensures IDs(rows)[1..] == IDs(rows[1..])
  {
  }

  lemma FoundID<V>(rows: seq<Row<V>>, id: int)
    ensures Find(rows, id).Some? <==> id in IDs(rows)
  {
  }

  lemma HeadApart<V>(rows: seq<Row<V>>)
    requires rows != [] && NoDuplicates(IDs(rows))
    ensures NoDuplicates(IDs(rows[1..])) && rows[0].id !in IDs(rows[1..])
  {
    IDsTail(rows);
    assert IDs(rows)[0] == rows[0].id;
  }

  lemma NewHead<V>(row: Row<V>, rows: seq<Row<V>>)
    requires NoDuplicates(IDs(rows)) && row.id !in IDs(rows)
    ensures NoDuplicates(IDs([row] + rows))
  {
  }

  /** With unique ids a lookup finds the very row. */
  lemma {:induction false} FindRow<V>(rows: seq<Row<V>>, row: Row<V>)
    requires NoDuplicates(IDs(rows)) && row in rows
    ensures Find(rows, row.id) == Some(row.value)
    decreases |rows|
  {
    HeadApart(rows);
    if rows[0] != row {
      assert row in rows[1..];
      RowID(rows[1..], row);
      FindRow(rows[1..], row);
    }
  }

  lemma {:induction false} FindAppended<V>(rows: seq<Row<V>>, row: Row<V>, id: int)
    ensures Find(rows + [row], id) ==
      if Find(rows, id).Some? then Find(rows, id) else if row.id == id then Some(row.value) else None
    decreases |rows|
  {
    if rows != [] {
      assert (rows + [row])[1..] == rows[1..] + [row];
      FindAppended(rows[1..], row, id);
    }
  }

  lemma AppendSound<V>(rows: seq<Row<V>>, next: int, value: V)
    requires Sound(rows, next)
    ensures Sound(rows + [Row(next, value)], next + 1)
    ensures IDs(rows + [Row(next, value)]) == IDs(rows) + [next]
    ensures Find(rows, next).None?
  {
  }

  lemma {:induction false} FindReplaced<V>(rows: seq<Row<V>>, id: int, value: V, other: int)
    ensures IDs(Replace(rows, id, value)) == IDs(rows)
    ensures Find(Replace(rows, id, value), other) ==
      if other == id && Find(rows, id).Some? then Some(value) else Find(rows, other)
    decreases |rows|
  {
    if rows != [] && rows[0].id != id {
      FindReplaced(rows[1..], id, value, other);
      IDsTail(rows);
      IDsTail(Replace(rows, id, value));
    } else if rows != [] {
      assert Replace(rows, id, value)[1..] == rows[1..];
      IDsTail(rows);
      IDsTail(Replace(rows, id, value));
    }
  }

  lemma {:induction false} ReplacedRow<V>(rows: seq<Row<V>>, id: int, value: V, row: Row<V>)
    requires NoDuplicates(IDs(rows)) && row in Replace(rows, id, value)
    ensures (row in rows && row.id != id) || (row == Row(id, value) && Find(rows, id).Some?)
  {
    FindReplaced(rows, id, value, row.id);
    FindRow(Replace(rows, id, value), row);
    FoundID(rows, row.id);
  }

  lemma {:induction false} FirstMatch<V>(rows: seq<Row<V>>, id: int, index: nat, value: V)
    requires index < |rows| && rows[index].id == id && forall k | 0 <= k < index :: rows[k].id != id
    ensures Find(rows, id) == Some(rows[index].value)
    ensures rows[index := Row(id, value)] == Replace(rows, id, value)
    ensures rows[..index] + rows[index + 1..] == Remove(rows, id)
    decreases index
  {
    if index > 0 {
      FirstMatch(rows[1..], id, index - 1, value);
      assert rows[index := Row(id, value)] == [rows[0]] + rows[1..][index - 1 := Row(id, value)];
      assert rows[..index] + rows[index + 1..] == [rows[0]] + (rows[1..][..index - 1] + rows[1..][index..]);
    }
  }

  // One row takes a new value, or goes, and every other stays in its place.
  ghost predicate Edited<V>(before: seq<Row<V>>, after: seq<Row<V>>, id: int, value: V) {
    exists i: nat :: i < |before| && before[i].id == id && after == before[i := Row(id, value)]
  }

  ghost predicate Dropped<V>(before: seq<Row<V>>, after: seq<Row<V>>, id: int) {
    exists i: nat :: i < |before| && before[i].id == id && after == before[..i] + before[i + 1..]
  }

  ghost predicate HasRow<V>(rows: seq<Row<V>>, id: int) {
    exists row | row in rows :: row.id == id
  }

  lemma {:induction false} FirstPlace<V>(rows: seq<Row<V>>, id: int) returns (i: nat)
    requires HasRow(rows, id)
    ensures i < |rows| && rows[i].id == id && forall k | 0 <= k < i :: rows[k].id != id
    decreases |rows|
  {
    i := 0;
    if rows[0].id != id {
      i := FirstPlace(rows[1..], id);
      i := i + 1;
    }
  }

  lemma ReplaceEdits<V>(rows: seq<Row<V>>, id: int, value: V)
    requires HasRow(rows, id)
    ensures Edited(rows, Replace(rows, id, value), id, value) && Dropped(rows, Remove(rows, id), id)
  {
    var i := FirstPlace(rows, id);
    FirstMatch(rows, id, i, value);
  }

  lemma RemovedIDs<V>(rows: seq<Row<V>>, id: int, other: int)
    requires forall row | row in Remove(rows, id) :: row in rows
    requires other !in IDs(rows)
    ensures other !in IDs(Remove(rows, id))
  {
    if other in IDs(Remove(rows, id)) {
      FoundID(Remove(rows, id), other);
      RowID(rows, Row(other, Find(Remove(rows, id), other).value));
      assert false;
    }
  }

  lemma {:induction false} FindRemoved<V>(rows: seq<Row<V>>, id: int, other: int)
    requires NoDuplicates(IDs(rows))
    ensures NoDuplicates(IDs(Remove(rows, id)))
    ensures Find(Remove(rows, id), other) == if other == id then None else Find(rows, other)
    ensures forall row | row in Remove(rows, id) :: row in rows
    decreases |rows|
  {
    if rows != [] {
      HeadApart(rows);
      if rows[0].id == id {
        FoundID(rows[1..], id);
      } else {
        FindRemoved(rows[1..], id, other);
        var rest := Remove(rows[1..], id);
        RemovedIDs(rows[1..], id, rows[0].id);
        NewHead(rows[0], rest);
      }
    }
  }

  lemma RemoveSound<V>(rows: seq<Row<V>>, next: int, id: int)
    requires Sound(rows, next)
    ensures Sound(Remove(rows, id), next)
    ensures SetOf(IDs(Remove(rows, id))) == SetOf(IDs(rows)) - {id}
  {
    FindRemoved(rows, id, id);
    forall other ensures other in IDs(Remove(rows, id)) <==> other in IDs(rows) && other != id {
      FindRemoved(rows, id, other);
      FoundID(rows, other);
      FoundID(Remove(rows, id), other);
    }
  }

  lemma ReplaceSound<V>(rows: seq<Row<V>>, next: int, id: int, value: V)
    requires Sound(rows, next)
    ensures Sound(Replace(rows, id, value), next) && IDs(Replace(rows, id, value)) == IDs(rows)
  {
    FindReplaced(rows, id, value, id);
    forall row | row in Replace(rows, id, value) ensures row.id < next {
      ReplacedRow(rows, id, value, row);
    }
  }

  // ---- parent tables follow the rows

  lemma AppendMenuParents(rows: seq<Row<Menu>>, next: int, menu: Menu)
    requires Sound(rows, next)
    ensures MenuParents(rows + [Row(next, menu)]) == MenuParents(rows)[next := menu.parentID]
  {
    AppendSound(rows, next, menu);
    forall id ensures Find(rows + [Row(next, menu)], id) ==
      if Find(rows, id).Some? then Find(rows, id) else if id == next then Some(menu) else None
    {
      FindAppended(rows, Row(next, menu), id);
    }
  }

  lemma ReplaceMenuParents(rows: seq<Row<Menu>>, id: int, menu: Menu)
    requires Find(rows, id).Some?
    ensures MenuParents(Replace(rows, id, menu)) == MenuParents(rows)[id := menu.parentID]
  {
    var after := Replace(rows, id, menu);
    FoundID(rows, id);
    assert IDs(after) == IDs(rows) by { FindReplaced(rows, id, menu, id); }
    forall x | x in IDs(rows) ensures MenuParents(after)[x] == MenuParents(rows)[id := menu.parentID][x] {
      FindReplaced(rows, id, menu, x);
    }
    assert MenuParents(after).Keys == MenuParents(rows)[id := menu.parentID].Keys;
  }

  lemma RemoveMenuParents(rows: seq<Row<Menu>>, next: int, id: int)
    requires Sound(rows, next)
    ensures MenuParents(Remove(rows, id)) == MenuParents(rows) - {id}
  {
    RemoveSound(rows, next, id);
    forall other ensures Find(Remove(rows, id), other) == if other == id then None else Find(rows, other) {
      FindRemoved(rows, id, other);
    }
    assert forall other :: other in IDs(Remove(rows, id)) <==> other in SetOf(IDs(Remove(rows, id)));
  }

  lemma AppendDepartmentParents(rows: seq<Row<Department>>, next: int, department: Department)
    requires Sound(rows, next)
    ensures DepartmentParents(rows + [Row(next, department)]) == DepartmentParents(rows)[next := department.parentID]
  {
    AppendSound(rows, next, department);
    forall id ensures Find(rows + [Row(next, department)], id) ==
      if Find(rows, id).Some? then Find(rows, id) else if id == next then Some(department) else None
    {
      FindAppended(rows, Row(next, department), id);
    }
  }

  lemma ReplaceDepartmentParents(rows: seq<Row<Department>>, id: int, department: Department)
    requires Find(rows, id).Some?
    ensures DepartmentParents(Replace(rows, id, department)) == DepartmentParents(rows)[id := department.parentID]
  {
    var after := Replace(rows, id, department);
    FoundID(rows, id);
    assert IDs(after) == IDs(rows) by { FindReplaced(rows, id, department, id); }
    forall x | x in IDs(rows)
      ensures DepartmentParents(after)[x] == DepartmentParents(rows)[id := department.parentID][x]
    {
      FindReplaced(rows, id, department, x);
    }
    assert DepartmentParents(after).Keys == DepartmentParents(rows)[id := department.parentID].Keys;
  }

  lemma RemoveDepartmentParents(rows: seq<Row<Department>>, next: int, id: int)
    requires Sound(rows, next)
    ensures DepartmentParents(Remove(rows, id)) == DepartmentParents(rows) - {id}
  {
    RemoveSound(rows, next, id);
    forall other ensures Find(Remove(rows, id), other) == if other == id then None else Find(rows, other) {
      FindRemoved(rows, id, other);
    }
    assert forall other :: other in IDs(Remove(rows, id)) <==> other in SetOf(IDs(Remove(rows, id)));
  }

  lemma NoChildInTable(rows: seq<Row<Menu>>, id: int)
    requires !exists m | m in rows :: m.value.parentID == Some(id)
    ensures forall x | x in MenuParents(rows) :: MenuParents(rows)[x] != Some(id)
  {
  }

  lemma NoSubDepartmentInTable(rows: seq<Row<Department>>, id: int)
    requires !exists d | d in rows :: d.value.parentID == Some(id)
    ensures forall x | x in DepartmentParents(rows) :: DepartmentParents(rows)[x] != Some(id)
  {
  }

  // ---- codes

  /** Lower-casing a trimmed code leaves nothing to trim. */
  lemma CodeIsTrimmed(raw: string)
    ensures IsTrimmed(Lower(Trim(raw))) && Trim(Lower(Trim(raw))) == Lower(Trim(raw))
  {
    hide Trim;
    var i, j := TrimIsExact(raw);
    TrimmedStays(Lower(Trim(raw)));
  }

  // ---- sizes

  lemma SubsetOfSameSize<T>(a: set<T>, b: set<T>)
    requires a <= b && |a| == |b|
    ensures a == b
  {
    assert |b - a| == |b| - |a|;
  }

  /** As many distinct existing ids as there are rows: all of them. */
  lemma LengthsDecide(ids: seq<int>, all: seq<int>)
    requires NoDuplicates(ids) && SetOf(ids) <= SetOf(all) && |ids| == |Unique(all)|
    ensures SetOf(ids) == SetOf(all)
  {
    DistinctSize(ids);
    DistinctSize(Unique(all));
    SubsetOfSameSize(SetOf(ids), SetOf(all));
  }
}

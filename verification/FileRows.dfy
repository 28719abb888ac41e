/**
 The rows of managed files and the statements that change them
 (`backend/repository/sqlite_store.go`).  A statement that would break the
 unique index over live rows fails and changes nothing.
 */
module FileRows {
  import opened Prelude

  newtype Byte = x: int | 0 <= x < 0x100
  type Bytes = seq<Byte>

  // The hash of a content; different contents are taken to have different hashes.
  datatype Hash = NoHash | Sha256(content: Bytes)

  datatype File = File(owner: int, hash: Hash, storageName: string, trashed: bool)

  type Rows = map<int, File>

  datatype Table = Table(rows: Rows, nextID: int)

  predicate Clash(a: File, b: File) {
    !a.trashed && !b.trashed && a.owner == b.owner && a.hash == b.hash && a.hash != NoHash
  }

  /** The partial unique index: no two live rows of one owner carry the same hash. */
  ghost predicate Indexed(rows: Rows) {
    forall i, j | i in rows && j in rows && i != j :: !Clash(rows[i], rows[j])
  }

  ghost predicate Fits(t: Table) {
    Indexed(t.rows) && forall id | id in t.rows :: id < t.nextID
  }

  predicate IsLive(rows: Rows, id: int) {
    id in rows && !rows[id].trashed
  }

  predicate IsTrashed(rows: Rows, id: int) {
    id in rows && rows[id].trashed
  }

  /** A live row of the owner other than `id` carries the hash. */
  ghost predicate HasRival(rows: Rows, id: int, owner: int, hash: Hash) {
    hash != NoHash && exists other ::
      IsLive(rows, other) && other != id && rows[other].owner == owner && rows[other].hash == hash
  }

  // ---- statements

  ghost function Insert(t: Table, file: File): Option<Table> {
    var after := t.rows[t.nextID := file];
    if Indexed(after) then Some(Table(after, t.nextID + 1)) else None
  }

  ghost function SetHash(t: Table, id: int, hash: Hash): Option<Table>
    requires id in t.rows
  {
    var after := t.rows[id := t.rows[id].(hash := hash)];
    if Indexed(after) then Some(t.(rows := after)) else None
  }

  ghost function SetTrashed(t: Table, id: int, trashed: bool): Option<Table>
    requires id in t.rows
  {
    var after := t.rows[id := t.rows[id].(trashed := trashed)];
    if Indexed(after) then Some(t.(rows := after)) else None
  }

  // ---- operations

  ghost function CreateFile(t: Table, owner: int, hash: Hash, storageName: string): Option<Table> {
    Insert(t, File(owner, hash, storageName, false))
  }

  ghost function UpdateFileContentMeta(t: Table, id: int, hash: Hash): Option<Table> {
    if IsLive(t.rows, id) then SetHash(t, id, hash) else None
  }

  ghost function SoftDeleteFile(t: Table, id: int): Option<Table> {
    if IsLive(t.rows, id) then SetTrashed(t, id, true) else None
  }

  /** One transaction: give up the hash if a live row has it, then leave the trash. */
  ghost function RestoreFile(t: Table, id: int): Option<Table> {
    if !IsTrashed(t.rows, id) then None
    else
      var cleared := if HasRival(t.rows, id, t.rows[id].owner, t.rows[id].hash) then SetHash(t, id, NoHash)
        else Some(t);
      if cleared.None? then None else SetTrashed(cleared.value, id, false)
  }

  ghost function HardDeleteFile(t: Table, id: int): Option<Table> {
    if IsTrashed(t.rows, id) then Some(t.(rows := t.rows - {id})) else None
  }

  /** The conditional update that fills in a missing hash for a file found on disk. */
  ghost function BackfillHash(t: Table, id: int, hash: Hash): Option<Table>
    requires id in t.rows
  {
    if t.rows[id].hash == NoHash && !HasRival(t.rows, id, t.rows[id].owner, hash) then SetHash(t, id, hash) else Some(t)
  }

  // ---- what the statements decide

  lemma InsertDecides(t: Table, file: File)
    requires Fits(t)
    ensures Insert(t, file).Some? <==> file.trashed || !HasRival(t.rows, t.nextID, file.owner, file.hash)
  {
    var after := t.rows[t.nextID := file];
    if HasRival(t.rows, t.nextID, file.owner, file.hash) && !file.trashed {
      var other :| IsLive(t.rows, other) && other != t.nextID && t.rows[other].owner == file.owner
        && t.rows[other].hash == file.hash;
      assert Clash(after[t.nextID], after[other]);
    }
    forall i, j | i in after && j in after && i != j
      ensures Clash(after[i], after[j]) ==> !file.trashed && HasRival(t.rows, t.nextID, file.owner, file.hash)
    {
      if i == t.nextID || j == t.nextID {
        var other := if i == t.nextID then j else i;
        assert IsLive(t.rows, other) || t.rows[other].trashed;
      }
    }
  }

  lemma SetHashDecides(t: Table, id: int, hash: Hash)
    requires Fits(t) && id in t.rows
    ensures SetHash(t, id, hash).Some? <==> t.rows[id].trashed || !HasRival(t.rows, id, t.rows[id].owner, hash)
  {
    var file := t.rows[id].(hash := hash);
    var after := t.rows[id := file];
    if HasRival(t.rows, id, file.owner, hash) && !file.trashed {
      var other :| IsLive(t.rows, other) && other != id && t.rows[other].owner == file.owner
        && t.rows[other].hash == hash;
      assert Clash(after[id], after[other]);
    }
    forall i, j | i in after && j in after && i != j
      ensures Clash(after[i], after[j]) ==> !file.trashed && HasRival(t.rows, id, file.owner, hash)
    {
      if i == id || j == id {
        var other := if i == id then j else i;
        assert IsLive(t.rows, other) || t.rows[other].trashed;
      }
    }
  }

  /** Replacing the content fails in the database exactly when another live file of the owner has that content. */
  lemma ContentUpdateDecides(t: Table, id: int, hash: Hash)
    requires Fits(t) && IsLive(t.rows, id)
    ensures UpdateFileContentMeta(t, id, hash).Some? <==> !HasRival(t.rows, id, t.rows[id].owner, hash)
  {
    SetHashDecides(t, id, hash);
  }

  lemma TrashingKeeps(t: Table, id: int)
    requires Fits(t) && IsLive(t.rows, id)
    ensures SoftDeleteFile(t, id).Some?
  {
  }

  /**
   Restoring any trashed row succeeds.  It keeps its hash exactly when no live
   row of its owner has it, and no other row changes.
   */
  lemma RestoreSucceeds(t: Table, id: int)
    requires Fits(t) && IsTrashed(t.rows, id)
    ensures RestoreFile(t, id).Some? && Fits(RestoreFile(t, id).value)
    ensures var file := t.rows[id];
      RestoreFile(t, id).value.rows ==
      t.rows[id := file.(trashed := false,
                         hash := if HasRival(t.rows, id, file.owner, file.hash) then NoHash else file.hash)]
  {
  }

  lemma BackfillSucceeds(t: Table, id: int, hash: Hash)
    requires Fits(t) && id in t.rows
    ensures BackfillHash(t, id, hash).Some? && Fits(BackfillHash(t, id, hash).value)
  {
  }

  // ---- every run of statements, by any number of handlers in any order

  datatype Statement =
    | Create(owner: int, hash: Hash, storageName: string)
    | ReplaceContent(id: int, hash: Hash)
    | Trash(id: int)
    | Restore(id: int)
    | Purge(id: int)
    | Backfill(id: int, hash: Hash)

  ghost function Attempt(t: Table, s: Statement): Option<Table> {
    match s
    case Create(owner, hash, name) => CreateFile(t, owner, hash, name)
    case ReplaceContent(id, hash) => UpdateFileContentMeta(t, id, hash)
    case Trash(id) => SoftDeleteFile(t, id)
    case Restore(id) => RestoreFile(t, id)
    case Purge(id) => HardDeleteFile(t, id)
    case Backfill(id, hash) => if id in t.rows then BackfillHash(t, id, hash) else None
  }

  ghost function Step(t: Table, s: Statement): Table {
    var after := Attempt(t, s);
    if after.Some? then after.value else t
  }

  ghost function Run(t: Table, statements: seq<Statement>): Table
    decreases |statements|
  {
    if statements == [] then t else Run(Step(t, statements[0]), statements[1..])
  }

  /** What each statement writes, told from the rows before it: the index is never seen to refuse anything else. */
  lemma StepWrites(t: Table, s: Statement)
    requires Fits(t)
    ensures var after := Step(t, s);
      match s
      case Create(owner, hash, name) =>
        after == if HasRival(t.rows, t.nextID, owner, hash) then t
                 else Table(t.rows[t.nextID := File(owner, hash, name, false)], t.nextID + 1)
      case ReplaceContent(id, hash) =>
        after == if !IsLive(t.rows, id) || HasRival(t.rows, id, t.rows[id].owner, hash) then t
                 else t.(rows := t.rows[id := t.rows[id].(hash := hash)])
      case Trash(id) =>
        after == if IsLive(t.rows, id) then t.(rows := t.rows[id := t.rows[id].(trashed := true)]) else t
      case Restore(id) =>
        after == if !IsTrashed(t.rows, id) then t
                 else if HasRival(t.rows, id, t.rows[id].owner, t.rows[id].hash) then
                   t.(rows := t.rows[id := t.rows[id].(trashed := false, hash := NoHash)])
                 else t.(rows := t.rows[id := t.rows[id].(trashed := false)])
      case Purge(id) => after == if IsTrashed(t.rows, id) then t.(rows := t.rows - {id}) else t
      case Backfill(id, hash) =>
        after == if id !in t.rows || t.rows[id].hash != NoHash || HasRival(t.rows, id, t.rows[id].owner, hash) then t
                 else t.(rows := t.rows[id := t.rows[id].(hash := hash)])
  {
    hide Indexed, HasRival, SetHash, SetTrashed, Insert;
    match s {
      case Create(owner, hash, name) => InsertIs(t, File(owner, hash, name, false));
      case ReplaceContent(id, hash) => if IsLive(t.rows, id) { SetHashIs(t, id, hash); }
      case Trash(id) => if IsLive(t.rows, id) { TrashingIs(t, id); }
      case Restore(id) => if IsTrashed(t.rows, id) { RestoringIs(t, id); }
      case Purge(_) =>
      case Backfill(id, hash) =>
        if id in t.rows {
          BackfillSucceeds(t, id, hash);
          SetHashIs(t, id, hash);
        }
    }
  }

  lemma InsertIs(t: Table, file: File)
    requires Fits(t) && !file.trashed
    ensures Insert(t, file) ==
      if HasRival(t.rows, t.nextID, file.owner, file.hash) then None
      else Some(Table(t.rows[t.nextID := file], t.nextID + 1))
  {
    hide Indexed, HasRival;
    InsertDecides(t, file);
  }

  lemma SetHashIs(t: Table, id: int, hash: Hash)
    requires Fits(t) && id in t.rows
    ensures SetHash(t, id, hash) ==
      if !t.rows[id].trashed && HasRival(t.rows, id, t.rows[id].owner, hash) then None
      else Some(t.(rows := t.rows[id := t.rows[id].(hash := hash)]))
  {
    hide Indexed, HasRival;
    SetHashDecides(t, id, hash);
  }

  lemma TrashingIs(t: Table, id: int)
    requires Fits(t) && IsLive(t.rows, id)
    ensures SetTrashed(t, id, true) == Some(t.(rows := t.rows[id := t.rows[id].(trashed := true)]))
  {
  }

  lemma RestoringIs(t: Table, id: int)
    requires Fits(t) && IsTrashed(t.rows, id)
    ensures RestoreFile(t, id) == Some(t.(rows := t.rows[id := t.rows[id].(trashed := false,
      hash := if HasRival(t.rows, id, t.rows[id].owner, t.rows[id].hash) then NoHash else t.rows[id].hash)]))
  {
    hide Indexed, HasRival;
    RestoreSucceeds(t, id);
  }

  lemma StepKeeps(t: Table, s: Statement)
    requires Fits(t)
    ensures Fits(Step(t, s))
    ensures forall id | id in t.rows && id !in Step(t, s).rows :: s == Purge(id) && t.rows[id].trashed
  {
  }

  /** Live rows never share an owner and a non-empty hash. */
  lemma {:induction false} RunIsIndexed(t: Table, statements: seq<Statement>)
    requires Fits(t)
    ensures Fits(Run(t, statements))
    decreases |statements|
  {
    if statements != [] {
      StepKeeps(t, statements[0]);
      RunIsIndexed(Step(t, statements[0]), statements[1..]);
    }
  }

  /** A row that is gone was deleted for good, out of the trash. */
  lemma {:induction false} RowsLeaveOnlyByPurge(t: Table, statements: seq<Statement>, id: int)
    requires Fits(t) && id in t.rows && id !in Run(t, statements).rows
    ensures exists k ::
      0 <= k < |statements| && statements[k] == Purge(id) && IsTrashed(Run(t, statements[..k]).rows, id)
    decreases |statements|
  {
    StepKeeps(t, statements[0]);
    var next := Step(t, statements[0]);
    if id in next.rows {
      RowsLeaveOnlyByPurge(next, statements[1..], id);
      var k :| 0 <= k < |statements[1..]| && statements[1..][k] == Purge(id)
        && IsTrashed(Run(next, statements[1..][..k]).rows, id);
      assert statements[..k + 1][1..] == statements[1..][..k];
      assert statements[k + 1] == Purge(id);
    } else {
      assert statements[..0] == [];
      assert IsTrashed(Run(t, statements[..0]).rows, id);
    }
  }
}

/**
 Managed files: the handlers that keep the rows and the upload directory in
 step (`backend/handlers/files.go`), and the pass over the directory that
 adopts files without a row.  Every disk or database call may fail; which ones
 do is a parameter.
 */
module FileLibrary {
  import opened Prelude
  import opened FileRows

  type Disk = map<string, Bytes>

  // True for each call that works, in the order of the calls.
  datatype UploadIO = UploadIO(
    directory: bool, temporary: bool, copy: bool, close: bool, lookup: bool, move: bool,
    insert: bool, reread: bool, cleanFile: bool, relookup: bool, cleanTemporary: bool)

  datatype ContentIO = ContentIO(
    find: bool, lookup: bool, temporary: bool, write: bool, close: bool, setAside: bool, move: bool,
    refind: bool, update: bool, reread: bool, removeNew: bool, restore: bool, relookup: bool,
    removeBackup: bool, cleanTemporary: bool)

  datatype EntryIO = EntryIO(readable: bool, lookup: bool, update: bool, count: bool, insert: bool)

  datatype UploadResponse = Created(id: int) | UploadDuplicate(existing: int) | UploadFailed

  datatype ContentResponse = Updated | NotFound | ContentDuplicate(existing: int) | ContentFailed

  function Renamed(disk: Disk, from: string, to: string): Disk
    requires from in disk
  {
    (disk - {from})[to := disk[from]]
  }

  function Cleaned(disk: Disk, name: string, works: bool): Disk {
    if works then disk - {name} else disk
  }

  function BytesOf(disk: Disk, name: string): Option<Bytes> {
    if name in disk then Some(disk[name]) else None
  }

  /** No hash, no bytes, or the hash of the bytes. */
  predicate Matches(hash: Hash, bytes: Option<Bytes>) {
    hash == NoHash || bytes.None? || hash == Sha256(bytes.value)
  }

  /** Each row has no hash, or the hash of its bytes on disk. */
  ghost predicate Agrees(rows: Rows, disk: Disk) {
    forall id | id in rows :: Matches(rows[id].hash, BytesOf(disk, rows[id].storageName))
  }

  ghost predicate OwnNames(rows: Rows) {
    forall i, j | i in rows && j in rows && i != j :: rows[i].storageName != rows[j].storageName
  }

  ghost predicate Unused(rows: Rows, name: string) {
    forall id | id in rows :: rows[id].storageName != name
  }

  /** Only the named files differ. */
  ghost predicate SameOutside(before: Disk, after: Disk, touched: set<string>) {
    forall name | name !in touched :: BytesOf(after, name) == BytesOf(before, name)
  }

  ghost predicate AllStored(rows: Rows, disk: Disk) {
    forall id | id in rows :: rows[id].storageName in disk
  }

  // ---- what an upload leaves

  /** The INSERT is reached and works. */
  predicate Inserts(io: UploadIO) {
    io.directory && io.temporary && io.copy && io.close && io.move && io.insert
  }

  /** The new row is in the table, whatever the handler is told. */
  ghost predicate UploadCommits(t: Table, owner: int, content: Bytes, io: UploadIO) {
    Inserts(io) && !HasRival(t.rows, t.nextID, owner, Sha256(content))
  }

  ghost function UploadedRows(t: Table, owner: int, content: Bytes, storageName: string, io: UploadIO): Rows {
    if UploadCommits(t, owner, content, io) then t.rows[t.nextID := File(owner, Sha256(content), storageName, false)]
    else t.rows
  }

  /** A failed upload leaves the rows as they were exactly unless its row was inserted and could not be read back. */
  lemma FailedUploadKeepsRows(t: Table, owner: int, content: Bytes, storageName: string, io: UploadIO)
    requires Fits(t) && !(UploadCommits(t, owner, content, io) && io.reread)
    ensures UploadedRows(t, owner, content, storageName, io) == t.rows <==>
      !(UploadCommits(t, owner, content, io) && !io.reread)
  {
    assert t.nextID !in t.rows;
  }

  /** An upload that is reported as failed and keeps its row, because only the reading back failed. */
  lemma UnreadUploadKeepsRow() returns (io: UploadIO)
    ensures io == UploadIO(true, true, true, true, true, true, true, false, true, true, true)
    ensures UploadedRows(Table(map[], 1), 7, [65], "a", io) == map[1 := File(7, Sha256([65]), "a", false)]
  {
    io := UploadIO(true, true, true, true, true, true, true, false, true, true, true);
  }

  // ---- what replacing a content leaves

  /** The temporary file is written: the row was found, no duplicate was, and the disk worked so far. */
  ghost predicate Prepares(rows: Rows, id: int, content: Bytes, io: ContentIO) {
    && IsLive(rows, id) && io.find && io.temporary && io.write && io.close
    && !(io.lookup && rows[id].owner > 0 && HasRival(rows, id, rows[id].owner, Sha256(content)))
  }

  /** The new file gets into its place. */
  predicate Places(existed: bool, io: ContentIO) {
    (existed ==> io.setAside) && io.move
  }

  /** The UPDATE changes the row, whatever the handler is told. */
  ghost predicate ContentCommits(rows: Rows, id: int, content: Bytes, existed: bool, io: ContentIO) {
    && Prepares(rows, id, content, io) && Places(existed, io) && io.refind && io.update
    && !HasRival(rows, id, rows[id].owner, Sha256(content))
  }

  ghost predicate Updates(rows: Rows, id: int, content: Bytes, existed: bool, io: ContentIO) {
    ContentCommits(rows, id, content, existed, io) && io.reread
  }

  ghost function ContentRows(rows: Rows, id: int, content: Bytes, existed: bool, io: ContentIO): Rows {
    if ContentCommits(rows, id, content, existed, io) then rows[id := rows[id].(hash := Sha256(content))] else rows
  }

  /** The file's bytes after the renaming, and after undoing it if the update was reported as failed. */
  function SwappedBytes(before: Option<Bytes>, content: Bytes, updated: bool, io: ContentIO): Option<Bytes> {
    if before.Some? && !io.setAside then before
    else if updated then Some(content)
    else if before.Some? && io.restore then before
    else if io.move && !io.removeNew then Some(content)
    else None
  }

  ghost function ContentBytes(rows: Rows, id: int, content: Bytes, before: Option<Bytes>, io: ContentIO)
    : Option<Bytes>
  {
    if Prepares(rows, id, content, io) then
      SwappedBytes(before, content, Updates(rows, id, content, before.Some?, io), io)
    else before
  }

  /** Which calls must work for the update, with the rivals that refuse it; then only the row's hash changes. */
  lemma UpdatesExactly(rows: Rows, id: int, content: Bytes, existed: bool, io: ContentIO)
    requires IsLive(rows, id)
    ensures Updates(rows, id, content, existed, io) <==>
      && io.find && io.temporary && io.write && io.close && (existed ==> io.setAside) && io.move
      && io.refind && io.update && io.reread && !HasRival(rows, id, rows[id].owner, Sha256(content))
    ensures Updates(rows, id, content, existed, io) ==>
      && ContentRows(rows, id, content, existed, io) == rows[id := rows[id].(hash := Sha256(content))]
      && forall before :: ContentBytes(rows, id, content, before, io) == Some(content) || before.Some? != existed
    ensures io == ALL_WORK && !Updates(rows, id, content, existed, io) ==>
      && ContentRows(rows, id, content, existed, io) == rows
      && forall before :: ContentBytes(rows, id, content, before, io) == before || before.Some? != existed
  {
    hide HasRival;
  }

  lemma OnlyThisFile(before: Disk, after: Disk, path: string, temporary: string, backup: string)
    requires SameOutside(before, after, {path, temporary, backup})
    requires temporary !in before && backup !in before && temporary !in after && backup !in after
    ensures BytesOf(after, path) == BytesOf(before, path) ==> after == before
    ensures path in after ==> after == before[path := after[path]]
  {
    forall name | name != path ensures BytesOf(after, name) == BytesOf(before, name) {
      if name != temporary && name != backup {
        assert name !in {path, temporary, backup};
      }
    }
    assert forall name :: name in after <==> BytesOf(after, name).Some?;
    assert forall name :: name in before <==> BytesOf(before, name).Some?;
    if BytesOf(after, path) == BytesOf(before, path) {
      assert forall name | name in after.Keys :: after[name] == before[name];
    }
  }

  /** A failed call leaves the rows as they were exactly unless the row was changed and could not be read back. */
  lemma FailedUpdateKeepsRows(rows: Rows, id: int, content: Bytes, existed: bool, io: ContentIO)
    requires IsLive(rows, id) && !Updates(rows, id, content, existed, io)
    ensures ContentRows(rows, id, content, existed, io) == rows <==>
      !(ContentCommits(rows, id, content, existed, io) && !io.reread) || rows[id].hash == Sha256(content)
  {
    hide ContentCommits;
    var after := rows[id := rows[id].(hash := Sha256(content))];
    assert after[id].hash == Sha256(content);
    if rows[id].hash == Sha256(content) {
      assert after == rows;
    }
  }

  /** A failed call keeps the old bytes exactly if they were never set aside or could be brought back. */
  lemma OldBytesStay(rows: Rows, id: int, content: Bytes, before: Option<Bytes>, io: ContentIO)
    requires before.Some? && before.value != content && !Updates(rows, id, content, true, io)
    ensures ContentBytes(rows, id, content, before, io) == before <==>
      io.restore || !(Prepares(rows, id, content, io) && io.setAside)
  {
  }

  /** Where there was no file, a failed call leaves none exactly if the new one never got there or was removed. */
  lemma NoBytesStay(rows: Rows, id: int, content: Bytes, io: ContentIO)
    requires !Updates(rows, id, content, false, io)
    ensures ContentBytes(rows, id, content, None, io) == None <==>
      io.removeNew || !(Prepares(rows, id, content, io) && io.move)
  {
  }

  /**
   When the row still matches its bytes: always after success and when no new
   file got into place; with the old bytes back, if the row was not changed;
   otherwise if the new bytes are gone, or the row's hash allows them.
   */
  lemma MatchIsKept(rows: Rows, id: int, content: Bytes, before: Option<Bytes>, io: ContentIO)
    requires IsLive(rows, id) && Matches(rows[id].hash, before)
    ensures
      var committed := ContentCommits(rows, id, content, before.Some?, io);
      var row := ContentRows(rows, id, content, before.Some?, io)[id];
      Matches(row.hash, ContentBytes(rows, id, content, before, io)) <==>
        || (committed && io.reread)
        || !(Prepares(rows, id, content, io) && Places(before.Some?, io))
        || (if before.Some? && io.restore then !committed || before.value == content
            else io.removeNew || committed || rows[id].hash == NoHash || rows[id].hash == Sha256(content))
  {
    hide Prepares, HasRival;
  }

  const ALL_WORK := ContentIO(true, true, true, true, true, true, true, true, true, true, true, true, true, true, true)

  const ALL_BUT_REREAD := ALL_WORK.(reread := false)

  const ONE_FILE: Rows := map[1 := File(7, Sha256([65]), "a", false)]

  /**
   Only the reading back fails, and everything is undone on disk: the row keeps
   the hash of the new content over the bytes of the old.
   */
  lemma UnreadUpdateBreaksMatch()
    ensures !Updates(ONE_FILE, 1, [66], true, ALL_BUT_REREAD)
    ensures ContentRows(ONE_FILE, 1, [66], true, ALL_BUT_REREAD)[1].hash == Sha256([66])
    ensures ContentBytes(ONE_FILE, 1, [66], Some([65]), ALL_BUT_REREAD) == Some([65])
    ensures !Matches(Sha256([66]), Some([65]))
  {
  }

  /** The renaming back fails, and the old bytes are gone. */
  lemma OldBytesCanBeLost()
    ensures ContentBytes(ONE_FILE, 1, [66], Some([65]), ALL_BUT_REREAD.(update := false, restore := false)) == None
  {
  }

  // ---- rows and disk together

  lemma NameIsUsed(rows: Rows, id: int, name: string)
    requires id in rows && Unused(rows, name)
    ensures rows[id].storageName != name
  {
  }

  /** If one row's hash and one row's file change, only that row decides what is kept. */
  lemma OneRowDecides(rows: Rows, id: int, hash: Hash, before: Disk, after: Disk, temporary: string, backup: string)
    requires id in rows && OwnNames(rows) && Unused(rows, temporary) && Unused(rows, backup)
    requires SameOutside(before, after, {rows[id].storageName, temporary, backup})
    ensures var changed := rows[id := rows[id].(hash := hash)];
      && OwnNames(changed)
      && (Agrees(rows, before) ==> (Agrees(changed, after) <==> Matches(hash, BytesOf(after, rows[id].storageName))))
      && (AllStored(rows, before) ==> (AllStored(changed, after) <==> rows[id].storageName in after))
  {
    var changed := rows[id := rows[id].(hash := hash)];
    forall other | other in rows && other != id
      ensures BytesOf(after, rows[other].storageName) == BytesOf(before, rows[other].storageName)
      ensures rows[other].storageName in after <==> rows[other].storageName in before
    {
      assert rows[other].storageName !in {rows[id].storageName, temporary, backup};
    }
    assert changed[id].hash == hash && changed[id].storageName == rows[id].storageName;
  }

  /** What an upload keeps, once it has put no other bytes under the new name. */
  lemma UploadKeeps(t: Table, owner: int, content: Bytes, storageName: string, io: UploadIO, before: Disk, after: Disk,
    temporary: string)
    requires Fits(t) && OwnNames(t.rows) && Unused(t.rows, storageName) && Unused(t.rows, temporary)
    requires SameOutside(before, after, {temporary, storageName})
    requires storageName in after ==> after[storageName] == content
    ensures var rows := UploadedRows(t, owner, content, storageName, io);
      && OwnNames(rows) && (Agrees(t.rows, before) ==> Agrees(rows, after))
      && (AllStored(t.rows, before) ==>
            (AllStored(rows, after) <==> !(UploadCommits(t, owner, content, io) && storageName !in after)))
  {
    hide Indexed, HasRival, Matches, UploadCommits;
    forall id | id in t.rows
      ensures BytesOf(after, t.rows[id].storageName) == BytesOf(before, t.rows[id].storageName)
      ensures t.rows[id].storageName in after <==> t.rows[id].storageName in before
    {
      NameIsUsed(t.rows, id, temporary);
      NameIsUsed(t.rows, id, storageName);
    }
    assert Matches(Sha256(content), BytesOf(after, storageName)) by { ContentMatches(content, after, storageName); }
    var rows := UploadedRows(t, owner, content, storageName, io);
    assert t.nextID !in t.rows;
    if UploadCommits(t, owner, content, io) {
      assert rows[t.nextID] == File(owner, Sha256(content), storageName, false);
    }
  }

  /** What is left of a new file after trying to remove it. */
  lemma Leftover(before: Disk, name: string, bytes: Bytes, works: bool, other: string)
    requires name !in before && other !in before && name != other
    ensures var after := Cleaned(before[name := bytes], name, works);
      && (works ==> after == before) && other !in after && (name in after <==> !works)
      && (name in after ==> after[name] == bytes)
      && SameOutside(before, after, {name, other}) && SameOutside(before, after, {other, name})
      && forall n | n in before :: n in after && after[n] == before[n]
  {
  }

  lemma RenamedAway(before: Disk, from: string, to: string, bytes: Bytes)
    requires from !in before && to !in before && from != to
    ensures Renamed(before[from := bytes], from, to) == before[to := bytes]
    ensures SameOutside(before, before[to := bytes], {from, to})
  {
  }

  lemma ContentMatches(content: Bytes, disk: Disk, name: string)
    requires name in disk ==> disk[name] == content
    ensures Matches(Sha256(content), BytesOf(disk, name))
  {
  }

  lemma FoundForNew(t: Table, owner: int, hash: Hash, found: int)
    requires Fits(t) && hash != NoHash && IsLive(t.rows, found)
    requires t.rows[found].owner == owner && t.rows[found].hash == hash
    ensures HasRival(t.rows, t.nextID, owner, hash)
  {
  }

  lemma UploadStops(t: Table, owner: int, content: Bytes, storageName: string, io: UploadIO)
    requires !Inserts(io)
    ensures UploadedRows(t, owner, content, storageName, io) == t.rows && !UploadCommits(t, owner, content, io)
  {
  }

  lemma NoRivalFound(rows: Rows, id: int, owner: int, hash: Hash)
    requires forall other :: IsLive(rows, other) ==> rows[other].owner != owner || rows[other].hash != hash
    ensures !HasRival(rows, id, owner, hash)
  {
  }

  lemma NotPrepared(rows: Rows, id: int, content: Bytes, before: Option<Bytes>, io: ContentIO)
    requires IsLive(rows, id) && !Prepares(rows, id, content, io)
    ensures !Updates(rows, id, content, before.Some?, io)
    ensures ContentRows(rows, id, content, before.Some?, io) == rows
    ensures ContentBytes(rows, id, content, before, io) == before
  {
  }

  lemma PreparedIs(rows: Rows, id: int, content: Bytes, before: Option<Bytes>, io: ContentIO)
    requires IsLive(rows, id) && Prepares(rows, id, content, io)
    ensures
      var committed := Places(before.Some?, io) && io.refind && io.update
        && !HasRival(rows, id, rows[id].owner, Sha256(content));
      && ContentRows(rows, id, content, before.Some?, io) ==
           (if committed then rows[id := rows[id].(hash := Sha256(content))] else rows)
      && (Updates(rows, id, content, before.Some?, io) <==> committed && io.reread)
      && ContentBytes(rows, id, content, before, io) == SwappedBytes(before, content, committed && io.reread, io)
  {
    hide Prepares, HasRival;
  }

  lemma OnlyHashChanges(rows: Rows, id: int, content: Bytes, existed: bool, io: ContentIO)
    requires IsLive(rows, id)
    ensures var after := ContentRows(rows, id, content, existed, io);
      id in after && after == rows[id := rows[id].(hash := after[id].hash)]
  {
  }

  /** A call that stops before the new file is ready leaves everything, but for a temporary file. */
  lemma NothingReplaced(rows: Rows, id: int, content: Bytes, before: Disk, after: Disk, temporary: string,
    backup: string, io: ContentIO)
    requires IsLive(rows, id) && OwnNames(rows) && Unused(rows, temporary) && !Prepares(rows, id, content, io)
    requires forall name | name != temporary :: BytesOf(after, name) == BytesOf(before, name)
    ensures var path := rows[id].storageName;
      var bytes := BytesOf(before, path);
      && !Updates(rows, id, content, bytes.Some?, io) && ContentRows(rows, id, content, bytes.Some?, io) == rows
      && BytesOf(after, path) == ContentBytes(rows, id, content, bytes, io)
      && SameOutside(before, after, {path, temporary, backup})
      && (Agrees(rows, before) ==> Agrees(rows, after) && Matches(rows[id].hash, BytesOf(after, path)))
      && (AllStored(rows, before) ==> AllStored(rows, after) && path in after)
  {
    hide Prepares, Matches;
    NotPrepared(rows, id, content, BytesOf(before, rows[id].storageName), io);
    forall other | other in rows
      ensures BytesOf(after, rows[other].storageName) == BytesOf(before, rows[other].storageName)
      ensures rows[other].storageName in after <==> rows[other].storageName in before
    {
      NameIsUsed(rows, other, temporary);
    }
  }

  lemma PreparedNow(rows: Rows, id: int, content: Bytes, io: ContentIO)
    requires IsLive(rows, id) && io.find && io.temporary && io.write && io.close
    requires !(io.lookup && rows[id].owner > 0 && HasRival(rows, id, rows[id].owner, Sha256(content)))
    ensures Prepares(rows, id, content, io)
  {
  }

  lemma NotPreparedNow(rows: Rows, id: int, content: Bytes, io: ContentIO)
    requires IsLive(rows, id)
    requires !(io.find && io.temporary && io.write && io.close)
      || (io.lookup && rows[id].owner > 0 && HasRival(rows, id, rows[id].owner, Sha256(content)))
    ensures !Prepares(rows, id, content, io)
  {
  }

  /** A look-up turns up another row exactly if it works and there is a rival. */
  lemma FoundRival(t: Table, id: int, hash: Hash, works: bool, found: Option<int>)
    requires Fits(t) && IsLive(t.rows, id) && hash != NoHash
    requires var owner := t.rows[id].owner;
      && (found.Some? ==>
            works && owner > 0 && IsLive(t.rows, found.value)
            && t.rows[found.value].owner == owner && t.rows[found.value].hash == hash)
      && (found.None? && owner > 0 && works ==>
            forall other :: IsLive(t.rows, other) ==> t.rows[other].owner != owner || t.rows[other].hash != hash)
    ensures found.Some? && found.value != id <==>
      works && t.rows[id].owner > 0 && HasRival(t.rows, id, t.rows[id].owner, hash)
  {
  }

  ghost predicate Covers(rows: Rows, id: int, name: string, content: Bytes)
    requires id in rows
  {
    rows[id].storageName == name && (rows[id].hash == NoHash ==> HasRival(rows, id, rows[id].owner, Sha256(content)))
  }

  /**
   Rows stay as they were but for hashes that are filled in, and new rows are
   live rows of the owner for files of `names` that had none.
   */
  ghost predicate Adopts(before: Rows, after: Rows, disk: Disk, names: seq<string>, ownerID: int) {
    && (forall id | id in before :: id in after && after[id] == before[id].(hash := after[id].hash))
    && (forall id | id in after && (id in before ==> after[id].hash != before[id].hash) ::
          after[id].hash == NoHash || Some(after[id].hash) == HashOf(disk, after[id].storageName))
    && (forall id | id in after && id !in before ::
          && after[id].owner == ownerID && !after[id].trashed
          && after[id].storageName in names && Unused(before, after[id].storageName))
  }

  function HashOf(disk: Disk, name: string): Option<Hash> {
    if name in disk then Some(Sha256(disk[name])) else None
  }

  lemma AdoptsTwice(first: Rows, middle: Rows, last: Rows, disk: Disk, names: seq<string>, name: string, ownerID: int)
    requires Adopts(first, middle, disk, names, ownerID) && Adopts(middle, last, disk, [name], ownerID)
    ensures Adopts(first, last, disk, names + [name], ownerID)
  {
    forall id | id in last && id !in first
      ensures last[id].owner == ownerID && !last[id].trashed
      ensures last[id].storageName in names + [name] && Unused(first, last[id].storageName)
    {
      if id !in middle {
        assert forall other | other in first :: middle[other].storageName == first[other].storageName;
      }
    }
  }

  lemma AdoptsAmongMore(before: Rows, after: Rows, disk: Disk, few: seq<string>, many: seq<string>, ownerID: int)
    requires Adopts(before, after, disk, few, ownerID) && few <= many
    ensures Adopts(before, after, disk, many, ownerID)
  {
  }

  class Library {
    var rows: Rows
    var nextID: int
    var disk: Disk

    /** What every call keeps, whatever fails. */
    ghost predicate Valid()
      reads this
    {
      Fits(Table(rows, nextID)) && OwnNames(rows)
    }

    ghost predicate Agreed()
      reads this
    {
      Agrees(rows, disk)
    }

    constructor ()
      ensures Valid() && Agreed() && rows == map[] && disk == map[]
    {
      rows, nextID, disk := map[], 1, map[];
    }

    /** The live row of this owner with this content; owners without an id are never looked up. */
    method FindActive(owner: int, hash: Hash, works: bool) returns (found: Option<int>)
      requires hash != NoHash
      ensures found.Some? ==>
        owner > 0 && IsLive(rows, found.value) && rows[found.value].owner == owner && rows[found.value].hash == hash
      ensures found.None? && owner > 0 && works ==> forall id :: IsLive(rows, id) ==>
        rows[id].owner != owner || rows[id].hash != hash
      ensures !works ==> found.None?
    {
      if works && owner > 0
        && exists id :: id in rows && IsLive(rows, id) && rows[id].owner == owner && rows[id].hash == hash
      {
        var id :| id in rows && IsLive(rows, id) && rows[id].owner == owner && rows[id].hash == hash;
        return Some(id);
      }
      return None;
    }

    /** INSERT, subject to the unique index, then a query for the new row. */
    method CreateFile(owner: int, hash: Hash, storageName: string, works: bool, reread: bool) returns (id: Option<int>)
      requires Fits(Table(rows, nextID)) && hash != NoHash
      modifies this`rows, this`nextID
      ensures Fits(Table(rows, nextID))
      ensures var committed := works && !HasRival(old(rows), old(nextID), owner, hash);
        && rows == (if committed then old(rows)[old(nextID) := File(owner, hash, storageName, false)] else old(rows))
        && id == if committed && reread then Some(old(nextID)) else None
    {
      var file := File(owner, hash, storageName, false);
      InsertDecides(Table(rows, nextID), file);
      var rival := exists other ::
        other in rows && IsLive(rows, other) && other != nextID
        && rows[other].owner == owner && rows[other].hash == hash;
      if !works || rival {
        return None;
      }
      id := if reread then Some(nextID) else None;
      rows := rows[nextID := file];
      nextID := nextID + 1;
    }

    /** A query for the row, the guarded UPDATE of its hash, and a query for the changed row. */
    method UpdateFileContentMeta(id: int, hash: Hash, refind: bool, works: bool, reread: bool) returns (found: bool)
      requires Fits(Table(rows, nextID)) && IsLive(rows, id) && hash != NoHash
      modifies this`rows
      ensures Fits(Table(rows, nextID))
      ensures var committed := refind && works && !HasRival(old(rows), id, old(rows)[id].owner, hash);
        && rows == (if committed then old(rows)[id := old(rows)[id].(hash := hash)] else old(rows))
        && (found <==> committed && reread)
    {
      SetHashDecides(Table(rows, nextID), id, hash);
      var rival := exists other ::
        other in rows && IsLive(rows, other) && other != id
        && rows[other].owner == rows[id].owner && rows[other].hash == hash;
      if !refind || !works || rival {
        return false;
      }
      rows := rows[id := rows[id].(hash := hash)];
      return reread;
    }

    /**
     An upload adds at most one live row; no file that was there before is
     touched, and every row keeps a file unless the new row could not be read
     back and its file was removed for that.
     */
    method Upload(userID: int, content: Bytes, partial: Bytes, temporary: string, storageName: string, io: UploadIO)
      returns (response: UploadResponse)
      requires Valid()
      requires temporary !in disk && storageName !in disk && temporary != storageName
      requires Unused(rows, temporary) && Unused(rows, storageName)
      modifies this
      ensures Valid() && (old(Agreed()) ==> Agreed())
      ensures response.Created? <==>
        && io.directory && io.temporary && io.copy && io.close && io.move && io.insert && io.reread
        && !HasRival(old(rows), old(nextID), userID, Sha256(content))
      ensures response.Created? ==>
        && rows == old(rows)[old(nextID) := File(userID, Sha256(content), storageName, false)]
        && response.id == old(nextID) && disk == old(disk)[storageName := content]
      ensures rows == UploadedRows(old(Table(rows, nextID)), userID, content, storageName, io)
      ensures response.Created? <==> UploadCommits(old(Table(rows, nextID)), userID, content, io) && io.reread
      ensures !response.Created? ==>
        (rows == old(rows) <==> !(UploadCommits(old(Table(rows, nextID)), userID, content, io) && !io.reread))
      ensures response.UploadDuplicate? ==>
        && IsLive(rows, response.existing) && rows[response.existing].owner == userID
        && rows[response.existing].hash == Sha256(content)
      ensures forall name | name in old(disk) :: name in disk && disk[name] == old(disk)[name]
      ensures !response.Created? && io.cleanTemporary && io.cleanFile ==> disk == old(disk)
      ensures AllStored(old(rows), old(disk)) ==>
        (AllStored(rows, disk) <==>
          !(UploadCommits(old(Table(rows, nextID)), userID, content, io) && !io.reread && io.cleanFile))
      ensures io == UploadIO(true, true, true, true, true, true, true, true, true, true, true) ==>
        && (response.Created? <==> !HasRival(old(rows), old(nextID), userID, Sha256(content)))
        && (userID > 0 && !response.Created? ==> response.UploadDuplicate?)
    {
      hide Fits, OwnNames, Agrees, AllStored, Unused, HasRival, SameOutside, Cleaned, Renamed;
      ghost var table := Table(rows, nextID);
      if !(UploadCommits(table, userID, content, io) && io.reread) {
        FailedUploadKeepsRows(table, userID, content, storageName, io);
      }
      if !io.directory || !io.temporary {
        UploadStops(table, userID, content, storageName, io);
        return UploadFailed;
      }
      if !io.copy || !io.close {
        Leftover(disk, temporary, if io.copy then content else partial, io.cleanTemporary, storageName);
        disk := Cleaned(disk[temporary := if io.copy then content else partial], temporary, io.cleanTemporary);
        UploadKeeps(table, userID, content, storageName, io, old(disk), disk, temporary);
        return UploadFailed;
      }
      Leftover(disk, temporary, content, io.cleanTemporary, storageName);
      disk := disk[temporary := content];
      var hash := Sha256(content);
      var duplicate := FindActive(userID, hash, io.lookup);
      if duplicate.Some? {
        disk := Cleaned(disk, temporary, io.cleanTemporary);
        FoundForNew(table, userID, hash, duplicate.value);
        UploadKeeps(table, userID, content, storageName, io, old(disk), disk, temporary);
        return UploadDuplicate(duplicate.value);
      }
      if !io.move {
        disk := Cleaned(disk, temporary, io.cleanTemporary);
        UploadKeeps(table, userID, content, storageName, io, old(disk), disk, temporary);
        return UploadFailed;
      }
      RenamedAway(old(disk), temporary, storageName, content);
      disk := Renamed(disk, temporary, storageName);
      var id := CreateFile(userID, hash, storageName, io.insert, io.reread);
      if id.None? {
        Leftover(old(disk), storageName, content, io.cleanFile, temporary);
        disk := Cleaned(disk, storageName, io.cleanFile);
        UploadKeeps(table, userID, content, storageName, io, old(disk), disk, temporary);
        duplicate := FindActive(userID, hash, io.relookup);
        if duplicate.None? && userID > 0 && io.relookup {
          NoRivalFound(rows, table.nextID, userID, hash);
        }
        match duplicate
        case Some(existing) => return UploadDuplicate(existing);
        case None => return UploadFailed;
      }
      UploadKeeps(table, userID, content, storageName, io, old(disk), disk, temporary);
      return Created(id.value);
    }

    /** Put the finished temporary file in the place of `path`, keeping what was there under `backup`. */
    method Place(path: string, temporary: string, backup: string, io: ContentIO) returns (placed: bool, hasBackup: bool)
      requires temporary in disk && backup !in disk && path != temporary && path != backup && temporary != backup
      modifies this`disk
      ensures placed <==> Places(path in old(disk), io)
      ensures placed ==>
        && BytesOf(disk, path) == Some(old(disk)[temporary])
        && (hasBackup <==> path in old(disk)) && BytesOf(disk, backup) == BytesOf(old(disk), path)
        && temporary !in disk
      ensures !placed ==>
        BytesOf(disk, path) ==
        if path in old(disk) && io.setAside && !io.restore then None else BytesOf(old(disk), path)
      ensures SameOutside(old(disk), disk, {path, temporary, backup})
    {
      hasBackup := false;
      if path in disk {
        if !io.setAside {
          disk := Cleaned(disk, temporary, io.cleanTemporary);
          return false, false;
        }
        disk := Renamed(disk, path, backup);
        hasBackup := true;
      }
      if !io.move {
        if hasBackup && io.restore {
          disk := Renamed(disk, backup, path);
        }
        disk := Cleaned(disk, temporary, io.cleanTemporary);
        return false, hasBackup;
      }
      disk := Renamed(disk, temporary, path);
      return true, hasBackup;
    }

    /** Take the new file away again and bring the old one back. */
    method Retract(path: string, backup: string, hasBackup: bool, io: ContentIO)
      requires path in disk && path != backup && (hasBackup ==> backup in disk)
      modifies this`disk
      ensures BytesOf(disk, path) ==
        if hasBackup && io.restore then BytesOf(old(disk), backup)
        else if io.removeNew then None else BytesOf(old(disk), path)
      ensures BytesOf(disk, backup) == if hasBackup && io.restore then None else BytesOf(old(disk), backup)
      ensures SameOutside(old(disk), disk, {path, backup})
    {
      disk := Cleaned(disk, path, io.removeNew);
      if hasBackup && io.restore {
        disk := Renamed(disk, backup, path);
      }
    }

    /** From the written temporary file to the updated row, or back. */
    method Swap(id: int, content: Bytes, temporary: string, backup: string, io: ContentIO) returns (updated: bool)
      requires Valid() && IsLive(rows, id) && Prepares(rows, id, content, io)
      requires temporary !in disk && backup !in disk && temporary != backup
      requires Unused(rows, temporary) && Unused(rows, backup)
      modifies this
      ensures nextID == old(nextID) && Fits(Table(rows, nextID))
      ensures var path := old(rows)[id].storageName;
        var before := BytesOf(old(disk), path);
        && rows == ContentRows(old(rows), id, content, before.Some?, io)
        && (updated <==> Updates(old(rows), id, content, before.Some?, io))
        && BytesOf(disk, path) == ContentBytes(old(rows), id, content, before, io)
        && SameOutside(old(disk), disk, {path, temporary, backup})
        && (updated ==> BytesOf(disk, path) == Some(content))
        && (io == ALL_WORK ==> BytesOf(disk, path) == (if updated then Some(content) else before))
      ensures io == ALL_WORK ==> temporary !in disk && backup !in disk
    {
      hide Fits, HasRival, Unused, OwnNames, Prepares, ContentRows, ContentBytes, Updates, ContentCommits;
      var path := rows[id].storageName;
      assert path != temporary && path != backup by { NameIsUsed(rows, id, temporary); NameIsUsed(rows, id, backup); }
      PreparedIs(rows, id, content, BytesOf(disk, path), io);
      disk := disk[temporary := content];
      var placed, hasBackup := Place(path, temporary, backup, io);
      if !placed {
        return false;
      }
      updated := UpdateFileContentMeta(id, Sha256(content), io.refind, io.update, io.reread);
      if updated {
        if hasBackup {
          disk := Cleaned(disk, backup, io.removeBackup);
        }
      } else {
        Retract(path, backup, hasBackup, io);
      }
      assert BytesOf(disk, temporary) == None && (io == ALL_WORK ==> BytesOf(disk, backup) == None);
    }

    /**
     Replacing the content of a file: the rows and the file's bytes afterwards,
     for every combination of calls that fail; the lemmas above say when they
     are as they were and when they match.
     */
    method UpdateContent(id: int, content: Bytes, partial: Bytes, temporary: string, backup: string, io: ContentIO)
      returns (response: ContentResponse)
      requires Valid()
      requires temporary !in disk && backup !in disk && temporary != backup
      requires Unused(rows, temporary) && Unused(rows, backup)
      modifies this
      ensures Valid()
      ensures response.NotFound? <==> !(io.find && IsLive(old(rows), id))
      ensures response.Updated? <==>
        && IsLive(old(rows), id) && io.find && io.temporary && io.write && io.close
        && (old(rows)[id].storageName in old(disk) ==> io.setAside) && io.move && io.refind && io.update && io.reread
        && !HasRival(old(rows), id, old(rows)[id].owner, Sha256(content))
      ensures response.Updated? ==>
        && rows == old(rows)[id := old(rows)[id].(hash := Sha256(content))]
        && BytesOf(disk, old(rows)[id].storageName) == Some(content)
      ensures IsLive(old(rows), id) && io == ALL_WORK ==>
        && (response.Updated? ==> disk == old(disk)[old(rows)[id].storageName := content])
        && (!response.Updated? ==> rows == old(rows) && disk == old(disk))
      ensures !IsLive(old(rows), id) ==> rows == old(rows) && disk == old(disk)
      ensures IsLive(old(rows), id) ==>
        var path := old(rows)[id].storageName;
        var before := BytesOf(old(disk), path);
        && (response.Updated? <==> Updates(old(rows), id, content, before.Some?, io))
        && rows == ContentRows(old(rows), id, content, before.Some?, io)
        && BytesOf(disk, path) == ContentBytes(old(rows), id, content, before, io)
        && SameOutside(old(disk), disk, {path, temporary, backup})
        && (old(Agreed()) ==> (Agreed() <==> Matches(rows[id].hash, BytesOf(disk, path))))
        && (AllStored(old(rows), old(disk)) ==> (AllStored(rows, disk) <==> path in disk))
      ensures IsLive(old(rows), id) && io.find && io.lookup && old(rows)[id].owner > 0 ==>
        HasRival(old(rows), id, old(rows)[id].owner, Sha256(content)) ==> response.ContentDuplicate?
      ensures response.ContentDuplicate? ==>
        && id in rows && IsLive(rows, response.existing) && response.existing != id
        && rows[response.existing].owner == rows[id].owner && rows[response.existing].hash == Sha256(content)
    {
      hide Fits, OwnNames, Agrees, AllStored, Unused, HasRival, SameOutside, Matches, Prepares, Updates, ContentRows,
        ContentBytes;
      if id !in rows || rows[id].trashed {
        return NotFound;
      }
      var file := rows[id];
      var hash := Sha256(content);
      UpdatesExactly(rows, id, content, file.storageName in disk, io);
      if !io.find {
        NotPreparedNow(rows, id, content, io);
        NothingReplaced(rows, id, content, old(disk), disk, temporary, backup, io);
        return NotFound;
      }
      var duplicate := FindActive(file.owner, hash, io.lookup);
      FoundRival(Table(rows, nextID), id, hash, io.lookup, duplicate);
      if duplicate.Some? && duplicate.value != id {
        NotPreparedNow(rows, id, content, io);
        NothingReplaced(rows, id, content, old(disk), disk, temporary, backup, io);
        return ContentDuplicate(duplicate.value);
      }
      if !io.temporary || !io.write || !io.close {
        if io.temporary {
          disk := Cleaned(disk[temporary := if io.write then content else partial], temporary, io.cleanTemporary);
        }
        NotPreparedNow(rows, id, content, io);
        NothingReplaced(rows, id, content, old(disk), disk, temporary, backup, io);
        return ContentFailed;
      }
      PreparedNow(rows, id, content, io);
      var found := Swap(id, content, temporary, backup, io);
      OnlyHashChanges(old(rows), id, content, file.storageName in old(disk), io);
      OneRowDecides(old(rows), id, rows[id].hash, old(disk), disk, temporary, backup);
      if io == ALL_WORK {
        OnlyThisFile(old(disk), disk, file.storageName, temporary, backup);
      }
      if !found {
        duplicate := FindActive(file.owner, hash, io.relookup);
        return if duplicate.Some? && duplicate.value != id then ContentDuplicate(duplicate.value) else ContentFailed;
      }
      return Updated;
    }

    method SoftDelete(id: int, works: bool) returns (deleted: bool)
      requires Valid()
      modifies this`rows
      ensures Valid() && (old(Agreed()) ==> Agreed())
      ensures deleted <==> works && IsLive(old(rows), id)
      ensures rows == if deleted then old(rows)[id := old(rows)[id].(trashed := true)] else old(rows)
    {
      if !works || id !in rows || rows[id].trashed {
        return false;
      }
      TrashingKeeps(Table(rows, nextID), id);
      rows := rows[id := rows[id].(trashed := true)];
      return true;
    }

    /**
     The transaction restores every trashed row, and a live rival only costs it
     its hash; if only the query after it fails, the caller is told otherwise.
     */
    method Restore(id: int, works: bool, reread: bool) returns (restored: bool)
      requires Valid()
      modifies this`rows
      ensures Valid() && (old(Agreed()) ==> Agreed())
      ensures restored <==> works && reread && IsTrashed(old(rows), id)
      ensures works && IsTrashed(old(rows), id) ==> var file := old(rows)[id];
        rows == old(rows)[id := file.(trashed := false,
                            hash := if HasRival(old(rows), id, file.owner, file.hash) then NoHash else file.hash)]
      ensures !(works && IsTrashed(old(rows), id)) ==> rows == old(rows)
    {
      if !works || id !in rows || !rows[id].trashed {
        return false;
      }
      RestoreSucceeds(Table(rows, nextID), id);
      var file := rows[id];
      if file.hash != NoHash
        && exists other ::
          other in rows && IsLive(rows, other) && other != id && rows[other].owner == file.owner
          && rows[other].hash == file.hash
      {
        file := file.(hash := NoHash);
      }
      rows := rows[id := file.(trashed := false)];
      return reread;
    }

    /** `clean` says whether the file itself could be removed. */
    method HardDelete(id: int, find: bool, works: bool, clean: bool) returns (deleted: bool)
      requires Valid()
      modifies this`rows, this`disk
      ensures Valid() && (old(Agreed()) ==> Agreed())
      ensures deleted <==> find && works && IsTrashed(old(rows), id)
      ensures rows == if deleted then old(rows) - {id} else old(rows)
      ensures disk == if deleted && clean then old(disk) - {old(rows)[id].storageName} else old(disk)
      ensures forall other | other in rows ::
        BytesOf(disk, rows[other].storageName) == BytesOf(old(disk), rows[other].storageName)
    {
      if !find || !works || id !in rows || !rows[id].trashed {
        return false;
      }
      StepKeeps(Table(rows, nextID), Purge(id));
      var name := rows[id].storageName;
      rows := rows - {id};
      disk := Cleaned(disk, name, clean);
      return true;
    }

    /** A row for this file exists; it lacks its hash only because a live row of its owner has it. */
    ghost predicate Covered(name: string)
      requires name in disk
      reads this
    {
      exists id :: id in rows && Covers(rows, id, name, disk[name])
    }

    /** Rows of `before` survive as they were, except that a missing hash may have been filled in. */
    ghost predicate Extends(before: Rows)
      reads this
    {
      forall id | id in before ::
        id in rows && rows[id] == before[id].(hash := rows[id].hash)
          && (before[id].hash != NoHash ==> rows[id] == before[id])
    }

    lemma CoverageStays(before: Rows, name: string)
      requires Extends(before) && name in disk
      requires exists id :: id in before && Covers(before, id, name, disk[name])
      ensures Covered(name)
    {
      var id :| id in before && Covers(before, id, name, disk[name]);
      if rows[id].hash == NoHash {
        var other :| IsLive(before, other) && other != id && before[other].owner == before[id].owner
          && before[other].hash == Sha256(disk[name]);
        assert IsLive(rows, other) && rows[other].hash == Sha256(disk[name]);
      }
    }

    /** Fill in the hash of a row that has none; `works` says whether the UPDATE works. */
    method BackfillEntry(id: int, name: string, works: bool) returns (ok: bool)
      requires Valid() && name in disk && id in rows && rows[id].storageName == name
      modifies this`rows
      ensures Valid() && (old(Agreed()) ==> Agreed()) && Extends(old(rows))
      ensures ok <==> works || old(rows)[id].hash != NoHash
      ensures Adopts(old(rows), rows, disk, [name], 0)
      ensures rows.Keys == old(rows).Keys
      ensures ok ==> Covered(name)
    {
      var hash := Sha256(disk[name]);
      if rows[id].hash == NoHash {
        if !works {
          return false;
        }
        if !exists other ::
          other in rows && IsLive(rows, other) && other != id
          && rows[other].owner == rows[id].owner && rows[other].hash == hash
        {
          SetHashDecides(Table(rows, nextID), id, hash);
          rows := rows[id := rows[id].(hash := hash)];
        }
      }
      assert Covers(rows, id, name, disk[name]);
      return true;
    }

    /** Give the file a row; a failing INSERT is ignored. */
    method AdoptEntry(name: string, ownerID: int, insert: bool)
      requires Valid() && name in disk && Unused(rows, name)
      modifies this`rows, this`nextID
      ensures Valid() && (old(Agreed()) ==> Agreed()) && Extends(old(rows))
      ensures insert ==> Covered(name)
      ensures Adopts(old(rows), rows, disk, [name], ownerID)
    {
      var hash := Sha256(disk[name]);
      var duplicate := exists other ::
        other in rows && IsLive(rows, other) && rows[other].owner == ownerID && rows[other].hash == hash;
      if !insert {
        return;
      }
      var file := File(ownerID, if duplicate then NoHash else hash, name, false);
      InsertDecides(Table(rows, nextID), file);
      assert nextID !in rows;
      rows := rows[nextID := file];
      assert forall other | other in old(rows) :: rows[other] == old(rows)[other];
      if duplicate {
        ghost var other :| other in old(rows) && IsLive(old(rows), other) && old(rows)[other].owner == ownerID
          && old(rows)[other].hash == hash;
        assert IsLive(rows, other);
      }
      assert Covers(rows, nextID, name, disk[name]);
      nextID := nextID + 1;
    }

    /** One file of the directory: fill in the hash of its row, or adopt it; a failing query stops the pass. */
    method ReconcileEntry(name: string, ownerID: int, io: EntryIO) returns (ok: bool)
      requires Valid() && name in disk
      modifies this`rows, this`nextID
      ensures Valid() && (old(Agreed()) ==> Agreed()) && Extends(old(rows))
      ensures io.lookup && io.update && io.count ==> ok
      ensures ok && io.insert ==> Covered(name)
      ensures Adopts(old(rows), rows, disk, [name], ownerID)
    {
      if !io.lookup {
        return false;
      }
      if exists id :: id in rows && rows[id].storageName == name {
        var id :| id in rows && rows[id].storageName == name;
        ok := BackfillEntry(id, name, io.update);
      } else {
        if !io.count {
          return false;
        }
        AdoptEntry(name, ownerID, io.insert);
        return true;
      }
    }

    lemma AdoptsUpTo(before: Rows, entries: seq<string>, i: nat, ownerID: int, read: bool)
      requires i < |entries|
      requires Adopts(before, rows, disk, if read then entries[..i + 1] else entries[..i], ownerID)
      ensures Adopts(before, rows, disk, entries[..i + 1], ownerID)
    {
      if !read {
        AdoptsAmongMore(before, rows, disk, entries[..i], entries[..i + 1], ownerID);
      }
    }

    /**
     After a pass over the directory every readable file it came to has a row,
     unless its INSERT failed, and a row without a hash has a live rival with
     that content; nothing is lost, no statement of the pass runs into the
     unique index, and only a failing query or update ends the pass early.
     */
    method ReconcileUploadFiles(entries: seq<string>, io: seq<EntryIO>, ownerID: int) returns (done: nat)
      requires Valid() && |io| == |entries| && forall name | name in entries :: name in disk
      modifies this`rows, this`nextID
      ensures Valid() && (old(Agreed()) ==> Agreed()) && Extends(old(rows))
      ensures done <= |entries|
      ensures done < |entries| ==> io[done].readable && !(io[done].lookup && io[done].update && io[done].count)
      ensures forall k | 0 <= k < done && io[k].readable && io[k].insert :: Covered(entries[k])
      ensures Adopts(old(rows), rows, disk, entries, ownerID)
    {
      for i := 0 to |entries|
        invariant Valid() && (old(Agreed()) ==> Agreed()) && Extends(old(rows))
        invariant forall k | 0 <= k < i && io[k].readable && io[k].insert :: Covered(entries[k])
        invariant Adopts(old(rows), rows, disk, entries[..i], ownerID)
      {
        hide Adopts;
        if io[i].readable {
          ghost var before := rows;
          label Entry:
          var ok := ReconcileEntry(entries[i], ownerID, io[i]);
          AdoptsTwice(old(rows), before, rows, disk, entries[..i], entries[i], ownerID);
          forall k | 0 <= k < i && io[k].readable && io[k].insert ensures Covered(entries[k]) {
            assert old@Entry(Covered(entries[k]));
            CoverageStays(before, entries[k]);
          }
          assert entries[..i] + [entries[i]] == entries[..i + 1];
          if !ok {
            AdoptsAmongMore(old(rows), rows, disk, entries[..i + 1], entries, ownerID);
            return i;
          }
        }
        AdoptsUpTo(old(rows), entries, i, ownerID, io[i].readable);
      }
      assert entries[..|entries|] == entries;
      return |entries|;
    }
  }
}

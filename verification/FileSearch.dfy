/**
 The bounded breadth-first search for files, on the deployment machine
 (`backend/cmd/host-agent/session.go`) and over SFTP
 (`backend/handlers/server.go`).  The file system is any function from paths
 to listings, so it may well be infinite.
 */
module FileSearch {
  import opened Prelude

  const SCAN_LIMIT := 10000
  const RESULT_LIMIT := 200

  // Components from the root down.
  type Path = seq<string>

  // `hasInfo` says whether the metadata can be read; over SFTP it always can.
  datatype Entry = Entry(name: string, directory: bool, symlink: bool, hasInfo: bool)

  // None is a directory that cannot be read.
  type FileSystem = Path -> Option<seq<Entry>>

  datatype Node = Node(directory: Path, entry: Entry)

  datatype Found = Found(nodes: seq<Node>, truncated: bool)

  predicate Descends(e: Entry) {
    e.directory && !e.symlink
  }

  /** Reached from the root through readable real directories. */
  ghost predicate Reachable(fs: FileSystem, path: Path)
    decreases |path|
  {
    path == []
    || (var parent := path[..|path| - 1];
        Reachable(fs, parent) && fs(parent).Some?
        && exists e | e in fs(parent).value :: Descends(e) && e.name == path[|path| - 1])
  }

  ghost predicate IsListed(fs: FileSystem, node: Node) {
    Reachable(fs, node.directory) && fs(node.directory).Some? && node.entry in fs(node.directory).value
  }

  predicate Wanted(matches: Path -> bool, node: Node) {
    matches(node.directory + [node.entry.name]) && node.entry.hasInfo
  }

  /** No directory lists a name twice. */
  ghost predicate ListsOnce(fs: FileSystem) {
    forall path, i, j | fs(path).Some? && 0 <= i < j < |fs(path).value| ::
      fs(path).value[i].name != fs(path).value[j].name
  }

  ghost predicate NoDuplicates<T>(s: seq<T>) {
    forall i, j | 0 <= i < j < |s| :: s[i] != s[j]
  }

  /** Nodes of directories nearer to the root come first. */
  predicate NearestFirst(nodes: seq<Node>) {
    forall i, j | 0 <= i < j < |nodes| :: |nodes[i].directory| <= |nodes[j].directory|
  }

  /** Queued directories come by depth, the last at most one deeper than the first, and no found node lies deeper. */
  predicate ByDepth(pending: seq<Path>, nodes: seq<Node>) {
    && NearestFirst(nodes)
    && (forall i, j | 0 <= i <= j < |pending| :: |pending[i]| <= |pending[j]| <= |pending[i]| + 1)
    && (pending != [] ==> forall n | n in nodes :: |n.directory| <= |pending[0]|)
  }

  /** Scanning the first queued directory adds its own nodes and directories one deeper. */
  lemma ScanKeepsDepth(queued: seq<Path>, found: seq<Node>, pending: seq<Path>, nodes: seq<Node>)
    requires queued != [] && ByDepth(queued, found) && queued[1..] <= pending && found <= nodes
    requires forall k | |queued| - 1 <= k < |pending| :: |pending[k]| == |queued[0]| + 1
    requires forall k | |found| <= k < |nodes| :: nodes[k].directory == queued[0]
    ensures ByDepth(pending, nodes)
  {
    assert forall k | 0 <= k < |queued| - 1 :: pending[k] == queued[k + 1];
    forall k | 0 <= k < |nodes| ensures |nodes[k].directory| <= |queued[0]| {
      if k < |found| {
        assert nodes[k] == found[k] && found[k] in found;
      }
    }
  }

  /** The first `count` entries of a listing have been dealt with. */
  ghost predicate Covered(directory: Path, listing: seq<Entry>, count: nat, known: set<Path>, matches: Path -> bool,
    nodes: seq<Node>)
    requires count <= |listing|
  {
    forall k | 0 <= k < count ::
      && (Descends(listing[k]) ==> directory + [listing[k].name] in known)
      && (Wanted(matches, Node(directory, listing[k])) ==> Node(directory, listing[k]) in nodes)
  }

  ghost predicate AllCovered(fs: FileSystem, visited: seq<Path>, known: set<Path>, matches: Path -> bool,
    nodes: seq<Node>)
  {
    forall d | d in visited && fs(d).Some? :: Covered(d, fs(d).value, |fs(d).value|, known, matches, nodes)
  }

  function Queued(pending: seq<Path>): set<Path> {
    set p | p in pending
  }

  function Known(visited: seq<Path>, pending: seq<Path>): set<Path> {
    Queued(visited) + Queued(pending)
  }

  /** When nothing is pending, every reachable directory has been visited. */
  lemma {:induction false} AllVisited(fs: FileSystem, visited: seq<Path>, matches: Path -> bool, nodes: seq<Node>,
    path: Path)
    requires [] in visited && AllCovered(fs, visited, Known(visited, []), matches, nodes)
    requires Reachable(fs, path)
    ensures path in visited
    decreases |path|
  {
    if path != [] {
      var parent := path[..|path| - 1];
      AllVisited(fs, visited, matches, nodes, parent);
      var listing := fs(parent).value;
      var e :| e in listing && Descends(e) && e.name == path[|path| - 1];
      var k :| 0 <= k < |listing| && listing[k] == e;
      assert Covered(parent, listing, |listing|, Known(visited, []), matches, nodes);
      assert parent + [e.name] == path;
    }
  }

  /** A complete visit has found every wanted node. */
  lemma NothingMissed(fs: FileSystem, visited: seq<Path>, matches: Path -> bool, nodes: seq<Node>, node: Node)
    requires [] in visited && AllCovered(fs, visited, Known(visited, []), matches, nodes)
    requires IsListed(fs, node) && Wanted(matches, node)
    ensures node in nodes
  {
    AllVisited(fs, visited, matches, nodes, node.directory);
    var listing := fs(node.directory).value;
    var k :| 0 <= k < |listing| && listing[k] == node.entry;
    assert Covered(node.directory, listing, |listing|, Known(visited, []), matches, nodes);
  }

  lemma ChildIsReachable(fs: FileSystem, directory: Path, e: Entry)
    requires Reachable(fs, directory) && fs(directory).Some? && e in fs(directory).value && Descends(e)
    ensures Reachable(fs, directory + [e.name])
  {
  }

  // ---- each node once

  function Parent(path: Path): Path {
    if path == [] then [] else path[..|path| - 1]
  }

  function Children(directory: Path, listing: seq<Entry>, count: nat): set<Path>
    requires count <= |listing|
  {
    set k | 0 <= k < count :: directory + [listing[k].name]
  }

  ghost predicate Hangs(p: Path, visited: seq<Path>) {
    p == [] || Parent(p) in visited
  }

  /** No directory is visited or queued twice, and found nodes are distinct. */
  ghost predicate Once(visited: seq<Path>, pending: seq<Path>, nodes: seq<Node>) {
    && (forall p | p in visited :: Hangs(p, visited))
    && (forall p | p in pending :: p !in visited && Hangs(p, visited))
    && (forall n | n in nodes :: n.directory in visited)
    && NoDuplicates(pending) && NoDuplicates(nodes)
  }

  // `Once` inside the directory `current`: what it contributed so far comes from its first entries.
  ghost predicate OnceInside(visited: seq<Path>, current: Path, pending: seq<Path>, nodes: seq<Node>,
    listing: seq<Entry>, count: nat)
    requires count <= |listing|
  {
    && current !in visited && Hangs(current, visited)
    && (forall p | p in visited :: Hangs(p, visited))
    && (forall p | p in pending :: p !in visited && p != current
          && (Hangs(p, visited) || p in Children(current, listing, count)))
    && (forall n | n in nodes :: n.directory in visited || (n.directory == current && n.entry in listing[..count]))
    && NoDuplicates(pending) && NoDuplicates(nodes)
  }

  lemma EntersOnce(visited: seq<Path>, pending: seq<Path>, nodes: seq<Node>, listing: seq<Entry>)
    requires pending != [] && Once(visited, pending, nodes)
    ensures OnceInside(visited, pending[0], pending[1..], nodes, listing, 0)
  {
  }

  lemma LeavesOnce(visited: seq<Path>, current: Path, pending: seq<Path>, nodes: seq<Node>, listing: seq<Entry>,
    count: nat)
    requires count <= |listing| && OnceInside(visited, current, pending, nodes, listing, count)
    ensures Once(visited + [current], pending, nodes)
  {
  }

  lemma NewChild(directory: Path, listing: seq<Entry>, count: nat)
    requires count < |listing| && forall i, j | 0 <= i < j < |listing| :: listing[i].name != listing[j].name
    ensures directory + [listing[count].name] !in Children(directory, listing, count)
    ensures Children(directory, listing, count + 1) ==
      Children(directory, listing, count) + {directory + [listing[count].name]}
    ensures listing[count] !in listing[..count]
  {
    forall k | 0 <= k < count ensures directory + [listing[k].name] != directory + [listing[count].name] {
      assert (directory + [listing[k].name])[|directory|] == listing[k].name;
      assert (directory + [listing[count].name])[|directory|] == listing[count].name;
    }
  }

  lemma AppendNew<T>(s: seq<T>, x: T)
    ensures NoDuplicates(s) && x !in s ==> NoDuplicates(s + [x])
  {
  }

  lemma StepsOnce(visited: seq<Path>, current: Path, pending: seq<Path>, nodes: seq<Node>, listing: seq<Entry>,
    count: nat, wanted: bool)
    requires count < |listing| && OnceInside(visited, current, pending, nodes, listing, count)
    requires forall i, j | 0 <= i < j < |listing| :: listing[i].name != listing[j].name
    ensures OnceInside(visited, current,
              if Descends(listing[count]) then pending + [current + [listing[count].name]] else pending,
              if wanted then nodes + [Node(current, listing[count])] else nodes,
              listing, count + 1)
  {
    hide Children, NoDuplicates;
    var child := current + [listing[count].name];
    NewChild(current, listing, count);
    assert Parent(child) == current;
    assert !Hangs(child, visited);
    assert child !in visited && child !in pending;
    AppendNew(pending, child);
    AppendNew(nodes, Node(current, listing[count]));
    assert listing[..count + 1] == listing[..count] + [listing[count]];
    assert Node(current, listing[count]) !in nodes;
  }

  // ---- the search

  /** Entries in order, until the listing or one of the limits ends. */
  method ScanDirectory(current: Path, listing: seq<Entry>, matches: Path -> bool, queued: seq<Path>,
    found: seq<Node>, before: nat, ghost visited: seq<Path>, ghost once: bool)
    returns (pending: seq<Path>, nodes: seq<Node>, scans: nat, truncated: bool)
    requires before <= SCAN_LIMIT && |found| <= RESULT_LIMIT
    requires once ==> forall i, j | 0 <= i < j < |listing| :: listing[i].name != listing[j].name
    requires once ==> OnceInside(visited, current, queued, found, listing, 0)
    ensures before <= scans <= SCAN_LIMIT && |nodes| <= RESULT_LIMIT && |pending| - scans <= |queued| - before
    ensures queued <= pending && found <= nodes
    ensures forall p | p in pending :: p in queued || exists e | e in listing :: Descends(e) && p == current + [e.name]
    ensures forall n | n in nodes :: n in found || (n.directory == current && n.entry in listing && Wanted(matches, n))
    ensures forall k | |queued| <= k < |pending| :: |pending[k]| == |current| + 1
    ensures forall k | |found| <= k < |nodes| :: nodes[k].directory == current
    ensures truncated ==> scans == SCAN_LIMIT || |nodes| == RESULT_LIMIT
    ensures !truncated ==> Covered(current, listing, |listing|, Queued(pending), matches, nodes)
    ensures once ==> Once(visited + [current], pending, nodes)
  {
    hide Once, OnceInside, NoDuplicates;
    pending, nodes, scans, truncated := queued, found, before, false;
    var entry := 0;
    while entry < |listing|
      invariant entry <= |listing|
      invariant before <= scans <= SCAN_LIMIT && |nodes| <= RESULT_LIMIT && |pending| - scans <= |queued| - before
      invariant queued <= pending && found <= nodes && !truncated
      invariant forall p | p in pending ::
        p in queued || exists e | e in listing :: Descends(e) && p == current + [e.name]
      invariant forall n | n in nodes ::
        n in found || (n.directory == current && n.entry in listing && Wanted(matches, n))
      invariant forall k | |queued| <= k < |pending| :: |pending[k]| == |current| + 1
      invariant forall k | |found| <= k < |nodes| :: nodes[k].directory == current
      invariant Covered(current, listing, entry, Queued(pending), matches, nodes)
      invariant once ==> OnceInside(visited, current, pending, nodes, listing, entry)
    {
      if scans >= SCAN_LIMIT || |nodes| >= RESULT_LIMIT {
        truncated := true;
        break;
      }
      scans := scans + 1;
      var e := listing[entry];
      var node := Node(current, e);
      if once {
        StepsOnce(visited, current, pending, nodes, listing, entry, Wanted(matches, node));
      }
      if Descends(e) {
        pending := pending + [current + [e.name]];
      }
      if Wanted(matches, node) {
        nodes := nodes + [node];
      }
      entry := entry + 1;
    }
    if once {
      LeavesOnce(visited, current, pending, nodes, listing, entry);
    }
  }

  lemma VisitCovers(fs: FileSystem, visited: seq<Path>, queued: seq<Path>, pending: seq<Path>, matches: Path -> bool,
    found: seq<Node>, nodes: seq<Node>)
    requires queued != [] && AllCovered(fs, visited, Known(visited, queued), matches, found)
    requires queued[1..] <= pending && found <= nodes
    requires fs(queued[0]).Some? ==>
      Covered(queued[0], fs(queued[0]).value, |fs(queued[0]).value|, Queued(pending), matches, nodes)
    ensures AllCovered(fs, visited + [queued[0]], Known(visited + [queued[0]], pending), matches, nodes)
  {
  }

  /**
   At most 10001 directories are read, whatever the file system.  Every node
   returned is reachable and wanted, those nearer to the root come first, and if
   the result is not truncated it holds every such node.
   */
  method Search(fs: FileSystem, matches: Path -> bool)
    returns (result: Option<Found>, ghost visits: nat, ghost scanned: nat)
    ensures result.None? <==> fs([]).None?
    ensures visits <= 10001 && scanned <= 10000
    ensures result.Some? ==>
      var found := result.value;
      && |found.nodes| <= 200 && NearestFirst(found.nodes)
      && (forall node | node in found.nodes :: IsListed(fs, node) && Wanted(matches, node))
      && (!found.truncated ==> forall node :: IsListed(fs, node) && Wanted(matches, node) ==> node in found.nodes)
      && (found.truncated <==> scanned == 10000 || |found.nodes| == 200)
      && (ListsOnce(fs) ==> NoDuplicates(found.nodes))
  {
    hide OnceInside, AllCovered, Covered, Known, NoDuplicates, NearestFirst, ByDepth;
    var pending: seq<Path> := [[]];
    var nodes: seq<Node> := [];
    var scans, truncated := 0, false;
    ghost var visited: seq<Path> := [];
    NothingYet(fs, matches);
    while |pending| > 0 && scans < SCAN_LIMIT && |nodes| < RESULT_LIMIT
      invariant scans <= SCAN_LIMIT && |nodes| <= RESULT_LIMIT && |visited| + |pending| <= 1 + scans
      invariant [] in visited + pending
      invariant if visited == [] then pending == [[]] && nodes == [] && scans == 0 else fs([]).Some?
      invariant ByDepth(pending, nodes)
      invariant forall p | p in pending :: Reachable(fs, p)
      invariant forall n | n in nodes :: IsListed(fs, n) && Wanted(matches, n)
      invariant truncated ==> scans == SCAN_LIMIT || |nodes| == RESULT_LIMIT
      invariant truncated || AllCovered(fs, visited, Known(visited, pending), matches, nodes)
      invariant ListsOnce(fs) ==> Once(visited, pending, nodes)
      decreases |pending| + SCAN_LIMIT - scans
    {
      var current := pending[0];
      ghost var queued, found := pending, nodes;
      assert [] in visited + queued ==> [] in visited + [current] + queued[1..];
      pending := pending[1..];
      var listed := fs(current);
      if ListsOnce(fs) {
        EntersOnce(visited, queued, nodes, if listed.Some? then listed.value else []);
      }
      if listed.None? {
        if current == [] {
          return None, |visited| + 1, scans;
        }
        if ListsOnce(fs) {
          LeavesOnce(visited, current, pending, nodes, [], 0);
        }
      } else {
        var cut;
        pending, nodes, scans, cut :=
          ScanDirectory(current, listed.value, matches, pending, nodes, scans, visited, ListsOnce(fs));
        truncated := truncated || cut;
        forall p | p in pending ensures Reachable(fs, p) {
          if p !in queued {
            var e :| e in listed.value && Descends(e) && p == current + [e.name];
            ChildIsReachable(fs, current, e);
          }
        }
      }
      ScanKeepsDepth(queued, found, pending, nodes);
      if !truncated {
        VisitCovers(fs, visited, queued, pending, matches, found, nodes);
      }
      visited := visited + [current];
    }
    if |pending| > 0 || scans >= SCAN_LIMIT || |nodes| >= RESULT_LIMIT {
      truncated := true;
    }
    if !truncated {
      forall node | IsListed(fs, node) && Wanted(matches, node) ensures node in nodes {
        NothingMissed(fs, visited, matches, nodes, node);
      }
    }
    DepthIsNearest(pending, nodes);
    return Some(Found(nodes, truncated)), |visited|, scans;
  }

  lemma NothingYet(fs: FileSystem, matches: Path -> bool)
    ensures AllCovered(fs, [], Known([], [[]]), matches, [])
    ensures Once([], [[]], []) && ByDepth([[]], [])
  {
  }

  lemma DepthIsNearest(pending: seq<Path>, nodes: seq<Node>)
    requires ByDepth(pending, nodes)
    ensures NearestFirst(nodes)
  {
  }
}

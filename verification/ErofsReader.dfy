/**
 Walking an EROFS image. Directories wait in a queue, and each call returns the next entry of the directory at the
 front. Over an image that unrolls to a finite tree the calls return every entry of the tree exactly once, a directory
 before anything inside it, and then end.
 */
module ErofsReader {
  import opened Bytes
  import opened DirBlock
  import opened Wrappers

  type Path = seq<Bytes>

  datatype Entry = Entry(path: Path, inode: nat, fileType: FileType)

  /** The contents of directory inodes (None for other inodes) and which inodes are well formed. */
  datatype Image = Image(directory: nat -> Option<Bytes>, valid: nat -> bool) {
    function Listing(inode: nat): Option<seq<DirEntry>> {
      match directory(inode)
      case None => None
      case Some(data) => ParseDirectory(data)
    }
  }

  // ----- trees ------------------------------------------------------------

  datatype Node = Node(entry: DirEntry, children: seq<Node>)

  function Entries(nodes: seq<Node>): (entries: seq<DirEntry>)
    ensures |entries| == |nodes|
    ensures forall i :: 0 <= i < |nodes| ==> entries[i] == nodes[i].entry
  {
    if nodes == [] then [] else [nodes[0].entry] + Entries(nodes[1..])
  }

  /** The image, followed from these entries down, is this finite tree. */
  predicate Unrolls(image: Image, nodes: seq<Node>) {
    nodes == [] ||
    (&& image.valid(nodes[0].entry.inode)
     && (nodes[0].entry.fileType == Directory ==>
           image.Listing(nodes[0].entry.inode) == Some(Entries(nodes[0].children)) && Unrolls(image, nodes[0].children))
     && Unrolls(image, nodes[1..]))
  }

  /** An entry of a directory with the given path. */
  function EntryOf(path: Path, node: Node): Entry {
    Entry(path + [node.entry.fileName], node.entry.inode, node.entry.fileType)
  }

  /** Every entry below a directory, directories followed by what they hold. */
  function AllEntries(path: Path, nodes: seq<Node>): seq<Entry>
    decreases nodes
  {
    if nodes == [] then [] else
      [EntryOf(path, nodes[0])]
        + (if nodes[0].entry.fileType == Directory then AllEntries(EntryOf(path, nodes[0]).path, nodes[0].children) else [])
        + AllEntries(path, nodes[1..])
  }

  function Size(nodes: seq<Node>): nat {
    if nodes == [] then 0 else 1 + Size(nodes[0].children) + Size(nodes[1..])
  }

  /** A directory that waits for its turn. */
  datatype Pending = Pending(path: Path, nodes: seq<Node>)

  function QueueSize(queue: seq<Pending>): nat {
    if queue == [] then 0 else Size(queue[0].nodes) + QueueSize(queue[1..])
  }

  lemma {:induction false} QueueSizeAppend(queue: seq<Pending>, p: Pending)
    ensures QueueSize(queue + [p]) == QueueSize(queue) + Size(p.nodes)
  {
    if queue == [] {
      assert queue + [p] == [p];
      assert [p][1..] == [];
    } else {
      QueueSizeAppend(queue[1..], p);
      assert (queue + [p])[1..] == queue[1..] + [p];
    }
  }

  function Enqueue(queue: seq<Pending>, path: Path, node: Node): (q: seq<Pending>)
    ensures QueueSize(q) <= QueueSize(queue) + Size(node.children)
  {
    if node.entry.fileType == Directory then
      QueueSizeAppend(queue, Pending(EntryOf(path, node).path, node.children));
      queue + [Pending(EntryOf(path, node).path, node.children)]
    else queue
  }

  /** The rest of the walk: the entries left in the current directory, then the directories that wait. */
  function Walk(path: Path, nodes: seq<Node>, queue: seq<Pending>): seq<Entry>
    decreases Size(nodes) + QueueSize(queue), |queue|
  {
    if nodes != [] then
      [EntryOf(path, nodes[0])] + Walk(path, nodes[1..], Enqueue(queue, path, nodes[0]))
    else if queue != [] then
      Walk(queue[0].path, queue[0].nodes, queue[1..])
    else
      []
  }

  // ----- every entry exactly once -----------------------------------------

  function AllPending(queue: seq<Pending>): multiset<Entry> {
    if queue == [] then multiset{} else multiset(AllEntries(queue[0].path, queue[0].nodes)) + AllPending(queue[1..])
  }

  lemma {:induction false} AllPendingAppend(queue: seq<Pending>, p: Pending)
    ensures AllPending(queue + [p]) == AllPending(queue) + multiset(AllEntries(p.path, p.nodes))
  {
    hide AllEntries;
    if queue == [] {
      assert queue + [p] == [p];
      assert [p][1..] == [];
    } else {
      AllPendingAppend(queue[1..], p);
      assert (queue + [p])[1..] == queue[1..] + [p];
    }
  }

  lemma AllEntriesStep(path: Path, nodes: seq<Node>)
    requires nodes != []
    ensures multiset(AllEntries(path, nodes)) ==
            multiset{EntryOf(path, nodes[0])}
              + (if nodes[0].entry.fileType == Directory
                 then multiset(AllEntries(EntryOf(path, nodes[0]).path, nodes[0].children)) else multiset{})
              + multiset(AllEntries(path, nodes[1..]))
  {
  }

  /** The walk returns the same entries as the tree holds, each as often. */
  lemma {:induction false} WalkVisitsAll(path: Path, nodes: seq<Node>, queue: seq<Pending>)
    ensures multiset(Walk(path, nodes, queue)) == multiset(AllEntries(path, nodes)) + AllPending(queue)
    decreases Size(nodes) + QueueSize(queue), |queue|
  {
    hide AllEntries;
    if nodes != [] {
      AllEntriesStep(path, nodes);
      var e := EntryOf(path, nodes[0]);
      if nodes[0].entry.fileType == Directory {
        AllPendingAppend(queue, Pending(e.path, nodes[0].children));
      }
      var later := Walk(path, nodes[1..], Enqueue(queue, path, nodes[0]));
      WalkVisitsAll(path, nodes[1..], Enqueue(queue, path, nodes[0]));
      assert multiset([e] + later) == multiset{e} + multiset(later);
    } else if queue != [] {
      WalkVisitsAll(queue[0].path, queue[0].nodes, queue[1..]);
      NoEntries(path);
    } else {
      NoEntries(path);
    }
  }

  lemma NoEntries(path: Path)
    ensures AllEntries(path, []) == []
  {
  }

  // ----- a directory before its contents ----------------------------------

  /** The directory with this path has been returned, or it is the root. */
  ghost predicate Announced(seen: seq<Entry>, path: Path) {
    path == [] || exists i :: 0 <= i < |seen| && seen[i].path == path && seen[i].fileType == Directory
  }

  lemma AnnouncedLater(seen: seq<Entry>, more: seq<Entry>, path: Path)
    requires Announced(seen, path)
    ensures Announced(seen + more, path)
  {
    if i :| 0 <= i < |seen| && seen[i].path == path && seen[i].fileType == Directory {
      assert (seen + more)[i] == seen[i];
    }
  }

  ghost predicate AllAnnounced(seen: seq<Entry>, queue: seq<Pending>) {
    forall j :: 0 <= j < |queue| ==> Announced(seen, queue[j].path)
  }

  lemma EnqueueAnnounced(seen: seq<Entry>, path: Path, node: Node, queue: seq<Pending>)
    requires AllAnnounced(seen, queue)
    ensures AllAnnounced(seen + [EntryOf(path, node)], Enqueue(queue, path, node))
  {
    hide Announced, QueueSize;
    var e := EntryOf(path, node);
    var later := Enqueue(queue, path, node);
    forall j | 0 <= j < |later|
      ensures Announced(seen + [e], later[j].path)
    {
      if j < |queue| {
        AnnouncedLater(seen, [e], queue[j].path);
      } else {
        AnnouncedLast(seen, e);
      }
    }
  }

  lemma AnnouncedLast(seen: seq<Entry>, e: Entry)
    requires e.fileType == Directory
    ensures Announced(seen + [e], e.path)
  {
    assert (seen + [e])[|seen|] == e;
  }

  lemma WalkStep(path: Path, nodes: seq<Node>, queue: seq<Pending>)
    requires nodes != []
    ensures Walk(path, nodes, queue) == [EntryOf(path, nodes[0])] + Walk(path, nodes[1..], Enqueue(queue, path, nodes[0]))
  {
  }

  lemma WalkNext(path: Path, queue: seq<Pending>)
    requires queue != []
    ensures Walk(path, [], queue) == Walk(queue[0].path, queue[0].nodes, queue[1..])
  {
  }

  lemma WalkEnds(path: Path)
    ensures Walk(path, [], []) == []
  {
  }

  /** Whatever has been returned before, the parent of each entry of the walk is the root or is returned before it. */
  lemma {:induction false} ParentsComeFirst(seen: seq<Entry>, path: Path, nodes: seq<Node>, queue: seq<Pending>, i: nat)
    requires Announced(seen, path) && AllAnnounced(seen, queue)
    requires i < |Walk(path, nodes, queue)|
    ensures var walk := Walk(path, nodes, queue);
            && |walk[i].path| > 0
            && Announced(seen + walk[..i], walk[i].path[..|walk[i].path| - 1])
    decreases Size(nodes) + QueueSize(queue), |queue|
  {
    hide Walk, Announced, Enqueue;
    var walk := Walk(path, nodes, queue);
    if nodes != [] {
      WalkStep(path, nodes, queue);
      var e := EntryOf(path, nodes[0]);
      if i == 0 {
        assert e.path[..|e.path| - 1] == path;
        assert seen + walk[..0] == seen;
      } else {
        AnnouncedLater(seen, [e], path);
        EnqueueAnnounced(seen, path, nodes[0], queue);
        ParentsComeFirst(seen + [e], path, nodes[1..], Enqueue(queue, path, nodes[0]), i - 1);
        assert seen + walk[..i] == seen + [e] + walk[1..][..i - 1];
      }
    } else if queue != [] {
      WalkNext(path, queue);
      ParentsComeFirst(seen, queue[0].path, queue[0].nodes, queue[1..], i);
    } else {
      WalkEnds(path);
    }
  }

  /** The parent of each entry is the root or a directory returned earlier. */
  ghost predicate ParentsFirst(entries: seq<Entry>) {
    forall i :: 0 <= i < |entries| ==>
      |entries[i].path| > 0 && Announced(entries[..i], entries[i].path[..|entries[i].path| - 1])
  }

  lemma WholeWalkIsOrdered(tree: seq<Node>)
    ensures ParentsFirst(Walk([], tree, []))
  {
    hide Walk, Announced, QueueSize, Size;
    var walk := Walk([], tree, []);
    forall i | 0 <= i < |walk|
      ensures |walk[i].path| > 0 && Announced(walk[..i], walk[i].path[..|walk[i].path| - 1])
    {
      RootAnnounced();
      ParentsComeFirst([], [], tree, [], i);
      assert [] + walk[..i] == walk[..i];
    }
  }

  lemma RootAnnounced()
    ensures Announced([], [])
  {
  }

  // ----- level by level ---------------------------------------------------

  /** The directories among the entries of one directory. */
  function Dirs(path: Path, nodes: seq<Node>): (dirs: seq<Pending>)
    ensures QueueSize(dirs) <= Size(nodes) - |nodes|
  {
    if nodes == [] then [] else
      QueueSizeJoin(DirOf(path, nodes[0]), Dirs(path, nodes[1..]));
      DirOf(path, nodes[0]) + Dirs(path, nodes[1..])
  }

  lemma {:induction false} QueueSizeJoin(a: seq<Pending>, b: seq<Pending>)
    ensures QueueSize(a + b) == QueueSize(a) + QueueSize(b)
  {
    if a == [] {
      assert a + b == b;
    } else {
      QueueSizeJoin(a[1..], b);
      assert (a + b)[1..] == a[1..] + b;
    }
  }

  /** The entries of one directory, in the order in which it holds them. */
  function EntriesIn(path: Path, nodes: seq<Node>): seq<Entry> {
    if nodes == [] then [] else
      [Entry(path + [nodes[0].entry.fileName], nodes[0].entry.inode, nodes[0].entry.fileType)] + EntriesIn(path, nodes[1..])
  }

  /** The entries of directories that are on one level, and the directories on the next. */
  function LevelEntries(level: seq<Pending>): seq<Entry> {
    if level == [] then [] else EntriesIn(level[0].path, level[0].nodes) + LevelEntries(level[1..])
  }

  function NextLevel(level: seq<Pending>): (next: seq<Pending>)
    ensures QueueSize(next) <= QueueSize(level) - |LevelEntries(level)|
  {
    if level == [] then [] else
      var first := Dirs(level[0].path, level[0].nodes);
      QueueSizeJoin(first, NextLevel(level[1..]));
      OneEntryEach(level[0].path, level[0].nodes);
      first + NextLevel(level[1..])
  }

  lemma {:induction false} OneEntryEach(path: Path, nodes: seq<Node>)
    ensures |EntriesIn(path, nodes)| == |nodes|
  {
    if nodes != [] {
      OneEntryEach(path, nodes[1..]);
    }
  }

  /** A tree level by level, each from its first directory to its last. */
  function LevelOrder(level: seq<Pending>): seq<Entry>
    decreases QueueSize(level), |level|
  {
    if |LevelEntries(level)| == 0 then [] else LevelEntries(level) + LevelOrder(NextLevel(level))
  }

  /** What is left of a directory comes before the rest of its level, and that before what they hold. */
  lemma {:induction false} WalkFinishesLevel(path: Path, nodes: seq<Node>, level: seq<Pending>, next: seq<Pending>)
    ensures Walk(path, nodes, level + next) ==
            EntriesIn(path, nodes) + LevelEntries(level) + Walk([], [], next + Dirs(path, nodes) + NextLevel(level))
    decreases Size(nodes) + QueueSize(level), |level|
  {
    hide Walk, QueueSize, Dirs, NextLevel, EntriesIn, LevelEntries, Enqueue, Size;
    DirectoryStep(path, nodes);
    LevelStep(level);
    if nodes != [] {
      WalkStep(path, nodes, level + next);
      SizeStep(nodes);
      var dirs := DirOf(path, nodes[0]);
      EnqueueIsJoin(level + next, path, nodes[0]);
      assert level + next + dirs == level + (next + dirs);
      WalkFinishesLevel(path, nodes[1..], level, next + dirs);
      assert next + dirs + Dirs(path, nodes[1..]) == next + Dirs(path, nodes);
      Regrouped([EntryOf(path, nodes[0])], EntriesIn(path, nodes[1..]), LevelEntries(level));
    } else if level != [] {
      WalkNext(path, level + next);
      assert (level + next)[1..] == level[1..] + next;
      WalkFinishesLevel(level[0].path, level[0].nodes, level[1..], next);
      assert next + Dirs(level[0].path, level[0].nodes) + NextLevel(level[1..]) == next + Dirs(path, []) + NextLevel(level);
    } else {
      assert level + next == next && next + Dirs(path, []) + NextLevel([]) == next;
      PathDoesNotMatter(path, next);
    }
  }

  lemma Regrouped(a: seq<Entry>, b: seq<Entry>, c: seq<Entry>)
    ensures a + b + c == a + (b + c)
  {
  }

  /** The directory that an entry is, if it is one. */
  function DirOf(path: Path, node: Node): (dirs: seq<Pending>)
    ensures QueueSize(dirs) <= Size(node.children)
  {
    if node.entry.fileType == Directory then [Pending(path + [node.entry.fileName], node.children)] else []
  }

  lemma EnqueueIsJoin(queue: seq<Pending>, path: Path, node: Node)
    ensures Enqueue(queue, path, node) == queue + DirOf(path, node)
  {
  }

  lemma SizeStep(nodes: seq<Node>)
    requires nodes != []
    ensures Size(nodes) > Size(nodes[1..])
  {
  }

  lemma DirectoryStep(path: Path, nodes: seq<Node>)
    ensures nodes == [] ==> Dirs(path, nodes) == [] && EntriesIn(path, nodes) == []
    ensures nodes != [] ==>
              && Dirs(path, nodes) == DirOf(path, nodes[0]) + Dirs(path, nodes[1..])
              && EntriesIn(path, nodes) == [EntryOf(path, nodes[0])] + EntriesIn(path, nodes[1..])
  {
  }

  lemma LevelStep(level: seq<Pending>)
    ensures level == [] ==> NextLevel(level) == [] && LevelEntries(level) == []
    ensures level != [] ==>
              && NextLevel(level) == Dirs(level[0].path, level[0].nodes) + NextLevel(level[1..])
              && LevelEntries(level) == EntriesIn(level[0].path, level[0].nodes) + LevelEntries(level[1..])
              && QueueSize(level) == Size(level[0].nodes) + QueueSize(level[1..])
  {
  }

  /** Directories without entries hold no directories. */
  lemma {:induction false} EmptyLevel(level: seq<Pending>)
    requires LevelEntries(level) == []
    ensures NextLevel(level) == []
  {
    if level != [] {
      OneEntryEach(level[0].path, level[0].nodes);
      EmptyLevel(level[1..]);
    }
  }

  lemma PathDoesNotMatter(path: Path, queue: seq<Pending>)
    ensures Walk(path, [], queue) == Walk([], [], queue)
  {
  }

  lemma LevelOrderStep(level: seq<Pending>)
    ensures |LevelEntries(level)| == 0 ==> LevelOrder(level) == []
    ensures |LevelEntries(level)| > 0 ==>
              LevelOrder(level) == LevelEntries(level) + LevelOrder(NextLevel(level)) && QueueSize(NextLevel(level)) < QueueSize(level)
  {
  }

  /** The walk goes through the tree level by level. */
  lemma {:induction false} WalkIsLevelOrder(level: seq<Pending>)
    ensures Walk([], [], level) == LevelOrder(level)
    decreases QueueSize(level), |level|
  {
    hide Walk, LevelEntries, NextLevel, Dirs, EntriesIn, QueueSize, LevelOrder;
    WalkFinishesLevel([], [], level, []);
    DirectoryStep([], []);
    assert level + [] == level && [] + [] + NextLevel(level) == NextLevel(level);
    assert [] + LevelEntries(level) == LevelEntries(level);
    LevelOrderStep(level);
    if |LevelEntries(level)| > 0 {
      WalkIsLevelOrder(NextLevel(level));
    } else {
      EmptyLevel(level);
      WalkEnds([]);
    }
  }

  // ----- no path twice ----------------------------------------------------

  /** No directory holds two entries of one name. */
  ghost predicate DistinctNames(nodes: seq<Node>) {
    nodes == [] ||
    (&& (forall i :: 0 <= i < |nodes[1..]| ==> nodes[1..][i].entry.fileName != nodes[0].entry.fileName)
     && (nodes[0].entry.fileType == Directory ==> DistinctNames(nodes[0].children))
     && DistinctNames(nodes[1..]))
  }

  ghost predicate DistinctPaths(entries: seq<Entry>) {
    forall i, j :: 0 <= i < j < |entries| ==> entries[i].path != entries[j].path
  }

  /** The path goes through an entry of this directory. */
  ghost predicate Through(path: Path, nodes: seq<Node>, p: Path) {
    |p| > |path| && p[..|path|] == path && exists j :: 0 <= j < |nodes| && nodes[j].entry.fileName == p[|path|]
  }

  function Below(path: Path, node: Node): seq<Entry> {
    [EntryOf(path, node)]
      + (if node.entry.fileType == Directory then AllEntries(EntryOf(path, node).path, node.children) else [])
  }

  lemma AllEntriesSplit(path: Path, nodes: seq<Node>)
    requires nodes != []
    ensures AllEntries(path, nodes) == Below(path, nodes[0]) + AllEntries(path, nodes[1..])
  {
  }

  lemma {:induction false} PathsGoThrough(path: Path, nodes: seq<Node>)
    ensures forall i :: 0 <= i < |AllEntries(path, nodes)| ==> Through(path, nodes, AllEntries(path, nodes)[i].path)
    decreases nodes
  {
    hide AllEntries;
    if nodes == [] {
      NoEntries(path);
      return;
    }
    var all := AllEntries(path, nodes);
    var here := Below(path, nodes[0]);
    AllEntriesSplit(path, nodes);
    PathsGoThrough(path, nodes[1..]);
    BelowGoesThrough(path, nodes[0]);
    forall i | 0 <= i < |all|
      ensures Through(path, nodes, all[i].path)
    {
      if i < |here| {
        assert all[i] == here[i];
        assert nodes[0].entry.fileName == all[i].path[|path|];
      } else {
        assert all[i] == AllEntries(path, nodes[1..])[i - |here|];
        var j :| 0 <= j < |nodes[1..]| && nodes[1..][j].entry.fileName == all[i].path[|path|];
        assert nodes[j + 1] == nodes[1..][j];
      }
    }
  }

  lemma {:induction false} BelowGoesThrough(path: Path, node: Node)
    ensures forall e <- Below(path, node) ::
              |e.path| > |path| && e.path[..|path|] == path && e.path[|path|] == node.entry.fileName
    decreases node, 0
  {
    hide AllEntries;
    var here := EntryOf(path, node).path;
    if node.entry.fileType == Directory {
      PathsGoThrough(here, node.children);
      var inside := AllEntries(here, node.children);
      forall e | e in inside
        ensures |e.path| > |path| && e.path[..|path|] == path && e.path[|path|] == node.entry.fileName
      {
        var i :| 0 <= i < |inside| && inside[i] == e;
        assert e.path[..|path|] == e.path[..|here|][..|path|];
        assert e.path[|path|] == e.path[..|here|][|path|];
      }
    }
  }

  /** Names that are distinct in each directory make distinct paths in the tree. */
  lemma {:induction false} TreePathsAreDistinct(path: Path, nodes: seq<Node>)
    requires DistinctNames(nodes)
    ensures DistinctPaths(AllEntries(path, nodes))
    decreases nodes
  {
    hide AllEntries;
    if nodes == [] {
      NoEntries(path);
      return;
    }
    var node := nodes[0];
    var here := EntryOf(path, node).path;
    var first := Below(path, node);
    var rest := AllEntries(path, nodes[1..]);
    AllEntriesSplit(path, nodes);
    TreePathsAreDistinct(path, nodes[1..]);
    if node.entry.fileType == Directory {
      TreePathsAreDistinct(here, node.children);
      PathsGoThrough(here, node.children);
    }
    assert DistinctPaths(first);
    BelowGoesThrough(path, node);
    PathsGoThrough(path, nodes[1..]);
    forall i, j | 0 <= i < |first| && 0 <= j < |rest|
      ensures first[i].path != rest[j].path
    {
      assert first[i] in first;
      assert Through(path, nodes[1..], rest[j].path);
      assert rest[j].path[|path|] != node.entry.fileName;
    }
    DistinctJoin(first, rest);
  }

  lemma DistinctJoin(a: seq<Entry>, b: seq<Entry>)
    requires DistinctPaths(a) && DistinctPaths(b)
    requires forall i, j :: 0 <= i < |a| && 0 <= j < |b| ==> a[i].path != b[j].path
    ensures DistinctPaths(a + b)
  {
  }

  lemma {:induction false} DistinctCount(entries: seq<Entry>, e: Entry)
    requires DistinctPaths(entries)
    ensures multiset(entries)[e] <= 1
    ensures multiset(entries)[e] == 1 ==> e in entries
  {
    if entries != [] {
      var before := entries[..|entries| - 1];
      assert entries == before + [entries[|entries| - 1]];
      DistinctCount(before, e);
    }
  }

  lemma CountTwice(entries: seq<Entry>, i: nat, j: nat)
    requires i < j < |entries| && entries[i] == entries[j]
    ensures multiset(entries)[entries[i]] >= 2
  {
    assert entries == entries[..j] + entries[j..];
    assert entries[..j][i] == entries[i] && entries[j..][0] == entries[j];
    assert multiset(entries) == multiset(entries[..j]) + multiset(entries[j..]);
  }

  lemma DistinctPermutation(a: seq<Entry>, b: seq<Entry>)
    requires DistinctPaths(a) && multiset(a) == multiset(b)
    ensures DistinctPaths(b)
  {
    forall i, j | 0 <= i < j < |b|
      ensures b[i].path != b[j].path
    {
      assert b[i] in multiset(a) && b[j] in multiset(a);
      if b[i] == b[j] {
        DistinctCount(a, b[i]);
        CountTwice(b, i, j);
      } else {
        var k :| 0 <= k < |a| && a[k] == b[i];
        var l :| 0 <= l < |a| && a[l] == b[j];
        assert k < l || l < k;
      }
    }
  }

  /** A walk of a whole tree: everything once, parents first. */
  lemma WholeWalk(tree: seq<Node>)
    ensures multiset(Walk([], tree, [])) == multiset(AllEntries([], tree))
    ensures ParentsFirst(Walk([], tree, []))
    ensures Walk([], tree, []) == LevelOrder([Pending([], tree)])
    ensures DistinctNames(tree) ==> DistinctPaths(Walk([], tree, []))
  {
    hide LevelOrder, Walk, AllEntries, ParentsFirst, DistinctPaths, DistinctNames, QueueSize, Size;
    WalkVisitsAll([], tree, []);
    assert AllPending([]) == multiset{};
    WalkNext([], [Pending([], tree)]);
    assert [Pending([], tree)][1..] == [];
    WalkIsLevelOrder([Pending([], tree)]);
    WholeWalkIsOrdered(tree);
    if DistinctNames(tree) {
      TreePathsAreDistinct([], tree);
      DistinctPermutation(AllEntries([], tree), Walk([], tree, []));
    }
  }

  // ----- the reader -------------------------------------------------------

  datatype Waiting = Waiting(path: Path, inode: nat)

  /** The queued directories are those of the tree. */
  ghost predicate Aligned(image: Image, waiting: seq<Waiting>, pending: seq<Pending>) {
    && |waiting| == |pending|
    && forall j :: 0 <= j < |waiting| ==>
         && waiting[j].path == pending[j].path
         && image.Listing(waiting[j].inode) == Some(Entries(pending[j].nodes))
         && Unrolls(image, pending[j].nodes)
  }

  /** What is left of the current directory and of the queue is what is left of the tree. */
  ghost predicate Tracks(image: Image, entries: seq<DirEntry>, nodes: seq<Node>, waiting: seq<Waiting>,
                         pending: seq<Pending>) {
    && Entries(nodes) == entries
    && Unrolls(image, nodes)
    && Aligned(image, waiting, pending)
  }

  function Joined(waiting: seq<Waiting>, path: Path, entry: DirEntry): seq<Waiting> {
    if entry.fileType == Directory then waiting + [Waiting(path + [entry.fileName], entry.inode)] else waiting
  }

  lemma TrackStep(image: Image, path: Path, entries: seq<DirEntry>, nodes: seq<Node>, waiting: seq<Waiting>,
                  pending: seq<Pending>)
    requires Tracks(image, entries, nodes, waiting, pending) && entries != []
    ensures nodes != [] && nodes[0].entry == entries[0] && image.valid(entries[0].inode)
    ensures Tracks(image, entries[1..], nodes[1..], Joined(waiting, path, entries[0]), Enqueue(pending, path, nodes[0]))
    ensures Walk(path, nodes, pending) == [EntryOf(path, nodes[0])] + Walk(path, nodes[1..], Enqueue(pending, path, nodes[0]))
  {
    hide Walk, QueueSize, Size;
    WalkStep(path, nodes, pending);
  }

  lemma TrackNext(image: Image, path: Path, waiting: seq<Waiting>, pending: seq<Pending>)
    requires Aligned(image, waiting, pending) && waiting != []
    ensures pending != [] && waiting[0].path == pending[0].path
    ensures image.Listing(waiting[0].inode) == Some(Entries(pending[0].nodes))
    ensures Tracks(image, Entries(pending[0].nodes), pending[0].nodes, waiting[1..], pending[1..])
    ensures Walk(path, [], pending) == Walk(waiting[0].path, pending[0].nodes, pending[1..])
    ensures Entries(pending[0].nodes) == [] ==>
              Aligned(image, waiting[1..], pending[1..]) && Walk(path, [], pending) == Walk(path, [], pending[1..])
  {
    hide Walk, QueueSize, Size;
    WalkNext(path, pending);
    if pending[0].nodes == [] {
      SamePathForNothing(pending[0].path, path, pending[1..]);
    }
  }

  lemma SamePathForNothing(a: Path, b: Path, queue: seq<Pending>)
    ensures Walk(a, [], queue) == Walk(b, [], queue)
  {
  }

  /** Every directory that waits has been returned, or it is the root. */
  ghost predicate AllReturned(returned: seq<Entry>, waiting: seq<Waiting>) {
    forall j :: 0 <= j < |waiting| ==> Announced(returned, waiting[j].path)
  }

  lemma FewerWait(returned: seq<Entry>, waiting: seq<Waiting>)
    requires AllReturned(returned, waiting) && waiting != []
    ensures AllReturned(returned, waiting[1..])
  {
    hide Announced;
  }

  /** One more entry of the directory at the front is returned, and joins those that wait when it is a directory. */
  lemma ReturnedStep(returned: seq<Entry>, waiting: seq<Waiting>, path: Path, dirEntry: DirEntry, entry: Entry)
    requires ParentsFirst(returned) && AllReturned(returned, waiting) && waiting != [] && waiting[0].path == path
    requires entry == Entry(path + [dirEntry.fileName], dirEntry.inode, dirEntry.fileType)
    ensures ParentsFirst(returned + [entry]) && AllReturned(returned + [entry], Joined(waiting, path, dirEntry))
  {
    hide Announced;
    var all, joined := returned + [entry], Joined(waiting, path, dirEntry);
    forall i | 0 <= i < |all|
      ensures |all[i].path| > 0 && Announced(all[..i], all[i].path[..|all[i].path| - 1])
    {
      if i < |returned| {
        assert all[..i] == returned[..i];
      } else {
        assert all[..i] == returned && entry.path[..|path|] == path;
      }
    }
    forall j | 0 <= j < |joined|
      ensures Announced(all, joined[j].path)
    {
      if j < |waiting| {
        AnnouncedLater(returned, [entry], waiting[j].path);
      } else {
        AnnouncedLast(returned, entry);
      }
    }
  }

  class ErofsReader {
    const image: Image

    var error: bool

    /** The front of the queue is the directory being read. */
    var dirStack: seq<Waiting>

    var currentDir: seq<DirEntry>

    var currentDirIndex: nat

    /** What the calls so far have returned. */
    ghost var returned: seq<Entry>

    /** Set when the image is known to unroll to a finite tree, of which the next two fields are the parts still to come. */
    ghost var tracked: bool

    ghost var remaining: seq<Node>

    ghost var queue: seq<Pending>

    constructor (image: Image, rootInode: nat, ghost tree: Option<seq<Node>>)
      requires tree.Some? ==> image.Listing(rootInode) == Some(Entries(tree.value)) && Unrolls(image, tree.value)
      ensures Valid() && this.image == image && returned == []
      ensures error == image.Listing(rootInode).None?
      ensures tracked == tree.Some?
      ensures tree.Some? ==> !error && Rest() == Walk([], tree.value, [])
    {
      this.image := image;
      dirStack, currentDir, currentDirIndex, error := [], [], 0, false;
      tracked, remaining, queue, returned := tree.Some?, [], [], [];
      new;
      var entries := ReadDirectory(rootInode);
      if entries.None? {
        error := true;
        return;
      }
      currentDir := entries.value;
      if currentDir != [] {
        dirStack := [Waiting([], rootInode)];
        if tracked {
          remaining := tree.value;
        }
        assert currentDir[0..] == currentDir;
      }
    }

    /**
     Whatever the image, directories have been returned before what they hold, and, unless there was an error, those
     that wait have been returned and the current index is inside the listing of the directory at the front.
     */
    ghost predicate Valid()
      reads this
    {
      && ParentsFirst(returned)
      && (!error ==> AllReturned(returned, dirStack))
      && (!error && dirStack != [] ==> InsideListing())
      && (tracked ==> !error)
      && (tracked && dirStack != [] ==> Tracks(image, currentDir[currentDirIndex..], remaining, dirStack[1..], queue))
    }

    ghost predicate InsideListing()
      reads this
    {
      dirStack != [] && currentDirIndex < |currentDir| && image.Listing(dirStack[0].inode) == Some(currentDir)
    }

    /** The entries still to be returned. */
    ghost function Rest(): seq<Entry>
      reads this
    {
      if dirStack == [] then [] else Walk(dirStack[0].path, remaining, queue)
    }

    predicate HasNext()
      reads this
    {
      !error && dirStack != []
    }

    method ReadDirectory(inode: nat) returns (r: Option<seq<DirEntry>>)
      ensures r == image.Listing(inode)
    {
      match image.directory(inode)
      case None => r := None;
      case Some(data) => r := ReadDirectoryBlocks(data);
    }

    /** Returns the current entry and moves to the next. On any image a directory comes before anything inside it. */
    method Next() returns (r: Option<Entry>)
      requires Valid()
      modifies this
      ensures Valid() && tracked == old(tracked)
      ensures returned == old(returned) + (if r.Some? then [r.value] else []) && ParentsFirst(returned)
      ensures old(dirStack) == [] || old(error) ==> r == None
      ensures r.Some? ==>
                var entry := old(currentDir[currentDirIndex]);
                && !error
                && image.valid(entry.inode)
                && r.value == Entry(old(dirStack[0].path) + [entry.fileName], entry.inode, entry.fileType)
      ensures old(HasNext()) && r.None? ==> error
      ensures tracked && old(HasNext()) ==>
                && |old(Rest())| > 0
                && r == Some(old(Rest())[0])
                && Rest() == old(Rest())[1..]
    {
      hide Walk, Enqueue, Aligned, Tracks, Unrolls, Entries, ParentsFirst, AllReturned, Joined;
      if dirStack == [] {
        return None;
      }
      if error {
        return None;
      }
      var entry := Advance();
      if !image.valid(entry.inode) {
        error := true;
        return None;
      }
      returned := returned + [entry];

      if currentDirIndex >= |currentDir| {
        ghost var path := dirStack[0].path;
        NothingLeft();
        FewerWait(returned, dirStack);
        currentDir, currentDirIndex := [], 0;
        dirStack := dirStack[1..];
        var found := FindNonEmpty(path);
        if !found {
          returned := old(returned);
          return None;
        }
      }
      r := Some(entry);
    }

    /** Takes the current entry; a directory joins the queue. */
    method Advance() returns (entry: Entry)
      requires Valid() && HasNext()
      modifies this`dirStack, this`currentDirIndex, this`remaining, this`queue
      ensures currentDirIndex == old(currentDirIndex) + 1 <= |currentDir|
      ensures dirStack != [] && dirStack[0] == old(dirStack[0]) && image.Listing(dirStack[0].inode) == Some(currentDir)
      ensures var current := old(currentDir[currentDirIndex]);
              && entry == Entry(old(dirStack[0].path) + [current.fileName], current.inode, current.fileType)
              && dirStack == Joined(old(dirStack), old(dirStack[0].path), current)
      ensures ParentsFirst(returned) && ParentsFirst(returned + [entry]) && AllReturned(returned + [entry], dirStack)
      ensures tracked ==>
                && image.valid(entry.inode)
                && Tracks(image, currentDir[currentDirIndex..], remaining, dirStack[1..], queue)
                && old(Rest()) == [entry] + Walk(dirStack[0].path, remaining, queue)
    {
      hide Walk, Enqueue, Aligned, Tracks, Unrolls, Entries, ParentsFirst, AllReturned;
      var dirEntry := currentDir[currentDirIndex];
      currentDirIndex := currentDirIndex + 1;
      var currentPath := dirStack[0].path + [dirEntry.fileName];
      if dirEntry.fileType == Directory {
        dirStack := dirStack + [Waiting(currentPath, dirEntry.inode)];
      }
      entry := Entry(currentPath, dirEntry.inode, dirEntry.fileType);
      ghost var path := dirStack[0].path;
      ReturnedStep(returned, old(dirStack), path, dirEntry, entry);
      ghost var entries := old(currentDir[currentDirIndex..]);
      assert entries[0] == dirEntry && entries[1..] == currentDir[currentDirIndex..];
      assert dirStack[1..] == Joined(old(dirStack)[1..], path, dirEntry);
      if tracked {
        TrackStep(image, path, entries, remaining, old(dirStack)[1..], queue);
        remaining, queue := remaining[1..], Enqueue(queue, path, remaining[0]);
      }
    }

    lemma NothingLeft()
      requires dirStack != [] && currentDirIndex == |currentDir|
      ensures Tracks(image, currentDir[currentDirIndex..], remaining, dirStack[1..], queue) ==>
                remaining == [] && Aligned(image, dirStack[1..], queue)
    {
    }

    /** Goes on to the next directory in the queue that has entries; false when one cannot be read. */
    method FindNonEmpty(ghost path: Path) returns (ok: bool)
      requires !error && currentDirIndex == 0
      requires ParentsFirst(returned) && AllReturned(returned, dirStack)
      requires tracked ==> Aligned(image, dirStack, queue) && remaining == []
      modifies this`error, this`dirStack, this`currentDir, this`queue, this`remaining
      ensures ok == !error
      ensures Valid()
      ensures tracked ==> ok && Rest() == Walk(path, [], old(queue))
    {
      hide Walk, Aligned, Tracks, Unrolls, Entries, ParentsFirst, AllReturned;
      ghost var target := Walk(path, [], queue);
      while dirStack != []
        invariant !error && currentDirIndex == 0 && AllReturned(returned, dirStack)
        invariant tracked ==> Aligned(image, dirStack, queue) && remaining == [] && target == Walk(path, [], queue)
        decreases |dirStack|
      {
        var dirEntries := ReadDirectory(dirStack[0].inode);
        if dirEntries.None? {
          if tracked {
            TrackNext(image, path, dirStack, queue);
          }
          error := true;
          return false;
        }
        if tracked {
          TrackNext(image, path, dirStack, queue);
        }
        if dirEntries.value == [] {
          FewerWait(returned, dirStack);
          dirStack := dirStack[1..];
          if tracked {
            queue := queue[1..];
          }
        } else {
          currentDir := dirEntries.value;
          if tracked {
            remaining, queue := queue[0].nodes, queue[1..];
          }
          assert currentDir[0..] == currentDir;
          return true;
        }
      }
      if tracked {
        NothingQueued(path);
      }
      ok := true;
    }

    lemma NothingQueued(path: Path)
      requires dirStack == [] && Aligned(image, dirStack, queue)
      ensures Walk(path, [], queue) == []
    {
    }
  }

  lemma Regroup(a: seq<Entry>, b: seq<Entry>)
    requires b != []
    ensures a + b == (a + [b[0]]) + b[1..]
  {
  }

  /** A client's loop: on a finite tree it sees the whole walk and comes to an end without error. */
  method ListImage(image: Image, rootInode: nat, ghost tree: seq<Node>) returns (entries: seq<Entry>)
    requires image.Listing(rootInode) == Some(Entries(tree)) && Unrolls(image, tree)
    ensures entries == LevelOrder([Pending([], tree)])
    ensures multiset(entries) == multiset(AllEntries([], tree))
    ensures ParentsFirst(entries)
    ensures DistinctNames(tree) ==> DistinctPaths(entries)
  {
    hide LevelOrder, Walk, ParentsFirst, DistinctPaths, DistinctNames, AllEntries, Unrolls, Entries, Enqueue;
    var reader := new ErofsReader(image, rootInode, Some(tree));
    ghost var walk := Walk([], tree, []);
    entries := [];
    while reader.HasNext()
      invariant fresh(reader) && reader.Valid() && reader.tracked
      invariant walk == entries + reader.Rest()
      decreases |reader.Rest()|
    {
      ghost var rest := reader.Rest();
      var next := reader.Next();
      Regroup(entries, rest);
      entries := entries + [next.value];
    }
    WholeWalk(tree);
  }
}

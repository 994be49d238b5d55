/**
 Reading a package archive. Entries queue up behind directories that have not been handed out yet, and every
 header is checked against the symlinks before it and against the signed digests. The reader hands out, one at
 a time, the items of a list that is defined directly from the headers, and what is promised about the order and
 about the signed set is proved of that list.
 */
module ArchiveReader {
  import opened ArchiveEntries
  import opened Bytes
  import opened Wrappers

  type Name = string

  type Path = seq<Name>

  const MAX_DIRECTORY_COUNT: nat := 8192

  const MAX_SYMLINK_COUNT: nat := 8192

  /** The components of a normalised path: "." stands alone, and only the last component may be empty. */
  predicate IsNormal(path: Path) {
    path == ["."] ||
    forall i :: 0 <= i < |path| ==> path[i] != "." && (path[i] == "" ==> 0 < i == |path| - 1)
  }

  type NormalPath = path: Path | IsNormal(path) witness []

  datatype Kind = DirectoryKind | RegularKind | SymlinkKind | OtherKind

  /** A header as the archive library delivers it, with its path normalised; the path may be missing. */
  datatype Header = Header(path: Option<NormalPath>, absolute: bool, kind: Kind, size: int, target: Option<string>)

  /** What asking for the next header can give; the end of the archive is the end of the sequence of events. */
  datatype Event = NextHeader(header: Header) | BadHeader

  datatype PackageEntry =
    | DirectoryEntry(path: Path)
    | SymlinkEntry(path: Path, target: string)
    | FileEntry(path: Path, size: nat, digest: Option<Bytes>, index: nat)

  /** An entry together with the number of the header that brought it. */
  datatype Item = Item(entry: PackageEntry, header: nat)

  /** The signed digests, when the package has them, and the digest of a symlink's target. */
  datatype Policy = Policy(digests: Option<map<Path, Bytes>>, digest: string -> Bytes)

  /** What the reader remembers between headers. */
  datatype State = State(directories: set<Path>, count: nat, symlinks: seq<Path>, verified: nat)

  const INITIAL: State := State({}, 0, [], 0)

  // ----- the list of items ------------------------------------------------

  function Names(path: Path): (names: Path)
    ensures names <= path
  {
    if path == ["."] then []
    else if path != [] && path[|path| - 1] == "" then path[..|path| - 1]
    else path
  }

  /** The prefixes of a path up to a length that are not known directories, shortest first. */
  function NewDirectories(known: set<Path>, names: Path, n: nat): seq<Path>
    requires n <= |names|
  {
    if n == 0 then []
    else NewDirectories(known, names, n - 1) + (if names[..n] in known then [] else [names[..n]])
  }

  /** They are unknown, each longer than the one before, and none is left out. */
  lemma {:induction false} NewDirectoriesAre(known: set<Path>, names: Path, n: nat)
    requires n <= |names|
    ensures var dirs := NewDirectories(known, names, n);
            && |dirs| <= n
            && (forall i :: 0 <= i < |dirs| ==> dirs[i] !in known && 0 < |dirs[i]| <= n && dirs[i] <= names)
            && (forall i, j :: 0 <= i < j < |dirs| ==> |dirs[i]| < |dirs[j]|)
            && (forall k :: 0 < k <= n ==> names[..k] in known || names[..k] in dirs)
  {
    if n > 0 {
      NewDirectoriesAre(known, names, n - 1);
      var before := NewDirectories(known, names, n - 1);
      var last := if names[..n] in known then [] else [names[..n]];
      var dirs := before + last;
      assert dirs == NewDirectories(known, names, n);
      assert forall i :: 0 <= i < |before| ==> dirs[i] == before[i];
      assert forall d :: d in dirs <==> d in before || d in last;
    }
  }

  function Missing(known: set<Path>, path: Path): seq<Path> {
    NewDirectories(known, Names(path), |Names(path)|)
  }

  /** How many more directories may be handed out. */
  function Room(count: nat): nat {
    if count <= MAX_DIRECTORY_COUNT then MAX_DIRECTORY_COUNT + 1 - count else 0
  }

  function DirectoryItems(paths: seq<Path>, header: nat): (items: seq<Item>)
    ensures |items| == |paths|
    ensures forall i :: 0 <= i < |paths| ==> items[i] == Item(DirectoryEntry(paths[i]), header)
  {
    seq(|paths|, i requires 0 <= i < |paths| => Item(DirectoryEntry(paths[i]), header))
  }

  predicate Within(symlinks: seq<Path>, path: Path) {
    exists k :: 0 <= k < |symlinks| && symlinks[k] <= path
  }

  predicate PathAccepted(state: State, h: Header) {
    && h.path.Some?
    && h.path.value != [] && !h.absolute && ".." !in h.path.value
    && !Within(state.symlinks, h.path.value)
  }

  /** The entry for a file or symlink header, when the header is acceptable. */
  function MakeEntry(policy: Policy, h: Header, path: Path, index: nat): Option<PackageEntry> {
    if (h.kind == RegularKind || h.kind == SymlinkKind) && policy.digests.Some? && path !in policy.digests.value then None
    else
      var digest := if policy.digests.Some? && path in policy.digests.value then Some(policy.digests.value[path]) else None;
      match h.kind
      case SymlinkKind =>
        if h.target.None? || h.target.value == "" then None
        else if digest.Some? && digest.value != policy.digest(h.target.value) then None
        else Some(SymlinkEntry(path, h.target.value))
      case RegularKind =>
        if h.size > MAX_ENTRY_SIZE then None
        else Some(FileEntry(path, if h.size < 0 then 0 else h.size, digest, index))
      case OtherKind => None
      case DirectoryKind => None
  }

  /** The directories that a header asks for: its own path, or that of its parent. */
  function Wanted(h: Header): Path
    requires h.path.Some? && h.path.value != []
  {
    if h.kind == DirectoryKind then h.path.value else h.path.value[..|h.path.value| - 1]
  }

  /** Whether a header lets the reader go on, ... */
  predicate HeaderAccepted(policy: Policy, state: State, h: Header, index: nat) {
    && PathAccepted(state, h)
    && |Missing(state.directories, Wanted(h))| <= Room(state.count)
    && (h.kind != DirectoryKind ==>
          && h.path.value[|h.path.value| - 1] != ""
          && (h.kind == SymlinkKind ==> |state.symlinks| < MAX_SYMLINK_COUNT)
          && MakeEntry(policy, h, h.path.value, index).Some?)
  }

  /** ... the items it brings when it does, ... */
  function HeaderItems(policy: Policy, state: State, h: Header, index: nat): seq<Item>
    requires HeaderAccepted(policy, state, h, index)
  {
    DirectoryItems(Missing(state.directories, Wanted(h)), index)
      + (if h.kind == DirectoryKind then []
         else [Item(MakeEntry(policy, h, h.path.value, index).value, index)])
  }

  /** ... the item that still comes out when it does not, ... */
  function LastItems(state: State, h: Header, index: nat): seq<Item> {
    if PathAccepted(state, h) && h.kind == DirectoryKind && Missing(state.directories, h.path.value) != [] && Room(state.count) > 0
    then [Item(DirectoryEntry(Missing(state.directories, h.path.value)[0]), index)]
    else []
  }

  /** ... and what the reader remembers afterwards. */
  function After(policy: Policy, state: State, h: Header, index: nat): State
    requires HeaderAccepted(policy, state, h, index)
  {
    var dirs := Missing(state.directories, Wanted(h));
    State(state.directories + (set d | d in dirs),
          state.count + |dirs|,
          state.symlinks + (if h.kind == SymlinkKind then [h.path.value] else []),
          state.verified + (if h.kind != DirectoryKind && policy.digests.Some? then 1 else 0))
  }

  /** All items the headers bring, up to the first unacceptable one. */
  function Listing(policy: Policy, state: State, events: seq<Event>, index: nat): seq<Item>
    decreases |events|
  {
    if events == [] || events[0].BadHeader? then []
    else
      var h := events[0].header;
      if HeaderAccepted(policy, state, h, index) then
        HeaderItems(policy, state, h, index) + Listing(policy, After(policy, state, h, index), events[1..], index + 1)
      else
        LastItems(state, h, index)
  }

  /** Whether the whole archive is acceptable. */
  predicate Clean(policy: Policy, state: State, events: seq<Event>, index: nat)
    decreases |events|
  {
    if events == [] then policy.digests.Some? ==> |policy.digests.value| == state.verified
    else
      && events[0].NextHeader?
      && HeaderAccepted(policy, state, events[0].header, index)
      && Clean(policy, After(policy, state, events[0].header, index), events[1..], index + 1)
  }

  // ----- what one header brings -------------------------------------------

  /** The items one header brings, whether or not it is accepted. */
  function Brought(policy: Policy, state: State, h: Header, index: nat): seq<Item> {
    if HeaderAccepted(policy, state, h, index) then HeaderItems(policy, state, h, index) else LastItems(state, h, index)
  }

  /** The directory is known, or is among the items. */
  ghost predicate Announced(known: set<Path>, items: seq<Item>, path: Path) {
    path in known || exists j :: 0 <= j < |items| && items[j].entry == DirectoryEntry(path)
  }

  /** Every directory above an item is known or comes earlier. */
  ghost predicate ParentsFirst(known: set<Path>, items: seq<Item>) {
    forall i, k :: 0 <= i < |items| && 0 < k < |items[i].entry.path| ==>
      Announced(known, items[..i], items[i].entry.path[..k])
  }

  ghost predicate NoDirectoryTwice(known: set<Path>, items: seq<Item>) {
    && (forall i :: 0 <= i < |items| && items[i].entry.DirectoryEntry? ==> items[i].entry.path !in known)
    && (forall i, j :: 0 <= i < j < |items| && items[i].entry.DirectoryEntry? ==> items[i].entry != items[j].entry)
  }

  /** No item lies at or below a symlink of an earlier header. */
  ghost predicate OutsideSymlinks(symlinks: seq<Path>, items: seq<Item>) {
    && (forall i :: 0 <= i < |items| ==> !Within(symlinks, items[i].entry.path))
    && (forall i, j :: 0 <= i < |items| && 0 <= j < |items| && items[i].entry.SymlinkEntry? && items[i].header < items[j].header ==>
          !(items[i].entry.path <= items[j].entry.path))
  }

  ghost predicate Numbered(index: nat, items: seq<Item>) {
    && (forall i :: 0 <= i < |items| ==> items[i].header >= index)
    && (forall i, j :: 0 <= i < j < |items| ==> items[i].header <= items[j].header)
    && (forall i :: 0 <= i < |items| && items[i].entry.FileEntry? ==> items[i].entry.index == items[i].header)
  }

  lemma MadeEntry(policy: Policy, h: Header, path: Path, index: nat)
    requires MakeEntry(policy, h, path, index).Some?
    ensures var entry := MakeEntry(policy, h, path, index).value;
            && entry.path == path && !entry.DirectoryEntry?
            && (entry.FileEntry? ==> entry.index == index)
            && (entry.SymlinkEntry? ==> h.kind == SymlinkKind)
  {
  }

  lemma BroughtPaths(policy: Policy, state: State, h: Header, index: nat)
    requires Brought(policy, state, h, index) != []
    ensures PathAccepted(state, h)
    ensures forall x <- Brought(policy, state, h, index) ::
              && x.header == index
              && x.entry.path <= h.path.value
              && (x.entry.DirectoryEntry? ==> x.entry.path !in state.directories)
              && (x.entry.FileEntry? ==> x.entry.index == index)
  {
    hide Within, Room, IsNormal, MakeEntry, Names, NewDirectories;
    var path := h.path.value;
    assert Names(Wanted(h)) <= Wanted(h) <= path;
    if HeaderAccepted(policy, state, h, index) {
      var dirs := Missing(state.directories, Wanted(h));
      NewDirectoriesAre(state.directories, Names(Wanted(h)), |Names(Wanted(h))|);
      forall x | x in HeaderItems(policy, state, h, index)
        ensures x.header == index && x.entry.path <= path
        ensures x.entry.DirectoryEntry? ==> x.entry.path !in state.directories
        ensures x.entry.FileEntry? ==> x.entry.index == index
      {
        if x in DirectoryItems(dirs, index) {
          assert x.entry.path in dirs;
        } else {
          MadeEntry(policy, h, path, index);
        }
      }
    } else {
      var dirs := Missing(state.directories, Wanted(h));
      NewDirectoriesAre(state.directories, Names(Wanted(h)), |Names(Wanted(h))|);
      assert dirs[0] <= Names(Wanted(h)) && dirs[0] !in state.directories;
      assert Brought(policy, state, h, index) == [Item(DirectoryEntry(dirs[0]), index)];
    }
  }

  lemma ParentNames(path: Path)
    requires IsNormal(path) && path != []
    ensures Names(path[..|path| - 1]) == path[..|path| - 1]
  {
    var parent := path[..|path| - 1];
    if parent != [] {
      assert parent[0] == path[0];
      assert parent[|parent| - 1] == path[|parent| - 1] != "";
    }
  }

  lemma ShorterComeFirst(known: set<Path>, names: Path, i: nat, k: nat)
    requires i <= |NewDirectories(known, names, |names|)| && 0 < k <= |names|
    requires i < |NewDirectories(known, names, |names|)| ==> k < |NewDirectories(known, names, |names|)[i]|
    ensures names[..k] in known || exists l :: 0 <= l < i && NewDirectories(known, names, |names|)[l] == names[..k]
  {
    hide NewDirectories;
    var dirs := NewDirectories(known, names, |names|);
    NewDirectoriesAre(known, names, |names|);
    assert forall m :: i <= m < |dirs| ==> k < |dirs[m]|;
    if names[..k] !in known {
      var l :| 0 <= l < |dirs| && dirs[l] == names[..k];
    }
  }

  lemma ShorterAnnounced(known: set<Path>, names: Path, header: nat, i: nat, k: nat)
    requires i <= |NewDirectories(known, names, |names|)| && 0 < k <= |names|
    requires i < |NewDirectories(known, names, |names|)| ==> k < |NewDirectories(known, names, |names|)[i]|
    ensures Announced(known, DirectoryItems(NewDirectories(known, names, |names|), header)[..i], names[..k])
  {
    hide NewDirectories;
    ShorterComeFirst(known, names, i, k);
    var dirs := NewDirectories(known, names, |names|);
    if names[..k] !in known {
      var l :| 0 <= l < i && dirs[l] == names[..k];
      assert DirectoryItems(dirs, header)[..i][l].entry == DirectoryEntry(names[..k]);
    }
  }

  /** New directories, and then perhaps something directly below the last name. */
  lemma DirectoriesInOrder(known: set<Path>, names: Path, header: nat, rest: seq<Item>)
    requires rest == [] || (|rest| == 1 && |rest[0].entry.path| > 0 && rest[0].entry.path[..|rest[0].entry.path| - 1] == names)
    ensures ParentsFirst(known, DirectoryItems(NewDirectories(known, names, |names|), header) + rest)
  {
    hide NewDirectories, Announced;
    var dirs := NewDirectories(known, names, |names|);
    NewDirectoriesAre(known, names, |names|);
    var first := DirectoryItems(dirs, header);
    var items := first + rest;
    forall i, k | 0 <= i < |items| && 0 < k < |items[i].entry.path|
      ensures Announced(known, items[..i], items[i].entry.path[..k])
    {
      var p := items[i].entry.path;
      assert items[..i] == first[..i];
      if i < |dirs| {
        assert p == dirs[i];
        PrefixOfPrefix(p, names, k);
      } else {
        PrefixOfPrefix(names, p, k);
      }
      ShorterAnnounced(known, names, header, i, k);
    }
  }

  lemma PrefixOfPrefix(a: Path, b: Path, k: nat)
    requires a <= b && k <= |a|
    ensures a[..k] == b[..k]
  {
  }

  lemma FirstInOrder(known: set<Path>, items: seq<Item>)
    requires ParentsFirst(known, items) && items != []
    ensures ParentsFirst(known, [items[0]])
  {
    assert items[..0] == [items[0]][..0];
    forall k | 0 < k < |items[0].entry.path|
      ensures Announced(known, [items[0]][..0], items[0].entry.path[..k])
    {
      assert Announced(known, items[..0], items[0].entry.path[..k]);
    }
  }

  /** The directories a header brings, in order, make every parent precede its children. */
  lemma BroughtInOrder(policy: Policy, state: State, h: Header, index: nat)
    ensures ParentsFirst(state.directories, Brought(policy, state, h, index))
  {
    hide Within, Room, IsNormal, NewDirectories, Names, ParentsFirst, Announced;
    NothingInOrder(state, index);
    if !PathAccepted(state, h) {
      return;
    }
    var path := h.path.value;
    ParentNames(path);
    var names := Names(Wanted(h));
    var dirs := DirectoryItems(Missing(state.directories, Wanted(h)), index);
    var rest := if HeaderAccepted(policy, state, h, index) && h.kind != DirectoryKind
                then [Item(MakeEntry(policy, h, path, index).value, index)] else [];
    DirectoriesInOrder(state.directories, names, index, rest);
    assert dirs + [] == dirs;
    if !HeaderAccepted(policy, state, h, index) && dirs != [] {
      FirstInOrder(state.directories, dirs);
    }
  }

  lemma BroughtOnce(policy: Policy, state: State, h: Header, index: nat)
    ensures NoDirectoryTwice(state.directories, Brought(policy, state, h, index))
  {
    hide Within, Room, IsNormal, NewDirectories, Names;
    var items := Brought(policy, state, h, index);
    if items == [] {
      return;
    }
    BroughtPaths(policy, state, h, index);
    assert forall i :: 0 <= i < |items| ==> items[i] in items;
    var dirs := Missing(state.directories, Wanted(h));
    NewDirectoriesAre(state.directories, Names(Wanted(h)), |Names(Wanted(h))|);
    assert forall i :: 0 <= i < |items| && i < |dirs| ==> items[i].entry == DirectoryEntry(dirs[i]);
    assert forall i :: 0 <= i < |items| && items[i].entry.DirectoryEntry? ==> i < |dirs|;
  }

  lemma BroughtOutside(policy: Policy, state: State, h: Header, index: nat)
    ensures OutsideSymlinks(state.symlinks, Brought(policy, state, h, index))
    ensures Numbered(index, Brought(policy, state, h, index))
  {
    hide Brought, Names, NewDirectories, MakeEntry, IsNormal;
    var items := Brought(policy, state, h, index);
    if items == [] {
      return;
    }
    BroughtPaths(policy, state, h, index);
    forall i | 0 <= i < |items|
      ensures !Within(state.symlinks, items[i].entry.path) && items[i].header == index
      ensures items[i].entry.FileEntry? ==> items[i].entry.index == index
    {
      assert items[i] in items;
      ShorterIsOutside(state.symlinks, items[i].entry.path, h.path.value);
    }
  }

  /** What holds a path holds everything below it. */
  lemma ShorterIsOutside(symlinks: seq<Path>, p: Path, path: Path)
    requires p <= path && !Within(symlinks, path)
    ensures !Within(symlinks, p)
  {
    assert forall k :: 0 <= k < |symlinks| && symlinks[k] <= p ==> symlinks[k] <= path;
  }

  /** What the reader remembers of an accepted header. */
  lemma RememberedAfter(policy: Policy, state: State, h: Header, index: nat)
    requires HeaderAccepted(policy, state, h, index)
    ensures var items := HeaderItems(policy, state, h, index);
            var after := After(policy, state, h, index);
            && (forall d :: d in after.directories <==> Announced(state.directories, items, d))
            && (forall s <- state.symlinks :: s in after.symlinks)
            && (forall x <- items :: x.entry.SymlinkEntry? ==> x.entry.path in after.symlinks)
  {
    hide Within, Room, IsNormal, NewDirectories, Names;
    var items := HeaderItems(policy, state, h, index);
    var dirs := Missing(state.directories, Wanted(h));
    forall d
      ensures d in After(policy, state, h, index).directories <==> Announced(state.directories, items, d)
    {
      if d in dirs {
        var j :| 0 <= j < |dirs| && dirs[j] == d;
        assert items[j].entry == DirectoryEntry(d);
      }
    }
  }

  // ----- joining headers --------------------------------------------------

  lemma JoinParents(known: set<Path>, after: set<Path>, a: seq<Item>, b: seq<Item>)
    requires ParentsFirst(known, a) && ParentsFirst(after, b)
    requires forall d :: d in after ==> Announced(known, a, d)
    ensures ParentsFirst(known, a + b)
  {
    hide Announced;
    var all := a + b;
    forall i, k | 0 <= i < |all| && 0 < k < |all[i].entry.path|
      ensures Announced(known, all[..i], all[i].entry.path[..k])
    {
      if i < |a| {
        assert all[..i] == a[..i];
      } else {
        assert all[..i] == a + b[..i - |a|];
        assert all[i] == b[i - |a|];
        AnnouncedJoin(known, after, a, b[..i - |a|], all[i].entry.path[..k]);
      }
    }
  }

  lemma AnnouncedJoin(known: set<Path>, after: set<Path>, a: seq<Item>, b: seq<Item>, d: Path)
    requires Announced(after, b, d)
    requires forall d :: d in after ==> Announced(known, a, d)
    ensures Announced(known, a + b, d)
  {
    if d in after {
      assert Announced(known, a, d);
      if d in known {
      } else if j :| 0 <= j < |a| && a[j].entry == DirectoryEntry(d) {
        assert (a + b)[j].entry == DirectoryEntry(d);
      }
    } else {
      var j :| 0 <= j < |b| && b[j].entry == DirectoryEntry(d);
      assert (a + b)[|a| + j].entry == DirectoryEntry(d);
    }
  }

  lemma JoinOnce(known: set<Path>, after: set<Path>, a: seq<Item>, b: seq<Item>)
    requires NoDirectoryTwice(known, a) && NoDirectoryTwice(after, b)
    requires forall d :: Announced(known, a, d) ==> d in after
    ensures NoDirectoryTwice(known, a + b)
  {
    var all := a + b;
    forall i | 0 <= i < |b| && b[i].entry.DirectoryEntry?
      ensures b[i].entry.path !in known
      ensures forall j :: 0 <= j < |a| ==> a[j].entry != b[i].entry
    {
      var d := b[i].entry.path;
      assert d !in after;
      assert !Announced(known, a, d);
    }
  }

  lemma WithinMore(symlinks: seq<Path>, after: seq<Path>, path: Path)
    requires forall s <- symlinks :: s in after
    requires Within(symlinks, path)
    ensures Within(after, path)
  {
    var k :| 0 <= k < |symlinks| && symlinks[k] <= path;
    assert symlinks[k] in after;
  }

  lemma JoinOutside(symlinks: seq<Path>, after: seq<Path>, index: nat, a: seq<Item>, b: seq<Item>)
    requires OutsideSymlinks(symlinks, a) && OutsideSymlinks(after, b)
    requires forall s <- symlinks :: s in after
    requires forall x <- a :: x.entry.SymlinkEntry? ==> x.entry.path in after
    requires forall x <- a :: x.header == index
    requires Numbered(index + 1, b)
    ensures OutsideSymlinks(symlinks, a + b)
  {
    var all := a + b;
    assert forall i :: 0 <= i < |a| ==> a[i] in a;
    forall i | 0 <= i < |all|
      ensures !Within(symlinks, all[i].entry.path)
    {
      if i >= |a| && Within(symlinks, all[i].entry.path) {
        WithinMore(symlinks, after, b[i - |a|].entry.path);
      }
    }
    forall i, j | 0 <= i < |all| && 0 <= j < |all| && all[i].entry.SymlinkEntry? && all[i].header < all[j].header
      ensures !(all[i].entry.path <= all[j].entry.path)
    {
      if i < |a| && j >= |a| {
        assert !Within(after, b[j - |a|].entry.path);
        assert all[i].entry.path in after;
      } else if i >= |a| {
        assert j >= |a|;
        assert all[i] == b[i - |a|] && all[j] == b[j - |a|];
      }
    }
  }

  lemma JoinNumbered(index: nat, a: seq<Item>, b: seq<Item>)
    requires Numbered(index, a) && Numbered(index + 1, b)
    requires forall x <- a :: x.header == index
    ensures Numbered(index, a + b)
  {
    assert forall i :: 0 <= i < |a| ==> a[i] in a;
  }

  // ----- the whole archive ------------------------------------------------

  /** Ancestors first, no directory twice, nothing through a symlink, and files numbered by their header. */
  ghost predicate InOrder(state: State, index: nat, items: seq<Item>) {
    && ParentsFirst(state.directories, items)
    && NoDirectoryTwice(state.directories, items)
    && OutsideSymlinks(state.symlinks, items)
    && Numbered(index, items)
  }

  lemma JoinHeader(policy: Policy, state: State, h: Header, index: nat, later: seq<Item>)
    requires HeaderAccepted(policy, state, h, index)
    requires InOrder(After(policy, state, h, index), index + 1, later)
    ensures InOrder(state, index, HeaderItems(policy, state, h, index) + later)
  {
    hide HeaderAccepted, HeaderItems, After, ParentsFirst, NoDirectoryTwice, OutsideSymlinks, Numbered, Announced;
    hide LastItems, PathAccepted;
    var items := HeaderItems(policy, state, h, index);
    var after := After(policy, state, h, index);
    assert items == Brought(policy, state, h, index);
    if items != [] {
      BroughtPaths(policy, state, h, index);
    }
    BroughtInOrder(policy, state, h, index);
    BroughtOnce(policy, state, h, index);
    BroughtOutside(policy, state, h, index);
    RememberedAfter(policy, state, h, index);
    JoinParents(state.directories, after.directories, items, later);
    JoinOnce(state.directories, after.directories, items, later);
    JoinOutside(state.symlinks, after.symlinks, index, items, later);
    JoinNumbered(index, items, later);
  }

  /** Every archive, acceptable or not, is handed out in order. */
  lemma {:induction false} ListingInOrder(policy: Policy, state: State, events: seq<Event>, index: nat)
    ensures InOrder(state, index, Listing(policy, state, events, index))
    decreases |events|
  {
    hide HeaderAccepted, HeaderItems, After, LastItems, InOrder;
    if events == [] || events[0].BadHeader? {
      NothingInOrder(state, index);
    } else {
      var h := events[0].header;
      if HeaderAccepted(policy, state, h, index) {
        ListingInOrder(policy, After(policy, state, h, index), events[1..], index + 1);
        JoinHeader(policy, state, h, index, Listing(policy, After(policy, state, h, index), events[1..], index + 1));
      } else {
        LastInOrder(policy, state, h, index);
      }
    }
  }

  lemma NothingInOrder(state: State, index: nat)
    ensures InOrder(state, index, [])
    ensures ParentsFirst(state.directories, [])
  {
  }

  lemma LastInOrder(policy: Policy, state: State, h: Header, index: nat)
    requires !HeaderAccepted(policy, state, h, index)
    ensures InOrder(state, index, LastItems(state, h, index))
  {
    hide HeaderAccepted, HeaderItems, ParentsFirst, NoDirectoryTwice, OutsideSymlinks, Numbered, LastItems;
    BroughtInOrder(policy, state, h, index);
    BroughtOnce(policy, state, h, index);
    BroughtOutside(policy, state, h, index);
  }

  // ----- the signed set ---------------------------------------------------

  /** The files and symlinks among the items, in order. */
  function Contents(items: seq<Item>): (paths: seq<Path>)
    ensures forall p <- paths :: exists x <- items :: !x.entry.DirectoryEntry? && x.entry.path == p
    ensures forall x <- items :: !x.entry.DirectoryEntry? ==> x.entry.path in paths
  {
    if items == [] then []
    else (if items[0].entry.DirectoryEntry? then [] else [items[0].entry.path]) + Contents(items[1..])
  }

  lemma {:induction false} ContentsJoin(a: seq<Item>, b: seq<Item>)
    ensures Contents(a + b) == Contents(a) + Contents(b)
  {
    if a == [] {
      assert a + b == b;
    } else {
      assert (a + b)[1..] == a[1..] + b;
      ContentsJoin(a[1..], b);
    }
  }

  lemma {:induction false} DirectoriesHaveNoContents(items: seq<Item>)
    requires forall x <- items :: x.entry.DirectoryEntry?
    ensures Contents(items) == []
  {
    if items != [] {
      DirectoriesHaveNoContents(items[1..]);
    }
  }

  /** The paths of the file and symlink headers. */
  function HeaderPaths(events: seq<Event>): seq<Path> {
    if events == [] then []
    else
      (if events[0].NextHeader? && events[0].header.kind != DirectoryKind && events[0].header.path.Some?
       then [events[0].header.path.value] else [])
        + HeaderPaths(events[1..])
  }

  ghost predicate Distinct(paths: seq<Path>) {
    forall i, j :: 0 <= i < j < |paths| ==> paths[i] != paths[j]
  }

  function PathSet(paths: seq<Path>): set<Path> {
    set p | p in paths
  }

  /** A sequence without repetitions is as long as its set, and only such a one is. */
  lemma {:induction false} DistinctCounts(paths: seq<Path>)
    ensures |PathSet(paths)| <= |paths|
    ensures |PathSet(paths)| == |paths| <==> Distinct(paths)
  {
    if paths != [] {
      var n := |paths| - 1;
      var before := paths[..n];
      DistinctCounts(before);
      assert paths == before + [paths[n]];
      assert PathSet(paths) == PathSet(before) + {paths[n]};
      if paths[n] in before {
        var i :| 0 <= i < n && before[i] == paths[n];
        assert paths[i] == paths[n];
        assert PathSet(paths) == PathSet(before);
      } else {
        assert |PathSet(paths)| == |PathSet(before)| + 1;
        assert Distinct(before) ==> Distinct(paths);
        assert forall i :: 0 <= i < n ==> before[i] == paths[i];
      }
    }
  }

  lemma HeaderContents(policy: Policy, state: State, h: Header, index: nat)
    requires HeaderAccepted(policy, state, h, index)
    ensures Contents(HeaderItems(policy, state, h, index)) == if h.kind == DirectoryKind then [] else [h.path.value]
    ensures h.kind != DirectoryKind && policy.digests.Some? ==> h.path.value in policy.digests.value
  {
    hide Within, Room, IsNormal, Missing;
    var dirs := DirectoryItems(Missing(state.directories, Wanted(h)), index);
    DirectoriesHaveNoContents(dirs);
    if h.kind != DirectoryKind {
      var last := [Item(MakeEntry(policy, h, h.path.value, index).value, index)];
      ContentsJoin(dirs, last);
      assert last[1..] == [];
      assert HeaderItems(policy, state, h, index) == dirs + last;
    } else {
      assert HeaderItems(policy, state, h, index) == dirs;
    }
  }

  /** An acceptable archive hands out every file and symlink header, and each is signed and counted. */
  lemma {:induction false} CleanContents(policy: Policy, state: State, events: seq<Event>, index: nat)
    requires Clean(policy, state, events, index)
    ensures Contents(Listing(policy, state, events, index)) == HeaderPaths(events)
    ensures policy.digests.Some? ==>
              && (forall p <- HeaderPaths(events) :: p in policy.digests.value)
              && state.verified + |HeaderPaths(events)| == |policy.digests.value|
    decreases |events|
  {
    hide HeaderAccepted, HeaderItems, LastItems;
    if events != [] {
      var h := events[0].header;
      var after := After(policy, state, h, index);
      CleanContents(policy, after, events[1..], index + 1);
      HeaderContents(policy, state, h, index);
      AcceptedHasPath(policy, state, h, index);
      ContentsJoin(HeaderItems(policy, state, h, index), Listing(policy, after, events[1..], index + 1));
    }
  }

  lemma AcceptedHasPath(policy: Policy, state: State, h: Header, index: nat)
    requires HeaderAccepted(policy, state, h, index)
    ensures h.path.Some?
  {
  }

  /**
   A signed archive that is read to the end without error hands out exactly the signed files and symlinks, if and
   only if its file and symlink headers have distinct paths.
   */
  lemma SignedSet(policy: Policy, events: seq<Event>)
    requires policy.digests.Some? && Clean(policy, INITIAL, events, 1)
    ensures PathSet(Contents(Listing(policy, INITIAL, events, 1))) <= policy.digests.value.Keys
    ensures PathSet(Contents(Listing(policy, INITIAL, events, 1))) == policy.digests.value.Keys <==>
              Distinct(HeaderPaths(events))
  {
    hide Clean, Listing;
    var paths := HeaderPaths(events);
    var keys := policy.digests.value.Keys;
    CleanContents(policy, INITIAL, events, 1);
    DistinctCounts(paths);
    assert |keys| == |policy.digests.value|;
    assert PathSet(paths) <= keys;
    if |PathSet(paths)| == |keys| {
      SubsetOfSameSize(PathSet(paths), keys);
    }
  }

  /** The condition is needed: two paths are signed, the archive holds one of them twice, and it is read without error. */
  lemma RepeatedPathHidesAnother() returns (policy: Policy, events: seq<Event>)
    ensures policy.digests.Some? && Clean(policy, INITIAL, events, 1)
    ensures ["b"] in policy.digests.value && ["b"] !in Contents(Listing(policy, INITIAL, events, 1))
  {
    var digests: map<Path, Bytes> := map[["a"] := [1], ["b"] := [2]];
    assert digests.Keys == {["a"], ["b"]};
    policy := Policy(Some(digests), (target: string) => []);
    var h := Header(Some(["a"]), false, RegularKind, 0, None);
    events := [NextHeader(h), NextHeader(h)];
    hide HeaderAccepted, After, Listing, NewDirectories, Names;
    FileIsAccepted(policy, INITIAL, h, 1);
    var next := After(policy, INITIAL, h, 1);
    FileIsAccepted(policy, next, h, 2);
    var last := After(policy, next, h, 2);
    assert events[1..][1..] == [];
    assert Clean(policy, last, [], 3);
    assert Clean(policy, next, events[1..], 2);
    CleanContents(policy, INITIAL, events, 1);
    assert HeaderPaths(events[1..]) == [["a"]] + HeaderPaths(events[1..][1..]);
    assert HeaderPaths(events) == [["a"]] + HeaderPaths(events[1..]);
  }

  lemma FileIsAccepted(policy: Policy, state: State, h: Header, index: nat)
    requires policy.digests.Some? && ["a"] in policy.digests.value && state.symlinks == []
    requires h.path == Some(["a"]) && !h.absolute && h.kind == RegularKind && h.size == 0
    ensures HeaderAccepted(policy, state, h, index)
    ensures After(policy, state, h, index) == state.(verified := state.verified + 1)
  {
    var path: Path := ["a"];
    assert path[..0] == [] && path[0] == "a";
    assert Missing(state.directories, []) == [];
  }

  lemma SubsetOfSameSize(a: set<Path>, b: set<Path>)
    requires a <= b && |a| == |b|
    ensures a == b
  {
    assert b == a + (b - a);
    assert |b| == |a| + |b - a|;
  }

  /** What a signed package hands out is what was signed. */
  ghost predicate Signed(policy: Policy, e: PackageEntry) {
    policy.digests.Some? && !e.DirectoryEntry? ==>
      && e.path in policy.digests.value
      && (e.SymlinkEntry? ==> policy.digest(e.target) == policy.digests.value[e.path])
      && (e.FileEntry? ==> e.digest == Some(policy.digests.value[e.path]))
  }

  lemma {:induction false} ListingIsSigned(policy: Policy, state: State, events: seq<Event>, index: nat)
    ensures forall x <- Listing(policy, state, events, index) :: Signed(policy, x.entry)
    decreases |events|
  {
    hide PathAccepted, Room, IsNormal, Missing, After;
    if events != [] && events[0].NextHeader? && HeaderAccepted(policy, state, events[0].header, index) {
      ListingIsSigned(policy, After(policy, state, events[0].header, index), events[1..], index + 1);
    }
  }

  // ----- limits -----------------------------------------------------------

  function Directories(items: seq<Item>): nat {
    if items == [] then 0 else (if items[0].entry.DirectoryEntry? then 1 else 0) + Directories(items[1..])
  }

  function Symlinks(items: seq<Item>): nat {
    if items == [] then 0 else (if items[0].entry.SymlinkEntry? then 1 else 0) + Symlinks(items[1..])
  }

  lemma {:induction false} CountsJoin(a: seq<Item>, b: seq<Item>)
    ensures Directories(a + b) == Directories(a) + Directories(b)
    ensures Symlinks(a + b) == Symlinks(a) + Symlinks(b)
  {
    if a == [] {
      assert a + b == b;
    } else {
      assert (a + b)[1..] == a[1..] + b;
      CountsJoin(a[1..], b);
    }
  }

  lemma {:induction false} DirectoryCounts(items: seq<Item>)
    requires forall x <- items :: x.entry.DirectoryEntry?
    ensures Directories(items) == |items| && Symlinks(items) == 0
  {
    if items != [] {
      DirectoryCounts(items[1..]);
    }
  }

  lemma HeaderCounts(policy: Policy, state: State, h: Header, index: nat)
    requires HeaderAccepted(policy, state, h, index)
    ensures var items := HeaderItems(policy, state, h, index);
            var after := After(policy, state, h, index);
            && Directories(items) <= Room(state.count)
            && Directories(items) + Room(after.count) == Room(state.count)
            && |state.symlinks| + Symlinks(items) == |after.symlinks|
            && Symlinks(items) <= 1
            && (Symlinks(items) > 0 ==> |state.symlinks| < MAX_SYMLINK_COUNT)
  {
    hide Within, IsNormal, NewDirectories, Names, Missing;
    var missing := Missing(state.directories, Wanted(h));
    var dirs := DirectoryItems(missing, index);
    DirectoryCounts(dirs);
    if h.kind == DirectoryKind {
      assert HeaderItems(policy, state, h, index) == dirs;
    } else {
      var last := [Item(MakeEntry(policy, h, h.path.value, index).value, index)];
      MadeEntry(policy, h, h.path.value, index);
      assert last[1..] == [];
      CountsJoin(dirs, last);
    }
  }

  /** An entry that may be extracted: a relative path that does not climb, a bounded file, a symlink with a target. */
  predicate Extractable(e: PackageEntry) {
    && e.path != [] && ".." !in e.path
    && (e.FileEntry? ==> e.size <= MAX_ENTRY_SIZE)
    && (e.SymlinkEntry? ==> e.target != "")
  }

  lemma BroughtIsExtractable(policy: Policy, state: State, h: Header, index: nat)
    ensures forall x <- Brought(policy, state, h, index) :: Extractable(x.entry)
  {
    hide Within, Room, IsNormal, Names, NewDirectories;
    var items := Brought(policy, state, h, index);
    if items == [] {
      return;
    }
    BroughtPaths(policy, state, h, index);
    NewDirectoriesAre(state.directories, Names(Wanted(h)), |Names(Wanted(h))|);
    var dirs := Missing(state.directories, Wanted(h));
    forall x | x in items
      ensures Extractable(x.entry)
    {
      if x.entry.DirectoryEntry? {
        assert x.entry.path in dirs;
      }
      assert forall name <- x.entry.path :: name in h.path.value;
    }
  }

  /** Every archive, acceptable or not, brings only entries that may be extracted, and no more than the limits. */
  lemma {:induction false} ListingWithinLimits(policy: Policy, state: State, events: seq<Event>, index: nat)
    ensures var items := Listing(policy, state, events, index);
            && (forall x <- items :: Extractable(x.entry))
            && Directories(items) <= Room(state.count)
            && (Symlinks(items) > 0 ==> |state.symlinks| + Symlinks(items) <= MAX_SYMLINK_COUNT)
    decreases |events|
  {
    hide HeaderAccepted, HeaderItems, After, LastItems, Extractable;
    if events != [] && events[0].NextHeader? {
      var h := events[0].header;
      BroughtIsExtractable(policy, state, h, index);
      if HeaderAccepted(policy, state, h, index) {
        var after := After(policy, state, h, index);
        ListingWithinLimits(policy, after, events[1..], index + 1);
        HeaderCounts(policy, state, h, index);
        CountsJoin(HeaderItems(policy, state, h, index), Listing(policy, after, events[1..], index + 1));
      } else {
        LastCounts(state, h, index);
      }
    }
  }

  lemma LastCounts(state: State, h: Header, index: nat)
    ensures Directories(LastItems(state, h, index)) <= Room(state.count) && Symlinks(LastItems(state, h, index)) == 0
  {
    DirectoryCounts(LastItems(state, h, index));
  }

  lemma {:induction false} NothingKnown(names: Path, n: nat)
    requires n <= |names|
    ensures |NewDirectories({}, names, n)| == n
  {
    if n > 0 {
      NothingKnown(names, n - 1);
    }
  }

  /** The number of directories handed out is counted right. */
  predicate Counted(state: State) {
    state.count == |state.directories| <= MAX_DIRECTORY_COUNT + 1
  }

  lemma MissingAreNew(known: set<Path>, path: Path)
    ensures |known + PathSet(Missing(known, path))| == |known| + |Missing(known, path)|
  {
    hide NewDirectories, Names;
    var names := Names(path);
    var missing := Missing(known, path);
    NewDirectoriesAre(known, names, |names|);
    assert Distinct(missing);
    DistinctCounts(missing);
    assert known !! PathSet(missing);
  }

  lemma AfterIsCounted(policy: Policy, state: State, h: Header, index: nat)
    requires HeaderAccepted(policy, state, h, index) && Counted(state)
    ensures Counted(After(policy, state, h, index))
  {
    hide Missing;
    MissingAreNew(state.directories, Wanted(h));
    assert PathSet(Missing(state.directories, Wanted(h))) == set d | d in Missing(state.directories, Wanted(h));
  }

  /**
   The limit is one more than its name says, anywhere in an archive: a directory is accepted exactly when it makes for
   no more than 8193 directories in all.
   */
  lemma DirectoryLimit(policy: Policy, state: State, h: Header, index: nat)
    requires Counted(state) && PathAccepted(state, h) && h.kind == DirectoryKind
    ensures HeaderAccepted(policy, state, h, index) <==>
            |state.directories + PathSet(Missing(state.directories, h.path.value))| <= MAX_DIRECTORY_COUNT + 1
  {
    hide Missing;
    MissingAreNew(state.directories, h.path.value);
  }

  /** A header for a directory of so many levels. */
  function DeepDirectory(levels: nat): Header {
    var path := seq(levels, _ => "d");
    assert forall i :: 0 <= i < levels ==> path[i] == "d";
    Header(Some(path), false, DirectoryKind, 0, None)
  }

  /** The extra directory is real: a first header of 8193 levels is accepted, and one of 8194 is not. */
  lemma DirectoryLimitIsReached(policy: Policy)
    ensures HeaderAccepted(policy, INITIAL, DeepDirectory(MAX_DIRECTORY_COUNT + 1), 1)
    ensures !HeaderAccepted(policy, INITIAL, DeepDirectory(MAX_DIRECTORY_COUNT + 2), 1)
  {
    DeepDirectoryIs(MAX_DIRECTORY_COUNT + 1);
    DeepDirectoryIs(MAX_DIRECTORY_COUNT + 2);
    hide DeepDirectory, NewDirectories, Names;
    var names := DeepDirectory(MAX_DIRECTORY_COUNT + 1).path.value;
    NothingKnown(names, |names|);
    names := DeepDirectory(MAX_DIRECTORY_COUNT + 2).path.value;
    NothingKnown(names, |names|);
  }

  lemma DeepDirectoryIs(levels: nat)
    requires levels > 0
    ensures var h := DeepDirectory(levels);
            && h.kind == DirectoryKind && PathAccepted(INITIAL, h)
            && Names(h.path.value) == h.path.value && |h.path.value| == levels
  {
    var path := DeepDirectory(levels).path.value;
    assert path[0] == path[levels - 1] == "d";
    assert ".." !in path;
  }

  // ----- the reader -------------------------------------------------------

  function DirectoryEntries(paths: seq<Path>): (entries: seq<PackageEntry>)
    ensures |entries| == |paths|
    ensures forall i :: 0 <= i < |paths| ==> entries[i] == DirectoryEntry(paths[i])
  {
    seq(|paths|, i requires 0 <= i < |paths| => DirectoryEntry(paths[i]))
  }

  function Items(entries: seq<PackageEntry>, header: nat): (items: seq<Item>)
    ensures |items| == |entries|
    ensures forall i :: 0 <= i < |entries| ==> items[i] == Item(entries[i], header)
  {
    seq(|entries|, i requires 0 <= i < |entries| => Item(entries[i], header))
  }

  lemma {:induction false} NewDirectoriesGrow(known: set<Path>, names: Path, n: nat, m: nat)
    requires n <= m <= |names|
    ensures NewDirectories(known, names, n) <= NewDirectories(known, names, m)
    decreases m
  {
    if n < m {
      NewDirectoriesGrow(known, names, n, m - 1);
    }
  }

  /** Whether the next prefix is new, and what it adds. */
  lemma MissingStep(known: set<Path>, names: Path, i: nat)
    requires i < |names|
    ensures var before := NewDirectories(known, names, i);
            var after := NewDirectories(known, names, i + 1);
            var next := names[..i + 1];
            && next !in before
            && after == (if next in known then before else before + [next])
            && DirectoryEntries(after) == DirectoryEntries(before) + (if next in known then [] else [DirectoryEntry(next)])
            && (set d | d in after) == (set d | d in before) + (if next in known then {} else {next})
  {
    NewDirectoriesAre(known, names, i);
  }

  lemma TooMany(known: set<Path>, path: Path, i: nat)
    requires i < |Names(path)|
    requires Names(path)[..i + 1] !in known
    ensures var before := NewDirectories(known, Names(path), i);
            |Missing(known, path)| > |before| && Missing(known, path)[..|before|] == before
  {
    hide Names;
    NewDirectoriesGrow(known, Names(path), i + 1, |Names(path)|);
    MissingStep(known, Names(path), i);
  }

  /** A directory header brings its missing directories, or the first of those there is room for. */
  lemma DirectoryBrought(policy: Policy, state: State, h: Header, index: nat)
    requires PathAccepted(state, h) && h.kind == DirectoryKind
    ensures var missing := Missing(state.directories, h.path.value);
            var room := Room(state.count);
            && (|missing| <= room ==>
                  && HeaderAccepted(policy, state, h, index)
                  && Brought(policy, state, h, index) == Items(DirectoryEntries(missing), index)
                  && After(policy, state, h, index) ==
                     State(state.directories + (set d | d in missing), state.count + |missing|, state.symlinks, state.verified))
            && (|missing| > room ==>
                  && !HeaderAccepted(policy, state, h, index)
                  && Brought(policy, state, h, index) == Items(DirectoryEntries(missing[..if room > 0 then 1 else 0]), index))
  {
    hide IsNormal, Within, NewDirectories, Names, Room, MakeEntry;
  }

  lemma ContentBrought(policy: Policy, state: State, h: Header, index: nat)
    requires PathAccepted(state, h) && h.kind != DirectoryKind
    ensures var path := h.path.value;
            var missing := Missing(state.directories, path[..|path| - 1]);
            && HeaderAccepted(policy, state, h, index) ==
                 (&& |missing| <= Room(state.count) && path[|path| - 1] != ""
                  && (h.kind == SymlinkKind ==> |state.symlinks| < MAX_SYMLINK_COUNT)
                  && MakeEntry(policy, h, path, index).Some?)
            && (!HeaderAccepted(policy, state, h, index) ==> Brought(policy, state, h, index) == [])
            && (HeaderAccepted(policy, state, h, index) ==>
                  && Brought(policy, state, h, index) ==
                     Items(DirectoryEntries(missing) + [MakeEntry(policy, h, path, index).value], index)
                  && After(policy, state, h, index) ==
                     State(state.directories + (set d | d in missing), state.count + |missing|,
                           state.symlinks + (if h.kind == SymlinkKind then [path] else []),
                           state.verified + (if policy.digests.Some? then 1 else 0)))
  {
    hide IsNormal, Within, NewDirectories, Names, Room, MakeEntry;
  }

  lemma NothingMissing(known: set<Path>)
    ensures Missing(known, []) == []
  {
  }

  function EntriesOf(items: seq<Item>): (entries: seq<PackageEntry>)
    ensures |entries| == |items|
    ensures forall i :: 0 <= i < |items| ==> entries[i] == items[i].entry
  {
    seq(|items|, i requires 0 <= i < |items| => items[i].entry)
  }

  lemma QueueStep(e: PackageEntry, queue: seq<PackageEntry>, header: nat, later: seq<Item>)
    ensures Items([e] + queue, header) + later == [Item(e, header)] + (Items(queue, header) + later)
  {
  }

  lemma BroughtFiles(policy: Policy, state: State, h: Header, index: nat, entries: seq<PackageEntry>)
    requires Items(entries, index) == Brought(policy, state, h, index)
    ensures forall e <- entries :: e.FileEntry? ==> e.index == index
  {
    hide Brought, PathAccepted;
    if entries != [] {
      BroughtPaths(policy, state, h, index);
      assert forall i :: 0 <= i < |entries| ==> Items(entries, index)[i] in Brought(policy, state, h, index);
    }
  }

  lemma ListingStep(policy: Policy, state: State, events: seq<Event>, index: nat)
    ensures events == [] ==>
              && Listing(policy, state, events, index) == []
              && Clean(policy, state, events, index) == (policy.digests.Some? ==>
                  |policy.digests.value| == state.verified)
    ensures events != [] && events[0].BadHeader? ==>
              Listing(policy, state, events, index) == [] && !Clean(policy, state, events, index)
    ensures events != [] && events[0].NextHeader? ==>
              var h := events[0].header;
              var brought := Brought(policy, state, h, index);
              if HeaderAccepted(policy, state, h, index) then
                var after := After(policy, state, h, index);
                && Listing(policy, state, events, index) == brought + Listing(policy, after, events[1..], index + 1)
                && Clean(policy, state, events, index) == Clean(policy, after, events[1..], index + 1)
              else
                Listing(policy, state, events, index) == brought && !Clean(policy, state, events, index)
  {
    hide HeaderAccepted, HeaderItems, LastItems, After;
  }

  /** What a header brings is the entry returned and the queue behind it, and the listing goes on from there. */
  lemma HeaderReturned(policy: Policy, state: State, events: seq<Event>, index: nat,
                       failed: bool, after: State, r: Option<PackageEntry>, queue: seq<PackageEntry>)
    requires events != [] && events[0].NextHeader?
    requires failed == !HeaderAccepted(policy, state, events[0].header, index)
    requires !failed ==> after == After(policy, state, events[0].header, index)
    requires Brought(policy, state, events[0].header, index) ==
             if r.None? then [] else Items([r.value] + (if failed then [] else queue), index)
    ensures var later := if failed then [] else Listing(policy, after, events[1..], index + 1);
            Listing(policy, state, events, index) ==
            if r.None? then later else [Item(r.value, index)] + ((if failed then [] else Items(queue, index)) + later)
    ensures Clean(policy, state, events, index) == (!failed && Clean(policy, after, events[1..], index + 1))
    ensures r.Some? ==> r.value.FileEntry? ==> r.value.index == index
    ensures r.Some? && !failed ==> forall e <- queue :: e.FileEntry? ==> e.index == index
  {
    hide Listing, Clean, Brought, HeaderAccepted, After;
    ListingStep(policy, state, events, index);
    var later := if failed then [] else Listing(policy, after, events[1..], index + 1);
    assert [] + later == later;
    if r.Some? {
      var waiting := if failed then [] else queue;
      assert Items([], index) == [];
      BroughtFiles(policy, state, events[0].header, index, [r.value] + waiting);
      QueueStep(r.value, waiting, index, later);
    }
  }

  class ArchiveReader {
    const policy: Policy

    /** What the archive library still has to deliver. */
    var archive: seq<Event>

    const readState: SharedReadState

    var directories: set<Path>

    var directoryCount: nat

    /** Entries that wait behind the one returned last. */
    var entryStack: seq<PackageEntry>

    var symlinks: seq<Path>

    var verifiedEntries: nat

    constructor (policy: Policy, archive: seq<Event>)
      ensures this.policy == policy && fresh(readState)
      ensures Valid() && !readState.error && !readState.endOfArchive && readState.entryIndex == 0 && entryStack == []
      ensures Pending() == Listing(policy, INITIAL, archive, 1)
      ensures Acceptable() == Clean(policy, INITIAL, archive, 1)
    {
      hide Listing, Clean;
      this.policy, this.archive := policy, archive;
      readState := new SharedReadState();
      directories, directoryCount, entryStack, symlinks, verifiedEntries := {}, 0, [], [], 0;
      new;
      assert Items([], 0) + Listing(policy, INITIAL, archive, 1) == Listing(policy, INITIAL, archive, 1);
    }

    function Remembered(): State
      reads this, readState
    {
      State(directories, directoryCount, symlinks, verifiedEntries)
    }

    predicate Going()
      reads this, readState
    {
      readState.Going()
    }

    /** Directories are counted, and a file that waits can still be read: the archive has not gone past it. */
    ghost predicate Valid()
      reads this, readState
    {
      && readState.alive
      && (Going() ==>
            && Counted(Remembered())
            && forall e <- entryStack :: e.FileEntry? ==> e.index == readState.entryIndex)
    }

    /** The items still to be returned. */
    ghost function Pending(): seq<Item>
      reads this, readState
    {
      if Going() then Items(entryStack, readState.entryIndex) + Listing(policy, Remembered(), archive, readState.entryIndex + 1) else []
    }

    /** Whether the archive will be read to its end without error. */
    ghost predicate Acceptable()
      reads this, readState
    {
      if Going() then Clean(policy, Remembered(), archive, readState.entryIndex + 1) else !readState.error
    }

    /** Whether a file entry's data can be read now. */
    predicate CheckReadState(e: PackageEntry)
      requires e.FileEntry?
      reads this, readState
    {
      readState.IsAt(e.index)
    }

    method WithinSymLink(path: Path) returns (r: bool)
      ensures r == Within(symlinks, path)
    {
      for i := 0 to |symlinks|
        invariant !Within(symlinks[..i], path)
      {
        if symlinks[i] <= path {
          return true;
        }
        assert symlinks[..i + 1] == symlinks[..i] + [symlinks[i]];
      }
      assert symlinks[..|symlinks|] == symlinks;
      r := false;
    }

    /** Queues the directories of a path that have not been handed out, and remembers them. */
    method UpdateParentEntryStack(path: Path)
      requires IsNormal(path)
      modifies readState`error, this`directories, this`directoryCount, this`entryStack
      ensures ".." in path ==> readState.error
      ensures ".." !in path ==>
                var missing := Missing(old(directories), path);
                var room := Room(old(directoryCount));
                && readState.error == (old(readState.error) || |missing| > room)
                && entryStack == old(entryStack) + DirectoryEntries(if |missing| > room then missing[..room] else missing)
                && (|missing| <= room ==>
                      && directories == old(directories) + (set d | d in missing)
                      && directoryCount == old(directoryCount) + |missing|)
    {
      hide NewDirectories, Names, IsNormal;
      ghost var known := directories;
      ghost var names := Names(path);
      ghost var missing := NewDirectories(known, names, 0);
      NamesAreComponents(path);
      NothingNew(known, names);
      for i := 0 to |path|
        invariant missing == NewDirectories(known, names, if i < |names| then i else |names|)
        invariant |missing| <= Room(old(directoryCount))
        invariant readState.error == old(readState.error)
        invariant ".." !in path[..i]
        invariant directories == known + (set d | d in missing)
        invariant directoryCount == old(directoryCount) + |missing|
        invariant entryStack == old(entryStack) + DirectoryEntries(missing)
      {
        assert path[..i + 1] == path[..i] + [path[i]];
        if path[i] == "." || path[i] == "" {
          continue;
        }
        if path[i] == ".." {
          readState.error := true;
          return;
        }
        MissingStep(known, names, i);
        assert path[..i + 1] == names[..i + 1];
        if path[..i + 1] !in directories {
          directories := directories + {path[..i + 1]};
          if directoryCount > MAX_DIRECTORY_COUNT {
            directoryCount := directoryCount + 1;
            readState.error := true;
            TooMany(known, path, i);
            return;
          }
          directoryCount := directoryCount + 1;
          entryStack := entryStack + [DirectoryEntry(path[..i + 1])];
        }
        missing := NewDirectories(known, names, i + 1);
      }
      assert path[..|path|] == path;
    }

    lemma NothingNew(known: set<Path>, names: Path)
      ensures NewDirectories(known, names, 0) == []
    {
    }

    lemma NamesAreComponents(path: Path)
      requires IsNormal(path)
      ensures forall i :: 0 <= i < |path| ==> (i < |Names(path)| <==> path[i] != "." && path[i] != "")
    {
    }

    /** Makes the entry for a file or symlink and counts it when it is signed. */
    method CreateEntry(path: Path, h: Header) returns (r: Option<PackageEntry>)
      modifies readState`error, this`verifiedEntries
      ensures readState.error == (old(readState.error) || MakeEntry(policy, h, path, readState.entryIndex).None?)
      ensures r == if readState.error then None else MakeEntry(policy, h, path, readState.entryIndex)
      ensures r.Some? ==> verifiedEntries == old(verifiedEntries) + (if policy.digests.Some? then 1 else 0)
    {
      var digest := None;
      if policy.digests.Some? && (h.kind == RegularKind || h.kind == SymlinkKind) {
        if path !in policy.digests.value {
          readState.error := true;
          return None;
        }
        digest := Some(policy.digests.value[path]);
        verifiedEntries := verifiedEntries + 1;
      }
      match h.kind {
        case SymlinkKind =>
          if h.target.None? || h.target.value == "" {
            readState.error := true;
            return None;
          }
          if digest.Some? && digest.value != policy.digest(h.target.value) {
            readState.error := true;
            return None;
          }
          r := Some(SymlinkEntry(path, h.target.value));
        case RegularKind =>
          var size := if h.size < 0 then 0 else h.size;
          if size > MAX_ENTRY_SIZE {
            readState.error := true;
            return None;
          }
          r := Some(FileEntry(path, size, digest, readState.entryIndex));
        case _ =>
          readState.error := true;
          return None;
      }
      if readState.error {
        r := None;
      }
    }

    /** Takes the first of the queue. */
    method PopFront() returns (e: PackageEntry)
      requires entryStack != []
      modifies this`entryStack
      ensures [e] + entryStack == old(entryStack)
    {
      e := entryStack[0];
      entryStack := entryStack[1..];
    }

    /** A directory header whose path is acceptable. */
    method ProcessDirectory(h: Header) returns (r: Option<PackageEntry>)
      requires Going() && entryStack == []
      requires PathAccepted(Remembered(), h) && h.kind == DirectoryKind
      modifies readState`error, this`directories, this`directoryCount, this`entryStack
      ensures readState.error == !HeaderAccepted(policy, old(Remembered()), h, readState.entryIndex)
      ensures !readState.error ==> Remembered() == After(policy, old(Remembered()), h, readState.entryIndex)
      ensures !readState.error && r.None? ==> entryStack == []
      ensures Returned(r, readState.entryIndex) == Brought(policy, old(Remembered()), h, readState.entryIndex)
    {
      hide Within, Listing, Clean, Missing, HeaderAccepted, Brought, After, Room;
      DirectoryBrought(policy, Remembered(), h, readState.entryIndex);
      assert Items([], readState.entryIndex) == [];
      UpdateParentEntryStack(h.path.value);
      if entryStack == [] {
        return None;
      }
      assert readState.error ==> DirectoryEntries(Missing(old(directories), h.path.value)[..1]) == [entryStack[0]];
      var e := PopFront();
      r := Some(e);
    }

    /** A file or symlink header whose path is acceptable. */
    method ProcessContent(h: Header) returns (r: Option<PackageEntry>)
      requires Going() && entryStack == []
      requires PathAccepted(Remembered(), h) && h.kind != DirectoryKind
      modifies readState`error, this`directories, this`directoryCount, this`entryStack, this`symlinks
      modifies this`verifiedEntries
      ensures readState.error == !HeaderAccepted(policy, old(Remembered()), h, readState.entryIndex)
      ensures !readState.error ==> Remembered() == After(policy, old(Remembered()), h, readState.entryIndex)
      ensures !readState.error && r.None? ==> entryStack == []
      ensures Returned(r, readState.entryIndex) == Brought(policy, old(Remembered()), h, readState.entryIndex)
    {
      hide Within, Listing, Clean, Missing, MakeEntry, HeaderAccepted, Brought, After, Room;
      var path := h.path.value;
      ContentBrought(policy, Remembered(), h, readState.entryIndex);
      NothingMissing(directories);
      if path[|path| - 1] == "" {
        readState.error := true;
        return None;
      }
      if |path| > 1 {
        UpdateParentEntryStack(path[..|path| - 1]);
      }
      if h.kind == SymlinkKind {
        if |symlinks| >= MAX_SYMLINK_COUNT {
          readState.error := true;
          return None;
        }
        symlinks := symlinks + [path];
      }
      r := CreateEntry(path, h);
      if r.None? {
        return None;
      }
      if entryStack != [] {
        var e := QueueBehind(r.value);
        r := Some(e);
      }
    }

    /** Puts an entry at the end of the queue and takes the first. */
    method QueueBehind(last: PackageEntry) returns (e: PackageEntry)
      modifies this`entryStack
      ensures [e] + entryStack == old(entryStack) + [last]
    {
      entryStack := entryStack + [last];
      e := PopFront();
    }

    /** What the call that returns r hands out, now and later, of the current header. */
    ghost function Returned(r: Option<PackageEntry>, header: nat): seq<Item>
      reads this, readState
    {
      if r.None? then [] else Items([r.value] + (if readState.error then [] else entryStack), header)
    }

    /** The header the archive library has just delivered. */
    method ProcessHeader(h: Header) returns (r: Option<PackageEntry>)
      requires Going() && entryStack == []
      modifies readState`error, this`directories, this`directoryCount, this`entryStack, this`symlinks
      modifies this`verifiedEntries, readState`entryIndex
      ensures readState.entryIndex == old(readState.entryIndex) + 1
      ensures readState.error == !HeaderAccepted(policy, old(Remembered()), h, readState.entryIndex)
      ensures !readState.error ==> Remembered() == After(policy, old(Remembered()), h, readState.entryIndex)
      ensures !readState.error && r.None? ==> entryStack == []
      ensures Returned(r, readState.entryIndex) == Brought(policy, old(Remembered()), h, readState.entryIndex)
    {
      hide Missing, After, Room, Wanted, MakeEntry;
      readState.entryIndex := readState.entryIndex + 1;
      if h.path.None? {
        readState.error := true;
        return None;
      }
      if h.path.value == [] || h.absolute || ".." in h.path.value {
        readState.error := true;
        return None;
      }
      var within := WithinSymLink(h.path.value);
      if within {
        readState.error := true;
        return None;
      }
      if h.kind == DirectoryKind {
        r := ProcessDirectory(h);
      } else {
        r := ProcessContent(h);
      }
    }

    /** Returns the next entry; nothing at the end or when there was an error. */
    method Next() returns (r: Option<PackageEntry>)
      requires Valid()
      modifies this, readState`error, readState`endOfArchive, readState`entryIndex
      ensures Valid()
      ensures old(Pending()) == [] ==> r == None && !Going() && readState.error == !old(Acceptable()) && Pending() == []
      ensures old(Pending()) != [] ==> r == Some(old(Pending())[0].entry) && Pending() == old(Pending())[1..]
      ensures Acceptable() == old(Acceptable())
      ensures readState.entryIndex >= old(readState.entryIndex)
      ensures readState.entryIndex != old(readState.entryIndex) ==> old(entryStack) == []
      ensures Going() && r.Some? && r.value.FileEntry? ==> CheckReadState(r.value)
    {
      hide Listing, Clean, Brought, HeaderAccepted, After;
      if readState.error || readState.endOfArchive {
        return None;
      }
      if entryStack != [] {
        var e := PopFront();
        QueueStep(e, entryStack, readState.entryIndex, Listing(policy, Remembered(), archive, readState.entryIndex + 1));
        return Some(e);
      }
      r := NextFromArchive();
    }

    /** With an empty queue, reads headers until one of them brings something. */
    method NextFromArchive() returns (r: Option<PackageEntry>)
      requires readState.alive && Going() && entryStack == [] && Counted(Remembered())
      modifies this, readState`error, readState`endOfArchive, readState`entryIndex
      ensures Valid()
      ensures old(Pending()) == [] ==> r == None && !Going() && readState.error == !old(Acceptable()) && Pending() == []
      ensures old(Pending()) != [] ==> r == Some(old(Pending())[0].entry) && Pending() == old(Pending())[1..]
      ensures Acceptable() == old(Acceptable())
      ensures readState.entryIndex >= old(readState.entryIndex)
      ensures Going() && r.Some? && r.value.FileEntry? ==> CheckReadState(r.value)
    {
      hide Valid, Pending, Acceptable, Counted, Remembered, Items;
      Ready();
      while !readState.error
        invariant Valid() && !readState.endOfArchive && (!readState.error ==> entryStack == [])
        invariant readState.entryIndex >= old(readState.entryIndex)
        invariant Pending() == old(Pending()) && Acceptable() == old(Acceptable())
        invariant readState.error ==> Pending() == [] && !Acceptable()
        decreases |archive|
      {
        if archive == [] {
          ReachEnd();
          return None;
        }
        if archive[0].BadHeader? {
          StopAtBadHeader();
          return None;
        }
        r := TakeHeader();
        if r.Some? {
          return;
        }
      }
      r := None;
    }

    lemma Ready()
      requires readState.alive && entryStack == [] && Counted(Remembered())
      ensures Valid()
    {
    }

    /** The end of the archive, where the number of signed entries is checked. */
    method ReachEnd()
      requires readState.alive && Going() && entryStack == [] && archive == []
      modifies readState`error, readState`endOfArchive
      ensures Valid() && !Going() && readState.entryIndex == old(readState.entryIndex)
      ensures old(Pending()) == Pending() == []
      ensures Acceptable() == old(Acceptable()) && readState.error == !Acceptable()
    {
      hide Listing, Clean;
      ListingStep(policy, Remembered(), archive, readState.entryIndex + 1);
      assert Items([], readState.entryIndex) == [];
      readState.endOfArchive := true;
      if policy.digests.Some? && |policy.digests.value| != verifiedEntries {
        readState.error := true;
      }
    }

    method StopAtBadHeader()
      requires readState.alive && Going() && entryStack == [] && archive != [] && archive[0].BadHeader?
      modifies this, readState`error, readState`endOfArchive, readState`entryIndex
      ensures Valid() && !Going() && readState.entryIndex == old(readState.entryIndex) && readState.error
      ensures old(Pending()) == Pending() == [] && Acceptable() == old(Acceptable()) == false
    {
      hide Listing, Clean;
      ListingStep(policy, Remembered(), archive, readState.entryIndex + 1);
      assert Items([], readState.entryIndex) == [];
      archive := archive[1..];
      readState.error := true;
    }

    /** A header takes the reader one item further, or brings nothing. */
    method TakeHeader() returns (r: Option<PackageEntry>)
      requires Going() && Valid() && entryStack == [] && archive != [] && archive[0].NextHeader?
      modifies this, readState`error, readState`endOfArchive, readState`entryIndex
      ensures archive == old(archive[1..]) && !readState.endOfArchive && Valid()
      ensures readState.entryIndex == old(readState.entryIndex) + 1
      ensures r.None? && Going() ==> entryStack == []
      ensures r.None? && readState.error ==> Pending() == [] && !Acceptable()
      ensures Acceptable() == old(Acceptable())
      ensures old(Pending()) == if r.None? then Pending() else [Item(r.value, readState.entryIndex)] + Pending()
      ensures r.Some? && r.value.FileEntry? ==> r.value.index == readState.entryIndex
    {
      hide Listing, Clean, Brought, HeaderAccepted, After, Counted;
      var h := archive[0].header;
      ghost var state, events := Remembered(), archive;
      archive := archive[1..];
      r := ProcessHeader(h);
      if !readState.error {
        AfterIsCounted(policy, state, h, readState.entryIndex);
      }
      assert Items([], readState.entryIndex) == [];
      HeaderReturned(policy, state, events, readState.entryIndex, readState.error, Remembered(), r, entryStack);
    }
  }

  lemma HandOut(entries: seq<PackageEntry>, items: seq<Item>)
    requires items != []
    ensures entries + EntriesOf(items) == (entries + [items[0].entry]) + EntriesOf(items[1..])
  {
  }

  /** A client's loop sees the whole listing, and an error at the end if and only if the archive is not acceptable. */
  method ReadPackage(policy: Policy, archive: seq<Event>) returns (entries: seq<PackageEntry>, failed: bool)
    ensures entries == EntriesOf(Listing(policy, INITIAL, archive, 1))
    ensures failed == !Clean(policy, INITIAL, archive, 1)
  {
    hide Listing, Clean, EntriesOf, Items;
    var reader := new ArchiveReader(policy, archive);
    ghost var all := EntriesOf(reader.Pending());
    entries := [];
    var more := true;
    while more
      invariant fresh(reader) && fresh(reader.readState) && reader.Valid()
      invariant all == entries + EntriesOf(reader.Pending())
      invariant reader.Acceptable() == Clean(policy, INITIAL, archive, 1)
      invariant !more ==> reader.Pending() == [] && reader.readState.error == !reader.Acceptable()
      decreases more, |reader.Pending()|
    {
      ghost var pending := reader.Pending();
      var next := reader.Next();
      if next.None? {
        more := false;
      } else {
        HandOut(entries, pending);
        entries := entries + [next.value];
      }
    }
    assert EntriesOf([]) == [];
    failed := reader.readState.error;
  }

  /** A read that fails in the archive library stops the reader as well. */
  method FailedReadStops(reader: ArchiveReader, entry: ArchiveFileEntry) returns (next: Option<PackageEntry>)
    requires reader.Valid() && entry.Valid() && entry.readState == reader.readState
    requires entry.readState.IsAt(entry.index) && !entry.eof
    modifies reader, reader.readState, entry
    ensures next == None && reader.readState.error
  {
    var r := entry.Read(None);
    next := reader.Next();
  }
}

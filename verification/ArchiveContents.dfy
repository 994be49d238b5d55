/**
 What reading an archive comes to, said of its headers alone: which archives are read to the end without an error, and
 which entry each file and symlink header brings. Nothing of what the reader remembers is used.
 */
module ArchiveContents {
  import opened ArchiveReader
  import opened Wrappers

  // ----- which archives are acceptable ------------------------------------

  predicate IsContent(h: Header) {
    h.kind != DirectoryKind
  }

  /** A header that no other header has any part in. */
  predicate WellFormed(policy: Policy, h: Header) {
    && h.path.Some? && !h.absolute
    && var path := h.path.value;
    && path != [] && ".." !in path
    && match h.kind
       case DirectoryKind => true
       case RegularKind =>
         && path[|path| - 1] != "" && h.size <= 0x800_0000
         && (policy.digests.Some? ==> path in policy.digests.value)
       case SymlinkKind =>
         && path[|path| - 1] != "" && h.target.Some? && h.target.value != ""
         && (policy.digests.Some? ==>
               path in policy.digests.value && policy.digest(h.target.value) == policy.digests.value[path])
       case OtherKind => false
  }

  /** The directories that a header needs: its own levels, or those above it; "." and an empty name are none. */
  ghost function Levels(h: Header): set<Path> {
    if h.path.None? then {} else
      var path := h.path.value;
      var n := if h.kind == DirectoryKind || path == [] then |path| else |path| - 1;
      set k | 0 < k <= n && path[k - 1] != "" && path[k - 1] != "." :: path[..k]
  }

  ghost function AllLevels(headers: seq<Header>): set<Path> {
    if headers == [] then {} else Levels(headers[0]) + AllLevels(headers[1..])
  }

  function CountSymlinks(headers: seq<Header>): nat {
    if headers == [] then 0 else (if headers[0].kind == SymlinkKind then 1 else 0) + CountSymlinks(headers[1..])
  }

  function CountContent(headers: seq<Header>): nat {
    if headers == [] then 0 else (if IsContent(headers[0]) then 1 else 0) + CountContent(headers[1..])
  }

  /** The second header lies at or below the symlink of the first. */
  predicate IsBelow(link: Header, h: Header) {
    link.kind == SymlinkKind && link.path.Some? && h.path.Some? && link.path.value <= h.path.value
  }

  /** An archive that is read to its end without an error. */
  ghost predicate Acceptable(policy: Policy, headers: seq<Header>) {
    && (forall i :: 0 <= i < |headers| ==> WellFormed(policy, headers[i]))
    && (forall i, j :: 0 <= i < j < |headers| ==> !IsBelow(headers[i], headers[j]))
    && CountSymlinks(headers) <= 8192
    && |AllLevels(headers)| <= 8193
    && (policy.digests.Some? ==> CountContent(headers) == |policy.digests.value|)
  }

  /** The headers that are left do not stop the reader, when it remembers something. */
  ghost predicate Accepting(policy: Policy, state: State, headers: seq<Header>) {
    && (forall i :: 0 <= i < |headers| ==> WellFormed(policy, headers[i]))
    && OutsideLinks(state.symlinks, headers)
    && (CountSymlinks(headers) > 0 ==> |state.symlinks| + CountSymlinks(headers) <= 8192)
    && |state.directories + AllLevels(headers)| <= 8193
  }

  /** Nor do they leave anything out that is signed. */
  ghost predicate AcceptableFrom(policy: Policy, state: State, headers: seq<Header>) {
    && Accepting(policy, state, headers)
    && (policy.digests.Some? ==> state.verified + CountContent(headers) == |policy.digests.value|)
  }

  /** The headers of an archive that delivers nothing else. */
  function Headers(headers: seq<Header>): (events: seq<Event>)
    ensures |events| == |headers| && forall i :: 0 <= i < |headers| ==> events[i] == NextHeader(headers[i])
  {
    if headers == [] then [] else [NextHeader(headers[0])] + Headers(headers[1..])
  }

  // ----- one header -------------------------------------------------------

  ghost function Prefixes(names: Path): set<Path> {
    set k | 0 < k <= |names| :: names[..k]
  }

  /** The directories that the reader finds missing are the levels that it does not know. */
  lemma MissingLevels(known: set<Path>, h: Header)
    requires h.path.Some? && h.path.value != []
    ensures known + PathSet(Missing(known, Wanted(h))) == known + Levels(h)
  {
    hide NewDirectories, Names, Levels, Prefixes;
    NamesAreLevels(h);
    MissingPrefixes(known, Names(Wanted(h)));
  }

  lemma MissingPrefixes(known: set<Path>, names: Path)
    ensures known + PathSet(NewDirectories(known, names, |names|)) == known + Prefixes(names)
  {
    NewDirectoriesAre(known, names, |names|);
    hide NewDirectories;
    var missing := NewDirectories(known, names, |names|);
    forall d | d in missing
      ensures d in Prefixes(names)
    {
      var i :| 0 <= i < |missing| && missing[i] == d;
      assert d == names[..|d|];
    }
    forall d | d in Prefixes(names)
      ensures d in known || d in missing
    {
      var k :| 0 < k <= |names| && d == names[..k];
    }
  }

  lemma NamesAreLevels(h: Header)
    requires h.path.Some? && h.path.value != []
    ensures Prefixes(Names(Wanted(h))) == Levels(h)
  {
    var path: NormalPath := h.path.value;
    var wanted := Wanted(h);
    var names := Names(wanted);
    WantedNames(path, wanted);
    hide IsNormal, Names;
    forall d
      ensures d in Levels(h) <==> d in Prefixes(names)
    {
      if d in Levels(h) {
        var k :| 0 < k <= |wanted| && path[k - 1] != "" && path[k - 1] != "." && d == path[..k];
        assert k <= |names| && d == names[..k];
      }
      if d in Prefixes(names) {
        var k :| 0 < k <= |names| && d == names[..k];
        assert path[k - 1] == names[k - 1] && d == path[..k];
      }
    }
  }

  /** Only the last name of what is wanted may be dropped, and it is when it is not that of a directory. */
  lemma WantedNames(path: NormalPath, wanted: Path)
    requires path != [] && (wanted == path || wanted == path[..|path| - 1])
    ensures Names(wanted) <= path
    ensures forall i :: 0 <= i < |Names(wanted)| ==> path[i] != "" && path[i] != "."
    ensures forall i :: |Names(wanted)| <= i < |wanted| ==> path[i] == "" || path[i] == "."
  {
    assert path == ["."] || forall i :: 0 <= i < |path| ==> path[i] != "." && (path[i] == "" ==> 0 < i == |path| - 1);
    if path != ["."] && wanted != [] {
      assert wanted[|wanted| - 1] == path[|wanted| - 1] && wanted[0] == path[0];
    }
  }

  lemma AcceptedMeans(policy: Policy, state: State, h: Header, index: nat)
    requires Counted(state)
    ensures HeaderAccepted(policy, state, h, index) <==>
              && WellFormed(policy, h)
              && !Within(state.symlinks, h.path.value)
              && (h.kind == SymlinkKind ==> |state.symlinks| < 8192)
              && |state.directories + Levels(h)| <= 8193
  {
    hide Missing, Names, Levels, Within, IsNormal;
    if h.path.Some? && h.path.value != [] {
      MissingLevels(state.directories, h);
      MissingAreNew(state.directories, Wanted(h));
    }
  }

  lemma AfterMeans(policy: Policy, state: State, h: Header, index: nat)
    requires HeaderAccepted(policy, state, h, index) && Counted(state)
    ensures var after := After(policy, state, h, index);
            && after.directories == state.directories + Levels(h)
            && after.symlinks == state.symlinks + (if h.kind == SymlinkKind then [h.path.value] else [])
            && after.verified == state.verified + (if IsContent(h) && policy.digests.Some? then 1 else 0)
            && Counted(after)
  {
    hide Missing, Names, Levels, Within, IsNormal;
    AfterIsCounted(policy, state, h, index);
    MissingLevels(state.directories, h);
    assert PathSet(Missing(state.directories, Wanted(h))) == set d | d in Missing(state.directories, Wanted(h));
  }

  // ----- all headers ------------------------------------------------------

  /** The first header is accepted, and the rest is acceptable afterwards. */
  lemma AcceptingStep(policy: Policy, state: State, headers: seq<Header>, index: nat)
    requires headers != [] && Counted(state)
    ensures Accepting(policy, state, headers) <==>
              && HeaderAccepted(policy, state, headers[0], index)
              && Accepting(policy, After(policy, state, headers[0], index), headers[1..])
  {
    hide HeaderAccepted, After, WellFormed, Levels, AllLevels, Within, Counted;
    var h, rest := headers[0], headers[1..];
    AcceptedMeans(policy, state, h, index);
    LevelsStep(state.directories, headers);
    WellFormedHasPath(policy, h);
    if HeaderAccepted(policy, state, h, index) {
      AfterMeans(policy, state, h, index);
      var after := After(policy, state, h, index);
      LinksStep(state.symlinks, after.symlinks, headers);
      assert (forall i :: 0 <= i < |headers| ==> WellFormed(policy, headers[i])) <==>
             WellFormed(policy, h) && forall i :: 0 <= i < |rest| ==> WellFormed(policy, rest[i]) by {
        SplitWellFormed(policy, headers);
      }
    }
  }

  lemma WellFormedHasPath(policy: Policy, h: Header)
    ensures WellFormed(policy, h) ==> h.path.Some?
  {
  }

  lemma SplitWellFormed(policy: Policy, headers: seq<Header>)
    requires headers != []
    ensures (forall i :: 0 <= i < |headers| ==> WellFormed(policy, headers[i])) <==>
            WellFormed(policy, headers[0]) && forall i :: 0 <= i < |headers[1..]| ==> WellFormed(policy, headers[1..][i])
  {
    hide WellFormed;
    if WellFormed(policy, headers[0]) && forall i :: 0 <= i < |headers[1..]| ==> WellFormed(policy, headers[1..][i]) {
      forall i | 0 <= i < |headers|
        ensures WellFormed(policy, headers[i])
      {
        assert i > 0 ==> headers[i] == headers[1..][i - 1];
      }
    }
  }

  lemma LevelsStep(known: set<Path>, headers: seq<Header>)
    requires headers != []
    ensures known + AllLevels(headers) == known + Levels(headers[0]) + AllLevels(headers[1..])
    ensures |known + Levels(headers[0])| <= |known + AllLevels(headers)|
  {
    hide Levels;
    var all, some := known + AllLevels(headers), known + Levels(headers[0]);
    assert all == some + (all - some);
    assert |all| == |some| + |all - some|;
  }

  /** No header is below a symlink: of the first header, and of the others with its symlink remembered. */
  lemma LinksStep(symlinks: seq<Path>, after: seq<Path>, headers: seq<Header>)
    requires headers != [] && headers[0].path.Some?
    requires after == symlinks + (if headers[0].kind == SymlinkKind then [headers[0].path.value] else [])
    ensures OutsideLinks(symlinks, headers) <==>
              !Within(symlinks, headers[0].path.value) && OutsideLinks(after, headers[1..])
  {
    var h, rest := headers[0], headers[1..];
    if OutsideLinks(symlinks, headers) {
      forall i | 0 <= i < |rest| && rest[i].path.Some?
        ensures !Within(after, rest[i].path.value)
      {
        assert rest[i] == headers[i + 1] && !IsBelow(h, headers[i + 1]) && !Within(symlinks, headers[i + 1].path.value);
      }
      forall i, j | 0 <= i < j < |rest|
        ensures !IsBelow(rest[i], rest[j])
      {
        assert !IsBelow(headers[i + 1], headers[j + 1]);
      }
    }
    if !Within(symlinks, h.path.value) && OutsideLinks(after, rest) {
      forall i | 0 <= i < |headers| && headers[i].path.Some?
        ensures !Within(symlinks, headers[i].path.value)
      {
        if i > 0 && Within(symlinks, headers[i].path.value) {
          WithinMore(symlinks, after, rest[i - 1].path.value);
        }
      }
      forall i, j | 0 <= i < j < |headers|
        ensures !IsBelow(headers[i], headers[j])
      {
        if i == 0 && IsBelow(h, headers[j]) {
          assert after[|symlinks|] == h.path.value && headers[j] == rest[j - 1];
          assert Within(after, rest[j - 1].path.value);
        } else if i > 0 {
          assert !IsBelow(rest[i - 1], rest[j - 1]);
        }
      }
    }
  }

  ghost predicate OutsideLinks(symlinks: seq<Path>, headers: seq<Header>) {
    && (forall i :: 0 <= i < |headers| && headers[i].path.Some? ==> !Within(symlinks, headers[i].path.value))
    && (forall i, j :: 0 <= i < j < |headers| ==> !IsBelow(headers[i], headers[j]))
  }

  lemma {:induction false} CleanFrom(policy: Policy, state: State, headers: seq<Header>, index: nat)
    requires Counted(state)
    ensures Clean(policy, state, Headers(headers), index) <==> AcceptableFrom(policy, state, headers)
    decreases |headers|
  {
    hide HeaderAccepted, After, Accepting, Counted;
    if headers == [] {
      NothingLeft(policy, state);
    } else {
      AcceptingStep(policy, state, headers, index);
      if HeaderAccepted(policy, state, headers[0], index) {
        AfterMeans(policy, state, headers[0], index);
        AfterIsCounted(policy, state, headers[0], index);
        CleanFrom(policy, After(policy, state, headers[0], index), headers[1..], index + 1);
      }
    }
  }

  lemma NothingLeft(policy: Policy, state: State)
    requires Counted(state)
    ensures Accepting(policy, state, [])
  {
    assert state.directories + {} == state.directories;
  }

  /** An archive of headers is read to the end without an error if and only if it is acceptable. */
  lemma AcceptableArchives(policy: Policy, headers: seq<Header>)
    ensures Clean(policy, INITIAL, Headers(headers), 1) <==> Acceptable(policy, headers)
  {
    hide WellFormed, Levels;
    CleanFrom(policy, INITIAL, headers, 1);
    assert {} + AllLevels(headers) == AllLevels(headers);
  }

  /** One that fails to deliver a header is not. */
  lemma {:induction false} BadHeaderStops(policy: Policy, state: State, events: seq<Event>, index: nat)
    requires BadHeader in events
    ensures !Clean(policy, state, events, index)
    decreases |events|
  {
    hide HeaderAccepted, After;
    if events[0].NextHeader? && HeaderAccepted(policy, state, events[0].header, index) {
      BadHeaderStops(policy, After(policy, state, events[0].header, index), events[1..], index + 1);
    }
  }

  // ----- what the headers bring -------------------------------------------

  /** The entry is what the header with this number says. */
  ghost predicate Describes(policy: Policy, h: Header, number: nat, e: PackageEntry) {
    && h.path == Some(e.path)
    && match e
       case DirectoryEntry(_) => false
       case SymlinkEntry(_, target) => h.kind == SymlinkKind && h.target == Some(target)
       case FileEntry(path, size, digest, index) =>
         && h.kind == RegularKind && index == number
         && size == (if h.size > 0 then h.size else 0)
         && (policy.digests.None? ==> digest == None)
         && (policy.digests.Some? ==> path in policy.digests.value && digest == Some(policy.digests.value[path]))
  }

  /** The files and symlinks among the items. */
  function ContentItems(items: seq<Item>): seq<Item> {
    if items == [] then []
    else (if items[0].entry.DirectoryEntry? then [] else [items[0]]) + ContentItems(items[1..])
  }

  /** The numbers of the file and symlink headers, the first header having number `index`. */
  function ContentNumbers(headers: seq<Header>, index: nat): (numbers: seq<nat>)
    ensures |numbers| == CountContent(headers)
    ensures forall j :: 0 <= j < |numbers| ==>
              index <= numbers[j] < index + |headers| && IsContent(headers[numbers[j] - index])
    ensures forall j, k :: 0 <= j < k < |numbers| ==> numbers[j] < numbers[k]
  {
    if headers == [] then []
    else (if IsContent(headers[0]) then [index] else []) + ContentNumbers(headers[1..], index + 1)
  }

  /** Item after item is what header after header says. */
  ghost predicate AreContents(policy: Policy, headers: seq<Header>, index: nat, content: seq<Item>) {
    var numbers := ContentNumbers(headers, index);
    && |content| == |numbers|
    && forall j :: 0 <= j < |content| ==>
         && content[j].header == numbers[j]
         && Describes(policy, headers[numbers[j] - index], numbers[j], content[j].entry)
  }

  lemma {:induction false} ContentItemsJoin(a: seq<Item>, b: seq<Item>)
    ensures ContentItems(a + b) == ContentItems(a) + ContentItems(b)
  {
    if a == [] {
      assert a + b == b;
    } else {
      assert (a + b)[1..] == a[1..] + b;
      ContentItemsJoin(a[1..], b);
    }
  }

  lemma {:induction false} NoContentItems(items: seq<Item>)
    requires forall x <- items :: x.entry.DirectoryEntry?
    ensures ContentItems(items) == []
  {
    if items != [] {
      NoContentItems(items[1..]);
    }
  }

  /** What an accepted header brings, besides directories. */
  lemma HeaderContent(policy: Policy, state: State, h: Header, index: nat)
    requires HeaderAccepted(policy, state, h, index)
    ensures var content := ContentItems(HeaderItems(policy, state, h, index));
            if IsContent(h) then |content| == 1 && content[0].header == index && Describes(policy, h, index, content[0].entry)
            else content == []
  {
    hide Missing, Names, Within, IsNormal, Room;
    var dirs := DirectoryItems(Missing(state.directories, Wanted(h)), index);
    NoContentItems(dirs);
    if IsContent(h) {
      var last := [Item(MakeEntry(policy, h, h.path.value, index).value, index)];
      ContentItemsJoin(dirs, last);
      assert last[1..] == [];
      assert HeaderItems(policy, state, h, index) == dirs + last;
    } else {
      assert HeaderItems(policy, state, h, index) == dirs;
    }
  }

  lemma NumbersStep(headers: seq<Header>, index: nat)
    requires headers != []
    ensures ContentNumbers(headers, index)
            == (if IsContent(headers[0]) then [index] else []) + ContentNumbers(headers[1..], index + 1)
  {
  }

  lemma ContentsStep(policy: Policy, headers: seq<Header>, index: nat, first: seq<Item>, later: seq<Item>)
    requires headers != [] && AreContents(policy, headers[1..], index + 1, later)
    requires if IsContent(headers[0])
             then |first| == 1 && first[0].header == index && Describes(policy, headers[0], index, first[0].entry)
             else first == []
    ensures AreContents(policy, headers, index, first + later)
  {
    hide Describes, ContentNumbers, IsContent;
    var content := first + later;
    var numbers, laterNumbers := ContentNumbers(headers, index), ContentNumbers(headers[1..], index + 1);
    NumbersStep(headers, index);
    forall j | 0 <= j < |content|
      ensures content[j].header == numbers[j]
      ensures Describes(policy, headers[numbers[j] - index], numbers[j], content[j].entry)
    {
      if j >= |first| {
        assert content[j] == later[j - |first|] && numbers[j] == laterNumbers[j - |first|];
        assert headers[numbers[j] - index] == headers[1..][numbers[j] - (index + 1)];
      }
    }
  }

  /**
   Every archive hands out, in order, exactly the file and symlink headers before the first header that is not accepted,
   and each entry is what its header says. After its headers an archive ends, or fails to deliver the next one.
   */
  lemma {:induction false} ListingContents(policy: Policy, state: State, headers: seq<Header>, rest: seq<Event>,
                                           index: nat)
    returns (n: nat)
    requires Counted(state) && (rest == [] || rest[0].BadHeader?)
    ensures n <= |headers| && Accepting(policy, state, headers[..n])
    ensures n < |headers| ==> !Accepting(policy, state, headers[..n + 1])
    ensures AreContents(policy, headers[..n], index, ContentItems(Listing(policy, state, Headers(headers) + rest, index)))
    decreases |headers|
  {
    hide HeaderAccepted, After, Accepting, Counted, AreContents, HeaderItems, LastItems, Listing, ContentItems, Headers;
    n := 0;
    NothingLeft(policy, state);
    NothingRead(policy, state, headers, rest, index);
    if headers != [] {
      AcceptingFirst(policy, state, headers, index);
      ListingFirst(policy, state, headers, rest, index);
      if HeaderAccepted(policy, state, headers[0], index) {
        AfterMeans(policy, state, headers[0], index);
        var after := After(policy, state, headers[0], index);
        n := ListingContents(policy, after, headers[1..], rest, index + 1);
        n := n + 1;
        AcceptingPart(policy, state, headers, n, index);
        if n < |headers| {
          AcceptingPart(policy, state, headers, n + 1, index);
        }
        HeaderContent(policy, state, headers[0], index);
        assert headers[..n][1..] == headers[1..][..n - 1];
        ContentsStep(policy, headers[..n], index, ContentItems(HeaderItems(policy, state, headers[0], index)),
                     ContentItems(Listing(policy, after, Headers(headers[1..]) + rest, index + 1)));
      }
    }
  }

  /** The contents of a listing are those of its first header and of the rest. */
  lemma ListingFirst(policy: Policy, state: State, headers: seq<Header>, rest: seq<Event>, index: nat)
    requires headers != []
    ensures var content := ContentItems(Listing(policy, state, Headers(headers) + rest, index));
            if HeaderAccepted(policy, state, headers[0], index) then
              content == ContentItems(HeaderItems(policy, state, headers[0], index))
                + ContentItems(Listing(policy, After(policy, state, headers[0], index), Headers(headers[1..]) + rest, index + 1))
            else content == []
  {
    hide HeaderAccepted, After, HeaderItems, LastItems, ContentItems;
    var events := Headers(headers) + rest;
    assert events[0] == NextHeader(headers[0]) && events[1..] == Headers(headers[1..]) + rest;
    if HeaderAccepted(policy, state, headers[0], index) {
      ContentItemsJoin(HeaderItems(policy, state, headers[0], index),
                       Listing(policy, After(policy, state, headers[0], index), events[1..], index + 1));
    } else {
      LastIsDirectory(state, headers[0], index);
    }
  }

  lemma NothingRead(policy: Policy, state: State, headers: seq<Header>, rest: seq<Event>, index: nat)
    requires rest == [] || rest[0].BadHeader?
    ensures AreContents(policy, headers[..0], index, [])
    ensures headers == [] ==> ContentItems(Listing(policy, state, Headers(headers) + rest, index)) == []
  {
    if headers == [] {
      assert Headers(headers) + rest == rest;
    }
  }

  lemma LastIsDirectory(state: State, h: Header, index: nat)
    ensures ContentItems(LastItems(state, h, index)) == []
  {
    NoContentItems(LastItems(state, h, index));
  }

  lemma AcceptingFirst(policy: Policy, state: State, headers: seq<Header>, index: nat)
    requires headers != [] && Counted(state)
    ensures !HeaderAccepted(policy, state, headers[0], index) ==> !Accepting(policy, state, headers[..1])
  {
    hide Accepting, HeaderAccepted, After, Counted;
    AcceptingStep(policy, state, headers[..1], index);
  }

  lemma AcceptingPart(policy: Policy, state: State, headers: seq<Header>, n: nat, index: nat)
    requires 0 < n <= |headers| && Counted(state) && HeaderAccepted(policy, state, headers[0], index)
    ensures Accepting(policy, state, headers[..n]) <==>
            Accepting(policy, After(policy, state, headers[0], index), headers[1..][..n - 1])
  {
    hide Accepting, HeaderAccepted, After, Counted;
    AcceptingStep(policy, state, headers[..n], index);
    assert headers[..n][1..] == headers[1..][..n - 1];
  }

  // ----- the directories --------------------------------------------------

  ghost function DirectorySet(items: seq<Item>): set<Path> {
    set x | x in items && x.entry.DirectoryEntry? :: x.entry.path
  }

  lemma HeaderDirectories(policy: Policy, state: State, h: Header, index: nat)
    requires HeaderAccepted(policy, state, h, index)
    ensures state.directories + DirectorySet(HeaderItems(policy, state, h, index)) == state.directories + Levels(h)
  {
    hide Missing, Names, Within, IsNormal, Room, Levels;
    MissingLevels(state.directories, h);
    var missing := Missing(state.directories, Wanted(h));
    var items := HeaderItems(policy, state, h, index);
    forall d | d in missing
      ensures d in DirectorySet(items)
    {
      var i :| 0 <= i < |missing| && missing[i] == d;
      assert items[i] == Item(DirectoryEntry(d), index);
    }
    assert DirectorySet(items) <= PathSet(missing);
  }

  /** The directories handed out for headers that are all accepted are the levels of those headers, and no others. */
  lemma {:induction false} ListingDirectories(policy: Policy, state: State, headers: seq<Header>, index: nat)
    requires Counted(state) && Accepting(policy, state, headers)
    ensures state.directories + DirectorySet(Listing(policy, state, Headers(headers), index)) == state.directories + AllLevels(headers)
    decreases |headers|
  {
    hide HeaderAccepted, After, Accepting, Counted, HeaderItems, LastItems, Levels;
    if headers != [] {
      var h := headers[0];
      AcceptingStep(policy, state, headers, index);
      AfterMeans(policy, state, h, index);
      HeaderDirectories(policy, state, h, index);
      var items, after := HeaderItems(policy, state, h, index), After(policy, state, h, index);
      ListingDirectories(policy, after, headers[1..], index + 1);
      var later := Listing(policy, after, Headers(headers[1..]), index + 1);
      assert Listing(policy, state, Headers(headers), index) == items + later;
      assert DirectorySet(items + later) == DirectorySet(items) + DirectorySet(later);
    }
  }

  // ----- a header that stops the reader -----------------------------------

  /** A directory that only the limit stops. */
  ghost predicate OverTheLimit(policy: Policy, state: State, h: Header) {
    && h.kind == DirectoryKind && WellFormed(policy, h) && !Within(state.symlinks, h.path.value)
    && |state.directories + Levels(h)| > 8193
  }

  /**
   A header that is not accepted brings nothing, unless it is a directory that makes for too many while there is room for
   one more: then the first of the missing ones still comes out.
   */
  lemma RefusedHeader(policy: Policy, state: State, h: Header, later: seq<Event>, index: nat)
    requires Counted(state) && !HeaderAccepted(policy, state, h, index)
    ensures var items := Listing(policy, state, [NextHeader(h)] + later, index);
            if OverTheLimit(policy, state, h) && |state.directories| <= 8192 then
              && |items| == 1 && items[0].header == index && items[0].entry.DirectoryEntry?
              && items[0].entry.path in Levels(h) - state.directories
              && forall d :: d in Levels(h) - state.directories ==> |items[0].entry.path| <= |d|
            else items == []
  {
    hide Names, NewDirectories, Levels, Within, IsNormal;
    AcceptedMeans(policy, state, h, index);
    if h.path.Some? && h.path.value != [] {
      MissingLevels(state.directories, h);
      MissingAreNew(state.directories, Wanted(h));
      var missing := Missing(state.directories, Wanted(h));
      NewDirectoriesAre(state.directories, Names(Wanted(h)), |Names(Wanted(h))|);
      forall d | d in Levels(h) - state.directories
        ensures d in missing
      {
        assert d in state.directories + PathSet(missing);
      }
      if missing != [] {
        assert missing[0] in state.directories + PathSet(missing);
      }
    }
  }
}

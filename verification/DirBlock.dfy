/**
 EROFS directory blocks: fixed-size entries followed by the names they point to. The parser is the inverse of the
 format, and on arbitrary bytes it never looks outside the block.
 */
module DirBlock {
  import opened Bytes
  import opened Wrappers

  const DIRENT_SIZE: nat := 12

  const NAME_MAX: nat := 255

  const BLOCK_SIZE: nat := 4096

  datatype FileType = Regular | Directory | Character | BlockDevice | Fifo | Socket | Symlink

  datatype DirEntry = DirEntry(inode: nat, fileName: Bytes, fileType: FileType)

  function TypeNumber(t: FileType): (n: Byte)
    ensures 1 <= n < 8
  {
    match t
    case Regular => 1
    case Directory => 2
    case Character => 3
    case BlockDevice => 4
    case Fifo => 5
    case Socket => 6
    case Symlink => 7
  }

  function TypeFromNumber(n: Byte): FileType
    requires 1 <= n < 8
  {
    if n == 1 then Regular else if n == 2 then Directory else if n == 3 then Character
    else if n == 4 then BlockDevice else if n == 5 then Fifo else if n == 6 then Socket else Symlink
  }

  // ----- names ------------------------------------------------------------

  const DOT: Bytes := [0x2e]

  const DOT_DOT: Bytes := [0x2e, 0x2e]

  predicate ValidFileName(name: Bytes) {
    && 0 < |name| <= NAME_MAX
    && name != DOT && name != DOT_DOT
    && forall i :: 0 <= i < |name| ==> name[i] != 0x2f && name[i] != 0
  }

  method ValidateFileName(fileName: Bytes) returns (ok: bool)
    ensures ok == ValidFileName(fileName)
  {
    if fileName == [] || |fileName| > NAME_MAX || fileName == DOT || fileName == DOT_DOT {
      return false;
    }
    for i := 0 to |fileName|
      invariant forall j :: 0 <= j < i ==> fileName[j] != 0x2f && fileName[j] != 0
    {
      if fileName[i] == 0x2f || fileName[i] == 0 {
        return false;
      }
    }
    ok := true;
  }

  /** The number of bytes before the first NUL, at most all of them. */
  function StrNLen(s: Bytes): (n: nat)
    ensures n <= |s|
    ensures forall i :: 0 <= i < n ==> s[i] != 0
    ensures n < |s| ==> s[n] == 0
  {
    if s == [] || s[0] == 0 then 0 else 1 + StrNLen(s[1..])
  }

  // ----- the fields of an entry -------------------------------------------

  function Nid(data: Bytes, i: nat): nat
    requires DIRENT_SIZE * i + DIRENT_SIZE <= |data|
  {
    LE(data[DIRENT_SIZE * i..DIRENT_SIZE * i + 8])
  }

  function NameOffset(data: Bytes, i: nat): (offset: nat)
    requires DIRENT_SIZE * i + DIRENT_SIZE <= |data|
    ensures offset < 0x1_0000
  {
    LEBound(data[DIRENT_SIZE * i + 8..DIRENT_SIZE * i + 10]);
    assert Pow256(2) == 0x1_0000;
    LE(data[DIRENT_SIZE * i + 8..DIRENT_SIZE * i + 10])
  }

  function TypeByte(data: Bytes, i: nat): Byte
    requires DIRENT_SIZE * i + DIRENT_SIZE <= |data|
  {
    data[DIRENT_SIZE * i + 10]
  }

  /** The length of name i of n: up to the next name, or for the last one to the first NUL or the end of the block. */
  function NameLength(data: Bytes, i: nat, n: nat): nat
    requires i < n && DIRENT_SIZE * n <= |data| && NameOffset(data, i) <= |data|
  {
    if i + 1 == n then StrNLen(data[NameOffset(data, i)..])
    else SubWrap(NameOffset(data, i + 1), NameOffset(data, i))
  }

  /** A name that passes the length checks lies in the block, and so does the start of the next one. */
  lemma NameInBlock(data: Bytes, i: nat, n: nat)
    requires i < n && DIRENT_SIZE * n <= |data| && NameOffset(data, i) <= |data|
    requires NameLength(data, i, n) <= NAME_MAX && NameOffset(data, i) + NameLength(data, i, n) <= |data|
    ensures i + 1 < n ==> NameOffset(data, i + 1) == NameOffset(data, i) + NameLength(data, i, n) <= |data|
  {
  }

  // ----- the parser -------------------------------------------------------

  datatype Parsed = Bad | Dots | Found(entry: DirEntry)

  /** Entry i of n. */
  function ParseDirent(data: Bytes, i: nat, n: nat): (r: Parsed)
    requires i < n && DIRENT_SIZE * n <= |data| && NameOffset(data, i) <= |data|
    ensures r != Bad && i + 1 < n ==> NameOffset(data, i + 1) <= |data|
  {
    if Nid(data, i) > 0xFFFF_FFFF || TypeByte(data, i) == 0 || TypeByte(data, i) >= 8 then Bad else
    var offset, length := NameOffset(data, i), NameLength(data, i, n);
    if length == 0 || length > NAME_MAX || offset + length > |data| then Bad else
    NameInBlock(data, i, n);
    var name := data[offset..offset + length];
    if name == DOT || name == DOT_DOT then Dots
    else if !ValidFileName(name) then Bad
    else Found(DirEntry(Nid(data, i), name, TypeFromNumber(TypeByte(data, i))))
  }

  /** Entries i to n of a block, or None where the code gives up. "." and ".." are passed over. */
  function ParseFrom(data: Bytes, i: nat, n: nat): Option<seq<DirEntry>>
    requires i <= n && DIRENT_SIZE * n <= |data|
    requires i < n ==> NameOffset(data, i) <= |data|
    decreases n - i
  {
    if i == n then Some([]) else
    match ParseDirent(data, i, n)
    case Bad => None
    case Dots => ParseFrom(data, i + 1, n)
    case Found(entry) =>
      match ParseFrom(data, i + 1, n)
      case None => None
      case Some(rest) => Some([entry] + rest)
  }

  /** A whole block; the first name offset tells the number of entries. */
  function ParseBlock(data: Bytes): Option<seq<DirEntry>>
    requires |data| >= DIRENT_SIZE
  {
    if NameOffset(data, 0) < DIRENT_SIZE || NameOffset(data, 0) >= |data| then None
    else ParseFrom(data, 0, NameOffset(data, 0) / DIRENT_SIZE)
  }

  method ProcessDirectoryBlock(data: Bytes, entries: seq<DirEntry>) returns (ok: bool, more: seq<DirEntry>)
    requires |data| >= DIRENT_SIZE
    ensures match ParseBlock(data)
            case None => !ok
            case Some(found) => ok && more == entries + found
  {
    more := entries;
    if NameOffset(data, 0) < DIRENT_SIZE || NameOffset(data, 0) >= |data| {
      return false, more;
    }
    var nEntries := NameOffset(data, 0) / DIRENT_SIZE;
    ghost var target := ParseFrom(data, 0, nEntries);
    hide ParseDirent;
    hide NameOffset;
    if target.Some? {
      assert entries + target.value == more + target.value;
    }
    for i := 0 to nEntries
      invariant i < nEntries ==> NameOffset(data, i) <= |data|
      invariant Continues(entries, target, more, ParseFrom(data, i, nEntries))
    {
      ghost var rest := if ParseDirent(data, i, nEntries) == Bad then None else ParseFrom(data, i + 1, nEntries);
      var parsed := ProcessDirent(data, i, nEntries);
      match parsed {
        case Bad => return false, more;
        case Dots => continue;
        case Found(entry) =>
          ContinuesWith(entries, target, more, [entry], rest);
          more := more + [entry];
      }
    }
    ok := true;
  }

  /** Whatever is still to come after `done` makes up `target` after `start`. */
  ghost predicate Continues(start: seq<DirEntry>, target: Option<seq<DirEntry>>, done: seq<DirEntry>,
                            rest: Option<seq<DirEntry>>) {
    match rest
    case None => target == None
    case Some(more) => target.Some? && start + target.value == done + more
  }

  lemma ContinuesWith(start: seq<DirEntry>, target: Option<seq<DirEntry>>, done: seq<DirEntry>, next: seq<DirEntry>,
                      rest: Option<seq<DirEntry>>)
    requires Continues(start, target, done, match rest case None => None case Some(more) => Some(next + more))
    ensures Continues(start, target, done + next, rest)
  {
    if rest.Some? {
      assert done + (next + rest.value) == done + next + rest.value;
    }
  }

  /** The checks on one entry. */
  method ProcessDirent(data: Bytes, i: nat, nEntries: nat) returns (r: Parsed)
    requires i < nEntries && DIRENT_SIZE * nEntries <= |data| && NameOffset(data, i) <= |data|
    ensures r == ParseDirent(data, i, nEntries)
  {
    hide Nid;
    hide TypeByte;
    hide StrNLen;
    hide ValidFileName;
    if Nid(data, i) > 0xFFFF_FFFF || TypeByte(data, i) == 0 || TypeByte(data, i) >= 8 {
      return Bad;
    }
    var nameOff := NameOffset(data, i);
    var nameLen;
    if i + 1 == nEntries {
      nameLen := StrNLen(data[nameOff..]);
    } else {
      nameLen := SubWrap(NameOffset(data, i + 1), nameOff);
    }
    hide NameOffset;
    if nameLen == 0 || nameLen > NAME_MAX || nameOff + nameLen > |data| {
      return Bad;
    }
    ghost var name := data[nameOff..nameOff + nameLen];
    if (nameLen == 1 && data[nameOff] == 0x2e) || (nameLen == 2 && data[nameOff] == 0x2e && data[nameOff + 1] == 0x2e) {
      assert name == if nameLen == 1 then DOT else DOT_DOT;
      return Dots;
    }
    assert name != DOT && name != DOT_DOT by {
      assert name[0] == data[nameOff];
      assert nameLen == 2 ==> name[1] == data[nameOff + 1];
    }
    var fileName := data[nameOff..nameOff + nameLen];
    var valid := ValidateFileName(fileName);
    if !valid {
      return Bad;
    }
    r := Found(DirEntry(Nid(data, i), fileName, TypeFromNumber(TypeByte(data, i))));
  }

  /** A directory: its blocks, one after the other. */
  function ParseDirectory(data: Bytes): Option<seq<DirEntry>>
    decreases |data|
  {
    if data == [] then Some([]) else
    var amount := Min(BLOCK_SIZE, |data|);
    if amount < DIRENT_SIZE then None else
    match (ParseBlock(data[..amount]), ParseDirectory(data[amount..]))
    case (Some(first), Some(rest)) => Some(first + rest)
    case _ => None
  }

  method ReadDirectoryBlocks(data: Bytes) returns (r: Option<seq<DirEntry>>)
    ensures r == ParseDirectory(data)
  {
    hide ParseBlock;
    var results: seq<DirEntry> := [];
    var offset := 0;
    assert data[0..] == data;
    ghost var target := ParseDirectory(data);
    if target.Some? {
      assert [] + target.value == results + target.value;
    }
    while offset < |data|
      invariant 0 <= offset <= |data|
      invariant Continues([], target, results, ParseDirectory(data[offset..]))
    {
      var amount := Min(BLOCK_SIZE, |data| - offset);
      if amount < DIRENT_SIZE {
        return None;
      }
      ghost var left := data[offset..];
      assert left[..amount] == data[offset..offset + amount] && left[amount..] == data[offset + amount..];
      ghost var before := results;
      var ok, more := ProcessDirectoryBlock(data[offset..offset + amount], results);
      if !ok {
        return None;
      }
      ContinuesWith([], target, before, ParseBlock(left[..amount]).value, ParseDirectory(left[amount..]));
      results := more;
      offset := offset + amount;
    }
    assert results + [] == results && (target.Some? ==> [] + target.value == target.value);
    r := Some(results);
  }

  // ----- the format -------------------------------------------------------

  /** What may be stored in a block: a 32-bit inode number and 1 to 255 bytes of name without a slash or NUL. */
  predicate Storable(e: DirEntry) {
    && e.inode < 0x1_0000_0000 && 1 <= |e.fileName| <= 255
    && forall i :: 0 <= i < |e.fileName| ==> e.fileName[i] != '/' as int && e.fileName[i] != 0
  }

  function NamesLength(entries: seq<DirEntry>): nat {
    if entries == [] then 0 else |entries[0].fileName| + NamesLength(entries[1..])
  }

  function Record(e: DirEntry, offset: nat): (r: Bytes)
    ensures |r| == DIRENT_SIZE
  {
    ToLE(e.inode, 8) + ToLE(offset, 2) + [TypeNumber(e.fileType), 0]
  }

  function Records(entries: seq<DirEntry>, offset: nat): (r: Bytes)
    ensures |r| == DIRENT_SIZE * |entries|
  {
    if entries == [] then [] else Record(entries[0], offset) + Records(entries[1..], offset + |entries[0].fileName|)
  }

  function Names(entries: seq<DirEntry>): (r: Bytes)
    ensures |r| == NamesLength(entries)
  {
    if entries == [] then [] else entries[0].fileName + Names(entries[1..])
  }

  /** Entries, then names, then zeros. */
  function EncodeBlock(entries: seq<DirEntry>, padding: nat): Bytes {
    Records(entries, DIRENT_SIZE * |entries|) + Names(entries) + Zeros(padding)
  }

  function WithoutDots(entries: seq<DirEntry>): seq<DirEntry> {
    if entries == [] then []
    else if entries[0].fileName == DOT || entries[0].fileName == DOT_DOT then WithoutDots(entries[1..])
    else [entries[0]] + WithoutDots(entries[1..])
  }

  ghost predicate AllStorable(entries: seq<DirEntry>) {
    forall i :: 0 <= i < |entries| ==> Storable(entries[i])
  }

  /** Where name i starts. */
  function NameStart(entries: seq<DirEntry>, i: nat): nat
    requires i <= |entries|
  {
    DIRENT_SIZE * |entries| + NamesLength(entries[..i])
  }

  lemma {:induction false} RecordAt(entries: seq<DirEntry>, offset: nat, i: nat)
    requires i < |entries|
    ensures Records(entries, offset)[DIRENT_SIZE * i..DIRENT_SIZE * i + DIRENT_SIZE]
            == Record(entries[i], offset + NamesLength(entries[..i]))
    decreases i
  {
    var first, rest := Record(entries[0], offset), Records(entries[1..], offset + |entries[0].fileName|);
    assert Records(entries, offset) == first + rest;
    if i == 0 {
      assert entries[..0] == [];
    } else {
      RecordAt(entries[1..], offset + |entries[0].fileName|, i - 1);
      assert entries[..i][1..] == entries[1..][..i - 1];
      assert (first + rest)[DIRENT_SIZE * i..DIRENT_SIZE * i + DIRENT_SIZE]
             == rest[DIRENT_SIZE * (i - 1)..DIRENT_SIZE * (i - 1) + DIRENT_SIZE];
    }
  }

  lemma {:induction false} NameAt(entries: seq<DirEntry>, i: nat)
    requires i < |entries|
    ensures NamesLength(entries[..i + 1]) == NamesLength(entries[..i]) + |entries[i].fileName|
    ensures NamesLength(entries[..i + 1]) <= NamesLength(entries)
    ensures Names(entries)[NamesLength(entries[..i])..NamesLength(entries[..i + 1])] == entries[i].fileName
    decreases i
  {
    assert entries[..i + 1][1..] == entries[1..][..i];
    if i == 0 {
      assert entries[..0] == [] && entries[1..][..0] == [];
    } else {
      NameAt(entries[1..], i - 1);
      assert entries[..i][1..] == entries[1..][..i - 1];
      var head := entries[0].fileName;
      var from, to := NamesLength(entries[1..][..i - 1]), NamesLength(entries[1..][..i]);
      assert (head + Names(entries[1..]))[|head| + from..|head| + to] == Names(entries[1..])[from..to];
    }
  }

  /** The fields of entry i of an encoded block. */
  lemma EncodedFields(entries: seq<DirEntry>, padding: nat, i: nat)
    requires AllStorable(entries) && i < |entries| && NameStart(entries, |entries|) < 0x1_0000
    ensures var data := EncodeBlock(entries, padding);
            && DIRENT_SIZE * |entries| <= |data|
            && Nid(data, i) == entries[i].inode
            && NameOffset(data, i) == NameStart(entries, i)
            && TypeByte(data, i) == TypeNumber(entries[i].fileType)
  {
    var data := EncodeBlock(entries, padding);
    var n := DIRENT_SIZE * |entries|;
    var start := NameStart(entries, i);
    NameAt(entries, i);
    assert entries[..|entries|] == entries;
    RecordAt(entries, n, i);
    RecordInBlock(Records(entries, n), Names(entries) + Zeros(padding), i);
    assert data == Records(entries, n) + (Names(entries) + Zeros(padding));
    hide EncodeBlock;
    RecordFields(data, i, entries[i], start);
  }

  lemma RecordInBlock(records: Bytes, others: Bytes, i: nat)
    requires DIRENT_SIZE * i + DIRENT_SIZE <= |records|
    ensures (records + others)[DIRENT_SIZE * i..DIRENT_SIZE * i + DIRENT_SIZE]
            == records[DIRENT_SIZE * i..DIRENT_SIZE * i + DIRENT_SIZE]
  {
  }

  lemma RecordFields(data: Bytes, i: nat, e: DirEntry, offset: nat)
    requires DIRENT_SIZE * i + DIRENT_SIZE <= |data| && e.inode < TWO32 && offset < 0x1_0000
    requires data[DIRENT_SIZE * i..DIRENT_SIZE * i + DIRENT_SIZE] == Record(e, offset)
    ensures Nid(data, i) == e.inode && NameOffset(data, i) == offset && TypeByte(data, i) == TypeNumber(e.fileType)
  {
    var at, record := DIRENT_SIZE * i, Record(e, offset);
    SliceOfSlice(data, at, DIRENT_SIZE, 0, 8);
    SliceOfSlice(data, at, DIRENT_SIZE, 8, 2);
    assert record[0..8] == ToLE(e.inode, 8) && record[8..10] == ToLE(offset, 2);
    assert data[at + 10] == data[at..at + DIRENT_SIZE][10] == record[10];
    assert Pow256(8) == TWO64 && Pow256(2) == 0x1_0000;
    LEToLE(e.inode, 8);
    LEToLE(offset, 2);
  }

  /** The name of entry i of an encoded block, as the parser measures it. */
  lemma EncodedName(entries: seq<DirEntry>, padding: nat, i: nat)
    requires AllStorable(entries) && i < |entries| && NameStart(entries, |entries|) < 0x1_0000
    ensures var data := EncodeBlock(entries, padding);
            && DIRENT_SIZE * |entries| <= |data|
            && NameOffset(data, i) == NameStart(entries, i) <= |data|
            && NameLength(data, i, |entries|) == |entries[i].fileName|
            && NameStart(entries, i) + |entries[i].fileName| <= |data|
            && data[NameStart(entries, i)..NameStart(entries, i) + |entries[i].fileName|] == entries[i].fileName
  {
    var data := EncodeBlock(entries, padding);
    var name, start := entries[i].fileName, NameStart(entries, i);
    EncodedFields(entries, padding, i);
    NameBytes(entries, padding, i);
    hide EncodeBlock;
    hide NameOffset;
    assert Storable(entries[i]);
    if i + 1 < |entries| {
      EncodedFields(entries, padding, i + 1);
      SubWrapIsLength(start, |name|);
    } else {
      assert data[start..] == data[start..start + |name|] + data[start + |name|..];
      NameThenZeros(name, padding);
    }
  }

  /** Each name is where the entries say, and only the padding follows the last one. */
  lemma NameBytes(entries: seq<DirEntry>, padding: nat, i: nat)
    requires i < |entries|
    ensures var data, start, end := EncodeBlock(entries, padding), NameStart(entries, i), NameStart(entries, i + 1);
            && end == start + |entries[i].fileName| <= |data|
            && data[start..end] == entries[i].fileName
            && (i + 1 == |entries| ==> data[end..] == Zeros(padding))
  {
    hide Records;
    hide Names;
    NameAt(entries, i);
    var from := NamesLength(entries[..i]);
    NameInNames(Records(entries, DIRENT_SIZE * |entries|), Names(entries), Zeros(padding), from, |entries[i].fileName|);
    if i + 1 == |entries| {
      assert entries[..i + 1] == entries;
    }
  }

  lemma SubWrapIsLength(start: nat, length: nat)
    requires length < TWO64
    ensures SubWrap(start + length, start) == length
  {
  }

  lemma NameInNames(records: Bytes, names: Bytes, zeros: Bytes, from: nat, length: nat)
    requires from + length <= |names|
    ensures (records + names + zeros)[|records| + from..|records| + from + length] == names[from..from + length]
  {
  }

  lemma {:induction false} NameThenZeros(name: Bytes, padding: nat)
    requires forall i :: 0 <= i < |name| ==> name[i] != 0
    ensures StrNLen(name + Zeros(padding)) == |name|
  {
    if name == [] {
      assert padding > 0 ==> (name + Zeros(padding))[0] == 0;
    } else {
      assert (name + Zeros(padding))[1..] == name[1..] + Zeros(padding);
      NameThenZeros(name[1..], padding);
    }
  }

  lemma {:induction false} ParseFromEncoded(entries: seq<DirEntry>, padding: nat, i: nat)
    requires AllStorable(entries) && i <= |entries| && NameStart(entries, |entries|) < 0x1_0000
    requires i < |entries| ==> NameOffset(EncodeBlock(entries, padding), i) <= |EncodeBlock(entries, padding)|
    ensures ParseFrom(EncodeBlock(entries, padding), i, |entries|) == Some(WithoutDots(entries[i..]))
    decreases |entries| - i
  {
    if i < |entries| {
      hide EncodeBlock;
      hide NameOffset;
      EncodedDirent(entries, padding, i);
      hide ParseDirent;
      ParseFromEncoded(entries, padding, i + 1);
      assert entries[i..][1..] == entries[i + 1..];
    }
  }

  lemma EncodedDirent(entries: seq<DirEntry>, padding: nat, i: nat)
    requires AllStorable(entries) && i < |entries| && NameStart(entries, |entries|) < 0x1_0000
    ensures var data := EncodeBlock(entries, padding);
            && DIRENT_SIZE * |entries| <= |data| && NameOffset(data, i) <= |data|
            && ParseDirent(data, i, |entries|) ==
               if entries[i].fileName == DOT || entries[i].fileName == DOT_DOT then Dots else Found(entries[i])
  {
    hide EncodeBlock;
    hide NameOffset;
    hide Nid;
    hide TypeByte;
    hide NameLength;
    hide NameStart;
    EncodedFields(entries, padding, i);
    EncodedName(entries, padding, i);
    assert Storable(entries[i]);
  }

  /** Parsing a block gives back the entries it was made from, in order and without "." and "..". */
  lemma BlockRoundTrip(entries: seq<DirEntry>, padding: nat)
    requires entries != [] && AllStorable(entries) && NameStart(entries, |entries|) < 0x1_0000
    ensures |EncodeBlock(entries, padding)| >= DIRENT_SIZE
    ensures ParseBlock(EncodeBlock(entries, padding)) == Some(WithoutDots(entries))
  {
    hide EncodeBlock;
    hide NameOffset;
    hide ParseFrom;
    hide NameLength;
    EncodedFields(entries, padding, 0);
    EncodedName(entries, padding, 0);
    assert entries[..0] == [];
    assert Storable(entries[0]);
    assert entries[0..] == entries;
    ParseFromEncoded(entries, padding, 0);
  }

  // ----- whole directories ------------------------------------------------

  /** Entries that one block has room for. */
  ghost predicate FitsBlock(entries: seq<DirEntry>) {
    entries != [] && AllStorable(entries) && NameStart(entries, |entries|) <= 4096
  }

  function EntriesOf(groups: seq<seq<DirEntry>>): seq<DirEntry> {
    if groups == [] then [] else groups[0] + EntriesOf(groups[1..])
  }

  /** A directory over several blocks: every block but the last is filled up with zeros. */
  function EncodeDirectory(groups: seq<seq<DirEntry>>, lastPadding: nat): Bytes {
    if groups == [] then [] else
      var used := NameStart(groups[0], |groups[0]|);
      if |groups| == 1 || used > 4096 then EncodeBlock(groups[0], lastPadding)
      else EncodeBlock(groups[0], 4096 - used) + EncodeDirectory(groups[1..], lastPadding)
  }

  lemma BlockLength(entries: seq<DirEntry>, padding: nat)
    ensures |EncodeBlock(entries, padding)| == NameStart(entries, |entries|) + padding
  {
    assert entries[..|entries|] == entries;
  }

  lemma {:induction false} WithoutDotsJoin(a: seq<DirEntry>, b: seq<DirEntry>)
    ensures WithoutDots(a + b) == WithoutDots(a) + WithoutDots(b)
  {
    if a == [] {
      assert a + b == b;
    } else {
      assert (a + b)[1..] == a[1..] + b;
      WithoutDotsJoin(a[1..], b);
    }
  }

  /** Parsing a directory of any number of blocks gives back all its entries in order, without "." and "..". */
  lemma {:induction false} DirectoryRoundTrip(groups: seq<seq<DirEntry>>, lastPadding: nat)
    requires forall group <- groups :: FitsBlock(group)
    requires groups != [] ==>
               NameStart(groups[|groups| - 1], |groups[|groups| - 1]|) + lastPadding <= 4096
    ensures ParseDirectory(EncodeDirectory(groups, lastPadding)) == Some(WithoutDots(EntriesOf(groups)))
  {
    hide EncodeBlock, ParseBlock, NameStart;
    if groups == [] {
      return;
    }
    var first, used := groups[0], NameStart(groups[0], |groups[0]|);
    assert FitsBlock(first);
    var padding := if |groups| == 1 then lastPadding else 4096 - used;
    BlockRoundTrip(first, padding);
    BlockLength(first, padding);
    var block, data := EncodeBlock(first, padding), EncodeDirectory(groups, lastPadding);
    var rest := if |groups| == 1 then [] else EncodeDirectory(groups[1..], lastPadding);
    assert data == block + rest;
    if |groups| > 1 {
      DirectoryRoundTrip(groups[1..], lastPadding);
    } else {
      assert EntriesOf(groups[1..]) == [] && ParseDirectory([]) == Some([]);
    }
    assert data[..|block|] == block && data[|block|..] == rest;
    WithoutDotsJoin(first, EntriesOf(groups[1..]));
  }

  // ----- what any block holds ---------------------------------------------

  /** The number of a file type in the format. */
  predicate HasType(number: Byte, t: FileType) {
    match t
    case Regular => number == 1
    case Directory => number == 2
    case Character => number == 3
    case BlockDevice => number == 4
    case Fifo => number == 5
    case Socket => number == 6
    case Symlink => number == 7
  }

  /**
   Entry i of the n in a block, from its bytes: the number of the inode, where the name starts, and the type. The name
   ends where the next one starts; the last one ends with a NUL or with the block.
   */
  ghost predicate IsEntry(data: Bytes, i: nat, n: nat, e: DirEntry)
    requires i < n && 12 * n <= |data|
  {
    var start := LE(data[12 * i + 8..12 * i + 10]);
    var end := start + |e.fileName|;
    && Storable(e)
    && LE(data[12 * i..12 * i + 8]) == e.inode
    && HasType(data[12 * i + 10], e.fileType)
    && end <= |data| && data[start..end] == e.fileName
    && (i + 1 < n ==> LE(data[12 * i + 20..12 * i + 22]) == end)
    && (i + 1 == n ==> end == |data| || data[end] == 0)
  }

  ghost predicate AreEntries(data: Bytes, from: nat, n: nat, entries: seq<DirEntry>)
    requires from <= n && 12 * n <= |data|
  {
    |entries| == n - from && forall k :: 0 <= k < |entries| ==> IsEntry(data, from + k, n, entries[k])
  }

  lemma NameEnds(data: Bytes, start: nat, name: Bytes)
    requires start + |name| <= |data| && data[start..start + |name|] == name
    requires forall i :: 0 <= i < |name| ==> name[i] != 0
    requires start + |name| == |data| || data[start + |name|] == 0
    ensures StrNLen(data[start..]) == |name|
  {
    var tail := data[start..];
    assert forall i :: 0 <= i < |name| ==> tail[i] == data[start..start + |name|][i];
    assert |name| < |tail| ==> tail[|name|] == data[start + |name|];
  }

  /** An entry of the block is what the parser finds there. */
  lemma EntryIsParsed(data: Bytes, i: nat, n: nat, e: DirEntry)
    requires i < n && 12 * n <= |data| && IsEntry(data, i, n, e)
    ensures NameOffset(data, i) <= |data| && (i + 1 < n ==> NameOffset(data, i + 1) <= |data|)
    ensures ParseDirent(data, i, n) == if e.fileName == [0x2e] || e.fileName == [0x2e, 0x2e] then Dots else Found(e)
  {
    hide LE, StrNLen;
    var start := NameOffset(data, i);
    if i + 1 == n {
      NameEnds(data, start, e.fileName);
    } else {
      SubWrapIsLength(start, |e.fileName|);
    }
  }

  /** What the parser finds is an entry of the block. */
  lemma ParsedIsEntry(data: Bytes, i: nat, n: nat) returns (e: DirEntry)
    requires i < n && 12 * n <= |data| && NameOffset(data, i) <= |data| && ParseDirent(data, i, n) != Bad
    ensures IsEntry(data, i, n, e)
  {
    hide LE, StrNLen;
    var start, length := NameOffset(data, i), NameLength(data, i, n);
    NameInBlock(data, i, n);
    e := DirEntry(Nid(data, i), data[start..start + length], TypeFromNumber(TypeByte(data, i)));
    if i + 1 == n && start + length < |data| {
      assert data[start..][length] == data[start + length];
    }
  }

  lemma {:induction false} EntriesAreParsed(data: Bytes, from: nat, n: nat, entries: seq<DirEntry>)
    requires from <= n && 12 * n <= |data| && AreEntries(data, from, n, entries)
    ensures from < n ==> NameOffset(data, from) <= |data|
    ensures ParseFrom(data, from, n) == Some(WithoutDots(entries))
    decreases n - from
  {
    hide IsEntry, ParseDirent;
    if from < n {
      assert IsEntry(data, from + 0, n, entries[0]);
      EntryIsParsed(data, from, n, entries[0]);
      forall k | 0 <= k < |entries[1..]|
        ensures IsEntry(data, from + 1 + k, n, entries[1..][k])
      {
        assert IsEntry(data, from + (k + 1), n, entries[k + 1]);
      }
      EntriesAreParsed(data, from + 1, n, entries[1..]);
    }
  }

  lemma {:induction false} ParsedAreEntries(data: Bytes, from: nat, n: nat) returns (entries: seq<DirEntry>)
    requires from <= n && 12 * n <= |data| && (from < n ==> NameOffset(data, from) <= |data|)
    requires ParseFrom(data, from, n).Some?
    ensures AreEntries(data, from, n, entries)
    decreases n - from
  {
    hide IsEntry, ParseDirent;
    entries := [];
    if from < n {
      var e := ParsedIsEntry(data, from, n);
      var rest := ParsedAreEntries(data, from + 1, n);
      entries := [e] + rest;
    }
  }

  /**
   What parsing any block gives: the entries it holds, without "." and "..", and nothing exactly when it does not hold as
   many entries as the place of the first name says.
   */
  lemma ParseBlockMeans(data: Bytes, found: seq<DirEntry>)
    requires |data| >= 12
    ensures ParseBlock(data) == Some(found) <==>
            var first := LE(data[8..10]);
            && 12 <= first < |data|
            && exists entries :: AreEntries(data, 0, first / 12, entries) && found == WithoutDots(entries)
  {
    hide AreEntries, ParseFrom;
    var first := LE(data[8..10]);
    assert first == NameOffset(data, 0);
    if 12 <= first < |data| {
      var n := first / 12;
      if ParseFrom(data, 0, n).Some? {
        var entries := ParsedAreEntries(data, 0, n);
        EntriesAreParsed(data, 0, n, entries);
      }
      if entries :| AreEntries(data, 0, n, entries) && found == WithoutDots(entries) {
        EntriesAreParsed(data, 0, n, entries);
      }
    }
  }
}

/** The on-disk pair of `asset_pack.c`: a data file and its index, and the check a pair must pass to be mounted. */
module PackFormat {
  import opened Bytes
  import opened Slices
  import opened CStrings

  const PACK_VERSION: u32 := 2
  const PACK_HEADER_SIZE := 40
  const INDEX_HEADER_SIZE := 56
  const ENTRY_SIZE := 24
  const MAX_FILES := 100000
  const MAX_PATHS_SIZE := 0x400_0000
  const PACK_MAGIC: bytes := [0x53, 0x53, 0x4E, 0x58, 0x50, 0x41, 0x4B, 0x31]   // "SSNXPAK1"
  const INDEX_MAGIC: bytes := [0x53, 0x53, 0x4E, 0x58, 0x49, 0x44, 0x58, 0x31]  // "SSNXIDX1"

  datatype PackHeader = PackHeader(magic: bytes, version: u32, reserved: u32,
                                   packId: u64, fileSize: u64, dataChecksum: u64)

  datatype IndexHeader = IndexHeader(magic: bytes, version: u32, count: u32, packId: u64, packSize: u64,
                                     pathsSize: u64, checksum: u64, dataChecksum: u64)

  datatype DiskEntry = DiskEntry(offset: u64, size: u64, pathOffset: u32, pathLength: u32)

  datatype LoadError = NoPack | BadHeader | BadIndexSize | BadChecksum | BadEntry

  datatype Result<+T, +E> = Success(value: T) | Failure(error: E)

  /** What a successful load leaves in memory: the open data file, the entry table and the path pool. */
  datatype Mount = Mount(data: bytes, entries: seq<DiskEntry>, paths: bytes) {
    function Path(i: nat): bytes
      requires i < |entries|
    {
      CStringAt(paths, entries[i].pathOffset)
    }

    predicate EntryOk(i: nat)
      requires i < |entries|
    {
      var e := entries[i];
      var end := e.pathOffset + e.pathLength;
      && e.pathLength != 0
      && end < |paths| && paths[end] == NUL
      && ValidPath(paths[e.pathOffset..end])
      && PACK_HEADER_SIZE <= e.offset <= |data| && e.size <= |data| - e.offset
      && (i > 0 ==> Less(Path(i - 1), Path(i)))
    }

    predicate Valid() {
      && 0 < |entries| <= MAX_FILES
      && forall i :: 0 <= i < |entries| ==> EntryOk(i)
    }

    /** The stored bytes of entry `i`. */
    function Content(i: nat): (c: bytes)
      requires i < |entries| && EntryOk(i)
      ensures |c| == entries[i].size
    {
      data[entries[i].offset..entries[i].offset + entries[i].size]
    }
  }

  // ---- records ----

  function PackHeaderBytes(h: PackHeader): bytes {
    h.magic + LE(4, h.version) + LE(4, h.reserved) + LE(8, h.packId) + LE(8, h.fileSize) + LE(8, h.dataChecksum)
  }

  function IndexHeaderBytes(h: IndexHeader): bytes {
    h.magic + LE(4, h.version) + LE(4, h.count) + LE(8, h.packId) + LE(8, h.packSize) + LE(8, h.pathsSize)
    + LE(8, h.checksum) + LE(8, h.dataChecksum)
  }

  function EntryBytes(e: DiskEntry): (s: bytes)
    ensures |s| == ENTRY_SIZE
  {
    LE(8, e.offset) + LE(8, e.size) + LE(4, e.pathOffset) + LE(4, e.pathLength)
  }

  function ParsePackHeader(b: bytes): PackHeader
    requires |b| >= PACK_HEADER_SIZE
  {
    PackHeader(b[..8], U32At(b, 8), U32At(b, 12), U64At(b, 16), U64At(b, 24), U64At(b, 32))
  }

  function ParseIndexHeader(b: bytes): IndexHeader
    requires |b| >= INDEX_HEADER_SIZE
  {
    IndexHeader(b[..8], U32At(b, 8), U32At(b, 12), U64At(b, 16), U64At(b, 24), U64At(b, 32), U64At(b, 40), U64At(b, 48))
  }

  function ParseEntry(b: bytes, p: nat): DiskEntry
    requires p + ENTRY_SIZE <= |b|
  {
    DiskEntry(U64At(b, p), U64At(b, p + 8), U32At(b, p + 16), U32At(b, p + 20))
  }

  /** Where record `i` of the entry table starts. */
  function EntryAt(i: nat): nat { 24 * i }

  lemma {:induction false} EntryFits(i: nat, n: nat)
    requires i < n
    ensures EntryAt(i) + ENTRY_SIZE <= EntryAt(n)
  {
  }

  function ParseEntries(b: bytes, count: nat): seq<DiskEntry>
    requires EntryAt(count) <= |b|
  {
    seq(count, i requires 0 <= i < count => ParseEntry(b, EntryAt(i)))
  }

  /** Where the fields of the three records stand in a file, as the packed structures lay them out. */
  lemma {:induction false} FieldsStand(b: bytes)
    ensures
      |b| >= PACK_HEADER_SIZE ==>
        var h := ParsePackHeader(b);
        && h.magic == b[0..8] && h.version == FromLE(b[8..12]) && h.reserved == FromLE(b[12..16])
        && h.packId == FromLE(b[16..24]) && h.fileSize == FromLE(b[24..32]) && h.dataChecksum == FromLE(b[32..40])
    ensures
      |b| >= INDEX_HEADER_SIZE ==>
        var h := ParseIndexHeader(b);
        && h.magic == b[0..8] && h.version == FromLE(b[8..12]) && h.count == FromLE(b[12..16])
        && h.packId == FromLE(b[16..24]) && h.packSize == FromLE(b[24..32]) && h.pathsSize == FromLE(b[32..40])
        && h.checksum == FromLE(b[40..48]) && h.dataChecksum == FromLE(b[48..56])
    ensures
      |b| >= ENTRY_SIZE ==>
        var e := ParseEntry(b, 0);
        && e.offset == FromLE(b[0..8]) && e.size == FromLE(b[8..16])
        && e.pathOffset == FromLE(b[16..20]) && e.pathLength == FromLE(b[20..24])
  {
  }

  lemma {:induction false} PackHeaderRoundTrip(h: PackHeader, rest: bytes)
    requires |h.magic| == 8
    ensures |PackHeaderBytes(h)| == PACK_HEADER_SIZE
    ensures ParsePackHeader(PackHeaderBytes(h) + rest) == h
  {
    hide LE, FromLE;
    var b := PackHeaderBytes(h) + rest;
    assert b[..8] == h.magic;
    assert b[8..12] == LE(4, h.version) && b[12..16] == LE(4, h.reserved);
    assert b[16..24] == LE(8, h.packId) && b[24..32] == LE(8, h.fileSize) && b[32..40] == LE(8, h.dataChecksum);
    RoundTrip32(h.version);
    RoundTrip32(h.reserved);
    RoundTrip64(h.packId);
    RoundTrip64(h.fileSize);
    RoundTrip64(h.dataChecksum);
  }

  lemma {:induction false} IndexHeaderRoundTrip(h: IndexHeader, rest: bytes)
    requires |h.magic| == 8
    ensures |IndexHeaderBytes(h)| == INDEX_HEADER_SIZE
    ensures ParseIndexHeader(IndexHeaderBytes(h) + rest) == h
  {
    hide LE, FromLE;
    var b := IndexHeaderBytes(h) + rest;
    assert b[..8] == h.magic;
    assert b[8..12] == LE(4, h.version) && b[12..16] == LE(4, h.count);
    assert b[16..24] == LE(8, h.packId) && b[24..32] == LE(8, h.packSize) && b[32..40] == LE(8, h.pathsSize);
    assert b[40..48] == LE(8, h.checksum) && b[48..56] == LE(8, h.dataChecksum);
    RoundTrip32(h.version);
    RoundTrip32(h.count);
    RoundTrip64(h.packId);
    RoundTrip64(h.packSize);
    RoundTrip64(h.pathsSize);
    RoundTrip64(h.checksum);
    RoundTrip64(h.dataChecksum);
  }

  lemma {:induction false} EntryRoundTrip(e: DiskEntry, b: bytes, p: nat)
    requires p + ENTRY_SIZE <= |b| && b[p..p + ENTRY_SIZE] == EntryBytes(e)
    ensures ParseEntry(b, p) == e
  {
    hide LE, FromLE;
    FourParts(LE(8, e.offset), LE(8, e.size), LE(4, e.pathOffset), LE(4, e.pathLength));
    OfSlice(b, p, ENTRY_SIZE, 0, 8);
    OfSlice(b, p, ENTRY_SIZE, 8, 16);
    OfSlice(b, p, ENTRY_SIZE, 16, 20);
    OfSlice(b, p, ENTRY_SIZE, 20, 24);
    RoundTrip64(e.offset);
    RoundTrip64(e.size);
    RoundTrip32(e.pathOffset);
    RoundTrip32(e.pathLength);
  }

  /** One `read`: at least a byte and at most what was asked for, as the device pleases; nothing at the end. */
  method DeviceRead(file: bytes, offset: nat, count: nat) returns (got: bytes)
    requires count > 0
    ensures |got| <= count && (got == [] <==> offset >= |file|)
    ensures FromFile(file, offset, got)
  {
    if offset >= |file| {
      return [];
    }
    var most := Min(count, |file| - offset);
    var n :| 0 < n <= most;
    return file[offset..offset + n];
  }

  /** The bytes stand at `offset`; nothing may stand anywhere. */
  predicate FromFile(file: bytes, offset: nat, b: bytes) {
    b != [] ==> offset + |b| <= |file| && b == file[offset..offset + |b|]
  }

  lemma {:induction false} ReadOn(file: bytes, offset: nat, b: bytes, got: bytes)
    requires FromFile(file, offset, b) && FromFile(file, offset + |b|, got) && got != []
    ensures FromFile(file, offset, b + got)
  {
    Adjacent(file, offset, offset + |b|, offset + |b| + |got|);
  }

  /** `read_at`: however the device cuts its answers, all of the range, or nothing when the file ends before. */
  method ReadAt(file: bytes, size: nat, offset: nat) returns (r: Option<bytes>)
    ensures r.Some? <==> size == 0 || offset + size <= |file|
    ensures r.Some? ==> |r.value| == size
    ensures r.Some? && size > 0 ==> r.value == file[offset..offset + size]
  {
    var buffer: bytes := [];
    while |buffer| < size
      invariant |buffer| <= size && FromFile(file, offset, buffer)
    {
      var got := DeviceRead(file, offset + |buffer|, size - |buffer|);
      if got == [] {
        return None;
      }
      ReadOn(file, offset, buffer, got);
      buffer := buffer + got;
    }
    return Some(buffer);
  }

  // ---- what load_pair accepts ----

  predicate HeadersAgree(pack: bytes, index: bytes) {
    && |pack| >= PACK_HEADER_SIZE && |index| >= INDEX_HEADER_SIZE
    && var p, q := ParsePackHeader(pack), ParseIndexHeader(index);
       && p.magic == PACK_MAGIC && q.magic == INDEX_MAGIC
       && p.version == PACK_VERSION && q.version == PACK_VERSION
       && p.packId == q.packId && p.dataChecksum == q.dataChecksum
       && p.fileSize == |pack| && q.packSize == |pack|
       && 0 < q.count <= MAX_FILES && 0 < q.pathsSize <= MAX_PATHS_SIZE
  }

  predicate IndexComplete(index: bytes)
    requires |index| >= INDEX_HEADER_SIZE
  {
    var q := ParseIndexHeader(index);
    INDEX_HEADER_SIZE + EntryAt(q.count) + q.pathsSize == |index|
  }

  predicate ChecksumAgrees(index: bytes)
    requires |index| >= INDEX_HEADER_SIZE
  {
    Fnv(FNV_SEED, index[INDEX_HEADER_SIZE..]) == ParseIndexHeader(index).checksum
  }

  /** The mount that a complete index describes. */
  function MountOf(pack: bytes, index: bytes): Mount
    requires |index| >= INDEX_HEADER_SIZE && IndexComplete(index)
  {
    var q := ParseIndexHeader(index);
    var body := index[INDEX_HEADER_SIZE..];
    Mount(pack, ParseEntries(body, q.count), body[EntryAt(q.count)..])
  }

  predicate ValidPair(pack: bytes, index: bytes) {
    HeadersAgree(pack, index) && IndexComplete(index) && ChecksumAgrees(index) && MountOf(pack, index).Valid()
  }

  /** What the scan knows after `i` bytes, `part` of them in the unfinished component. */
  predicate Scanned(path: bytes, i: nat, part: nat) {
    && part <= i <= |path|
    && var parts := Split(path[..i]);
       && Last(parts) == path[i - part..i]
       && BACKSLASH !in Last(parts) && COLON !in Last(parts)
       && forall c :: c in DropLast(parts) ==> GoodComponent(c)
  }

  /** `valid_relative`: one pass over the bytes, counting the length of the component so far. */
  method ValidRelative(path: bytes) returns (ok: bool)
    ensures ok <==> ValidPath(path)
  {
    hide Scanned, ValidPath, GoodComponent;
    if path == [] || path[0] == SLASH || path[|path| - 1] == SLASH {
      EmptyComponentRejected(path);
      return false;
    }
    ScanStarts(path);
    var part := 0;
    for i := 0 to |path| + 1
      invariant i <= |path| ==> part <= i && Scanned(path, i, part)
      invariant i == |path| + 1 ==> ValidPath(path)
    {
      if i == |path| || path[i] == SLASH {
        var good := ComponentOk(path, i, part);
        if !good {
          return false;
        }
        ComponentEnds(path, i, part);
        part := 0;
      } else {
        if path[i] == BACKSLASH || path[i] == COLON {
          BadByteRejected(path, i);
          return false;
        }
        ComponentGrows(path, i, part);
        part := part + 1;
      }
    }
    return true;
  }

  /** The test at the end of a component. */
  method ComponentOk(path: bytes, i: nat, part: nat) returns (good: bool)
    requires Scanned(path, i, part) && (i == |path| || path[i] == SLASH)
    ensures good <==> GoodComponent(path[i - part..i])
    ensures !good ==> !ValidPath(path)
  {
    hide ValidPath, GoodComponent;
    ComponentVerdict(path, i, part);
    return !(part == 0 || (part == 1 && path[i - 1] == DOT) || (part == 2 && path[i - 2] == DOT && path[i - 1] == DOT));
  }

  lemma {:induction false} ScanStarts(path: bytes)
    ensures Scanned(path, 0, 0)
  {
  }

  /** The three-way test at the end of a component recognises exactly the bad ones. */
  lemma {:induction false} ComponentVerdict(path: bytes, i: nat, part: nat)
    requires Scanned(path, i, part) && (i == |path| || path[i] == SLASH)
    ensures GoodComponent(path[i - part..i]) <==>
      !(part == 0 || (part == 1 && path[i - 1] == DOT) || (part == 2 && path[i - 2] == DOT && path[i - 1] == DOT))
    ensures !GoodComponent(path[i - part..i]) ==> !ValidPath(path)
  {
    LastComponentFinal(path, i);
    var c := path[i - part..i];
    assert part > 0 ==> c[part - 1] == path[i - 1];
    assert part > 1 ==> c[part - 2] == path[i - 2];
  }

  lemma {:induction false} ComponentEnds(path: bytes, i: nat, part: nat)
    requires Scanned(path, i, part) && (i == |path| || path[i] == SLASH)
    requires GoodComponent(path[i - part..i])
    ensures i < |path| ==> Scanned(path, i + 1, 0)
    ensures i == |path| ==> ValidPath(path)
  {
    hide GoodComponent;
    LastComponentFinal(path, i);
    if i < |path| {
      assert path[..i + 1] == path[..i] + [SLASH];
      SplitSnocSlash(path[..i]);
    }
  }

  lemma {:induction false} ComponentGrows(path: bytes, i: nat, part: nat)
    requires Scanned(path, i, part) && i < |path| && path[i] !in {SLASH, BACKSLASH, COLON}
    ensures Scanned(path, i + 1, part + 1)
  {
    assert path[..i + 1] == path[..i] + [path[i]];
    SplitSnocOther(path[..i], path[i]);
    assert path[i - part..i + 1] == path[i - part..i] + [path[i]];
  }

  lemma {:induction false} EmptyComponentRejected(path: bytes)
    requires path == [] || path[0] == SLASH || path[|path| - 1] == SLASH
    ensures !ValidPath(path)
  {
    if path == [] || path[0] == SLASH {
      assert Split(path)[0] == [];
      assert [] in Split(path);
    } else {
      var init := path[..|path| - 1];
      assert path == init + [SLASH];
      SplitSnocSlash(init);
      assert Last(Split(path)) == [] && [] in Split(path);
    }
  }

  /** A component that ends at `i` is a component of the whole path. */
  lemma {:induction false} LastComponentFinal(path: bytes, i: nat)
    requires i <= |path| && (i == |path| || path[i] == SLASH)
    ensures Last(Split(path[..i])) in Split(path)
    ensures forall c :: c in DropLast(Split(path[..i])) ==> c in Split(path)
    ensures i == |path| ==> Split(path) == DropLast(Split(path[..i])) + [Last(Split(path[..i]))]
  {
    var parts := Split(path[..i]);
    assert parts == DropLast(parts) + [Last(parts)];
    if i == |path| {
      assert path[..i] == path;
    } else {
      SplitAt(path, i);
      SplitAtSlash(path[..i], path[i + 1..]);
      assert parts <= Split(path);
    }
  }

  /** Splitting loses no byte other than the separators. */
  lemma {:induction false} SplitKeepsPart(path: bytes, b: byte, k: nat)
    requires path != [] && k < |Split(path[1..])| && b in Split(path[1..])[k]
    ensures exists j :: 0 <= j < |Split(path)| && b in Split(path)[j]
  {
    var rest := Split(path[1..]);
    if path[0] == SLASH {
      assert Split(path)[k + 1] == rest[k];
    } else {
      assert k > 0 ==> Split(path)[k] == rest[k];
      assert b in Split(path)[k];
    }
  }

  lemma {:induction false} SplitKeepsBytes(path: bytes, i: nat)
    requires i < |path| && path[i] != SLASH
    ensures exists k :: 0 <= k < |Split(path)| && path[i] in Split(path)[k]
    decreases |path|
  {
    var rest := Split(path[1..]);
    if i == 0 {
      assert path[i] in Split(path)[0];
    } else {
      SplitKeepsBytes(path[1..], i - 1);
      var k :| 0 <= k < |rest| && path[i] in rest[k];
      SplitKeepsPart(path, path[i], k);
    }
  }

  lemma {:induction false} BadByteRejected(path: bytes, i: nat)
    requires i < |path| && path[i] in {BACKSLASH, COLON}
    ensures !ValidPath(path)
  {
    SplitKeepsBytes(path, i);
    var k :| 0 <= k < |Split(path)| && path[i] in Split(path)[k];
    assert Split(path)[k] in Split(path);
  }

  /** `load_pair`: every test in its order, the two `fnv_bytes` passes and the entry loop. */
  method LoadPair(pack: Option<bytes>, index: Option<bytes>) returns (r: Result<Mount, LoadError>)
    ensures r.Success? <==> pack.Some? && index.Some? && ValidPair(pack.value, index.value)
    ensures r.Success? ==> r.value == MountOf(pack.value, index.value)
    ensures r == Failure(NoPack) <==> pack.None? || index.None?
    ensures r == Failure(BadHeader) <==> pack.Some? && index.Some? && !HeadersAgree(pack.value, index.value)
    ensures r == Failure(BadIndexSize) <==>
      pack.Some? && index.Some? && HeadersAgree(pack.value, index.value) && !IndexComplete(index.value)
    ensures r == Failure(BadChecksum) <==>
      pack.Some? && index.Some? && HeadersAgree(pack.value, index.value) && IndexComplete(index.value)
      && !ChecksumAgrees(index.value)
  {
    if pack.None? || index.None? {
      return Failure(NoPack);
    }
    var agree := CheckHeaders(pack.value, index.value);
    if !agree {
      return Failure(BadHeader);
    }
    var q := ParseIndexHeader(index.value);
    var entriesSize := EntryAt(q.count);
    if INDEX_HEADER_SIZE + entriesSize + q.pathsSize != |index.value| {
      return Failure(BadIndexSize);
    }
    var entryBytes := index.value[INDEX_HEADER_SIZE..INDEX_HEADER_SIZE + entriesSize];
    var paths := index.value[INDEX_HEADER_SIZE + entriesSize..];
    MountOfParts(pack.value, index.value);
    var checksum := FnvBytes(FNV_SEED, entryBytes);
    checksum := FnvBytes(checksum, paths);
    FnvConcat(FNV_SEED, entryBytes, paths);
    if checksum != q.checksum {
      return Failure(BadChecksum);
    }
    var m := Mount(pack.value, ParseEntries(entryBytes, q.count), paths);
    var ok := CheckEntries(m);
    return if ok then Success(m) else Failure(BadEntry);
  }

  /** The header tests of `load_pair`. */
  method CheckHeaders(pack: bytes, index: bytes) returns (ok: bool)
    ensures ok <==> HeadersAgree(pack, index)
  {
    if |pack| < PACK_HEADER_SIZE || |index| < INDEX_HEADER_SIZE {
      return false;
    }
    var p, q := ParsePackHeader(pack), ParseIndexHeader(index);
    if || p.magic != PACK_MAGIC || q.magic != INDEX_MAGIC
       || p.version != PACK_VERSION || q.version != PACK_VERSION
       || p.packId != q.packId || p.fileSize != |pack| || p.dataChecksum != q.dataChecksum
       || q.packSize != |pack|
       || q.count == 0 || q.count > MAX_FILES || q.pathsSize == 0 || q.pathsSize > MAX_PATHS_SIZE {
      return false;
    }
    return true;
  }

  /** The two reads of the index body cover it. */
  lemma {:induction false} MountOfParts(pack: bytes, index: bytes)
    requires |index| >= INDEX_HEADER_SIZE && IndexComplete(index)
    ensures
      var q := ParseIndexHeader(index);
      var mid := INDEX_HEADER_SIZE + EntryAt(q.count);
      && index[INDEX_HEADER_SIZE..] == index[INDEX_HEADER_SIZE..mid] + index[mid..]
      && MountOf(pack, index) == Mount(pack, ParseEntries(index[INDEX_HEADER_SIZE..mid], q.count), index[mid..])
  {
    var q := ParseIndexHeader(index);
    var mid := INDEX_HEADER_SIZE + EntryAt(q.count);
    var body := index[INDEX_HEADER_SIZE..];
    assert body == index[INDEX_HEADER_SIZE..mid] + index[mid..];
    assert body[EntryAt(q.count)..] == index[mid..];
    ParseEntriesLocal(index[INDEX_HEADER_SIZE..mid], body, q.count);
  }

  /** The validation loop of `load_pair` over the entries it has read. */
  method CheckEntries(m: Mount) returns (ok: bool)
    requires 0 < |m.entries| <= MAX_FILES
    ensures ok <==> m.Valid()
  {
    for i := 0 to |m.entries|
      invariant forall j :: 0 <= j < i ==> m.EntryOk(j)
    {
      var e := m.entries[i];
      var pathEnd: nat := e.pathOffset + e.pathLength + 1;
      if e.pathLength == 0 || pathEnd > |m.paths| || m.paths[e.pathOffset + e.pathLength] != NUL {
        assert !m.EntryOk(i);
        return false;
      }
      var valid := ValidRelative(m.paths[e.pathOffset..e.pathOffset + e.pathLength]);
      if || !valid || e.offset < PACK_HEADER_SIZE || e.offset > |m.data| || e.size > |m.data| - e.offset
         || (i > 0 && !Less(CStringAt(m.paths, m.entries[i - 1].pathOffset), CStringAt(m.paths, e.pathOffset))) {
        assert !m.EntryOk(i);
        return false;
      }
    }
    return true;
  }

  lemma {:induction false} ParseEntriesLocal(a: bytes, b: bytes, count: nat)
    requires a <= b && EntryAt(count) <= |a|
    ensures ParseEntries(a, count) == ParseEntries(b, count)
  {
    forall i | 0 <= i < count ensures ParseEntries(a, count)[i] == ParseEntries(b, count)[i] {
      ParseEntryLocal(a, b, EntryAt(i));
    }
  }

  lemma {:induction false} ParseEntryLocal(a: bytes, b: bytes, p: nat)
    requires a <= b && p + ENTRY_SIZE <= |a|
    ensures ParseEntry(a, p) == ParseEntry(b, p)
  {
    assert a[p..p + 8] == b[p..p + 8];
    assert a[p + 8..p + 16] == b[p + 8..p + 16];
    assert a[p + 16..p + 20] == b[p + 16..p + 20];
    assert a[p + 20..p + 24] == b[p + 20..p + 24];
  }

  // ---- what a valid mount guarantees ----

  lemma {:induction false} PathsSorted(m: Mount, i: nat, j: nat)
    requires m.Valid() && i < j < |m.entries|
    ensures Less(m.Path(i), m.Path(j))
    decreases j
  {
    assert m.EntryOk(j);
    if i < j - 1 {
      PathsSorted(m, i, j - 1);
      LessTransitive(m.Path(i), m.Path(j - 1), m.Path(j));
    }
  }

  lemma {:induction false} PathsDistinct(m: Mount, i: nat, j: nat)
    requires m.Valid() && i < |m.entries| && j < |m.entries| && m.Path(i) == m.Path(j)
    ensures i == j
  {
    if i != j {
      PathsSorted(m, if i < j then i else j, if i < j then j else i);
      LessIrreflexive(m.Path(i));
      assert false;
    }
  }
}

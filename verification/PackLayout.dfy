/** The bytes of a pack as a function of its sorted files, and exactly when `load_pair` accepts them. */
module PackLayout {
  import opened Bytes
  import opened Slices
  import opened CStrings
  import opened PackFormat
  import opened PackSort

  // ---- data file ----

  function Align16(v: nat): (a: nat)
    ensures v <= a < v + 16 && a % 16 == 0
  {
    (v + 15) / 16 * 16
  }

  /** Everything after the header of the data file. */
  function PackTail(items: seq<SourceFile>): bytes {
    if items == [] then []
    else
      var prev := PackTail(DropLast(items));
      var at := PACK_HEADER_SIZE + |prev|;
      prev + Zeros(Align16(at) - at) + Last(items).content
  }

  function PackSize(items: seq<SourceFile>): nat { PACK_HEADER_SIZE + |PackTail(items)| }

  function OffsetOf(items: seq<SourceFile>, i: nat): nat
    requires i < |items|
  {
    Align16(PackSize(items[..i]))
  }

  /** All contents in order, without padding: what both data checksums range over. */
  function AllContent(items: seq<SourceFile>): bytes {
    if items == [] then [] else AllContent(DropLast(items)) + Last(items).content
  }

  lemma {:induction false} TailStep(items: seq<SourceFile>, i: nat)
    requires i < |items|
    ensures PackTail(items[..i + 1]) ==
      PackTail(items[..i]) + Zeros(OffsetOf(items, i) - PackSize(items[..i])) + items[i].content
    ensures PackSize(items[..i + 1]) == OffsetOf(items, i) + |items[i].content|
    ensures AllContent(items[..i + 1]) == AllContent(items[..i]) + items[i].content
  {
    assert DropLast(items[..i + 1]) == items[..i];
  }

  lemma {:induction false} TailPrefix(items: seq<SourceFile>, i: nat)
    requires i <= |items|
    ensures PackTail(items[..i]) <= PackTail(items)
    ensures PackSize(items[..i]) <= PackSize(items)
    decreases |items| - i
  {
    if i == |items| {
      assert items[..i] == items;
    } else {
      TailStep(items, i);
      TailPrefix(items, i + 1);
    }
  }

  /** Each file's bytes sit at its offset, and the next file starts after them. */
  lemma {:induction false} ContentPlaced(items: seq<SourceFile>, i: nat, header: bytes)
    requires i < |items| && |header| == PACK_HEADER_SIZE
    ensures PACK_HEADER_SIZE <= OffsetOf(items, i)
    ensures OffsetOf(items, i) + |items[i].content| <= PackSize(items)
    ensures (header + PackTail(items))[OffsetOf(items, i)..OffsetOf(items, i) + |items[i].content|] == items[i].content
  {
    TailStep(items, i);
    TailPrefix(items, i + 1);
    var t := PackTail(items[..i + 1]);
    var prev := PackTail(items[..i]) + Zeros(OffsetOf(items, i) - PackSize(items[..i]));
    assert t == prev + items[i].content;
    OfSuffix(prev, items[i].content, 0, |items[i].content|);
    OfPrefix(t, PackTail(items), |prev|, |t|);
    OfSuffix(header, PackTail(items), |prev|, |t|);
  }

  // ---- index ----

  function PathsBlob(items: seq<SourceFile>): bytes {
    if items == [] then [] else PathsBlob(DropLast(items)) + Last(items).path + [NUL]
  }

  lemma {:induction false} BlobStep(items: seq<SourceFile>, i: nat)
    requires i < |items|
    ensures PathsBlob(items[..i + 1]) == PathsBlob(items[..i]) + items[i].path + [NUL]
  {
    assert DropLast(items[..i + 1]) == items[..i];
  }

  lemma {:induction false} BlobPrefix(items: seq<SourceFile>, i: nat)
    requires i <= |items|
    ensures PathsBlob(items[..i]) <= PathsBlob(items)
    decreases |items| - i
  {
    if i == |items| {
      assert items[..i] == items;
    } else {
      BlobStep(items, i);
      BlobPrefix(items, i + 1);
    }
  }

  /** Sizes that the 64-bit and 32-bit fields of the files can hold. */
  predicate Fits(items: seq<SourceFile>) {
    PackSize(items) < U64_SIZE && |PathsBlob(items)| < 0x1_0000_0000
  }

  function EntryOf(items: seq<SourceFile>, i: nat): DiskEntry
    requires Fits(items) && i < |items|
  {
    TailStep(items, i);
    TailPrefix(items, i + 1);
    BlobStep(items, i);
    BlobPrefix(items, i + 1);
    DiskEntry(OffsetOf(items, i), |items[i].content|, |PathsBlob(items[..i])|, |items[i].path|)
  }

  function EntryTable(items: seq<SourceFile>, n: nat): (t: bytes)
    requires Fits(items) && n <= |items|
    ensures |t| == EntryAt(n)
  {
    if n == 0 then [] else EntryTable(items, n - 1) + EntryBytes(EntryOf(items, n - 1))
  }

  lemma {:induction false} TableSlot(items: seq<SourceFile>, n: nat, i: nat)
    requires Fits(items) && i < n <= |items|
    ensures EntryTable(items, n)[EntryAt(i)..EntryAt(i) + ENTRY_SIZE] == EntryBytes(EntryOf(items, i))
  {
    var prev, last := EntryTable(items, n - 1), EntryBytes(EntryOf(items, n - 1));
    if i < n - 1 {
      TableSlot(items, n - 1, i);
      OfPrefix(prev, prev + last, EntryAt(i), EntryAt(i) + ENTRY_SIZE);
    } else {
      OfSuffix(prev, last, 0, ENTRY_SIZE);
    }
  }

  /** The stored path is a field of its own and reads back as a C string. */
  lemma {:induction false} PathPlaced(items: seq<SourceFile>, i: nat)
    requires i < |items| && IsCString(items[i].path)
    ensures
      var blob, at, n := PathsBlob(items), |PathsBlob(items[..i])|, |items[i].path|;
      && at + n < |blob| && blob[at..at + n] == items[i].path && blob[at + n] == NUL
      && CStringAt(blob, at) == items[i].path
  {
    BlobStep(items, i);
    BlobPrefix(items, i + 1);
    var blob, at, n := PathsBlob(items), |PathsBlob(items[..i])|, |items[i].path|;
    var prev := PathsBlob(items[..i]);
    OfSuffix(prev, items[i].path + [NUL], 0, n);
    Associative(prev, items[i].path, [NUL]);
    OfPrefix(PathsBlob(items[..i + 1]), blob, at, at + n);
    CStringAtStored(blob, at, items[i].path);
  }

  // ---- the pair ----

  function NonZero(id: u64): u64 { if id == 0 then 1 else id }

  /** Paths, sizes and a nonce folded into the identity of one run of the packer. */
  function PackIdFold(items: seq<SourceFile>): u64
    requires forall f :: f in items ==> |f.content| < U64_SIZE
  {
    if items == [] then FNV_SEED
    else Fnv(Fnv(PackIdFold(DropLast(items)), Last(items).path), LE(8, |Last(items).content|))
  }

  function PackId(items: seq<SourceFile>, nonce: u64): u64
    requires forall f :: f in items ==> |f.content| < U64_SIZE
  {
    NonZero(Fnv(PackIdFold(items), LE(8, nonce)))
  }

  function DataChecksum(items: seq<SourceFile>): u64 { Fnv(FNV_SEED, AllContent(items)) }

  function PackHeaderOf(packId: u64, size: u64, checksum: u64): PackHeader {
    PackHeader(PACK_MAGIC, PACK_VERSION, 0, packId, size, checksum)
  }

  function PackBytes(items: seq<SourceFile>, packId: u64): bytes
    requires Fits(items)
  {
    PackHeaderBytes(PackHeaderOf(packId, PackSize(items), DataChecksum(items))) + PackTail(items)
  }

  function IndexHeaderOf(items: seq<SourceFile>, packId: u64): IndexHeader
    requires Fits(items) && |items| <= MAX_FILES
  {
    var body := EntryTable(items, |items|) + PathsBlob(items);
    IndexHeader(INDEX_MAGIC, PACK_VERSION, |items|, packId, PackSize(items), |PathsBlob(items)|,
                Fnv(FNV_SEED, body), DataChecksum(items))
  }

  function IndexBytes(items: seq<SourceFile>, packId: u64): bytes
    requires Fits(items) && |items| <= MAX_FILES
  {
    IndexHeaderBytes(IndexHeaderOf(items, packId)) + (EntryTable(items, |items|) + PathsBlob(items))
  }

  lemma {:induction false} PackBytesShape(items: seq<SourceFile>, packId: u64)
    requires Fits(items)
    ensures |PackBytes(items, packId)| == PackSize(items)
    ensures ParsePackHeader(PackBytes(items, packId)) ==
      PackHeaderOf(packId, PackSize(items), DataChecksum(items))
    ensures forall i :: 0 <= i < |items| ==>
      PACK_HEADER_SIZE <= OffsetOf(items, i) && OffsetOf(items, i) + |items[i].content| <= PackSize(items)
      && PackBytes(items, packId)[OffsetOf(items, i)..OffsetOf(items, i) + |items[i].content|] == items[i].content
  {
    var h := PackHeaderOf(packId, PackSize(items), DataChecksum(items));
    PackHeaderRoundTrip(h, PackTail(items));
    forall i | 0 <= i < |items|
      ensures PACK_HEADER_SIZE <= OffsetOf(items, i) && OffsetOf(items, i) + |items[i].content| <= PackSize(items)
      ensures PackBytes(items, packId)[OffsetOf(items, i)..OffsetOf(items, i) + |items[i].content|] == items[i].content
    {
      ContentPlaced(items, i, PackHeaderBytes(h));
    }
  }

  lemma {:induction false} IndexBytesShape(items: seq<SourceFile>, packId: u64)
    requires Fits(items) && |items| <= MAX_FILES
    ensures |IndexBytes(items, packId)| == INDEX_HEADER_SIZE + EntryAt(|items|) + |PathsBlob(items)|
    ensures ParseIndexHeader(IndexBytes(items, packId)) == IndexHeaderOf(items, packId)
    ensures IndexBytes(items, packId)[INDEX_HEADER_SIZE..] == EntryTable(items, |items|) + PathsBlob(items)
  {
    IndexHeaderRoundTrip(IndexHeaderOf(items, packId), EntryTable(items, |items|) + PathsBlob(items));
  }

  lemma {:induction false} SlotReadBack(table: bytes, rest: bytes, e: DiskEntry, at: nat)
    requires at + ENTRY_SIZE <= |table| && table[at..at + ENTRY_SIZE] == EntryBytes(e)
    ensures ParseEntry(table + rest, at) == e
  {
    OfPrefix(table, table + rest, at, at + ENTRY_SIZE);
    EntryRoundTrip(e, table + rest, at);
  }

  lemma {:induction false} EntryReadBack(items: seq<SourceFile>, rest: bytes, i: nat)
    requires Fits(items) && i < |items|
    ensures EntryAt(i) + ENTRY_SIZE <= |EntryTable(items, |items|)|
    ensures ParseEntry(EntryTable(items, |items|) + rest, EntryAt(i)) == EntryOf(items, i)
  {
    EntryFits(i, |items|);
    TableSlot(items, |items|, i);
    SlotReadBack(EntryTable(items, |items|), rest, EntryOf(items, i), EntryAt(i));
  }

  predicate AllValidPaths(items: seq<SourceFile>) {
    forall f :: f in items ==> ValidPath(f.path)
  }

  function WrittenEntries(items: seq<SourceFile>): (es: seq<DiskEntry>)
    requires Fits(items)
    ensures |es| == |items|
    ensures forall i :: 0 <= i < |items| ==> es[i] == EntryOf(items, i)
  {
    seq(|items|, i requires 0 <= i < |items| => EntryOf(items, i))
  }

  /** The mount that the written pair describes. */
  function MountWritten(items: seq<SourceFile>, packId: u64): Mount
    requires Fits(items)
  {
    Mount(PackBytes(items, packId), WrittenEntries(items), PathsBlob(items))
  }

  lemma {:induction false} TableReadsBack(items: seq<SourceFile>, rest: bytes)
    requires Fits(items)
    ensures ParseEntries(EntryTable(items, |items|) + rest, |items|) == WrittenEntries(items)
  {
    var body := EntryTable(items, |items|) + rest;
    forall i | 0 <= i < |items| ensures ParseEntries(body, |items|)[i] == WrittenEntries(items)[i] {
      EntryReadBack(items, rest, i);
    }
  }

  lemma {:induction false} MountReadsBack(items: seq<SourceFile>, packId: u64)
    requires Fits(items) && |items| <= MAX_FILES
    ensures IndexComplete(IndexBytes(items, packId))
    ensures MountOf(PackBytes(items, packId), IndexBytes(items, packId)) == MountWritten(items, packId)
    ensures ChecksumAgrees(IndexBytes(items, packId))
  {
    var table := EntryTable(items, |items|);
    IndexBytesShape(items, packId);
    TableReadsBack(items, PathsBlob(items));
    OfSuffix(table, PathsBlob(items), 0, |PathsBlob(items)|);
    Whole(PathsBlob(items));
  }

  predicate Acceptable(items: seq<SourceFile>, i: nat)
    requires i < |items|
  {
    ValidPath(items[i].path) && (i > 0 ==> Less(items[i - 1].path, items[i].path))
  }

  lemma {:induction false} WrittenPath(items: seq<SourceFile>, packId: u64, i: nat)
    requires Enumerable(items) && Fits(items) && i < |items|
    ensures
      var m := MountWritten(items, packId);
      var e := m.entries[i];
      && m.Path(i) == items[i].path
      && e.pathLength == |items[i].path|
      && e.pathOffset + e.pathLength < |m.paths|
      && m.paths[e.pathOffset..e.pathOffset + e.pathLength] == items[i].path
      && m.paths[e.pathOffset + e.pathLength] == NUL
  {
    hide IsCString, CStringAt, PathsBlob, PackSize, OffsetOf, PackBytes;
    PathPlaced(items, i);
  }

  lemma {:induction false} WrittenContent(items: seq<SourceFile>, packId: u64, i: nat)
    requires Fits(items) && i < |items|
    ensures
      var m := MountWritten(items, packId);
      var e := m.entries[i];
      && PACK_HEADER_SIZE <= e.offset <= |m.data| && e.size <= |m.data| - e.offset
      && m.data[e.offset..e.offset + e.size] == items[i].content
  {
    PackBytesShape(items, packId);
  }

  /** Entry `i` of the written mount is file `i`, and passes the entry test exactly when file `i` is acceptable. */
  lemma {:induction false} WrittenEntry(items: seq<SourceFile>, packId: u64, i: nat)
    requires Enumerable(items) && Fits(items) && i < |items|
    ensures MountWritten(items, packId).EntryOk(i) <==> Acceptable(items, i)
    ensures MountWritten(items, packId).EntryOk(i) ==> MountWritten(items, packId).Content(i) == items[i].content
  {
    var m := MountWritten(items, packId);
    WrittenPath(items, packId, i);
    WrittenContent(items, packId, i);
    if i > 0 {
      WrittenPath(items, packId, i - 1);
    }
    if items[i].path == [] {
      assert [] in Split([]);
    }
  }

  /** The written mount is valid exactly for valid paths in strictly increasing order. */
  lemma {:induction false} WrittenValid(items: seq<SourceFile>, packId: u64)
    requires Enumerable(items) && Fits(items) && 0 < |items| <= MAX_FILES
    ensures MountWritten(items, packId).Valid() <==> AllValidPaths(items) && StrictlyOrdered(items)
  {
    var m := MountWritten(items, packId);
    forall i | 0 <= i < |items| ensures m.EntryOk(i) <==> Acceptable(items, i) {
      WrittenEntry(items, packId, i);
    }
    assert |m.entries| == |items|;
    assert m.Valid() <==> forall i :: 0 <= i < |items| ==> Acceptable(items, i);
    AcceptableAll(items);
  }

  lemma {:induction false} AcceptableAll(items: seq<SourceFile>)
    ensures (forall i :: 0 <= i < |items| ==> Acceptable(items, i)) <==> AllValidPaths(items) && StrictlyOrdered(items)
  {
    if forall i :: 0 <= i < |items| ==> Acceptable(items, i) {
      forall f | f in items ensures ValidPath(f.path) {
        var i :| 0 <= i < |items| && items[i] == f;
        assert Acceptable(items, i);
      }
      forall i | 0 < i < |items| ensures Less(items[i - 1].path, items[i].path) {
        assert Acceptable(items, i);
      }
    }
  }

  /** Exactly which sorted lists make a pair that `load_pair` accepts. */
  lemma {:induction false} PairAccepted(items: seq<SourceFile>, packId: u64)
    requires Enumerable(items) && Fits(items) && 0 < |items| <= MAX_FILES
    ensures ValidPair(PackBytes(items, packId), IndexBytes(items, packId)) <==>
      AllValidPaths(items) && StrictlyOrdered(items) && |PathsBlob(items)| <= MAX_PATHS_SIZE
  {
    HeadersOfWritten(items, packId);
    MountReadsBack(items, packId);
    WrittenValid(items, packId);
  }

  lemma {:induction false} HeadersOfWritten(items: seq<SourceFile>, packId: u64)
    requires Fits(items) && 0 < |items| <= MAX_FILES
    ensures HeadersAgree(PackBytes(items, packId), IndexBytes(items, packId)) <==> |PathsBlob(items)| <= MAX_PATHS_SIZE
  {
    PackBytesShape(items, packId);
    IndexBytesShape(items, packId);
    BlobStep(items, 0);
    BlobPrefix(items, 1);
  }
}

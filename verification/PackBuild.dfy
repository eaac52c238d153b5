/** `asset_pack_build`: plan the layout, write the data file and the index, load the pair back and verify its bytes. */
module PackBuild {
  import opened Bytes
  import opened Slices
  import opened CStrings
  import opened PackFormat
  import opened PackSort
  import opened PackLayout

  const CHUNK_SIZE := 0x10_0000

  datatype BuildError = NotEnumerated | PathsTooLarge | DataTooLarge | NotLoadable(error: LoadError) | NotVerified

  datatype Plan = Plan(offsets: seq<u64>, packSize: u64, pathsSize: u32)

  /** `align16` in 64-bit arithmetic: it wraps to zero just below the top. */
  function AlignWrap(v: u64): u64 { (v + 15) % 0x1_0000_0000_0000_0000 / 16 * 16 }

  /** The output position once the first `|offsets|` files are written at these offsets. */
  function PositionAfter(items: seq<SourceFile>, offsets: seq<u64>): nat
    requires |offsets| <= |items|
  {
    if offsets == [] then PACK_HEADER_SIZE else Last(offsets) + |items[|offsets| - 1].content|
  }

  /** No offset lies before the end of the file ahead of it. */
  predicate Forward(items: seq<SourceFile>, offsets: seq<u64>)
    requires |offsets| <= |items|
  {
    offsets != [] ==>
      Forward(items, DropLast(offsets)) && PositionAfter(items, DropLast(offsets)) <= Last(offsets)
  }

  /** No offset is further ahead than the 16-byte padding buffer reaches. */
  predicate Close(items: seq<SourceFile>, offsets: seq<u64>)
    requires |offsets| <= |items|
  {
    offsets != [] ==>
      Close(items, DropLast(offsets)) && Last(offsets) < PositionAfter(items, DropLast(offsets)) + 16
  }

  /** The offsets of the format. */
  predicate Exact(items: seq<SourceFile>, offsets: seq<u64>)
    requires |offsets| <= |items|
  {
    offsets != [] ==>
      Exact(items, DropLast(offsets)) && Last(offsets) == OffsetOf(items, |offsets| - 1)
  }

  lemma {:induction false} ExactAt(items: seq<SourceFile>, offsets: seq<u64>, i: nat)
    requires i < |offsets| <= |items| && Exact(items, offsets)
    ensures offsets[i] == OffsetOf(items, i)
  {
    if i < |offsets| - 1 {
      ExactAt(items, DropLast(offsets), i);
    }
  }

  /** The invariant of the layout loop: exact as long as the alignment has not wrapped. */
  predicate Planned(items: seq<SourceFile>, offsets: seq<u64>)
    requires |offsets| <= |items|
  {
    && Close(items, offsets)
    && (Forward(items, offsets) ==>
          Exact(items, offsets) && PositionAfter(items, offsets) == PackSize(items[..|offsets|]))
    && (!Forward(items, offsets) ==> PackSize(items[..|offsets|]) >= U64_SIZE)
  }

  lemma {:induction false} AlignWrapped(v: u64)
    ensures v + 15 < U64_SIZE ==> AlignWrap(v) == Align16(v)
    ensures v + 15 >= U64_SIZE ==> AlignWrap(v) == 0 < v && Align16(v) == U64_SIZE
  {
  }

  lemma {:induction false} BlobGrows(items: seq<SourceFile>, i: nat)
    requires i < |items|
    ensures |PathsBlob(items[..i + 1])| == |PathsBlob(items[..i])| + |items[i].path| + 1 <= |PathsBlob(items)|
  {
    BlobStep(items, i);
    BlobPrefix(items, i + 1);
  }

  lemma {:induction false} SizeGrows(items: seq<SourceFile>, i: nat)
    requires i <= |items|
    ensures PackSize(items[..i]) <= PackSize(items)
  {
    TailPrefix(items, i);
  }

  lemma {:induction false} PlanStart(items: seq<SourceFile>)
    ensures Planned(items, []) && PositionAfter(items, []) == PACK_HEADER_SIZE
    ensures PathsBlob(items[..0]) == []
  {
  }

  lemma {:induction false} PlanStep(items: seq<SourceFile>, offsets: seq<u64>, aligned: u64)
    requires |offsets| < |items| && Planned(items, offsets)
    requires PositionAfter(items, offsets) < U64_SIZE && aligned == AlignWrap(PositionAfter(items, offsets))
    ensures Planned(items, offsets + [aligned])
    ensures PositionAfter(items, offsets + [aligned]) == aligned + |items[|offsets|].content|
    ensures aligned + |items[|offsets|].content| >= U64_SIZE ==> PackSize(items[..|offsets| + 1]) >= U64_SIZE
  {
    assert DropLast(offsets + [aligned]) == offsets;
    AlignWrapped(PositionAfter(items, offsets));
    TailStep(items, |offsets|);
  }

  lemma {:induction false} PlanDone(items: seq<SourceFile>, offsets: seq<u64>)
    requires |offsets| == |items| && Planned(items, offsets) && PositionAfter(items, offsets) < U64_SIZE
    ensures Close(items, offsets) && (Forward(items, offsets) <==> PackSize(items) < U64_SIZE)
    ensures Forward(items, offsets) ==> Exact(items, offsets) && PositionAfter(items, offsets) == PackSize(items)
  {
    assert items[..|offsets|] == items;
  }

  /** Offsets and sizes that stand for the layout; they are the layout's own unless the 64-bit position wrapped. */
  predicate PlanOf(items: seq<SourceFile>, plan: Plan) {
    && |plan.offsets| == |items| && plan.pathsSize == |PathsBlob(items)|
    && plan.packSize == PositionAfter(items, plan.offsets)
    && Close(items, plan.offsets)
    && (Forward(items, plan.offsets) <==> PackSize(items) < U64_SIZE)
    && (Forward(items, plan.offsets) ==> Exact(items, plan.offsets) && plan.packSize == PackSize(items))
  }

  /** The layout loop, with its two overflow guards and its wrapping alignment. */
  method PlanLayout(items: seq<SourceFile>) returns (r: Result<Plan, BuildError>)
    requires Enumerable(items)
    ensures r.Failure? ==> r.error in {PathsTooLarge, DataTooLarge}
    ensures r == Failure(PathsTooLarge) ==> |PathsBlob(items)| >= 0x1_0000_0000
    ensures r == Failure(DataTooLarge) ==> PackSize(items) >= U64_SIZE
    ensures r.Success? ==> PlanOf(items, r.value)
  {
    hide Forward, AlignWrap, Exact, PositionAfter, Planned, Close, PackSize, PathsBlob;
    PlanStart(items);
    var offsets: seq<u64> := [];
    var packSize: u64 := PACK_HEADER_SIZE;
    var pathsSize: u32 := 0;
    for i := 0 to |items|
      invariant |offsets| == i && pathsSize == |PathsBlob(items[..i])|
      invariant packSize == PositionAfter(items, offsets)
      invariant Planned(items, offsets)
    {
      BlobGrows(items, i);
      if pathsSize + |items[i].path| + 1 > 0xFFFF_FFFF {
        return Failure(PathsTooLarge);
      }
      packSize := AlignWrap(packSize);
      PlanStep(items, offsets, packSize);
      SizeGrows(items, i + 1);
      if U64_SIZE - 1 - packSize < |items[i].content| {
        return Failure(DataTooLarge);
      }
      offsets := offsets + [packSize];
      packSize := packSize + |items[i].content|;
      pathsSize := pathsSize + |items[i].path| + 1;
    }
    Whole(items);
    PlanDone(items, offsets);
    return Success(Plan(offsets, packSize, pathsSize));
  }

  /** The copy loop: a chunk at a time, hashing as it goes. */
  method CopyContent(content: bytes, tail: bytes, checksum: u64) returns (tail': bytes, checksum': u64)
    ensures tail' == tail + content
    ensures checksum' == Fnv(checksum, content)
  {
    tail', checksum' := tail, checksum;
    var done := 0;
    while done < |content|
      invariant done <= |content|
      invariant tail' == tail + content[..done]
      invariant checksum' == Fnv(checksum, content[..done])
    {
      var chunk := if |content| - done > CHUNK_SIZE then CHUNK_SIZE else |content| - done;
      var buffer := content[done..done + chunk];
      ExtendBy(content, done, chunk);
      FnvConcat(checksum, content[..done], buffer);
      tail' := tail' + buffer;
      checksum' := FnvBytes(checksum', buffer);
      done := done + chunk;
    }
    Whole(content);
  }

  /** The invariant of the writing loop: what the tail holds after the files with these offsets. */
  predicate Written(items: seq<SourceFile>, offsets: seq<u64>, tail: bytes)
    requires |offsets| <= |items|
  {
    && PositionAfter(items, offsets) <= PACK_HEADER_SIZE + |tail|
    && (PositionAfter(items, offsets) == PACK_HEADER_SIZE + |tail| <==> Forward(items, offsets))
    && (Exact(items, offsets) ==> tail == PackTail(items[..|offsets|]))
  }

  lemma {:induction false} WriteStep(items: seq<SourceFile>, offsets: seq<u64>, next: u64, tail: bytes)
    requires |offsets| < |items| && Written(items, offsets, tail)
    ensures
      var gap := if next > PositionAfter(items, offsets) then next - PositionAfter(items, offsets) else 0;
      Written(items, offsets + [next], tail + Zeros(gap) + items[|offsets|].content)
  {
    assert DropLast(offsets + [next]) == offsets;
    TailStep(items, |offsets|);
    if Exact(items, offsets) {
      ExactPosition(items, offsets);
    }
  }

  lemma {:induction false} ExactPosition(items: seq<SourceFile>, offsets: seq<u64>)
    requires |offsets| <= |items| && Exact(items, offsets)
    ensures PositionAfter(items, offsets) == PackSize(items[..|offsets|])
  {
    if offsets != [] {
      TailStep(items, |offsets| - 1);
    }
  }

  /** The loop that pads to each file's offset and copies the file. */
  method WriteData(items: seq<SourceFile>, offsets: seq<u64>) returns (tail: bytes, checksum: u64)
    requires |offsets| == |items| && Close(items, offsets)
    ensures checksum == DataChecksum(items)
    ensures Exact(items, offsets) ==> tail == PackTail(items)
    ensures PACK_HEADER_SIZE + |tail| == PositionAfter(items, offsets) <==> Forward(items, offsets)
  {
    tail := [];
    checksum := FNV_SEED;
    var position := PACK_HEADER_SIZE;
    for i := 0 to |items|
      invariant position == PositionAfter(items, offsets[..i])
      invariant Written(items, offsets[..i], tail)
      invariant checksum == Fnv(FNV_SEED, AllContent(items[..i]))
    {
      TailStep(items, i);
      Extend(offsets, i);
      WriteStep(items, offsets[..i], offsets[i], tail);
      FnvConcat(FNV_SEED, AllContent(items[..i]), items[i].content);
      tail := tail + Zeros(if offsets[i] > position then offsets[i] - position else 0);
      position := offsets[i];
      tail, checksum := CopyContent(items[i].content, tail, checksum);
      position := position + |items[i].content|;
    }
    Whole(items);
    Whole(offsets);
  }

  method ComputePackId(items: seq<SourceFile>, nonce: u64) returns (id: u64)
    requires Enumerable(items)
    ensures id == PackId(items, nonce)
  {
    id := FNV_SEED;
    for i := 0 to |items|
      invariant id == PackIdFold(items[..i])
    {
      assert DropLast(items[..i + 1]) == items[..i];
      id := FnvBytes(id, items[i].path);
      id := FnvBytes(id, LE(8, |items[i].content|));
    }
    assert items[..|items|] == items;
    id := FnvBytes(id, LE(8, nonce));
    if id == 0 {
      id := 1;
    }
  }

  /** The loop that fills the entry table and the path pool. */
  method WriteIndexBody(items: seq<SourceFile>, offsets: seq<u64>) returns (table: bytes, paths: bytes)
    requires Enumerable(items) && |PathsBlob(items)| < 0x1_0000_0000 && |offsets| == |items|
    ensures paths == PathsBlob(items)
    ensures PackSize(items) < U64_SIZE && Exact(items, offsets) ==> table == EntryTable(items, |items|)
  {
    table, paths := [], [];
    ghost var exact := PackSize(items) < U64_SIZE && Exact(items, offsets);
    for i := 0 to |items|
      invariant paths == PathsBlob(items[..i])
      invariant exact ==> table == EntryTable(items, i)
    {
      BlobStep(items, i);
      BlobPrefix(items, i + 1);
      if exact {
        ExactAt(items, offsets, i);
      }
      var e := DiskEntry(offsets[i], |items[i].content|, |paths|, |items[i].path|);
      assert exact ==> e == EntryOf(items, i);
      table := table + EntryBytes(e);
      paths := paths + items[i].path + [NUL];
    }
    assert items[..|items|] == items;
  }

  /** The contents of the first `n` entries, in order. */
  function MountContents(m: Mount, n: nat): bytes
    requires m.Valid() && n <= |m.entries|
  {
    if n == 0 then [] else MountContents(m, n - 1) + m.Content(n - 1)
  }

  /** The inner loop of `verify_pack_data`: one entry, a chunk at a time. */
  method HashRange(data: bytes, base: nat, size: nat, checksum: u64) returns (r: Option<u64>)
    requires base + size <= |data|
    ensures r == Some(Fnv(checksum, data[base..base + size]))
  {
    hide Fnv;
    ghost var content := data[base..base + size];
    var sum := checksum;
    var offset := 0;
    FnvNothing(checksum, content);
    while offset < size
      invariant offset <= size && sum == Fnv(checksum, content[..offset])
    {
      var chunk := if size - offset > CHUNK_SIZE then CHUNK_SIZE else size - offset;
      var buffer := ReadAt(data, chunk, base + offset);
      if buffer.None? {
        return None;
      }
      OfSlice(data, base, size, offset, offset + chunk);
      ExtendBy(content, offset, chunk);
      FnvConcat(checksum, content[..offset], buffer.value);
      sum := FnvBytes(sum, buffer.value);
      offset := offset + chunk;
    }
    Whole(content);
    return Some(sum);
  }

  method HashEntry(m: Mount, i: nat, checksum: u64) returns (r: Option<u64>)
    requires m.Valid() && i < |m.entries|
    ensures r == Some(Fnv(checksum, m.Content(i)))
  {
    assert m.EntryOk(i);
    r := HashRange(m.data, m.entries[i].offset, m.entries[i].size, checksum);
  }

  /** `verify_pack_data`: read every entry back and compare the running hash. */
  method VerifyPackData(m: Mount, expected: u64) returns (ok: bool)
    requires m.Valid()
    ensures ok <==> Fnv(FNV_SEED, MountContents(m, |m.entries|)) == expected
  {
    var checksum := FNV_SEED;
    for i := 0 to |m.entries|
      invariant checksum == Fnv(FNV_SEED, MountContents(m, i))
    {
      FnvConcat(FNV_SEED, MountContents(m, i), m.Content(i));
      var sum := HashEntry(m, i, checksum);
      if sum.None? {
        return false;
      }
      checksum := sum.value;
    }
    return checksum == expected;
  }

  lemma {:induction false} WrittenSize(items: seq<SourceFile>, packId: u64)
    requires Enumerable(items) && Fits(items)
    ensures |MountWritten(items, packId).entries| == |items|
  {
  }

  lemma {:induction false} WrittenAt(items: seq<SourceFile>, packId: u64, i: nat)
    requires Enumerable(items) && Fits(items) && i < |items|
    requires MountWritten(items, packId).Valid()
    ensures i < |MountWritten(items, packId).entries| && MountWritten(items, packId).Content(i) == items[i].content
  {
    WrittenContent(items, packId, i);
  }

  lemma {:induction false} ContentStep(items: seq<SourceFile>, i: nat)
    requires i < |items|
    ensures AllContent(items[..i + 1]) == AllContent(items[..i]) + items[i].content
  {
    TailStep(items, i);
  }

  lemma {:induction false} WrittenContents(items: seq<SourceFile>, packId: u64, n: nat)
    requires Enumerable(items) && Fits(items) && n <= |items|
    requires MountWritten(items, packId).Valid()
    ensures n <= |MountWritten(items, packId).entries|
    ensures MountContents(MountWritten(items, packId), n) == AllContent(items[..n])
  {
    hide MountWritten, Fits, Enumerable;
    WrittenSize(items, packId);
    if n > 0 {
      WrittenContents(items, packId, n - 1);
      WrittenAt(items, packId, n - 1);
      ContentStep(items, n - 1);
    }
  }

  /** What a set of files must satisfy to be packed. */
  predicate Buildable(files: seq<SourceFile>) {
    && 0 < |files| <= MAX_FILES
    && AllValidPaths(files) && DistinctPaths(files)
    && PackSize(SortByPath(files)) < U64_SIZE
    && |PathsBlob(SortByPath(files))| <= MAX_PATHS_SIZE
  }

  /** A wrapped layout cannot be mistaken for a good one: the header disagrees with the file's real length. */
  lemma {:induction false} WrappedRejected(header: PackHeader, tail: bytes, index: bytes)
    requires |header.magic| == 8 && header.fileSize != PACK_HEADER_SIZE + |tail|
    ensures !HeadersAgree(PackHeaderBytes(header) + tail, index)
  {
    PackHeaderRoundTrip(header, tail);
  }

  /** Both files, from the data at its planned places to the two headers. */
  method WriteFiles(items: seq<SourceFile>, plan: Plan, nonce: u64)
    returns (packId: u64, pack: bytes, index: bytes, checksum: u64)
    requires Enumerable(items) && |items| <= MAX_FILES && PlanOf(items, plan)
    ensures packId == PackId(items, nonce) && checksum == DataChecksum(items)
    ensures PackSize(items) < U64_SIZE ==>
      Fits(items) && pack == PackBytes(items, packId) && index == IndexBytes(items, packId)
    ensures PackSize(items) >= U64_SIZE ==> !HeadersAgree(pack, index)
  {
    hide PositionAfter, Close, Exact, Forward, PathsBlob, PackTail, EntryTable, HeadersAgree, PackId, DataChecksum,
      Enumerable;
    packId := ComputePackId(items, nonce);
    var tail;
    tail, checksum := WriteData(items, plan.offsets);
    var header := PackHeaderOf(packId, plan.packSize, checksum);
    pack := PackHeaderBytes(header) + tail;
    var table, paths := WriteIndexBody(items, plan.offsets);
    var sum := FnvBytes(FNV_SEED, table);
    sum := FnvBytes(sum, paths);
    FnvConcat(FNV_SEED, table, paths);
    index := IndexHeaderBytes(IndexHeader(INDEX_MAGIC, PACK_VERSION, |items|, packId, plan.packSize,
                                          plan.pathsSize, sum, checksum)) + (table + paths);
    if PackSize(items) >= U64_SIZE {
      WrappedRejected(header, tail, index);
    }
  }

  lemma {:induction false} SortedBuildable(files: seq<SourceFile>)
    requires Enumerable(files)
    ensures Enumerable(SortByPath(files)) && |SortByPath(files)| == |files|
    ensures AllValidPaths(SortByPath(files)) <==> AllValidPaths(files)
    ensures StrictlyOrdered(SortByPath(files)) <==> DistinctPaths(files)
  {
    SortKeeps(files);
    SameMembers(SortByPath(files), files);
    StrictIffDistinct(files);
  }

  /**
   * The whole build up to the installation. It succeeds exactly for buildable files, and the pair it
   * hands over is the serialisation of the sorted files; its own verification pass never fails.
   */
  method Build(files: seq<SourceFile>, nonce: u64) returns (r: Result<(bytes, bytes), BuildError>)
    requires Enumerable(files)
    ensures r.Success? <==> Buildable(files)
    ensures r.Success? ==>
      var items := SortByPath(files);
      && Fits(items) && |items| <= MAX_FILES && Enumerable(items)
      && var id := PackId(items, nonce);
         r.value == (PackBytes(items, id), IndexBytes(items, id))
    ensures r.Failure? ==> r.error != NotVerified
  {
    hide PackBytes, IndexBytes, HeadersAgree, PlanOf;
    if |files| == 0 || |files| > MAX_FILES {
      return Failure(NotEnumerated);
    }
    var items := SortByPath(files);
    SortedBuildable(files);
    var planned := PlanLayout(items);
    if planned.Failure? {
      return Failure(planned.error);
    }
    var packId, pack, index, checksum := WriteFiles(items, planned.value, nonce);
    if PackSize(items) < U64_SIZE {
      PairAccepted(items, packId);
    }
    var loaded := LoadPair(Some(pack), Some(index));
    if loaded.Failure? {
      return Failure(NotLoadable(loaded.error));
    }
    MountReadsBack(items, packId);
    WrittenContents(items, packId, |items|);
    assert items[..|items|] == items;
    var ok := VerifyPackData(loaded.value, checksum);
    if !ok {
      return Failure(NotVerified);
    }
    return Success((pack, index));
  }
}

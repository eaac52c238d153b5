/** Installing a pack on a disk that may fail or lose power at any operation, and what the next boot mounts. */
module PackInstall {
  import opened Bytes
  import opened Slices
  import opened CStrings
  import opened PackFormat
  import opened PackSort
  import opened PackLayout
  import opened PackBuild
  import opened PackLookup

  const PACK_CACHE_SIZE := 0x1_0000

  datatype Outcome = Crashed | Failed | Installed

  /**
   * What the disk does during one build: the operation at which power is lost (they are numbered in program
   * order), what torn writes leave behind, which operations fail, and how far the cleaning up after a failure gets.
   * Writing stands for opening, writing, `fsync` and closing; `unlink` failures go unnoticed.
   */
  datatype Weather = Weather(crashAt: nat, torn: bytes, writePackOk: bool, writeIndexOk: bool, readBackOk: bool,
                             unlinkPackOk: bool, unlinkIndexOk: bool, renamePackOk: bool, renameIndexOk: bool,
                             mountOk: bool, cleanupCrash: nat) {
    /** Both temporary files can be written and read back. */
    predicate Writes() { writePackOk && writeIndexOk && readBackOk }

    /** And they can be moved into place and opened there. */
    predicate Moves() { renamePackOk && renameIndexOk && mountOk }
  }

  const PROJECT_BINARY: bytes := [0x70, 0x72, 0x6F, 0x6A, 0x65, 0x63, 0x74, 0x2E, 0x62, 0x69, 0x6E, 0x61, 0x72, 0x79]
  const ASSET_LIST: bytes := [0x61, 0x73, 0x73, 0x65, 0x74, 0x73, 0x2E, 0x73, 0x70, 0x61, 0x72, 0x73, 0x65, 0x70,
                              0x63, 0x6B]

  predicate IsPackOf(data: bytes, files: seq<SourceFile>, id: u64) {
    Enumerable(files) && Buildable(files) && Fits(SortByPath(files)) && data == PackBytes(SortByPath(files), id)
  }

  predicate IsIndexOf(data: bytes, files: seq<SourceFile>, id: u64) {
    && Enumerable(files) && Buildable(files)
    && Fits(SortByPath(files)) && |SortByPath(files)| <= MAX_FILES && data == IndexBytes(SortByPath(files), id)
  }

  /** A mount that reads, path by path, as some files do. */
  ghost predicate ReadsAs(m: Mount, files: seq<SourceFile>) {
    m.Valid() && forall path :: Stored(m, path) == InSource(files, path)
  }

  /** Files of two builds that load as a pair carry the same build identity. */
  lemma {:induction false} LoadedIdsAgree(pack: bytes, a: seq<SourceFile>, idA: u64, index: bytes, b: seq<SourceFile>,
                                          idB: u64)
    requires IsPackOf(pack, a, idA) && IsIndexOf(index, b, idB) && ValidPair(pack, index)
    ensures idA == idB
  {
    PackBytesShape(SortByPath(a), idA);
    IndexBytesShape(SortByPath(b), idB);
  }

  lemma {:induction false} OneBuildReads(pack: bytes, index: bytes, files: seq<SourceFile>, id: u64)
    requires IsPackOf(pack, files, id) && IsIndexOf(index, files, id)
    ensures ValidPair(pack, index) && ReadsAs(MountOf(pack, index), files)
  {
    forall path ensures ValidPair(pack, index) && Stored(MountOf(pack, index), path) == InSource(files, path) {
      PackRoundTrip(files, id, path);
    }
    PackRoundTrip(files, id, []);
  }

  /** A build that reached installation: its source and the two files it wrote. */
  datatype BuildRecord = BuildRecord(files: seq<SourceFile>, pack: bytes, index: bytes)

  predicate Genuine(id: u64, b: BuildRecord) {
    IsPackOf(b.pack, b.files, id) && IsIndexOf(b.index, b.files, id)
  }

  ghost predicate AllGenuine(builds: map<u64, BuildRecord>) {
    forall id: u64 {:trigger Genuine(id, builds[id])} :: id in builds ==> Genuine(id, builds[id])
  }

  lemma {:induction false} GenuineMore(builds: map<u64, BuildRecord>, id: u64, b: BuildRecord)
    requires AllGenuine(builds) && Genuine(id, b)
    ensures AllGenuine(builds[id := b])
  {
    var more := builds[id := b];
    forall k: u64 | k in more ensures Genuine(k, more[k]) {
      assert k != id ==> Genuine(k, builds[k]);
    }
  }

  /** The directory that holds the installed pair and the temporary one. */
  class AssetRoot {
    var pack: Option<bytes>
    var index: Option<bytes>
    var tempPack: Option<bytes>
    var tempIndex: Option<bytes>
    ghost var builds: map<u64, BuildRecord>  // every build that reached installation, by its identity

    /** Whatever is installed is the complete output of some build. */
    ghost predicate Valid()
      reads this`pack, this`index, this`builds
    {
      && AllGenuine(builds)
      && (pack.Some? ==> exists id: u64 :: id in builds && builds[id].pack == pack.value)
      && (index.Some? ==> exists id: u64 :: id in builds && builds[id].index == index.value)
    }

    /** A pack and an index that are both installed come from one build. */
    ghost predicate Unmixed()
      reads this`pack, this`index, this`builds
    {
      pack.Some? && index.Some? ==>
        exists id: u64 :: id in builds && builds[id].pack == pack.value && builds[id].index == index.value
    }

    constructor ()
      ensures Valid() && Unmixed() && builds == map[]
    {
      pack, index, tempPack, tempIndex := None, None, None, None;
      builds := map[];
    }

    /** Whatever loads, in any state a history of builds, failures and crashes can reach, is one build's files. */
    lemma {:induction false} LoadsOneBuild() returns (id: u64)
      requires Valid() && pack.Some? && index.Some? && ValidPair(pack.value, index.value)
      ensures id in builds && builds[id].pack == pack.value && builds[id].index == index.value
      ensures ReadsAs(MountOf(pack.value, index.value), builds[id].files)
    {
      id :| id in builds && builds[id].pack == pack.value;
      var b: u64 :| b in builds && builds[b].index == index.value;
      assert Genuine(id, builds[id]) && Genuine(b, builds[b]);
      LoadedIdsAgree(pack.value, builds[id].files, id, index.value, builds[b].files, b);
      OneBuildReads(pack.value, index.value, builds[id].files, id);
    }

    /** What a failed build does last: remove the temporaries, if power lasts. */
    method CleanUp(w: Weather) returns (r: Outcome)
      modifies this`tempPack, this`tempIndex
      ensures r == if w.cleanupCrash < 2 then Crashed else Failed
      ensures r == Failed ==> tempPack == None && tempIndex == None
    {
      if w.cleanupCrash == 0 { return Crashed; }
      tempPack := None;
      if w.cleanupCrash == 1 { return Crashed; }
      tempIndex := None;
      return Failed;
    }

    /** The first half of `asset_pack_build` on disk: clear the temporaries, write both, load and verify them. */
    method Prepare(files: seq<SourceFile>, nonce: u64, w: Weather) returns (r: Outcome, ghost id: u64)
      requires Valid() && Enumerable(files)
      modifies this`tempPack, this`tempIndex
      ensures r == Installed <==> Buildable(files) && w.Writes() && w.crashAt >= 4
      ensures r == Installed ==>
        && tempPack.Some? && tempIndex.Some?
        && Genuine(id, BuildRecord(files, tempPack.value, tempIndex.value))
        && Enumerable(SortByPath(files)) && id == PackId(SortByPath(files), nonce)
      ensures r == Failed ==> tempPack == None && tempIndex == None && !(Buildable(files) && w.Writes())
    {
      id := 0;
      if w.crashAt == 0 { return Crashed, id; }
      tempPack := None;
      if w.crashAt == 1 { return Crashed, id; }
      tempIndex := None;
      var built := Build(files, nonce);
      if built.Failure? && !built.error.NotLoadable? {
        r := CleanUp(w);
        return;
      }
      tempPack := Some(w.torn);
      if w.crashAt == 2 { return Crashed, id; }
      if !w.writePackOk {
        r := CleanUp(w);
        return;
      }
      if built.Success? {
        tempPack := Some(built.value.0);
      }
      tempIndex := Some(w.torn);
      if w.crashAt == 3 { return Crashed, id; }
      if !w.writeIndexOk || !w.readBackOk || built.Failure? {
        r := CleanUp(w);
        return;
      }
      id := PackId(SortByPath(files), nonce);
      tempIndex := Some(built.value.1);
      return Installed, id;
    }

    /** Remembers, for the specification only, that a build reached installation. */
    ghost method Record(id: u64, b: BuildRecord)
      requires Valid() && id !in builds && AllGenuine(builds[id := b])
      modifies this`builds
      ensures Valid() && builds == old(builds)[id := b] && (old(Unmixed()) ==> Unmixed())
    {
      builds := builds[id := b];
      assert forall k: u64 :: k in old(builds) ==> k in builds && builds[k] == old(builds)[k];
    }

    /** A complete installation reads as the files it was built from. */
    lemma {:induction false} InstalledReads(id: u64)
      requires Valid() && id in builds
      requires pack == Some(builds[id].pack) && index == Some(builds[id].index)
      ensures Reads(builds[id].files)
    {
      assert Genuine(id, builds[id]);
      OneBuildReads(pack.value, index.value, builds[id].files, id);
    }

    /** The installed pair loads, and holds these files. */
    ghost predicate Reads(files: seq<SourceFile>)
      reads this
    {
      pack.Some? && index.Some? && ValidPair(pack.value, index.value)
        && ReadsAs(MountOf(pack.value, index.value), files)
    }

    /** The second half: remove the installed pair, move the new pack in, then the new index. */
    method Swap(w: Weather, ghost id: u64) returns (r: Outcome)
      requires Valid() && tempPack.Some? && tempIndex.Some? && id in builds
      requires builds[id].pack == tempPack.value && builds[id].index == tempIndex.value
      modifies this
      ensures Valid() && builds == old(builds)
      ensures old(Unmixed()) && w.unlinkPackOk && w.unlinkIndexOk ==> Unmixed()
      ensures w.crashAt <= 4 ==> pack == old(pack) && index == old(index)
      ensures r == Failed ==> tempPack == None && tempIndex == None && !(w.renamePackOk && w.renameIndexOk)
      ensures r == Installed <==> w.renamePackOk && w.renameIndexOk && w.crashAt >= 8
      ensures r == Installed ==> pack == old(tempPack) && index == old(tempIndex)
    {
      hide AllGenuine;
      if w.crashAt <= 4 { return Crashed; }
      if w.unlinkPackOk {
        pack := None;
      }
      if w.crashAt == 5 { return Crashed; }
      if w.unlinkIndexOk {
        index := None;
      }
      if w.crashAt == 6 { return Crashed; }
      if !w.renamePackOk {
        r := CleanUp(w);
        return;
      }
      pack, tempPack := tempPack, None;
      if w.crashAt == 7 { return Crashed; }
      if !w.renameIndexOk {
        r := CleanUp(w);
        return;
      }
      index, tempIndex := tempIndex, None;
      return Installed;
    }

    /**
     * The disk side of `asset_pack_build`. It may fail or stop at any operation; what is installed stays the
     * output of some build, a build that does not get its two files written leaves the installed pair alone, and
     * unless an `unlink` goes wrong unnoticed the two files never mix builds.
     */
    method Install(files: seq<SourceFile>, nonce: u64, w: Weather) returns (r: Outcome)
      requires Valid() && Enumerable(files) && Enumerable(SortByPath(files))
      requires PackId(SortByPath(files), nonce) !in builds
      modifies this
      ensures Valid()
      ensures old(Unmixed()) && w.unlinkPackOk && w.unlinkIndexOk ==> Unmixed()
      ensures builds.Keys <= old(builds).Keys + {PackId(SortByPath(files), nonce)}
      ensures forall id: u64 :: id in old(builds) ==> id in builds && builds[id] == old(builds)[id]
      ensures w.crashAt <= 4 || !Buildable(files) || !w.Writes() ==> pack == old(pack) && index == old(index)
      ensures r == Failed ==> tempPack == None && tempIndex == None && !(Buildable(files) && w.Writes() && w.Moves())
      ensures r == Installed <==> Buildable(files) && w.Writes() && w.Moves() && w.crashAt >= 8
      ensures r == Installed ==> Reads(files)
    {
      hide Reads, Unmixed, Buildable, Genuine, AllGenuine, SortByPath, PackId;
      ghost var id;
      r, id := Prepare(files, nonce, w);
      if r != Installed {
        return;
      }
      ghost var b := BuildRecord(files, tempPack.value, tempIndex.value);
      assert AllGenuine(builds);
      GenuineMore(builds, id, b);
      Record(id, b);
      r := Swap(w, id);
      if r == Installed {
        InstalledReads(id);
        if !w.mountOk {
          r := CleanUp(w);
        }
      }
    }

    /** `asset_pack_open_existing`: mounts exactly a valid pair that can be opened, which then is one build's files. */
    method OpenExisting(openOk: bool) returns (r: Option<Mount>)
      requires Valid()
      ensures r.Some? <==> openOk && pack.Some? && index.Some? && ValidPair(pack.value, index.value)
      ensures r.Some? ==> r.value == MountOf(pack.value, index.value)
      ensures r.Some? ==> exists id: u64 :: id in builds && ReadsAs(r.value, builds[id].files)
    {
      var loaded := LoadPair(if openOk then pack else None, index);
      if loaded.Failure? {
        return None;
      }
      ghost var id := LoadsOneBuild();
      return Some(loaded.value);
    }

    /**
     * `asset_pack_stale`: whether the pack must be rebuilt. `source` is project.binary in the asset directory,
     * `newer` whether it carries a later time than the pack, `list` the asset list beside it, and `openOk` whether
     * the pair can be opened.
     */
    method Stale(source: Option<bytes>, newer: bool, list: Option<bytes>, openOk: bool) returns (stale: bool)
      requires Valid()
      ensures pack.None? ==> stale
      ensures pack.Some? && source.None? ==> !stale
      ensures pack.Some? && source.Some? ==>
        (!stale <==>
           && !newer && openOk && index.Some? && ValidPair(pack.value, index.value)
           && !Differs(MountOf(pack.value, index.value), source, PROJECT_BINARY)
           && !Differs(MountOf(pack.value, index.value), list, ASSET_LIST))
    {
      if pack.None? {
        return true;
      }
      if source.None? {
        return false;
      }
      if newer {
        return true;
      }
      var loaded := LoadPair(if openOk then pack else None, index);
      if loaded.Failure? {
        return true;
      }
      stale := PackedCopyDiffers(loaded.value, source, PROJECT_BINARY);
      if !stale {
        stale := PackedCopyDiffers(loaded.value, list, ASSET_LIST);
      }
    }

    /**
     * The boot sequence: keep an up-to-date pack, else rebuild, else fall back to the loose files. `staleOpens` and
     * `opens` tell whether the pair can be opened for the comparison and for mounting.
     */
    method Boot(files: seq<SourceFile>, nonce: u64, w: Weather, source: Option<bytes>, newer: bool, list: Option<bytes>,
                staleOpens: bool, opens: bool)
      returns (r: Option<Mount>, rebuilt: bool, crashed: bool)
      requires Valid() && Enumerable(files) && Enumerable(SortByPath(files))
      requires PackId(SortByPath(files), nonce) !in builds
      modifies this
      ensures Valid()
      ensures old(Unmixed()) && w.unlinkPackOk && w.unlinkIndexOk ==> Unmixed()
      ensures crashed ==> r.None?
      ensures r.Some? ==> exists id: u64 :: id in builds && ReadsAs(r.value, builds[id].files)
      ensures r.Some? && rebuilt ==> ReadsAs(r.value, files)
      ensures r.Some? && !rebuilt && source.Some? ==>
        !newer && !Differs(r.value, source, PROJECT_BINARY) && !Differs(r.value, list, ASSET_LIST)
      ensures !rebuilt ==> r.Some? && pack == old(pack) && index == old(index)
      ensures rebuilt && !crashed && r.None? ==> !(Buildable(files) && w.Writes() && w.Moves())
    {
      hide Valid, ReadsAs, Unmixed, Buildable, SortByPath, PackId, ValidPair, MountOf, Differs, Enumerable,
        Weather.Writes, Weather.Moves;
      crashed := false;
      var stale := Stale(source, newer, list, staleOpens);
      if !stale {
        r := OpenExisting(opens);
        if r.Some? {
          return r, false, false;
        }
      }
      var outcome := Install(files, nonce, w);
      if outcome != Installed {
        return None, true, outcome == Crashed;
      }
      // the build has mounted the pair already
      r := OpenExisting(true);
      rebuilt := true;
    }
  }

  /** A loose file disagrees with the packed copy: other bytes, or not packed at all. */
  ghost predicate Differs(m: Mount, loose: Option<bytes>, path: bytes)
    requires m.Valid()
  {
    loose.Some? && !exists i :: 0 <= i < |m.entries| && m.Path(i) == path && m.Content(i) == loose.value
  }

  /** `packed_copy_differs`: look the file up, then compare sizes and bytes, a chunk at a time. */
  method PackedCopyDiffers(m: Mount, loose: Option<bytes>, path: bytes) returns (differs: bool)
    requires m.Valid()
    ensures differs <==> Differs(m, loose, path)
  {
    hide ValidPath, Less;
    if loose.None? {
      return false;
    }
    var found, index := EntryComparePath(m, path);
    if !found {
      return true;
    }
    forall i | 0 <= i < |m.entries| && m.Path(i) == path ensures i == index {
      PathsDistinct(m, i, index);
    }
    var e := m.entries[index];
    assert m.EntryOk(index);
    if e.size != |loose.value| {
      return true;
    }
    ghost var content := m.Content(index);
    var done := 0;
    while done < e.size
      invariant done <= e.size && content[..done] == loose.value[..done]
    {
      var chunk := if e.size - done > PACK_CACHE_SIZE then PACK_CACHE_SIZE else e.size - done;
      var packed := ReadAt(m.data, chunk, e.offset + done);
      var bare := ReadAt(loose.value, chunk, done);
      OfSlice(m.data, e.offset, e.size, done, done + chunk);
      if packed.None? || bare.None? || packed.value != bare.value {
        assert content[done..done + chunk] != loose.value[done..done + chunk];
        return true;
      }
      ExtendBy(content, done, chunk);
      ExtendBy(loose.value, done, chunk);
      done := done + chunk;
    }
    Whole(content);
    Whole(loose.value);
    return false;
  }
}

/** Finding files and directories in a mounted pack, and the round trip from source files to reads. */
module PackLookup {
  import opened Bytes
  import opened CStrings
  import opened PackFormat
  import opened PackSort
  import opened PackLayout
  import opened PackBuild

  const PATH_CAPACITY := 768

  predicate HasPath(m: Mount, path: bytes) {
    exists i :: 0 <= i < |m.entries| && m.Path(i) == path
  }

  /** `entry_compare_path`: binary search, leaving the insertion point when the path is absent. */
  method EntryComparePath(m: Mount, path: bytes) returns (found: bool, index: nat)
    requires m.Valid()
    ensures found <==> HasPath(m, path)
    ensures index <= |m.entries|
    ensures found ==> index < |m.entries| && m.Path(index) == path
    ensures !found ==> forall i :: 0 <= i < index ==> Less(m.Path(i), path)
    ensures !found ==> forall i :: index <= i < |m.entries| ==> Less(path, m.Path(i))
  {
    var low: nat, high: nat := 0, |m.entries|;
    while low < high
      invariant low <= high <= |m.entries|
      invariant forall i :: 0 <= i < low ==> Less(m.Path(i), path)
      invariant forall i :: high <= i < |m.entries| ==> Less(path, m.Path(i))
    {
      var mid := low + (high - low) / 2;
      var candidate := m.Path(mid);
      if path == candidate {
        return true, mid;
      }
      LessTotal(path, candidate);
      if Less(path, candidate) {
        forall i | mid < i < |m.entries| ensures Less(path, m.Path(i)) {
          PathsSorted(m, mid, i);
          LessTransitive(path, candidate, m.Path(i));
        }
        high := mid;
      } else {
        forall i | 0 <= i < mid ensures Less(m.Path(i), path) {
          PathsSorted(m, i, mid);
          LessTransitive(m.Path(i), candidate, path);
        }
        low := mid + 1;
      }
    }
    LessIrreflexive(path);
    return false, low;
  }

  /** What a pack holds under a path. */
  ghost function Stored(m: Mount, path: bytes): Option<bytes>
    requires m.Valid()
  {
    if ValidPath(path) && HasPath(m, path) then
      var i :| 0 <= i < |m.entries| && m.Path(i) == path;
      Some(m.Content(i))
    else
      None
  }

  /** `find_relative`. */
  method FindRelative(m: Mount, path: bytes) returns (r: Option<nat>)
    requires m.Valid()
    ensures r.Some? <==> ValidPath(path) && HasPath(m, path)
    ensures r.Some? ==> r.value < |m.entries| && m.Path(r.value) == path && Stored(m, path) == Some(m.Content(r.value))
  {
    var valid := ValidRelative(path);
    if !valid {
      return None;
    }
    var found, index := EntryComparePath(m, path);
    if !found {
      return None;
    }
    forall i | 0 <= i < |m.entries| && m.Path(i) == path ensures i == index {
      PathsDistinct(m, i, index);
    }
    return Some(index);
  }

  /** `asset_pack_read_all_relative`, through `pread_entry`. */
  method ReadAll(m: Mount, path: bytes) returns (r: Option<bytes>)
    requires m.Valid()
    ensures r == Stored(m, path)
  {
    var index := FindRelative(m, path);
    if index.None? {
      return None;
    }
    var e := m.entries[index.value];
    assert m.EntryOk(index.value);
    r := ReadAt(m.data, e.size, e.offset);
    assert r.Some? && r.value == m.Content(index.value);
  }

  // ---- round trip ----

  /** What the asset directory holds under a path. */
  ghost function InSource(files: seq<SourceFile>, path: bytes): Option<bytes> {
    if exists f :: f in files && f.path == path then
      var f :| f in files && f.path == path;
      Some(f.content)
    else
      None
  }

  lemma {:induction false} DistinctUnique(files: seq<SourceFile>, f: SourceFile, g: SourceFile)
    requires DistinctPaths(files) && f in files && g in files && f.path == g.path
    ensures f == g
  {
    var i :| 0 <= i < |files| && files[i] == f;
    var j :| 0 <= j < |files| && files[j] == g;
  }

  /** A mount that lists exactly some distinct files reads as they do. */
  lemma {:induction false} ListedReads(m: Mount, items: seq<SourceFile>, files: seq<SourceFile>, path: bytes)
    requires m.Valid() && |m.entries| == |items|
    requires forall i :: 0 <= i < |items| ==> m.Path(i) == items[i].path && m.Content(i) == items[i].content
    requires DistinctPaths(files) && AllValidPaths(files) && forall f :: f in items <==> f in files
    ensures Stored(m, path) == InSource(files, path)
  {
    if f :| f in files && f.path == path {
      var k :| 0 <= k < |items| && items[k] == f;
      assert m.Path(k) == path;
      forall i | 0 <= i < |items| && m.Path(i) == path ensures m.Content(i) == f.content {
        DistinctUnique(files, items[i], f);
      }
      forall g | g in files && g.path == path ensures g == f {
        DistinctUnique(files, g, f);
      }
    } else {
      assert forall i :: 0 <= i < |items| ==> items[i] in files;
    }
  }

  lemma {:induction false} WrittenReads(files: seq<SourceFile>, packId: u64, path: bytes)
    requires Enumerable(files) && Buildable(files)
    ensures Fits(SortByPath(files)) && MountWritten(SortByPath(files), packId).Valid()
    ensures Stored(MountWritten(SortByPath(files), packId), path) == InSource(files, path)
  {
    var items := SortByPath(files);
    SortedBuildable(files);
    WrittenValid(items, packId);
    SortKeeps(files);
    SameMembers(items, files);
    var m := MountWritten(items, packId);
    forall i | 0 <= i < |items| ensures m.Path(i) == items[i].path && m.Content(i) == items[i].content {
      assert m.EntryOk(i);
      WrittenPath(items, packId, i);
      WrittenEntry(items, packId, i);
    }
    ListedReads(m, items, files, path);
  }

  /**
   * The pack round trip. For every buildable set of files the written pair is accepted, its data file is as
   * long as the header says, and every path reads exactly what the asset directory holds under it.
   */
  lemma {:induction false} PackRoundTrip(files: seq<SourceFile>, packId: u64, path: bytes)
    requires Enumerable(files) && Buildable(files)
    ensures Fits(SortByPath(files)) && |SortByPath(files)| <= MAX_FILES
    ensures
      var pack, index := PackBytes(SortByPath(files), packId), IndexBytes(SortByPath(files), packId);
      && ValidPair(pack, index)
      && |pack| == PackSize(SortByPath(files))
      && Stored(MountOf(pack, index), path) == InSource(files, path)
  {
    var items := SortByPath(files);
    SortedBuildable(files);
    PairAccepted(items, packId);
    PackBytesShape(items, packId);
    MountReadsBack(items, packId);
    WrittenReads(files, packId, path);
  }

  /** No two files of a written pack share a byte of it, and none touches the header. */
  lemma {:induction false} EntriesDisjoint(items: seq<SourceFile>, packId: u64, i: nat, j: nat)
    requires Fits(items) && i < j < |items|
    ensures
      var es := MountWritten(items, packId).entries;
      PACK_HEADER_SIZE <= es[i].offset && es[i].offset + es[i].size <= es[j].offset && es[j].offset % 16 == 0
  {
    TailStep(items, i);
    TailPrefix(items[..j], i + 1);
    assert items[..j][..i + 1] == items[..i + 1];
  }
}

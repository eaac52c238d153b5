/** The files found under the asset directory, and their order in the pack (`qsort` with `build_compare`). */
module PackSort {
  import opened CStrings

  /** A file found under the asset directory: its relative path (a C string) and its bytes. */
  datatype SourceFile = SourceFile(path: bytes, content: bytes)

  /** What the file system guarantees of an enumeration: paths are C strings and sizes are non-negative `off_t`. */
  predicate Enumerable(files: seq<SourceFile>) {
    forall f :: f in files ==> IsCString(f.path) && |f.content| < 0x8000_0000_0000_0000
  }

  predicate InOrder(items: seq<SourceFile>) {
    forall i, j :: 0 <= i < j < |items| ==> !Less(items[j].path, items[i].path)
  }

  predicate StrictlyOrdered(items: seq<SourceFile>) {
    forall i :: 0 < i < |items| ==> Less(items[i - 1].path, items[i].path)
  }

  predicate DistinctPaths(files: seq<SourceFile>) {
    forall i, j :: 0 <= i < j < |files| ==> files[i].path != files[j].path
  }

  function Insert(f: SourceFile, items: seq<SourceFile>): seq<SourceFile> {
    if items == [] || !Less(items[0].path, f.path) then [f] + items else [items[0]] + Insert(f, items[1..])
  }

  function SortByPath(files: seq<SourceFile>): seq<SourceFile> {
    if files == [] then [] else Insert(files[0], SortByPath(files[1..]))
  }

  /** A file may stand anywhere as far as distinctness goes. */
  lemma {:induction false} DistinctAround(a: seq<SourceFile>, f: SourceFile, b: seq<SourceFile>)
    ensures DistinctPaths(a + [f] + b) <==> DistinctPaths(a + b) && forall g :: g in a + b ==> g.path != f.path
  {
    var all, rest := a + [f] + b, a + b;
    assert forall i :: 0 <= i < |rest| ==> rest[i] == all[if i < |a| then i else i + 1];
    assert all[|a|] == f;
    if DistinctPaths(rest) && forall g :: g in rest ==> g.path != f.path {
      forall i, j | 0 <= i < j < |all| ensures all[i].path != all[j].path {
        assert i != |a| ==> all[i] == rest[if i < |a| then i else i - 1];
        assert j != |a| ==> all[j] == rest[if j < |a| then j else j - 1];
      }
    }
  }

  lemma {:induction false} Behind(x: SourceFile, rest: seq<SourceFile>, k: nat, f: SourceFile)
    requires k <= |rest|
    ensures
      var items := [x] + rest;
      [x] + (rest[..k] + [f] + rest[k..]) == items[..k + 1] + [f] + items[k + 1..]
  {
    var items := [x] + rest;
    assert items[..k + 1] == [x] + rest[..k] && items[k + 1..] == rest[k..];
  }

  lemma {:induction false} FurtherBack(f: SourceFile, items: seq<SourceFile>, k: nat)
    requires 0 < k <= |items| && Less(items[0].path, f.path)
    requires forall i :: 0 <= i < k - 1 ==> Less(items[1..][i].path, f.path)
    requires k < |items| ==> !Less(items[1..][k - 1].path, f.path)
    ensures forall i :: 0 <= i < k ==> Less(items[i].path, f.path)
    ensures k < |items| ==> !Less(items[k].path, f.path)
  {
    hide Less;
    forall i | 0 <= i < k ensures Less(items[i].path, f.path) {
      assert i > 0 ==> items[1..][i - 1] == items[i];
    }
  }

  lemma {:induction false} InsertPosition(f: SourceFile, items: seq<SourceFile>) returns (k: nat)
    ensures k <= |items| && Insert(f, items) == items[..k] + [f] + items[k..]
    ensures forall i :: 0 <= i < k ==> Less(items[i].path, f.path)
    ensures k < |items| ==> !Less(items[k].path, f.path)
  {
    if items == [] || !Less(items[0].path, f.path) {
      k := 0;
    } else {
      var rest := items[1..];
      var k' := InsertPosition(f, rest);
      k := k' + 1;
      assert items == [items[0]] + rest;
      Behind(items[0], rest, k', f);
      FurtherBack(f, items, k);
    }
  }

  lemma {:induction false} InsertInOrder(f: SourceFile, items: seq<SourceFile>)
    requires InOrder(items)
    ensures InOrder(Insert(f, items))
  {
    var k := InsertPosition(f, items);
    forall i | 0 <= i < k ensures !Less(f.path, items[i].path) {
      LessAsymmetric(items[i].path, f.path);
    }
    forall j | k <= j < |items| ensures !Less(items[j].path, f.path) {
      LessTotal(items[k].path, f.path);
      if Less(items[j].path, f.path) && items[k].path != f.path {
        LessTransitive(items[j].path, f.path, items[k].path);
      }
    }
  }

  lemma {:induction false} InsertMembers(f: SourceFile, items: seq<SourceFile>)
    ensures multiset(Insert(f, items)) == multiset{f} + multiset(items)
    ensures DistinctPaths(Insert(f, items)) <==> DistinctPaths(items) && forall g :: g in items ==> g.path != f.path
  {
    var k := InsertPosition(f, items);
    assert items == items[..k] + items[k..];
    DistinctAround(items[..k], f, items[k..]);
  }

  lemma {:induction false} SameMembers(a: seq<SourceFile>, b: seq<SourceFile>)
    requires multiset(a) == multiset(b)
    ensures |a| == |b|
    ensures forall f :: f in a <==> f in b
  {
    assert |multiset(a)| == |a| && |multiset(b)| == |b|;
    forall f ensures f in a <==> f in b {
      assert f in a <==> f in multiset(a);
      assert f in b <==> f in multiset(b);
    }
  }

  /** Sorting is a rearrangement into path order. */
  lemma {:induction false} SortKeeps(files: seq<SourceFile>)
    ensures InOrder(SortByPath(files)) && multiset(SortByPath(files)) == multiset(files)
  {
    if files != [] {
      var rest := SortByPath(files[1..]);
      SortKeeps(files[1..]);
      InsertInOrder(files[0], rest);
      InsertMembers(files[0], rest);
      assert files == [files[0]] + files[1..];
    }
  }

  lemma {:induction false} SortDistinct(files: seq<SourceFile>)
    ensures DistinctPaths(SortByPath(files)) <==> DistinctPaths(files)
  {
    hide DistinctPaths, InOrder, Insert;
    if files != [] {
      var rest := SortByPath(files[1..]);
      SortDistinct(files[1..]);
      SortKeeps(files[1..]);
      SameMembers(rest, files[1..]);
      InsertMembers(files[0], rest);
      assert files == [] + [files[0]] + files[1..] && [] + files[1..] == files[1..];
      DistinctAround([], files[0], files[1..]);
    }
  }

  /** Once sorted, neighbours differ exactly when all paths do. */
  lemma {:induction false} StrictIffDistinct(files: seq<SourceFile>)
    ensures StrictlyOrdered(SortByPath(files)) <==> DistinctPaths(files)
  {
    SortKeeps(files);
    SortDistinct(files);
    var items := SortByPath(files);
    if StrictlyOrdered(items) {
      OrderedDistinct(items);
    } else {
      var i :| 0 < i < |items| && !Less(items[i - 1].path, items[i].path);
      LessTotal(items[i - 1].path, items[i].path);
      assert items[i - 1].path == items[i].path;
    }
  }

  lemma {:induction false} OrderedLess(items: seq<SourceFile>, i: nat, j: nat)
    requires StrictlyOrdered(items) && i < j < |items|
    ensures Less(items[i].path, items[j].path)
    decreases j
  {
    if i < j - 1 {
      OrderedLess(items, i, j - 1);
      LessTransitive(items[i].path, items[j - 1].path, items[j].path);
    }
  }

  lemma {:induction false} OrderedDistinct(items: seq<SourceFile>)
    requires StrictlyOrdered(items)
    ensures DistinctPaths(items)
  {
    forall i, j | 0 <= i < j < |items| ensures items[i].path != items[j].path {
      OrderedLess(items, i, j);
      LessIrreflexive(items[i].path);
    }
  }
}

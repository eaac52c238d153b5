/** When `readdir` over a mounted pack gives a name twice: a file and a directory of it, with another child between. */
module PackTwins {
  import opened Bytes
  import opened CStrings
  import opened PackDirectory
  import opened PackFormat
  import opened PackLayout
  import opened PackListing
  import opened PackSort

  // ---- names of a listing, for any sequence of children ----

  /** Some entry from `c` on belongs to a child of that name. */
  predicate Has(cs: seq<Option<Item>>, c: nat, name: bytes) {
    exists k :: c <= k < |cs| && cs[k].Some? && cs[k].value.name == name
  }

  predicate Lists(items: seq<Item>, name: bytes) { exists a :: 0 <= a < |items| && items[a].name == name }

  lemma {:induction false} ListsMore(item: Item, items: seq<Item>, name: bytes)
    ensures Lists([item] + items, name) <==> item.name == name || Lists(items, name)
    ensures DistinctNames([item] + items) <==> !Lists(items, item.name) && DistinctNames(items)
  {
    var more := [item] + items;
    assert more[0] == item && forall a :: 0 <= a < |items| ==> items[a] == more[a + 1];
  }

  lemma {:induction false} ListsNames(cs: seq<Option<Item>>, c: nat, last: bytes, name: bytes)
    requires c <= |cs| && name != last
    ensures Lists(Remaining(cs, c, last), name) <==> Has(cs, c, name)
    decreases |cs| - c
  {
    hide Lists;
    if c == |cs| {
      NothingListed(name);
    } else if cs[c].None? || cs[c].value.name == last {
      ListsNames(cs, c + 1, last, name);
    } else {
      ListsMore(cs[c].value, Remaining(cs, c + 1, cs[c].value.name), name);
      if cs[c].value.name != name {
        ListsNames(cs, c + 1, cs[c].value.name, name);
      }
    }
  }

  lemma {:induction false} ListedIsThere(cs: seq<Option<Item>>, c: nat, last: bytes, name: bytes)
    requires c <= |cs| && Lists(Remaining(cs, c, last), name)
    ensures Has(cs, c, name)
    decreases |cs| - c
  {
    hide Lists;
    if c == |cs| {
      NothingListed(name);
    } else if cs[c].None? || cs[c].value.name == last {
      ListedIsThere(cs, c + 1, last, name);
    } else {
      ListsMore(cs[c].value, Remaining(cs, c + 1, cs[c].value.name), name);
      if cs[c].value.name != name {
        ListedIsThere(cs, c + 1, cs[c].value.name, name);
      }
    }
  }

  lemma {:induction false} NothingListed(name: bytes)
    ensures !Lists([], name) && DistinctNames([])
  {
  }

  /** From `c` on, the name does not come back once another one has come. */
  predicate Closed(cs: seq<Option<Item>>, c: nat, name: bytes) {
    forall j, k :: c <= j < k < |cs| && cs[j].Some? && cs[k].Some? && cs[k].value.name == name ==>
      cs[j].value.name == name
  }

  /** Entries of one name stand together. */
  predicate Grouped(cs: seq<Option<Item>>, c: nat) {
    forall i :: c <= i < |cs| && cs[i].Some? ==> Closed(cs, i + 1, cs[i].value.name)
  }

  lemma {:induction false} GroupedStep(cs: seq<Option<Item>>, c: nat)
    requires c < |cs|
    ensures Grouped(cs, c) <==> Grouped(cs, c + 1) && (cs[c].Some? ==> Closed(cs, c + 1, cs[c].value.name))
  {
  }

  lemma {:induction false} ClosedStep(cs: seq<Option<Item>>, c: nat, name: bytes)
    requires c < |cs|
    ensures Closed(cs, c, name) <==>
      if cs[c].Some? && cs[c].value.name != name then !Has(cs, c + 1, name) else Closed(cs, c + 1, name)
  {
    if cs[c].Some? && cs[c].value.name != name && !Closed(cs, c, name) {
      var j, k :| c <= j < k < |cs| && cs[j].Some? && cs[k].Some? && cs[k].value.name == name
        && cs[j].value.name != name;
      assert Has(cs, c + 1, name);
    }
  }

  /** What is left of a listing repeats no name, and not the one just given, exactly when names stand together. */
  lemma {:induction false} DistinctIffGrouped(cs: seq<Option<Item>>, c: nat, last: bytes)
    requires c <= |cs|
    ensures
      var list := Remaining(cs, c, last);
      DistinctNames(list) && !Lists(list, last) <==> Closed(cs, c, last) && Grouped(cs, c)
    decreases |cs| - c
  {
    hide Lists, DistinctNames, Closed, Grouped, Has;
    if c == |cs| {
      NothingListed(last);
      NothingGrouped(cs, last);
    } else {
      GroupedStep(cs, c);
      ClosedStep(cs, c, last);
      if cs[c].None? || cs[c].value.name == last {
        DistinctIffGrouped(cs, c + 1, last);
      } else {
        var name := cs[c].value.name;
        DistinctIffGrouped(cs, c + 1, name);
        ListsNames(cs, c + 1, name, last);
        ListsMore(cs[c].value, Remaining(cs, c + 1, name), last);
      }
    }
  }

  lemma {:induction false} NothingGrouped(cs: seq<Option<Item>>, name: bytes)
    ensures Closed(cs, |cs|, name) && Grouped(cs, |cs|)
  {
  }

  // ---- a mounted pack ----

  /** A file, an entry of another child, and a directory of the file's name, in the order of the pack. */
  predicate Twins(m: Mount, dir: bytes, i: nat, j: nat, k: nat) {
    && i < j < k < |m.entries|
    && SameName(ChildOf(dir, m.Path(i)), ChildOf(dir, m.Path(k)))
    && !ChildOf(dir, m.Path(i)).value.isDirectory && ChildOf(dir, m.Path(k)).value.isDirectory
    && ChildOf(dir, m.Path(j)).Some? && !SameName(ChildOf(dir, m.Path(i)), ChildOf(dir, m.Path(j)))
  }

  /** Only a file and a directory can be parted so. */
  lemma {:induction false} PartedAreTwins(m: Mount, dir: bytes, i: nat, j: nat, k: nat)
    requires m.Valid() && i < j < k < |m.entries|
    requires SameName(ChildOf(dir, m.Path(i)), ChildOf(dir, m.Path(k)))
    requires ChildOf(dir, m.Path(j)).Some? && !SameName(ChildOf(dir, m.Path(i)), ChildOf(dir, m.Path(j)))
    ensures Twins(m, dir, i, j, k)
  {
    hide ChildOf, FirstPart, Less;
    var a, c := ChildOf(dir, m.Path(i)).value, ChildOf(dir, m.Path(k)).value;
    if a.isDirectory == c.isDirectory {
      OneChild(m, dir, i, j, k);
    } else if a.isDirectory {
      ChildShape(dir, m.Path(i));
      ChildShape(dir, m.Path(k));
      PathsSorted(m, i, k);
      PrefixNotGreater(m.Path(k), m.Path(i));
      LessAsymmetric(m.Path(i), m.Path(k));
    }
  }

  /** A listing gives no name twice exactly when no child stands between a file and a directory of one name. */
  lemma {:induction false} NamesDistinct(m: Mount, dir: bytes)
    requires m.Valid()
    ensures DistinctNames(Remaining(Children(m, dir), 0, [])) <==>
      forall i: nat, j: nat, k: nat :: !Twins(m, dir, i, j, k)
  {
    hide ChildOf, Remaining, DistinctNames, Grouped, Closed;
    var cs := Children(m, dir);
    DistinctIffGrouped(cs, 0, []);
    NoEmptyName(cs);
    if !Grouped(cs, 0) {
      var i, j, k := TwinsFound(m, dir);
    }
    forall i: nat, j: nat, k: nat | Twins(m, dir, i, j, k) ensures !Grouped(cs, 0) {
      TwinsPart(m, dir, i, j, k);
    }
  }

  lemma {:induction false} NoEmptyName(cs: seq<Option<Item>>)
    requires Named(cs)
    ensures !Lists(Remaining(cs, 0, []), []) && Closed(cs, 0, [])
  {
    hide Lists, Remaining;
    if Lists(Remaining(cs, 0, []), []) {
      ListedIsThere(cs, 0, [], []);
    }
  }

  lemma {:induction false} Parted(cs: seq<Option<Item>>) returns (i: nat, j: nat, k: nat)
    requires !Grouped(cs, 0)
    ensures i < j < k < |cs| && SameName(cs[i], cs[k]) && cs[j].Some? && !SameName(cs[i], cs[j])
  {
    i :| i < |cs| && cs[i].Some? && !Closed(cs, i + 1, cs[i].value.name);
    j, k :| i < j < k < |cs| && SameName(cs[i], cs[k]) && cs[j].Some? && !SameName(cs[i], cs[j]);
  }

  lemma {:induction false} TwinsFound(m: Mount, dir: bytes) returns (i: nat, j: nat, k: nat)
    requires m.Valid() && !Grouped(Children(m, dir), 0)
    ensures Twins(m, dir, i, j, k)
  {
    hide ChildOf, Twins, Grouped;
    i, j, k := Parted(Children(m, dir));
    PartedAreTwins(m, dir, i, j, k);
  }

  lemma {:induction false} TwinsPart(m: Mount, dir: bytes, i: nat, j: nat, k: nat)
    requires Twins(m, dir, i, j, k)
    ensures !Grouped(Children(m, dir), 0)
  {
    hide ChildOf;
    var cs := Children(m, dir);
    assert cs[i].Some? && cs[j].Some? && cs[k].Some?;
    assert !Closed(cs, i + 1, cs[i].value.name);
  }

  const NAME_A: bytes := [0x61]
  const NAME_A_DASH: bytes := [0x61, 0x2D]
  const PATH_A_B: bytes := [0x61, SLASH, 0x62]

  predicate TwinItems(items: seq<SourceFile>) {
    && |items| == 3 && items[0] == SourceFile(NAME_A, []) && items[1] == SourceFile(NAME_A_DASH, [])
    && items[2] == SourceFile(PATH_A_B, [])
  }

  lemma {:induction false} NoTail()
    ensures PackSize([]) == PACK_HEADER_SIZE && PathsBlob([]) == []
  {
  }

  lemma {:induction false} SmallPack(items: seq<SourceFile>)
    requires TwinItems(items)
    ensures PackSize(items) < 128 && |PathsBlob(items)| == 9
  {
    hide PathsBlob, PackSize, PackTail;
    NoTail();
    BlobStep(items, 0);
    BlobStep(items, 1);
    BlobStep(items, 2);
    TailStep(items, 0);
    TailStep(items, 1);
    TailStep(items, 2);
    assert items[..0] == [];
    assert items[..3] == items;
  }

  lemma {:induction false} TwinPaths()
    ensures IsCString(NAME_A) && IsCString(NAME_A_DASH) && IsCString(PATH_A_B)
    ensures Less(NAME_A, NAME_A_DASH) && Less(NAME_A_DASH, PATH_A_B)
    ensures ValidPath(NAME_A) && ValidPath(NAME_A_DASH) && ValidPath(PATH_A_B)
  {
    NoSlashOnePart(NAME_A);
    NoSlashOnePart(NAME_A_DASH);
    assert PATH_A_B == NAME_A + [SLASH] + [0x62];
    NoSlashOnePart([0x62]);
    SplitAtSlash(NAME_A, [0x62]);
  }

  lemma {:induction false} TwinsShape(items: seq<SourceFile>)
    requires TwinItems(items)
    ensures Enumerable(items) && Fits(items) && AllValidPaths(items) && StrictlyOrdered(items)
    ensures |PathsBlob(items)| <= MAX_PATHS_SIZE
  {
    hide IsCString, ValidPath, PackSize, PathsBlob, Less;
    TwinPaths();
    SmallPack(items);
  }

  lemma {:induction false} WholePart(name: bytes)
    requires SLASH !in name
    ensures FirstPart(name) == name
  {
    if name != [] {
      WholePart(name[1..]);
    }
  }

  lemma {:induction false} TwinChildren()
    ensures ChildOf([], NAME_A) == Some(Item(NAME_A, false))
    ensures ChildOf([], NAME_A_DASH) == Some(Item(NAME_A_DASH, false))
    ensures ChildOf([], PATH_A_B) == Some(Item(NAME_A, true))
  {
    WholePart(NAME_A);
    WholePart(NAME_A_DASH);
    assert PATH_A_B == NAME_A + [SLASH] + [0x62];
    FirstPartOf(NAME_A, [0x62]);
  }

  lemma {:induction false} TwinsListed(items: seq<SourceFile>, packId: u64)
    requires TwinItems(items) && Enumerable(items) && Fits(items)
    ensures Remaining(Children(MountWritten(items, packId), []), 0, []) ==
      [Item(NAME_A, false), Item(NAME_A_DASH, false), Item(NAME_A, true)]
  {
    hide ChildOf, PackBytes, PathsBlob, PackSize;
    WrittenPath(items, packId, 0);
    WrittenPath(items, packId, 1);
    WrittenPath(items, packId, 2);
    var cs := Children(MountWritten(items, packId), []);
    TwinChildren();
    RemainingEnd(cs, NAME_A);
    RemainingStep(cs, 2, NAME_A_DASH);
    RemainingStep(cs, 1, NAME_A);
    RemainingStep(cs, 0, []);
  }

  /** Files "a", "a-" and "a/b" make a pack that the loader accepts, and whose root lists "a", "a-" and "a" again. */
  lemma {:induction false} TwinsExample(packId: u64) returns (pack: bytes, index: bytes)
    ensures ValidPair(pack, index)
    ensures Remaining(Children(MountOf(pack, index), []), 0, []) ==
      [Item(NAME_A, false), Item(NAME_A_DASH, false), Item(NAME_A, true)]
  {
    hide ValidPair, MountOf, PackBytes, IndexBytes, PathsBlob, PackSize, ChildOf, Remaining, Less, ValidPath;
    var items := [SourceFile(NAME_A, []), SourceFile(NAME_A_DASH, []), SourceFile(PATH_A_B, [])];
    TwinsShape(items);
    pack, index := PackBytes(items, packId), IndexBytes(items, packId);
    PairAccepted(items, packId);
    MountReadsBack(items, packId);
    TwinsListed(items, packId);
  }
}

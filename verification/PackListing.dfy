/** `readdir` over a mounted pack: one pass over the sorted entries that remembers only the last name it gave. */
module PackListing {
  import opened Bytes
  import opened Slices
  import opened CStrings
  import opened PackFormat
  import opened PackDirectory

  datatype Item = Item(name: bytes, isDirectory: bool)

  /** The bytes before the first '/', as `strchr` finds them. */
  function FirstPart(tail: bytes): (part: bytes)
    ensures part <= tail && SLASH !in part
    ensures |part| < |tail| ==> tail[|part|] == SLASH
  {
    if tail == [] || tail[0] == SLASH then [] else [tail[0]] + FirstPart(tail[1..])
  }

  /** What every path below the directory starts with. */
  function Head(dir: bytes): bytes { if dir == [] then [] else dir + [SLASH] }

  /** The immediate child of `dir` that an entry belongs to, when its name fits a directory entry. */
  function ChildOf(dir: bytes, path: bytes): (c: Option<Item>)
    ensures c.Some? ==> c.value.name != [] && |c.value.name| < NAME_CAPACITY && SLASH !in c.value.name
  {
    if !(Head(dir) <= path) then None
    else
      var tail := path[|Head(dir)|..];
      var name := FirstPart(tail);
      if name == [] || |name| >= NAME_CAPACITY then None else Some(Item(name, |name| < |tail|))
  }

  /** For every entry in order, the child of `dir` it belongs to. */
  function Children(m: Mount, dir: bytes): (cs: seq<Option<Item>>)
    ensures |cs| == |m.entries|
    ensures forall i :: 0 <= i < |m.entries| ==> cs[i] == ChildOf(dir, m.Path(i))
  {
    seq(|m.entries|, i requires 0 <= i < |m.entries| => ChildOf(dir, m.Path(i)))
  }

  /** What a listing has still to give from a cursor on, after the name `last`. */
  function Remaining(cs: seq<Option<Item>>, cursor: nat, last: bytes): seq<Item>
    requires cursor <= |cs|
    decreases |cs| - cursor
  {
    if cursor == |cs| then []
    else if cs[cursor].None? || cs[cursor].value.name == last then Remaining(cs, cursor + 1, last)
    else [cs[cursor].value] + Remaining(cs, cursor + 1, cs[cursor].value.name)
  }

  const DOT_ITEM := Item([DOT], true)
  const DOT_DOT_ITEM := Item([DOT, DOT], true)

  lemma {:induction false} RemainingStep(cs: seq<Option<Item>>, cursor: nat, last: bytes)
    requires cursor < |cs|
    ensures Remaining(cs, cursor, last) ==
      if cs[cursor].None? || cs[cursor].value.name == last then Remaining(cs, cursor + 1, last)
      else [cs[cursor].value] + Remaining(cs, cursor + 1, cs[cursor].value.name)
  {
  }

  lemma {:induction false} RemainingEnd(cs: seq<Option<Item>>, last: bytes)
    ensures Remaining(cs, |cs|, last) == []
  {
  }

  /** The dots still to come, then the rest. */
  function Dots(dots: nat, rest: seq<Item>): seq<Item> {
    if dots == 0 then [DOT_ITEM] + ([DOT_DOT_ITEM] + rest) else if dots == 1 then [DOT_DOT_ITEM] + rest else rest
  }

  /** An open directory stream (`PackDir`). */
  class DirStream {
    const m: Mount
    const prefix: bytes
    var cursor: nat
    var dots: nat
    var last: bytes

    predicate Valid()
      reads this
    {
      cursor <= |m.entries| && dots <= 2
    }

    /** Everything that is still to be read from the stream. */
    function Pending(): seq<Item>
      requires Valid()
      reads this
    {
      Dots(dots, Remaining(Children(m, prefix), cursor, last))
    }

    constructor (m: Mount, relative: bytes)
      ensures Valid() && this.m == m && prefix == relative
      ensures Pending() ==
        [Item([0x2E], true), Item([0x2E, 0x2E], true)] + Remaining(Children(m, relative), 0, [])
    {
      this.m := m;
      prefix := relative;
      cursor, dots, last := 0, 0, [];
    }

    /** `asset_pack_readdir_path`: the next pending item, or nothing once there is none. */
    method ReadDir() returns (r: Option<Item>)
      requires Valid()
      modifies this
      ensures Valid()
      ensures r.None? <==> old(Pending()) == []
      ensures r.Some? ==> old(Pending()) == [r.value] + Pending()
      ensures r.None? ==> Pending() == []
    {
      hide ChildOf, Remaining;
      if dots < 2 {
        dots := dots + 1;
        return Some(if dots == 1 then DOT_ITEM else DOT_DOT_ITEM);
      }
      ghost var cs := Children(m, prefix);
      ghost var pending := Remaining(cs, cursor, last);
      while cursor < |m.entries|
        invariant Valid() && dots == 2 && Remaining(cs, cursor, last) == pending
        decreases |m.entries| - cursor
      {
        var index := cursor;
        cursor := cursor + 1;
        var child := ChildAt(index);
        RemainingStep(cs, index, last);
        if child.None? || child.value.name == last {
          continue;
        }
        last := child.value.name;
        return child;
      }
      RemainingEnd(cs, last);
      return None;
    }

    /** The part of the loop that reads one entry. */
    method ChildAt(index: nat) returns (c: Option<Item>)
      requires index < |m.entries|
      ensures c == ChildOf(prefix, m.Path(index))
    {
      hide FirstPart;
      var entry := m.Path(index);
      HeadTest(prefix, entry);
      var tail := entry;
      if prefix != [] {
        if !(prefix <= entry && |prefix| < |entry| && entry[|prefix|] == SLASH) {
          return None;
        }
        tail := entry[|prefix| + 1..];
      }
      assert tail == entry[|Head(prefix)|..];
      var name := FirstPart(tail);
      if |name| == 0 || |name| >= NAME_CAPACITY {
        return None;
      }
      return Some(Item(name, |name| < |tail|));
    }
  }

  // ---- the listing is exact ----

  /** As in every file system: no path is both a file and a directory. */
  predicate TreeLike(m: Mount) {
    forall i, j :: 0 <= i < |m.entries| && 0 <= j < |m.entries| ==> !(m.Path(i) + [SLASH] <= m.Path(j))
  }

  predicate SameName(a: Option<Item>, b: Option<Item>) { a.Some? && b.Some? && a.value.name == b.value.name }

  /** In this directory no name is that of a file and of a directory. */
  predicate OneKind(m: Mount, dir: bytes) {
    forall i, k ::
      0 <= i < |m.entries| && 0 <= k < |m.entries| && SameName(ChildOf(dir, m.Path(i)), ChildOf(dir, m.Path(k))) ==>
        ChildOf(dir, m.Path(i)) == ChildOf(dir, m.Path(k))
  }

  /** The prefix test of the scan, as it is written. */
  lemma {:induction false} HeadTest(dir: bytes, entry: bytes)
    ensures Head(dir) <= entry <==> dir == [] || (dir <= entry && |dir| < |entry| && entry[|dir|] == SLASH)
  {
    UnderTest(dir, entry);
  }

  /** An entry belongs to a child when its path is the child itself or something below it. */
  lemma {:induction false} ChildShape(dir: bytes, path: bytes)
    requires ChildOf(dir, path).Some?
    ensures
      var item := ChildOf(dir, path).value;
      if item.isDirectory then Head(dir) + item.name + [SLASH] <= path else path == Head(dir) + item.name
  {
    hide FirstPart;
    var head := Head(dir);
    var tail := path[|head|..];
    var name := FirstPart(tail);
    assert path == head + tail;
    if |name| < |tail| {
      var rest := tail[|name| + 1..];
      SplitAt(tail, |name|);
      Associative(head, name + [SLASH], rest);
      Associative(head, name, [SLASH]);
    }
  }

  lemma {:induction false} FirstPartOf(name: bytes, rest: bytes)
    requires SLASH !in name
    ensures FirstPart(name + [SLASH] + rest) == name
  {
    var s := name + [SLASH] + rest;
    if name != [] {
      assert s[1..] == name[1..] + [SLASH] + rest;
      FirstPartOf(name[1..], rest);
    }
  }

  /** Whatever lies below a child's path belongs to that child. */
  lemma {:induction false} ChildFromPrefix(dir: bytes, name: bytes, path: bytes)
    requires name != [] && |name| < NAME_CAPACITY && SLASH !in name
    requires Head(dir) + name + [SLASH] <= path
    ensures ChildOf(dir, path) == Some(Item(name, true))
  {
    var head := Head(dir);
    var rest := path[|head| + |name| + 1..];
    assert path == head + name + [SLASH] + rest;
    assert path == head + (name + [SLASH] + rest);
    assert path[|head|..] == name + [SLASH] + rest;
    FirstPartOf(name, rest);
  }

  /** The entries of one child stand together, and agree on what it is. */
  predicate Contiguous(cs: seq<Option<Item>>) {
    forall i, j, k :: 0 <= i <= j <= k < |cs| && cs[i].Some? && cs[k].Some? && cs[i].value.name == cs[k].value.name ==>
      cs[j] == cs[i]
  }

  /** Two entries of the same child both lie below it. */
  lemma {:induction false} SharedChild(m: Mount, dir: bytes, i: nat, k: nat)
    requires m.Valid() && i < k < |m.entries|
    requires ChildOf(dir, m.Path(i)).Some? && ChildOf(dir, m.Path(i)) == ChildOf(dir, m.Path(k))
    ensures ChildOf(dir, m.Path(i)).value.isDirectory
  {
    hide ChildOf, FirstPart;
    ChildShape(dir, m.Path(i));
    ChildShape(dir, m.Path(k));
    if m.Path(i) == m.Path(k) {
      PathsDistinct(m, i, k);
    }
  }

  lemma {:induction false} OneChild(m: Mount, dir: bytes, i: nat, j: nat, k: nat)
    requires m.Valid() && i <= j <= k < |m.entries|
    requires ChildOf(dir, m.Path(i)).Some? && ChildOf(dir, m.Path(i)) == ChildOf(dir, m.Path(k))
    ensures ChildOf(dir, m.Path(j)) == ChildOf(dir, m.Path(i))
  {
    hide ChildOf, FirstPart;
    if i < j {
      SharedChild(m, dir, i, k);
      var item := ChildOf(dir, m.Path(i)).value;
      ChildShape(dir, m.Path(i));
      ChildShape(dir, m.Path(k));
      PathsSorted(m, i, j);
      if j < k {
        PathsSorted(m, j, k);
      }
      PrefixInterval(Head(dir) + item.name + [SLASH], m.Path(i), m.Path(j), m.Path(k));
      ChildFromPrefix(dir, item.name, m.Path(j));
    }
  }

  lemma {:induction false} ChildrenContiguous(m: Mount, dir: bytes)
    requires m.Valid() && OneKind(m, dir)
    ensures Contiguous(Children(m, dir))
  {
    hide ChildOf;
    var cs := Children(m, dir);
    forall i, j, k | 0 <= i <= j <= k < |cs| && cs[i].Some? && cs[k].Some? && cs[i].value.name == cs[k].value.name
      ensures cs[j] == cs[i]
    {
      assert SameName(ChildOf(dir, m.Path(i)), ChildOf(dir, m.Path(k)));
      OneChild(m, dir, i, j, k);
    }
  }

  /** The name a listing remembers is that of the latest child it passed. */
  predicate Recent(cs: seq<Option<Item>>, cursor: nat, last: bytes)
    requires cursor <= |cs|
  {
    if last == [] then forall p :: 0 <= p < cursor ==> cs[p].None?
    else exists p :: 0 <= p < cursor && cs[p].Some? && cs[p].value.name == last
                     && forall q :: p < q < cursor ==> cs[q].None?
  }

  /** A child that shows up from the cursor on and whose name has not shown up before it. */
  predicate NewFrom(cs: seq<Option<Item>>, cursor: nat, item: Item)
    requires cursor <= |cs|
  {
    && (exists k :: cursor <= k < |cs| && cs[k] == Some(item))
    && forall p :: 0 <= p < cursor && cs[p].Some? ==> cs[p].value.name != item.name
  }

  /** A child met after its own group has been passed over would break contiguity. */
  lemma {:induction false} FreshName(cs: seq<Option<Item>>, cursor: nat, last: bytes)
    requires Contiguous(cs) && cursor < |cs| && Recent(cs, cursor, last)
    requires cs[cursor].Some? && cs[cursor].value.name != last
    ensures NewFrom(cs, cursor, cs[cursor].value)
  {
  }

  lemma {:induction false} NewStep(cs: seq<Option<Item>>, cursor: nat, last: bytes, item: Item)
    requires Contiguous(cs) && cursor < |cs| && Recent(cs, cursor, last)
    requires Named(cs)
    ensures
      if cs[cursor].None? || cs[cursor].value.name == last then
        NewFrom(cs, cursor, item) <==> NewFrom(cs, cursor + 1, item)
      else NewFrom(cs, cursor, item) <==> item == cs[cursor].value || NewFrom(cs, cursor + 1, item)
  {
    if cs[cursor].Some? && cs[cursor].value.name != last {
      FreshName(cs, cursor, last);
    }
  }

  predicate Named(cs: seq<Option<Item>>) {
    forall p :: 0 <= p < |cs| && cs[p].Some? ==> cs[p].value.name != []
  }

  /** From any reachable position the rest of the listing holds exactly the children not met before it. */
  lemma {:induction false} RemainingExact(cs: seq<Option<Item>>, cursor: nat, last: bytes)
    requires Contiguous(cs) && Named(cs) && cursor <= |cs| && Recent(cs, cursor, last)
    ensures forall item :: item in Remaining(cs, cursor, last) <==> NewFrom(cs, cursor, item)
    decreases |cs| - cursor
  {
    if cursor < |cs| {
      RecentStep(cs, cursor, last);
      RemainingExact(cs, cursor + 1, if cs[cursor].Some? then cs[cursor].value.name else last);
      forall item ensures item in Remaining(cs, cursor, last) <==> NewFrom(cs, cursor, item) {
        NewStep(cs, cursor, last, item);
      }
    }
  }

  predicate DistinctNames(items: seq<Item>) {
    forall a, b :: 0 <= a < b < |items| ==> items[a].name != items[b].name
  }

  /** And gives no name twice. */
  lemma {:induction false} NewIsOther(cs: seq<Option<Item>>, cursor: nat, item: Item)
    requires cursor < |cs| && cs[cursor].Some? && NewFrom(cs, cursor + 1, item)
    ensures item.name != cs[cursor].value.name
  {
  }

  lemma {:induction false} RemainingDistinct(cs: seq<Option<Item>>, cursor: nat, last: bytes)
    requires Contiguous(cs) && Named(cs) && cursor <= |cs| && Recent(cs, cursor, last)
    ensures DistinctNames(Remaining(cs, cursor, last))
    decreases |cs| - cursor
  {
    hide Contiguous, Recent, NewFrom;
    if cursor < |cs| {
      RecentStep(cs, cursor, last);
      var next := if cs[cursor].Some? then cs[cursor].value.name else last;
      var tail := Remaining(cs, cursor + 1, next);
      RemainingDistinct(cs, cursor + 1, next);
      RemainingExact(cs, cursor + 1, next);
      if cs[cursor].Some? {
        forall b | 0 <= b < |tail| ensures tail[b].name != cs[cursor].value.name {
          assert tail[b] in tail;
          NewIsOther(cs, cursor, tail[b]);
        }
      }
    }
  }

  lemma {:induction false} RecentStep(cs: seq<Option<Item>>, cursor: nat, last: bytes)
    requires cursor < |cs| && Recent(cs, cursor, last)
    requires cs[cursor].Some? ==> cs[cursor].value.name != []
    ensures Recent(cs, cursor + 1, if cs[cursor].Some? then cs[cursor].value.name else last)
  {
  }

  /** The items after "." and ".." are the immediate children of the directory, each given once, with the right type. */
  ghost predicate Exact(m: Mount, dir: bytes) {
    var list := Remaining(Children(m, dir), 0, []);
    && (forall item :: item in list <==> exists i :: 0 <= i < |m.entries| && ChildOf(dir, m.Path(i)) == Some(item))
    && DistinctNames(list)
  }

  lemma {:induction false} OneKindListsExactly(m: Mount, dir: bytes)
    requires m.Valid() && OneKind(m, dir)
    ensures Exact(m, dir)
  {
    hide ChildOf, OneKind, Contiguous, Remaining, DistinctNames;
    var cs := Children(m, dir);
    ChildrenContiguous(m, dir);
    RemainingExact(cs, 0, []);
    RemainingDistinct(cs, 0, []);
    forall item
      ensures NewFrom(cs, 0, item) <==> exists i :: 0 <= i < |m.entries| && ChildOf(dir, m.Path(i)) == Some(item)
    {
      if i :| 0 <= i < |m.entries| && ChildOf(dir, m.Path(i)) == Some(item) {
        assert cs[i] == Some(item);
      }
      if NewFrom(cs, 0, item) {
        var k :| 0 <= k < |cs| && cs[k] == Some(item);
        assert ChildOf(dir, m.Path(k)) == Some(item);
      }
    }
  }

  /** Directory listing is exact just when no name in the directory is that of a file and of a directory. */
  lemma {:induction false} ListingExact(m: Mount, dir: bytes)
    requires m.Valid()
    ensures Exact(m, dir) <==> OneKind(m, dir)
  {
    hide ChildOf, Remaining;
    if OneKind(m, dir) {
      OneKindListsExactly(m, dir);
    }
    if Exact(m, dir) {
      var list := Remaining(Children(m, dir), 0, []);
      forall i, k |
        0 <= i < |m.entries| && 0 <= k < |m.entries| && SameName(ChildOf(dir, m.Path(i)), ChildOf(dir, m.Path(k)))
        ensures ChildOf(dir, m.Path(i)) == ChildOf(dir, m.Path(k))
      {
        assert ChildOf(dir, m.Path(i)).value in list && ChildOf(dir, m.Path(k)).value in list;
      }
    }
  }

  /** So it is in every directory of a pack that was built from a file system. */
  lemma {:induction false} TreesListExactly(m: Mount, dir: bytes)
    requires m.Valid() && TreeLike(m)
    ensures Exact(m, dir)
  {
    hide ChildOf, Exact;
    forall i, k |
      0 <= i < |m.entries| && 0 <= k < |m.entries| && SameName(ChildOf(dir, m.Path(i)), ChildOf(dir, m.Path(k)))
      ensures ChildOf(dir, m.Path(i)) == ChildOf(dir, m.Path(k))
    {
      ChildShape(dir, m.Path(i));
      ChildShape(dir, m.Path(k));
    }
    ListingExact(m, dir);
  }
}

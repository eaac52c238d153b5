/** Path normalisation, directory existence two ways, and directory listing over a mounted pack. */
module PackDirectory {
  import opened Bytes
  import opened Slices
  import opened CStrings
  import opened PackFormat
  import opened PackLookup
  import opened PackSort
  import opened PackLayout

  const NAME_CAPACITY := 256
  const MOUNT_POINT: bytes := [0x2F, 0x61, 0x73, 0x73, 0x65, 0x74, 0x73]  // "/assets"

  // ---- normalize_asset_path ----

  function Slashed(input: bytes): (t: bytes)
    ensures |t| == |input|
    ensures forall i :: 0 <= i < |t| ==> t[i] == if input[i] == BACKSLASH then SLASH else input[i]
  {
    seq(|input|, i requires 0 <= i < |input| => if input[i] == BACKSLASH then SLASH else input[i])
  }

  /** "/assets" stands at `k` as a whole component. */
  predicate MountAt(t: bytes, k: nat) {
    k + 7 <= |t| && t[k..k + 7] == MOUNT_POINT && (k + 7 == |t| || t[k + 7] == SLASH)
  }

  /** The components that survive: neither empty nor ".". */
  function Kept(parts: seq<bytes>): seq<bytes> {
    if parts == [] then [] else (if parts[0] == [] || parts[0] == [DOT] then [] else [parts[0]]) + Kept(parts[1..])
  }

  function Join(parts: seq<bytes>): bytes {
    if parts == [] then []
    else if |parts| == 1 then parts[0]
    else Join(DropLast(parts)) + [SLASH] + Last(parts)
  }

  lemma {:induction false} KeptConcat(a: seq<bytes>, b: seq<bytes>)
    ensures Kept(a + b) == Kept(a) + Kept(b)
  {
    if a == [] {
      assert a + b == b;
    } else {
      KeptConcat(a[1..], b);
      assert (a + b)[1..] == a[1..] + b && (a + b)[0] == a[0];
      Associative(if a[0] == [] || a[0] == [DOT] then [] else [a[0]], Kept(a[1..]), Kept(b));
    }
  }

  lemma {:induction false} NothingKept()
    ensures Split([]) == [[]] && Kept([[]]) == [] && Join([]) == []
  {
  }

  /** One component without a separator, at the end of the string or before a '/'. */
  lemma {:induction false} SplitComponent(s: bytes, n: nat)
    requires n <= |s| && SLASH !in s[..n] && (n == |s| || s[n] == SLASH)
    ensures Kept(Split(s)) == Kept([s[..n]]) + Kept(Split(s[n..]))
  {
    hide Split, Kept;
    NoSlashOnePart(s[..n]);
    NothingKept();
    if n == |s| {
      assert s[..n] == s && s[n..] == [];
    } else {
      SplitAt(s, n);
      SplitAtSlash(s[..n], s[n + 1..]);
      KeptConcat([s[..n]], Split(s[n + 1..]));
      assert s[n..] == [] + [SLASH] + s[n + 1..];
      NoSlashOnePart([]);
      SplitAtSlash([], s[n + 1..]);
      KeptConcat([[]], Split(s[n + 1..]));
    }
  }

  lemma {:induction false} NoSlashOnePart(s: bytes)
    requires SLASH !in s
    ensures Split(s) == [s]
  {
    if s != [] {
      NoSlashOnePart(s[1..]);
      assert s == [s[0]] + s[1..];
    }
  }

  /** The last whole "/assets" in the path, reading a leading "assets" as one too. */
  predicate LastMount(t: bytes, k: nat) {
    MountAt([SLASH] + t, k) && forall j :: k < j <= |t| ==> !MountAt([SLASH] + t, j)
  }

  /** What normalising means, given the mount point: the surviving components after it. */
  function PartsAfter(t: bytes, k: nat): seq<bytes>
    requires MountAt([SLASH] + t, k)
  {
    Kept(Split(([SLASH] + t)[k + 7..]))
  }

  lemma {:induction false} MountAtHead(t: bytes)
    ensures MountAt([SLASH] + t, 0) <==> |t| >= 6 && t[..6] == MOUNT_POINT[1..] && (|t| == 6 || t[6] == SLASH)
  {
    if |t| >= 6 {
      assert ([SLASH] + t)[0..7] == [SLASH] + t[..6];
      assert MOUNT_POINT == [SLASH] + MOUNT_POINT[1..];
      assert ([SLASH] + t[..6])[1..] == t[..6];
    }
  }

  lemma {:induction false} MountAtInner(t: bytes, p: nat)
    ensures MountAt([SLASH] + t, p + 1) <==> MountAt(t, p)
  {
    if p + 7 <= |t| {
      OfSuffix([SLASH], t, p, p + 7);
    }
  }

  /** The search for the last mount point, from both forms the path may take. */
  method FindMount(t: bytes) returns (r: Option<nat>)
    ensures r.None? <==> forall k :: 0 <= k <= |t| ==> !MountAt([SLASH] + t, k)
    ensures r.Some? ==> 6 <= r.value <= |t|
    ensures r.Some? ==> exists k :: LastMount(t, k) && PartsAfter(t, k) == Kept(Split(t[r.value..]))
  {
    hide Kept, Split, PartsAfter, MountAt;
    r := None;
    ghost var at := -1;
    MountAtHead(t);
    if |t| >= 6 && t[..6] == MOUNT_POINT[1..] && (|t| == 6 || t[6] == SLASH) {
      r := Some(if |t| == 6 then 6 else 7);
      AfterMount(t, 0, r.value);
      at := 0;
    }
    for p: nat := 0 to |t|
      invariant at <= p && (r.None? <==> at == -1)
      invariant forall k :: 0 <= k <= p && MountAt([SLASH] + t, k) ==> k <= at
      invariant r.Some? ==> MountAt([SLASH] + t, at) && 6 <= r.value <= |t|
      invariant r.Some? ==> PartsAfter(t, at) == Kept(Split(t[r.value..]))
    {
      MountAtInner(t, p);
      if MountAt(t, p) {
        r := Some(if p + 7 == |t| then p + 7 else p + 8);
        at := p + 1;
        AfterMount(t, at, r.value);
      }
    }
    assert r.Some? ==> LastMount(t, at);
  }

  /** Skipping the '/' after the mount point drops only an empty component. */
  lemma {:induction false} AfterMount(t: bytes, k: nat, start: nat)
    requires MountAt([SLASH] + t, k)
    requires start == if k + 7 == |t| + 1 then k + 6 else k + 7
    ensures start <= |t| && PartsAfter(t, k) == Kept(Split(t[start..]))
  {
    var u := [SLASH] + t;
    assert u[k + 7..] == t[k + 6..];
    if start == k + 7 {
      assert t[k + 6..] == [] + [SLASH] + t[k + 7..];
      SplitAtSlash([], t[k + 7..]);
      KeptConcat([[]], Split(t[k + 7..]));
    }
  }

  lemma {:induction false} SkipSlash(t: bytes, p: nat)
    requires p < |t| && t[p] == SLASH
    ensures Kept(Split(t[p..])) == Kept(Split(t[p + 1..]))
  {
    assert t[p..] == [] + [SLASH] + t[p + 1..];
    SplitAtSlash([], t[p + 1..]);
    KeptConcat([[]], Split(t[p + 1..]));
  }

  lemma {:induction false} TakePart(t: bytes, start: nat, p: nat)
    requires start <= p <= |t| && SLASH !in t[start..p] && (p == |t| || t[p] == SLASH)
    ensures Kept(Split(t[start..])) == Kept([t[start..p]]) + Kept(Split(t[p..]))
  {
    assert t[start..][..p - start] == t[start..p] && t[start..][p - start..] == t[p..];
    SplitComponent(t[start..], p - start);
  }

  /** The first inner loop: skip separators. */
  method SkipSlashes(t: bytes, from: nat) returns (start: nat)
    requires from <= |t|
    ensures from <= start <= |t| && (start < |t| ==> t[start] != SLASH)
    ensures Kept(Split(t[from..])) == Kept(Split(t[start..]))
  {
    start := from;
    while start < |t| && t[start] == SLASH
      invariant from <= start <= |t|
      invariant Kept(Split(t[from..])) == Kept(Split(t[start..]))
    {
      SkipSlash(t, start);
      start := start + 1;
    }
  }

  /** The second inner loop: walk to the end of the component. */
  method PartEnd(t: bytes, start: nat) returns (end: nat)
    requires start <= |t|
    ensures start <= end <= |t| && SLASH !in t[start..end]
    ensures end < |t| ==> t[end] == SLASH
  {
    end := start;
    while end < |t| && t[end] != SLASH
      invariant start <= end <= |t| && SLASH !in t[start..end]
    {
      end := end + 1;
    }
  }

  // ---- lengths ----

  /** The length of the joined components. */
  function Total(parts: seq<bytes>): nat {
    if parts == [] then 0 else |parts[0]| + if |parts| == 1 then 0 else 1 + Total(parts[1..])
  }

  lemma {:induction false} JoinTotal(parts: seq<bytes>)
    ensures |Join(parts)| == Total(parts)
    decreases |parts|
  {
    if |parts| > 1 {
      JoinTotal(DropLast(parts));
      TotalSnoc(DropLast(parts), Last(parts));
      assert DropLast(parts) + [Last(parts)] == parts;
    }
  }

  lemma {:induction false} TotalSnoc(parts: seq<bytes>, part: bytes)
    requires parts != []
    ensures Total(parts + [part]) == Total(parts) + 1 + |part|
    decreases |parts|
  {
    if |parts| > 1 {
      TotalSnoc(parts[1..], part);
      assert (parts + [part])[1..] == parts[1..] + [part];
    } else {
      assert (parts + [part])[1..] == [part];
    }
  }

  lemma {:induction false} TotalOfPrefix(a: seq<bytes>, b: seq<bytes>)
    ensures Total(a) <= Total(a + b)
    decreases |a|
  {
    if |a| > 1 {
      TotalOfPrefix(a[1..], b);
      assert (a + b)[1..] == a[1..] + b;
    }
  }

  lemma {:induction false} SplitTotal(t: bytes)
    ensures Total(Split(t)) == |t|
    decreases |t|
  {
    if t != [] {
      SplitTotal(t[1..]);
      var rest := Split(t[1..]);
      assert ([[]] + rest)[1..] == rest;
      assert ([[t[0]] + rest[0]] + rest[1..])[1..] == rest[1..];
    }
  }

  lemma {:induction false} KeptTotal(parts: seq<bytes>)
    ensures Total(Kept(parts)) <= Total(parts)
    ensures Kept(parts) != [] ==> parts != []
    decreases |parts|
  {
    if parts != [] {
      KeptTotal(parts[1..]);
      assert ([parts[0]] + Kept(parts[1..]))[1..] == Kept(parts[1..]);
      assert [] + Kept(parts[1..]) == Kept(parts[1..]);
    }
  }

  /** Collapsing makes no path longer. */
  lemma {:induction false} CollapsedFits(t: bytes)
    ensures |Join(Kept(Split(t)))| <= |t|
  {
    SplitTotal(t);
    KeptTotal(Split(t));
    JoinTotal(Kept(Split(t)));
  }

  /** What is joined so far is no longer than what is joined in the end. */
  lemma {:induction false} JoinGrows(done: seq<bytes>, rest: seq<bytes>)
    ensures |Join(done)| <= |Join(done + rest)|
  {
    JoinTotal(done);
    JoinTotal(done + rest);
    TotalOfPrefix(done, rest);
  }

  lemma {:induction false} KeptOne(part: bytes)
    ensures Kept([part]) == if part == [] || part == [DOT] then [] else [part]
  {
  }

  /** The component loop: collapse, drop ".", refuse ".." and what does not fit the output buffer. */
  method CollapseParts(t: bytes, capacity: nat) returns (r: Option<bytes>)
    requires capacity > 0
    ensures r.Some? <==> [DOT, DOT] !in Kept(Split(t)) && |Join(Kept(Split(t)))| < capacity
    ensures r.Some? ==> r.value == Join(Kept(Split(t)))
  {
    hide Split, Kept, Join;
    NothingKept();
    var output: bytes := [];
    ghost var done: seq<bytes> := [];
    var p: nat := 0;
    Whole(t);
    while p < |t|
      invariant p <= |t| && Kept(Split(t)) == done + Kept(Split(t[p..]))
      invariant output == Join(done) && (output == [] <==> done == []) && [DOT, DOT] !in done
      invariant |output| < capacity && (0 < p < |t| ==> t[p] == SLASH)
      decreases |t| - p
    {
      var start := SkipSlashes(t, p);
      var end := PartEnd(t, start);
      TakePart(t, start, end);
      p := end;
      var part := t[start..end];
      ghost var rest := Kept(Split(t[end..]));
      KeptOne(part);
      Associative(done, Kept([part]), rest);
      if part == [] || part == [DOT] {
        assert done + Kept([part]) == done;
      } else {
        if part == [DOT, DOT] {
          assert part == (done + [part] + rest)[|done|];
          return None;
        }
        JoinSnoc(done, part);
        JoinGrows(done + [part], rest);
        if output != [] {
          if |output| + 1 >= capacity {
            return None;
          }
          output := output + [SLASH];
        }
        if |output| + |part| >= capacity {
          return None;
        }
        output := output + part;
        done := done + [part];
      }
    }
    assert t[p..] == [] && done + [] == done;
    return Some(output);
  }

  lemma {:induction false} JoinSnoc(parts: seq<bytes>, part: bytes)
    ensures Join(parts + [part]) == if parts == [] then part else Join(parts) + [SLASH] + part
  {
    assert DropLast(parts + [part]) == parts;
  }

  /** `normalize_asset_path`; the output buffer, as large as the input one, never cuts. */
  method NormalizeAssetPath(input: bytes, allowEmpty: bool) returns (r: Option<bytes>)
    ensures r.Some? ==>
      && |input| < PATH_CAPACITY && |r.value| <= PATH_CAPACITY - 7
      && (r.value != [] || allowEmpty)
      && exists k :: LastMount(Slashed(input), k) && [DOT, DOT] !in PartsAfter(Slashed(input), k)
                     && r.value == Join(PartsAfter(Slashed(input), k))
    ensures r.None? ==>
      || |input| >= PATH_CAPACITY
      || (forall k :: 0 <= k <= |input| ==> !MountAt([SLASH] + Slashed(input), k))
      || (exists k :: LastMount(Slashed(input), k)
                      && ([DOT, DOT] in PartsAfter(Slashed(input), k)
                          || (!allowEmpty && Join(PartsAfter(Slashed(input), k)) == [])))
  {
    if |input| >= PATH_CAPACITY {
      return None;
    }
    var temp := Slashed(input);
    var start := FindMount(temp);
    if start.None? {
      return None;
    }
    ghost var k :| LastMount(temp, k) && PartsAfter(temp, k) == Kept(Split(temp[start.value..]));
    CollapsedFits(temp[start.value..]);
    r := CollapseParts(temp[start.value..], PATH_CAPACITY);
    if r.Some? && !allowEmpty && r.value == [] {
      r := None;
    }
  }

  lemma {:induction false} JoinLast(parts: seq<bytes>)
    requires |parts| > 1
    ensures Join(parts) == Join(DropLast(parts)) + [SLASH] + Last(parts)
    ensures DropLast(parts) + [Last(parts)] == parts
  {
  }

  /** Components without separators, joined, split back into themselves. */
  lemma {:induction false} SplitJoin(parts: seq<bytes>)
    requires parts != [] && forall c :: c in parts ==> SLASH !in c
    ensures Split(Join(parts)) == parts
  {
    if |parts| == 1 {
      NoSlashOnePart(parts[0]);
      assert parts == [parts[0]];
    } else {
      JoinLast(parts);
      SplitJoin(DropLast(parts));
      NoSlashOnePart(Last(parts));
      SplitAtSlash(Join(DropLast(parts)), Last(parts));
    }
  }

  lemma {:induction false} SplitParts(t: bytes)
    ensures forall c :: c in Split(t) ==> SLASH !in c && forall b :: b in c ==> b in t
  {
    if t != [] {
      SplitParts(t[1..]);
    }
  }

  lemma {:induction false} KeptFrom(parts: seq<bytes>)
    ensures forall c :: c in Kept(parts) ==> c in parts && c != [] && c != [DOT]
  {
    if parts != [] {
      KeptFrom(parts[1..]);
    }
  }

  lemma {:induction false} KeptWhole(parts: seq<bytes>)
    requires forall c :: c in parts ==> c != [] && c != [DOT]
    ensures Kept(parts) == parts
  {
    if parts != [] {
      assert parts[0] in parts && forall c :: c in parts[1..] ==> c in parts;
      KeptWhole(parts[1..]);
      assert parts == [parts[0]] + parts[1..];
    }
  }

  lemma {:induction false} JoinSplit(t: bytes)
    ensures Join(Split(t)) == t
  {
    if t != [] {
      var rest := Split(t[1..]);
      JoinSplit(t[1..]);
      if t[0] == SLASH {
        JoinFront([], rest);
        assert t == [] + [SLASH] + t[1..];
      } else {
        JoinPush(t[0], rest);
        assert t == [t[0]] + t[1..];
      }
    }
  }

  lemma {:induction false} JoinFront(part: bytes, parts: seq<bytes>)
    requires parts != []
    ensures Join([part] + parts) == part + [SLASH] + Join(parts)
    decreases |parts|
  {
    var all := [part] + parts;
    assert DropLast(all) == [part] + DropLast(parts) && Last(all) == Last(parts);
    if |parts| == 1 {
      assert DropLast(all) == [part] && parts == [parts[0]];
    } else {
      JoinFront(part, DropLast(parts));
      Regrouped(part, Join(DropLast(parts)), Last(parts));
    }
  }

  lemma {:induction false} Regrouped(a: bytes, b: bytes, c: bytes)
    ensures a + [SLASH] + b + [SLASH] + c == a + [SLASH] + (b + [SLASH] + c)
  {
  }

  lemma {:induction false} JoinPush(b: byte, parts: seq<bytes>)
    requires parts != []
    ensures Join([[b] + parts[0]] + parts[1..]) == [b] + Join(parts)
  {
    if |parts| == 1 {
      assert parts == [parts[0]];
    } else {
      JoinFront([b] + parts[0], parts[1..]);
      JoinFront(parts[0], parts[1..]);
      assert parts == [parts[0]] + parts[1..];
      PushedOn(b, parts[0], Join(parts[1..]));
    }
  }

  lemma {:induction false} PushedOn(b: byte, part: bytes, rest: bytes)
    ensures ([b] + part) + [SLASH] + rest == [b] + (part + [SLASH] + rest)
  {
  }

  /** What stands behind the last mount point is found as it is, when it is a path that a pack can store. */
  lemma {:induction false} NormalizedBack(input: bytes, k: nat, path: bytes)
    requires ValidPath(path) && MountAt([SLASH] + Slashed(input), k)
    requires ([SLASH] + Slashed(input))[k + 7..] == [SLASH] + path
    ensures [DOT, DOT] !in PartsAfter(Slashed(input), k) && Join(PartsAfter(Slashed(input), k)) == path
  {
    hide Kept, Join, Slashed;
    assert [SLASH] + path == [] + [SLASH] + path;
    NothingKept();
    SplitAtSlash([], path);
    KeptConcat([[]], Split(path));
    KeptWhole(Split(path));
    JoinSplit(path);
    assert [] + Split(path) == Split(path);
  }

  /** A normalised path is empty, or it passes the validity scan exactly when no component holds a colon. */
  lemma {:induction false} NormalizedValid(input: bytes, k: nat)
    requires MountAt([SLASH] + Slashed(input), k) && [DOT, DOT] !in PartsAfter(Slashed(input), k)
    ensures
      var parts := PartsAfter(Slashed(input), k);
      Join(parts) == [] || (ValidPath(Join(parts)) <==> forall part :: part in parts ==> COLON !in part)
  {
    var rest := ([SLASH] + Slashed(input))[k + 7..];
    var parts := PartsAfter(Slashed(input), k);
    SplitParts(rest);
    KeptFrom(Split(rest));
    if parts != [] {
      SplitJoin(parts);
      assert forall b :: b in rest ==> b in [SLASH] + Slashed(input);
    }
  }

  // ---- directory existence ----

  /** `path` names something below the directory `dir`; the root directory is the empty string. */
  predicate Under(dir: bytes, path: bytes) {
    if dir == [] then path != [] else dir + [SLASH] <= path
  }

  predicate HasDirectory(m: Mount, dir: bytes) {
    exists i :: 0 <= i < |m.entries| && Under(dir, m.Path(i))
  }

  /** The scan of `asset_pack_opendir_path`: the first entry below the directory settles it. */
  method OpenDir(m: Mount, dir: bytes) returns (found: bool)
    ensures found <==> HasDirectory(m, dir)
  {
    for i := 0 to |m.entries|
      invariant forall j :: 0 <= j < i ==> !Under(dir, m.Path(j))
    {
      var entry := m.Path(i);
      UnderTest(dir, entry);
      if (dir == [] && entry != []) || (dir != [] && dir <= entry && |dir| < |entry| && entry[|dir|] == SLASH) {
        return true;
      }
    }
    return false;
  }

  lemma {:induction false} UnderTest(dir: bytes, entry: bytes)
    ensures Under(dir, entry) <==>
      (dir == [] && entry != []) || (dir != [] && dir <= entry && |dir| < |entry| && entry[|dir|] == SLASH)
  {
    if dir + [SLASH] <= entry {
      assert (dir + [SLASH])[|dir|] == SLASH;
    }
    if dir <= entry && |dir| < |entry| && entry[|dir|] == SLASH {
      assert entry[..|dir| + 1] == dir + [SLASH];
    }
  }

  /** Everything below a directory sorts from its prefix on, so the insertion point of the prefix decides. */
  lemma {:induction false} PrefixAtInsertionPoint(m: Mount, prefix: bytes, index: nat)
    requires m.Valid() && index <= |m.entries|
    requires forall i :: 0 <= i < index ==> Less(m.Path(i), prefix)
    requires forall i :: index <= i < |m.entries| ==> prefix == m.Path(i) || Less(prefix, m.Path(i))
    ensures (exists i :: 0 <= i < |m.entries| && prefix <= m.Path(i)) <==>
      index < |m.entries| && prefix <= m.Path(index)
  {
    if i :| 0 <= i < |m.entries| && prefix <= m.Path(i) {
      PrefixNotGreater(prefix, m.Path(i));
      if i < index {
        if prefix == m.Path(i) {
          LessIrreflexive(prefix);
        } else {
          LessAsymmetric(prefix, m.Path(i));
        }
        assert false;
      }
      if index < i {
        PathsSorted(m, index, i);
      }
      BetweenPrefixAndExtension(prefix, m.Path(index), m.Path(i));
    }
  }

  /** What the binary search answers. */
  predicate DirectoryFound(m: Mount, dir: bytes) {
    dir == [] || (ValidPath(dir) && |dir| + 2 <= PATH_CAPACITY && HasDirectory(m, dir))
  }

  /** `find_directory_relative`, with the inode it derives from the path. */
  method FindDirectory(m: Mount, dir: bytes) returns (r: Option<u64>)
    requires m.Valid()
    ensures r.Some? <==> DirectoryFound(m, dir)
    ensures r.Some? ==> r.value == if Fnv(FNV_SEED, dir) != 0 then Fnv(FNV_SEED, dir) else 1
  {
    if dir != [] {
      var valid := ValidRelative(dir);
      if !valid || |dir| + 2 > PATH_CAPACITY {
        return None;
      }
      var prefix := dir + [SLASH];
      var found, index := EntryComparePath(m, prefix);
      if found {
        forall i | index < i < |m.entries| ensures Less(prefix, m.Path(i)) {
          PathsSorted(m, index, i);
        }
        forall i | 0 <= i < index ensures Less(m.Path(i), prefix) {
          PathsSorted(m, i, index);
        }
      }
      PrefixAtInsertionPoint(m, prefix, index);
      if index >= |m.entries| || !(prefix <= m.Path(index)) {
        return None;
      }
    }
    var hash := FnvBytes(FNV_SEED, dir);
    return Some(if hash != 0 then hash else 1);
  }

  lemma {:induction false} HeadIsValid(dir: bytes, path: bytes)
    requires dir + [SLASH] <= path && ValidPath(path)
    ensures ValidPath(dir)
  {
    hide GoodComponent, Split;
    var rest := path[|dir| + 1..];
    assert path == dir + [SLASH] + rest;
    SplitAtSlash(dir, rest);
    assert forall c :: c in Split(dir) ==> c in Split(path);
  }

  /** Below a directory that is not a valid path there is nothing. */
  lemma {:induction false} UnderIsValid(m: Mount, dir: bytes, i: nat)
    requires m.Valid() && i < |m.entries| && dir != [] && Under(dir, m.Path(i))
    ensures ValidPath(dir)
  {
    assert m.EntryOk(i);
    var e := m.entries[i];
    CStringAtWithinField(m.paths, e.pathOffset, e.pathLength);
    HeadIsValid(dir, m.paths[e.pathOffset..e.pathOffset + e.pathLength]);
  }

  /**
   * The two ways of asking whether a directory exists, the scan and the binary search, agree on every path
   * that a caller can normalise, except for the root of a pack in which no entry has a name.
   */
  lemma {:induction false} DirectoryChecksAgree(m: Mount, dir: bytes)
    requires m.Valid() && |dir| + 2 <= PATH_CAPACITY
    ensures (DirectoryFound(m, dir) <==> HasDirectory(m, dir))
      <==> (dir != [] || exists i :: 0 <= i < |m.entries| && m.Path(i) != [])
  {
    if dir != [] {
      forall i | 0 <= i < |m.entries| && Under(dir, m.Path(i)) ensures ValidPath(dir) {
        UnderIsValid(m, dir, i);
      }
    }
  }

  /** The exception can be loaded: an index may name its only file with a single NUL byte. */
  lemma {:induction false} NamelessPack(packId: u64) returns (pack: bytes, index: bytes)
    ensures ValidPair(pack, index)
    ensures DirectoryFound(MountOf(pack, index), []) && !HasDirectory(MountOf(pack, index), [])
  {
    var items := [SourceFile([NUL], [])];
    NamelessShape(items);
    pack, index := PackBytes(items, packId), IndexBytes(items, packId);
    HeadersOfWritten(items, packId);
    MountReadsBack(items, packId);
    NamelessMount(MountWritten(items, packId));
  }

  lemma {:induction false} NamelessShape(items: seq<SourceFile>)
    requires items == [SourceFile([NUL], [])]
    ensures PathsBlob(items) == [NUL, NUL] && PackSize(items) == 48 && OffsetOf(items, 0) == 48
  {
    TailStep(items, 0);
    BlobStep(items, 0);
    assert items[..1] == items;
  }

  lemma {:induction false} NamelessMount(m: Mount)
    requires m.entries == [DiskEntry(48, 0, 0, 1)] && m.paths == [NUL, NUL] && |m.data| == 48
    ensures m.Valid() && DirectoryFound(m, []) && !HasDirectory(m, [])
  {
    NoSlashOnePart([NUL]);
    assert m.paths[0..1] == [NUL];
    assert m.EntryOk(0);
  }
}

/** Path normalisation by components: what follows the last "assets", without empty components and ".". */
module PackPaths {
  import opened Slices
  import opened CStrings
  import opened PackDirectory

  const ASSETS: bytes := [0x61, 0x73, 0x73, 0x65, 0x74, 0x73]  // "assets"

  /** The components behind the last one that is "assets". */
  predicate BehindLast(parts: seq<bytes>, rest: seq<bytes>) {
    exists i :: 0 <= i < |parts| && parts[i] == ASSETS && rest == parts[i + 1..] && ASSETS !in rest
  }

  /** Where the first separator is, or the end. */
  function FirstSlash(t: bytes): (n: nat)
    ensures n <= |t| && SLASH !in t[..n] && (n == |t| || t[n] == SLASH)
  {
    if t == [] || t[0] == SLASH then 0
    else
      var n := FirstSlash(t[1..]);
      assert t[..n + 1] == [t[0]] + t[1..][..n];
      n + 1
  }

  lemma {:induction false} SplitFirst(t: bytes)
    ensures
      var n := FirstSlash(t);
      Split(t) == [t[..n]] + if n == |t| then [] else Split(t[n + 1..])
  {
    hide Split;
    var n := FirstSlash(t);
    NoSlashOnePart(t[..n]);
    if n < |t| {
      SplitAt(t, n);
      SplitAtSlash(t[..n], t[n + 1..]);
    } else {
      Whole(t);
    }
  }

  /** A component "assets" is a mount point somewhere. */
  lemma {:induction false} ComponentMounts(t: bytes) returns (k: nat)
    requires ASSETS in Split(t)
    ensures k <= |t| && MountAt([SLASH] + t, k)
    decreases |t|
  {
    hide Split;
    var n := FirstSlash(t);
    SplitFirst(t);
    if t[..n] == ASSETS {
      k := 0;
      assert ([SLASH] + t)[..7] == [SLASH] + t[..6];
    } else {
      var j := ComponentMounts(t[n + 1..]);
      k := j + n + 1;
      MountShifted(t, n + 1, j);
    }
  }

  lemma {:induction false} MountShifted(t: bytes, n: nat, j: nat)
    requires 0 < n <= |t| && t[n - 1] == SLASH
    ensures MountAt([SLASH] + t, n + j) <==> MountAt([SLASH] + t[n..], j)
  {
    var u, v := [SLASH] + t, [SLASH] + t[n..];
    assert u[n..] == v;
    if n + j + 7 <= |u| {
      assert u[n + j..n + j + 7] == v[j..j + 7];
    }
  }

  /** The components behind a mount point, from what stands there. */
  function Rest(y: bytes): seq<bytes> { if y == [] then [] else Split(y[1..]) }

  lemma {:induction false} AroundMount(t: bytes, k: nat)
    requires MountAt([SLASH] + t, k)
    ensures
      var u := [SLASH] + t;
      var y := u[k + 7..];
      && u == u[..k] + [SLASH] + (ASSETS + y) && (y != [] ==> y[0] == SLASH)
      && (k + 7 <= |t| ==> y != [] && y[1..] == t[k + 7..]) && (k + 7 > |t| ==> y == [])
  {
    var u := [SLASH] + t;
    assert u[k..k + 7] == [SLASH] + ASSETS;
    assert u == u[..k] + u[k..k + 7] + u[k + 7..];
  }

  lemma {:induction false} SplitBehind(y: bytes)
    requires y != [] ==> y[0] == SLASH
    ensures Split(ASSETS + y) == [ASSETS] + Rest(y)
  {
    hide Split;
    NoSlashOnePart(ASSETS);
    if y == [] {
      assert ASSETS + y == ASSETS;
    } else {
      assert ASSETS + y == ASSETS + [SLASH] + y[1..];
      SplitAtSlash(ASSETS, y[1..]);
    }
  }

  lemma {:induction false} KeptBehind(y: bytes)
    requires y != [] ==> y[0] == SLASH
    ensures Kept(Split(y)) == Kept(Rest(y))
  {
    hide Split;
    NothingKept();
    if y != [] {
      assert y == [] + [SLASH] + y[1..];
      SplitAtSlash([], y[1..]);
      KeptConcat([[]], Split(y[1..]));
    }
  }

  /** And a mount point is such a component, with the same components behind it. */
  lemma {:induction false} MountSplits(t: bytes, k: nat) returns (i: nat)
    requires MountAt([SLASH] + t, k)
    ensures i < |Split(t)| && Split(t)[i] == ASSETS
    ensures PartsAfter(t, k) == Kept(Split(t)[i + 1..])
    ensures k + 7 <= |t| ==> Split(t)[i + 1..] == Split(t[k + 7..])
    ensures k + 7 > |t| ==> Split(t)[i + 1..] == []
  {
    hide Split, Kept;
    var u := [SLASH] + t;
    var x, y := u[..k], u[k + 7..];
    AroundMount(t, k);
    SplitAtSlash(x, ASSETS + y);
    assert u == [] + [SLASH] + t;
    NothingKept();
    SplitAtSlash([], t);
    SplitBehind(y);
    KeptBehind(y);
    i := |Split(x)| - 1;
    Behind(Split(t), Split(x), ASSETS, Rest(y));
  }

  lemma {:induction false} Behind(parts: seq<bytes>, head: seq<bytes>, c: bytes, rest: seq<bytes>)
    requires [[]] + parts == head + ([c] + rest) && head != []
    ensures |head| - 1 < |parts| && parts[|head| - 1] == c && parts[|head|..] == rest
  {
    var all := [[]] + parts;
    assert parts == all[1..];
    assert all[|head|] == c && all[|head| + 1..] == rest;
  }

  /** There is a mount point just when some component is "assets". */
  lemma {:induction false} MountedExactly(t: bytes)
    ensures (exists k: nat :: k <= |t| && MountAt([SLASH] + t, k)) <==> ASSETS in Split(t)
  {
    hide Split, MountAt;
    if k: nat :| k <= |t| && MountAt([SLASH] + t, k) {
      var i := MountSplits(t, k);
    }
    if ASSETS in Split(t) {
      var k := ComponentMounts(t);
    }
  }

  /** What is kept is kept of the components behind the last "assets". */
  lemma {:induction false} LastMountIs(t: bytes, k: nat)
    requires LastMount(t, k)
    ensures exists rest :: BehindLast(Split(t), rest) && PartsAfter(t, k) == Kept(rest)
  {
    hide Split, Kept, MountAt, PartsAfter;
    var i := MountSplits(t, k);
    var rest := Split(t)[i + 1..];
    if ASSETS in rest {
      MountInside(t, k);
      var j := ComponentMounts(t[k + 7..]);
      MountShifted(t, k + 7, j);
      assert false;
    }
    assert BehindLast(Split(t), rest);
  }

  lemma {:induction false} MountInside(t: bytes, k: nat)
    requires MountAt([SLASH] + t, k)
    ensures k + 7 <= |t| + 1 && (k + 7 <= |t| ==> t[k + 6] == SLASH)
  {
  }
}

/** What the checks over a pack notice: a damaged byte of content, and which numbers make the build identity. */
module PackDamage {
  import opened Bytes
  import opened FnvLaws
  import opened Slices
  import opened CStrings
  import opened PackFormat
  import opened PackSort
  import opened PackLayout
  import opened PackLookup
  import opened PackBuild

  /** The mount with one byte of its data file replaced. */
  function Damaged(m: Mount, p: nat, v: byte): (d: Mount)
    requires p < |m.data|
    ensures |d.data| == |m.data| && d.entries == m.entries && d.paths == m.paths
  {
    m.(data := m.data[p := v])
  }

  /** Byte `p` of the data file belongs to entry `i`. */
  predicate Holds(m: Mount, i: nat, p: nat)
    requires i < |m.entries|
  {
    m.entries[i].offset <= p < m.entries[i].offset + m.entries[i].size
  }

  /** No two entries share a byte. */
  predicate Disjoint(m: Mount) {
    forall i, j ::
      0 <= i < j < |m.entries| ==> m.entries[i].offset + m.entries[i].size <= m.entries[j].offset
  }

  lemma {:induction false} DamagedEntry(m: Mount, p: nat, v: byte, i: nat)
    requires m.Valid() && p < |m.data| && i < |m.entries|
    ensures m.EntryOk(i) && Damaged(m, p, v).EntryOk(i)
  {
    assert m.EntryOk(i);
    assert i > 0 ==> Damaged(m, p, v).Path(i - 1) == m.Path(i - 1);
  }

  lemma {:induction false} DamagedValid(m: Mount, p: nat, v: byte)
    requires m.Valid() && p < |m.data|
    ensures Damaged(m, p, v).Valid()
  {
    forall i | 0 <= i < |m.entries| ensures Damaged(m, p, v).EntryOk(i) {
      DamagedEntry(m, p, v, i);
    }
  }

  lemma {:induction false} ContentElsewhere(m: Mount, p: nat, v: byte, i: nat)
    requires m.Valid() && p < |m.data| && i < |m.entries| && !Holds(m, i, p)
    ensures m.EntryOk(i) && Damaged(m, p, v).EntryOk(i) && Damaged(m, p, v).Content(i) == m.Content(i)
  {
    DamagedEntry(m, p, v, i);
  }

  lemma {:induction false} ContentsElsewhere(m: Mount, p: nat, v: byte, n: nat)
    requires p < |m.data| && m.Valid() && Damaged(m, p, v).Valid() && n <= |m.entries|
    requires forall i :: 0 <= i < n ==> !Holds(m, i, p)
    ensures MountContents(Damaged(m, p, v), n) == MountContents(m, n)
  {
    hide Mount.Valid, Damaged;
    if n > 0 {
      ContentsElsewhere(m, p, v, n - 1);
      ContentElsewhere(m, p, v, n - 1);
    }
  }

  /** The damaged content around the damaged byte. */
  lemma {:induction false} ContentAround(m: Mount, p: nat, v: byte, i: nat) returns (a: bytes, c: bytes)
    requires m.Valid() && p < |m.data| && i < |m.entries| && Holds(m, i, p)
    ensures m.EntryOk(i) && Damaged(m, p, v).EntryOk(i)
    ensures m.Content(i) == a + [m.data[p]] + c && Damaged(m, p, v).Content(i) == a + [v] + c
  {
    DamagedEntry(m, p, v, i);
    var k := p - m.entries[i].offset;
    a, c := m.Content(i)[..k], m.Content(i)[k + 1..];
  }

  lemma {:induction false} Sandwich(prev: bytes, a: bytes, x: byte, c: bytes, next: bytes)
    ensures prev + (a + [x] + c) == (prev + a) + [x] + c
    ensures (a + [x] + c) + next == a + [x] + (c + next)
  {
  }

  lemma {:induction false} ContentsAround(m: Mount, p: nat, v: byte, k: nat, n: nat) returns (a: bytes, c: bytes)
    requires p < |m.data| && m.Valid() && Damaged(m, p, v).Valid() && k < n <= |m.entries| && Holds(m, k, p)
    requires forall i :: 0 <= i < n && i != k ==> !Holds(m, i, p)
    ensures MountContents(m, n) == a + [m.data[p]] + c && MountContents(Damaged(m, p, v), n) == a + [v] + c
  {
    hide Mount.Valid, Damaged, Holds;
    if k == n - 1 {
      ContentsElsewhere(m, p, v, k);
      a, c := ContentAround(m, p, v, k);
      var prev := MountContents(m, k);
      Sandwich(prev, a, m.data[p], c, []);
      Sandwich(prev, a, v, c, []);
      a := prev + a;
    } else {
      a, c := ContentsAround(m, p, v, k, n - 1);
      ContentElsewhere(m, p, v, n - 1);
      var next := m.Content(n - 1);
      Sandwich([], a, m.data[p], c, next);
      Sandwich([], a, v, c, next);
      c := c + next;
    }
  }

  /** The check over the data passes for a file with one byte replaced exactly when the byte belongs to no entry. */
  lemma {:induction false} DamageFound(m: Mount, p: nat, v: byte)
    requires m.Valid() && Disjoint(m) && p < |m.data| && v != m.data[p]
    ensures Damaged(m, p, v).Valid()
    ensures
      var n := |m.entries|;
      Fnv(FNV_SEED, MountContents(Damaged(m, p, v), n)) == Fnv(FNV_SEED, MountContents(m, n)) <==>
        forall i :: 0 <= i < n ==> !Holds(m, i, p)
  {
    hide Fnv, Mount.Valid, MountContents;
    var n := |m.entries|;
    DamagedValid(m, p, v);
    if forall i :: 0 <= i < n ==> !Holds(m, i, p) {
      ContentsElsewhere(m, p, v, n);
    } else {
      var k :| 0 <= k < n && Holds(m, k, p);
      var a, c := ContentsAround(m, p, v, k, n);
      ByteCounts(FNV_SEED, a, m.data[p], v, c);
    }
  }

  lemma {:induction false} WrittenDisjoint(items: seq<SourceFile>, packId: u64)
    requires Fits(items)
    ensures Disjoint(MountWritten(items, packId))
  {
    var m := MountWritten(items, packId);
    forall i, j | 0 <= i < j < |m.entries| ensures m.entries[i].offset + m.entries[i].size <= m.entries[j].offset {
      EntriesDisjoint(items, packId, i, j);
    }
  }

  /**
   * The test that a new build ends with: with any byte of its data file replaced, it fails exactly when the byte is
   * one of a packed file, and passes for padding.
   */
  lemma {:induction false} DamagedBuildRefused(items: seq<SourceFile>, packId: u64, p: nat, v: byte)
    requires Enumerable(items) && Fits(items) && MountWritten(items, packId).Valid()
    requires p < |PackBytes(items, packId)| && v != PackBytes(items, packId)[p]
    ensures
      var d := Damaged(MountWritten(items, packId), p, v);
      && d.Valid()
      && (Fnv(FNV_SEED, MountContents(d, |d.entries|)) == DataChecksum(items) <==>
          forall i :: 0 <= i < |items| ==> !(OffsetOf(items, i) <= p < OffsetOf(items, i) + |items[i].content|))
  {
    hide Mount.Valid, Fnv, MountContents, Disjoint, Enumerable;
    var m := MountWritten(items, packId);
    WrittenDisjoint(items, packId);
    WrittenContents(items, packId, |items|);
    WrittenSize(items, packId);
    Whole(items);
    DamageFound(m, p, v);
    assert forall i :: 0 <= i < |items| ==>
      (Holds(m, i, p) <==> OffsetOf(items, i) <= p < OffsetOf(items, i) + |items[i].content|);
  }

  // ---- damage that the loader finds ----

  /** A header is its bytes. */
  lemma {:induction false} IndexHeaderBack(b: bytes)
    requires |b| >= INDEX_HEADER_SIZE
    ensures |ParseIndexHeader(b).magic| == 8 && IndexHeaderBytes(ParseIndexHeader(b)) == b[..INDEX_HEADER_SIZE]
  {
    hide LE, FromLE;
    LEInvertsFromLE(b[8..12]);
    LEInvertsFromLE(b[12..16]);
    LEInvertsFromLE(b[16..24]);
    LEInvertsFromLE(b[24..32]);
    LEInvertsFromLE(b[32..40]);
    LEInvertsFromLE(b[40..48]);
    LEInvertsFromLE(b[48..56]);
    EightSlices(b);
  }

  lemma {:induction false} EightSlices(b: bytes)
    requires |b| >= 56
    ensures b[..8] + b[8..12] + b[12..16] + b[16..24] + b[24..32] + b[32..40] + b[40..48] + b[48..56] == b[..56]
  {
    ExtendBy(b, 8, 4);
    ExtendBy(b, 12, 4);
    ExtendBy(b, 16, 8);
    ExtendBy(b, 24, 8);
    ExtendBy(b, 32, 8);
    ExtendBy(b, 40, 8);
    ExtendBy(b, 48, 8);
  }

  lemma {:induction false} PackHeaderBack(b: bytes)
    requires |b| >= PACK_HEADER_SIZE
    ensures |ParsePackHeader(b).magic| == 8 && PackHeaderBytes(ParsePackHeader(b)) == b[..PACK_HEADER_SIZE]
  {
    hide LE, FromLE;
    LEInvertsFromLE(b[8..12]);
    LEInvertsFromLE(b[12..16]);
    LEInvertsFromLE(b[16..24]);
    LEInvertsFromLE(b[24..32]);
    LEInvertsFromLE(b[32..40]);
    SixSlices(b);
  }

  lemma {:induction false} SixSlices(b: bytes)
    requires |b| >= 40
    ensures b[..8] + b[8..12] + b[12..16] + b[16..24] + b[24..32] + b[32..40] == b[..40]
  {
    ExtendBy(b, 8, 4);
    ExtendBy(b, 12, 4);
    ExtendBy(b, 16, 8);
    ExtendBy(b, 24, 8);
    ExtendBy(b, 32, 8);
  }

  /** One byte of an index replaced. */
  function Changed(b: bytes, p: nat, v: byte): (c: bytes)
    requires p < |b|
    ensures |c| == |b| && forall i :: 0 <= i < |b| && i != p ==> c[i] == b[i]
  {
    b[p := v]
  }

  lemma {:induction false} SameSlice(b: bytes, p: nat, v: byte, i: nat, j: nat)
    requires p < |b| && i <= j <= |b| && !(i <= p < j)
    ensures Changed(b, p, v)[i..j] == b[i..j]
  {
  }

  lemma {:induction false} BodyCounts(index: bytes, p: nat, v: byte)
    requires INDEX_HEADER_SIZE <= p < |index| && v != index[p]
    ensures Fnv(FNV_SEED, Changed(index, p, v)[INDEX_HEADER_SIZE..]) != Fnv(FNV_SEED, index[INDEX_HEADER_SIZE..])
  {
    hide Fnv;
    var a, c := index[INDEX_HEADER_SIZE..p], index[p + 1..];
    assert index[INDEX_HEADER_SIZE..] == a + [index[p]] + c;
    assert Changed(index, p, v)[INDEX_HEADER_SIZE..] == a + [v] + c;
    ByteCounts(FNV_SEED, a, index[p], v, c);
  }

  /** What the tests leave of the freedom of an index header. */
  lemma {:induction false} HeaderForced(pack: bytes, b: bytes, c: bytes)
    requires HeadersAgree(pack, b) && HeadersAgree(pack, c) && IndexComplete(b) && IndexComplete(c)
    requires ChecksumAgrees(b) && ChecksumAgrees(c) && |b| == |c|
    requires b[INDEX_HEADER_SIZE..] == c[INDEX_HEADER_SIZE..]
    requires b[12..16] == c[12..16] || b[32..40] == c[32..40]
    ensures ParseIndexHeader(b) == ParseIndexHeader(c)
  {
    hide FromLE, Fnv;
    if b[12..16] == c[12..16] {
      assert U32At(b, 12) == U32At(c, 12);
    } else {
      assert U64At(b, 32) == U64At(c, 32);
    }
  }

  /** An index with any one byte replaced is refused. */
  lemma {:induction false} DamagedIndexRefused(pack: bytes, index: bytes, p: nat, v: byte)
    requires ValidPair(pack, index) && p < |index| && v != index[p]
    ensures !ValidPair(pack, Changed(index, p, v))
  {
    hide Fnv, MountOf, Mount.Valid, HeadersAgree, IndexComplete, ChecksumAgrees, IndexHeaderBytes, Changed;
    var c := Changed(index, p, v);
    LongEnough(pack, index);
    if p >= INDEX_HEADER_SIZE {
      SameSlice(index, p, v, 0, INDEX_HEADER_SIZE);
      BodyCounts(index, p, v);
      SameChecksum(index, c);
    } else if ValidPair(pack, c) {
      SameSlice(index, p, v, INDEX_HEADER_SIZE, |index|);
      if 12 <= p < 16 {
        SameSlice(index, p, v, 32, 40);
      } else {
        SameSlice(index, p, v, 12, 16);
      }
      Tail(index, INDEX_HEADER_SIZE);
      Tail(c, INDEX_HEADER_SIZE);
      HeaderForced(pack, index, c);
      IndexHeaderBack(index);
      IndexHeaderBack(c);
      assert c[p] == c[..INDEX_HEADER_SIZE][p] == index[..INDEX_HEADER_SIZE][p] == index[p];
      ChangedThere(index, p, v);
    }
  }

  lemma {:induction false} ChangedThere(b: bytes, p: nat, v: byte)
    requires p < |b|
    ensures Changed(b, p, v)[p] == v
  {
  }

  lemma {:induction false} Tail(b: bytes, n: nat)
    requires n <= |b|
    ensures b[n..|b|] == b[n..]
  {
  }

  lemma {:induction false} LongEnough(pack: bytes, index: bytes)
    requires HeadersAgree(pack, index)
    ensures |pack| >= PACK_HEADER_SIZE && |index| >= INDEX_HEADER_SIZE
  {
  }

  lemma {:induction false} SameChecksum(b: bytes, c: bytes)
    requires |b| >= INDEX_HEADER_SIZE && |c| >= INDEX_HEADER_SIZE && b[0..INDEX_HEADER_SIZE] == c[0..INDEX_HEADER_SIZE]
    requires Fnv(FNV_SEED, b[INDEX_HEADER_SIZE..]) != Fnv(FNV_SEED, c[INDEX_HEADER_SIZE..])
    ensures !(ChecksumAgrees(b) && ChecksumAgrees(c))
  {
    hide Fnv, FromLE;
    OfPrefix(b[0..INDEX_HEADER_SIZE], b, 40, 48);
    OfPrefix(c[0..INDEX_HEADER_SIZE], c, 40, 48);
  }

  /** The reserved word of the pack header, and everything behind the header. */
  predicate Unchecked(p: nat) { 12 <= p < 16 || p >= PACK_HEADER_SIZE }

  /** The loader refuses a data file with one byte replaced just when the byte is one of a checked header field. */
  lemma {:induction false} DamagedPackRefused(pack: bytes, index: bytes, p: nat, v: byte)
    requires ValidPair(pack, index) && p < |pack| && v != pack[p]
    ensures ValidPair(Changed(pack, p, v), index) <==> Unchecked(p)
  {
    hide Mount.Valid, HeadersAgree, IndexComplete, ChecksumAgrees, PackHeaderBytes, Changed;
    var c := Changed(pack, p, v);
    LongEnough(pack, index);
    if Unchecked(p) {
      FieldsKept(pack, index, p, v);
      DamagedValid(MountOf(pack, index), p, v);
      MountChanged(pack, index, p, v);
    } else if ValidPair(c, index) {
      SameSlice(pack, p, v, 12, 16);
      PackHeaderForced(pack, c, index);
      PackHeaderBack(pack);
      PackHeaderBack(c);
      assert c[p] == c[..PACK_HEADER_SIZE][p] == pack[..PACK_HEADER_SIZE][p] == pack[p];
      ChangedThere(pack, p, v);
    }
  }

  lemma {:induction false} MountChanged(pack: bytes, index: bytes, p: nat, v: byte)
    requires |index| >= INDEX_HEADER_SIZE && IndexComplete(index) && p < |pack|
    ensures MountOf(Changed(pack, p, v), index) == Damaged(MountOf(pack, index), p, v)
  {
  }

  lemma {:induction false} PackHeaderForced(b: bytes, c: bytes, index: bytes)
    requires HeadersAgree(b, index) && HeadersAgree(c, index) && |b| == |c| && b[12..16] == c[12..16]
    ensures ParsePackHeader(b) == ParsePackHeader(c)
  {
    hide FromLE;
  }

  lemma {:induction false} FieldsKept(pack: bytes, index: bytes, p: nat, v: byte)
    requires HeadersAgree(pack, index) && p < |pack| && Unchecked(p)
    ensures HeadersAgree(Changed(pack, p, v), index)
  {
    hide FromLE, Changed;
    SameSlice(pack, p, v, 0, 8);
    SameSlice(pack, p, v, 8, 12);
    SameSlice(pack, p, v, 16, 24);
    SameSlice(pack, p, v, 24, 32);
    SameSlice(pack, p, v, 32, 40);
  }

  // ---- the identity of a build ----

  /** What the identity is a hash of: every path and size in order, then the nonce. */
  function IdentityBytes(items: seq<SourceFile>, nonce: u64): bytes {
    if items == [] then LE(8, nonce)
    else items[0].path + LE(8, |items[0].content|) + IdentityBytes(items[1..], nonce)
  }

  /** The header of a written data file, field by field. */
  lemma {:induction false} WrittenHeader(items: seq<SourceFile>, packId: u64)
    requires Fits(items)
    ensures |PackBytes(items, packId)| >= PACK_HEADER_SIZE
    ensures
      ParsePackHeader(PackBytes(items, packId)) ==
        PackHeader([0x53, 0x53, 0x4E, 0x58, 0x50, 0x41, 0x4B, 0x31], 2, 0, packId, |PackBytes(items, packId)|,
                   Fnv(FNV_SEED, AllContent(items)))
  {
    hide Fnv, PackBytes, AllContent;
    PackBytesShape(items, packId);
  }

  lemma {:induction false} IdentityFrom(items: seq<SourceFile>, nonce: u64, n: nat)
    requires n <= |items| && forall f :: f in items ==> |f.content| < U64_SIZE
    ensures Fnv(PackIdFold(items[..n]), IdentityBytes(items[n..], nonce)) == Fnv(FNV_SEED, IdentityBytes(items, nonce))
    decreases n
  {
    hide Fnv, LE;
    if n == 0 {
      Whole(items);
    } else {
      IdentityFrom(items, nonce, n - 1);
      Extend(items, n - 1);
      var f, h := items[n - 1], PackIdFold(items[..n - 1]);
      assert items[n - 1..][0] == f && items[n - 1..][1..] == items[n..];
      FnvConcat(h, f.path, LE(8, |f.content|));
      FnvConcat(h, f.path + LE(8, |f.content|), IdentityBytes(items[n..], nonce));
    }
  }

  /** The identity is the hash of all of them, with 0 replaced by 1. */
  lemma {:induction false} IdentityIs(items: seq<SourceFile>, nonce: u64)
    requires forall f :: f in items ==> |f.content| < U64_SIZE
    ensures
      var h := Fnv(FNV_SEED, IdentityBytes(items, nonce));
      PackId(items, nonce) == if h == 0 then 1 else h
  {
    hide Fnv, LE;
    IdentityFrom(items, nonce, |items|);
    Whole(items);
    assert items[|items|..] == [];
  }
}

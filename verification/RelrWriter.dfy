/**
 * The packed relative relocations as a linker writes them, from the byte addresses of the words to move: an address,
 * then bitmaps of the 63 words behind it as long as they name any.
 */
module RelrWriter {
  import opened Arith
  import opened Bytes
  import opened Relr

  /** Ascending addresses of 64-bit words. */
  predicate Ascending(addresses: seq<u64>) {
    && (forall i :: 0 <= i < |addresses| ==> addresses[i] % 8 == 0)
    && forall i, j :: 0 <= i < j < |addresses| ==> addresses[i] < addresses[j]
  }

  /** The bits of a bitmap for the words from `base` on: the lowest stands for word `n`, the highest for word 62. */
  function Bits(addresses: seq<u64>, base: nat, n: nat): nat
    requires n <= 63
    decreases 63 - n, base
  {
    if n == 63 then 0
    else (if base + 8 * n in addresses then 1 else 0) + 2 * Bits(addresses, base, n + 1)
  }

  lemma {:induction false} BitsBound(addresses: seq<u64>, base: nat, n: nat)
    requires n <= 63
    ensures Bits(addresses, base, n) < Pow2(63 - n)
    decreases 63 - n
  {
    if n < 63 {
      BitsBound(addresses, base, n + 1);
    }
  }

  /** An odd entry. */
  function BitmapOf(addresses: seq<u64>, base: nat): u64 {
    BitsBound(addresses, base, 0);
    Pow2Is();
    1 + 2 * Bits(addresses, base, 0)
  }

  /** The first address from `i` on that is not below `limit`. */
  function FirstFrom(addresses: seq<u64>, i: nat, limit: nat): (j: nat)
    requires i <= |addresses|
    ensures i <= j <= |addresses|
    ensures forall k :: i <= k < j ==> addresses[k] < limit
    ensures j < |addresses| ==> addresses[j] >= limit
    decreases |addresses| - i
  {
    if i == |addresses| || addresses[i] >= limit then i else FirstFrom(addresses, i + 1, limit)
  }

  /** The table for the addresses from `i` on, behind what is written already; `base` is the word that comes next. */
  function Written(addresses: seq<u64>, i: nat, relr: seq<u64>, base: nat): seq<u64>
    requires i <= |addresses|
    decreases |addresses| - i
  {
    if i == |addresses| then relr
    else if relr != [] && addresses[i] < base + 504 then
      Written(addresses, FirstFrom(addresses, i + 1, base + 504), relr + [BitmapOf(addresses, base)], base + 504)
    else Written(addresses, i + 1, relr + [addresses[i]], (addresses[i] as nat) + 8)
  }

  function Encode(addresses: seq<u64>): seq<u64> { Written(addresses, 0, [], 0) }

  // ---- reading it back ----

  lemma {:induction false} ShiftHalf(v: nat, n: nat)
    requires n > 0
    ensures ShiftRight(v, n) == ShiftRight(v / 2, n - 1)
  {
  }

  lemma {:induction false} ShiftNone(v: nat)
    ensures ShiftRight(v, 0) == v
  {
  }

  lemma {:induction false} LowBit(v: nat)
    ensures Bit(v, 0) <==> v % 2 == 1
  {
  }

  lemma {:induction false} BitHalf(v: nat, i: nat)
    requires i > 0
    ensures Bit(v, i) == Bit(v / 2, i - 1)
  {
  }

  lemma {:induction false} ShiftIs(entry: nat)
    ensures ShiftRight(entry, 3) == entry / 8
  {
    hide ShiftRight;
    ShiftHalf(entry, 3);
    ShiftHalf(entry / 2, 2);
    ShiftHalf(entry / 2 / 2, 1);
    ShiftNone(entry / 2 / 2 / 2);
  }

  /** An even entry that is the address of a word names that word. */
  lemma {:induction false} AddressRead(entry: u64)
    requires entry % 8 == 0
    ensures Aligned(entry) && Decode(entry).Address? && 8 * Decode(entry).word == entry
  {
    hide Bit, ShiftRight;
    ShiftIs(entry);
    BitHalf(entry, 1);
    BitHalf(entry, 2);
    BitHalf(entry / 2, 1);
    LowBit(entry);
    LowBit(entry / 2);
    LowBit(entry / 2 / 2);
  }

  lemma {:induction false} BitsAt(addresses: seq<u64>, base: nat, n: nat, k: nat)
    requires n + k < 63
    ensures Bit(Bits(addresses, base, n), k) <==> base + 8 * (n + k) in addresses
    decreases k
  {
    hide Bit;
    var rest := Bits(addresses, base, n + 1);
    var bits := Bits(addresses, base, n);
    assert bits == (if base + 8 * n in addresses then 1 else 0) + 2 * rest;
    if k == 0 {
      LowBit(bits);
    } else {
      BitsAt(addresses, base, n + 1, k - 1);
      BitHalf(bits, k);
    }
  }

  /** An odd entry marks the words of the list among the 63 from its start. */
  lemma {:induction false} BitmapRead(addresses: seq<u64>, first: nat, w: nat)
    ensures
      var entry := BitmapOf(addresses, 8 * first);
      && Aligned(entry) && Decode(entry) == Bitmap(entry)
      && (Marks(entry, first, w) <==> first <= w < first + 63 && 8 * w in addresses)
  {
    hide Bit, Bits, ShiftRight;
    var entry := BitmapOf(addresses, 8 * first);
    LowBit(entry);
    if first <= w < first + 63 {
      BitsAt(addresses, 8 * first, 0, w - first);
      BitHalf(entry, w - first + 1);
      assert 8 * first + 8 * (w - first) == 8 * w;
    }
  }

  // ---- the table as it grows ----

  /** What a table says about the addresses before `i`, all below `base`, and where it has come to. */
  ghost predicate Covers(addresses: seq<u64>, i: nat, relr: seq<u64>, base: nat)
    requires i <= |addresses|
  {
    var t := Decoded(relr);
    && AllAligned(relr) && Upward(t)
    && (relr != [] ==> 8 * Where(t, |t|) == base) && (relr == [] ==> i == 0 && base == 0)
    && (forall k :: 0 <= k < i ==> addresses[k] < base)
    && (forall k :: i <= k < |addresses| ==> addresses[k] >= base)
    && forall w: nat :: EncodedBefore(t, |t|, w) <==> 8 * w < base && 8 * w in addresses
  }

  /** Addresses of words ascend. */
  predicate Upward(t: seq<Entry>) { forall i :: 0 <= i < |t| && t[i].Address? ==> Where(t, i) <= t[i].word }

  lemma {:induction false} DecodedMore(relr: seq<u64>, entry: u64)
    ensures Decoded(relr + [entry]) == Decoded(relr) + [Decode(entry)]
  {
  }

  /** What stands earlier in a table does not depend on what comes later. */
  lemma {:induction false} WhereKept(t: seq<Entry>, e: Entry, i: nat)
    requires i <= |t|
    ensures Where(t + [e], i) == Where(t, i)
    decreases i
  {
    if i > 0 {
      WhereKept(t, e, i - 1);
    }
  }

  lemma {:induction false} NamesKept(t: seq<Entry>, e: Entry, i: nat, w: nat)
    requires i < |t|
    ensures Names(t + [e], i, w) == Names(t, i, w)
  {
    WhereKept(t, e, i);
  }

  lemma {:induction false} EncodedMore(t: seq<Entry>, e: Entry, w: nat)
    ensures EncodedBefore(t + [e], |t| + 1, w) <==> EncodedBefore(t, |t|, w) || Names(t + [e], |t|, w)
  {
    var more := t + [e];
    if i :| 0 <= i < |t| && Names(t, i, w) {
      NamesKept(t, e, i, w);
    }
    if i :| 0 <= i < |t| + 1 && Names(more, i, w) {
      if i < |t| {
        NamesKept(t, e, i, w);
        assert EncodedBefore(t, |t|, w);
      }
    }
  }

  lemma {:induction false} UpwardMore(t: seq<Entry>, e: Entry)
    requires Upward(t) && (e.Address? ==> Where(t, |t|) <= e.word)
    ensures Upward(t + [e])
  {
    var more := t + [e];
    forall i | 0 <= i < |more| && more[i].Address? ensures Where(more, i) <= more[i].word {
      WhereKept(t, e, i);
    }
  }

  lemma {:induction false} AlignedMore(relr: seq<u64>, entry: u64)
    requires AllAligned(relr) && Aligned(entry)
    ensures AllAligned(relr + [entry])
  {
  }

  lemma {:induction false} AddressAdded(addresses: seq<u64>, i: nat, relr: seq<u64>, base: nat)
    requires Ascending(addresses) && i < |addresses| && Covers(addresses, i, relr, base)
    ensures Covers(addresses, i + 1, relr + [addresses[i]], (addresses[i] as nat) + 8)
  {
    hide Decode, Decoded, AllAligned, Aligned, EncodedBefore, Upward;
    var entry, t := addresses[i], Decoded(relr);
    var next := (entry as nat) + 8;
    AddressRead(entry);
    DecodedMore(relr, entry);
    AlignedMore(relr, entry);
    var e := Decode(entry);
    var more := t + [e];
    StartAtZero(t);
    UpwardMore(t, e);
    WhereKept(t, e, |t|);
    assert Where(more, |more|) == e.word + 1;
    forall k | i + 1 <= k < |addresses| ensures addresses[k] >= next {
      NextWord(entry, addresses[k]);
    }
    forall k | 0 <= k < i + 1 ensures addresses[k] < next {
      assert k < i ==> addresses[k] < addresses[i];
    }
    forall w: nat ensures EncodedBefore(more, |more|, w) <==> 8 * w < next && 8 * w in addresses {
      EncodedMore(t, e, w);
      assert Names(more, |t|, w) <==> w == e.word;
      OnlyThisOne(addresses, i, base, w);
    }
  }

  lemma {:induction false} NextWord(a: nat, b: nat)
    requires a % 8 == 0 && b % 8 == 0 && a < b
    ensures a + 8 <= b
  {
  }

  lemma {:induction false} StartAtZero(t: seq<Entry>)
    ensures t == [] ==> Where(t, |t|) == 0
  {
  }

  lemma {:induction false} OnlyThisOne(addresses: seq<u64>, i: nat, base: nat, w: nat)
    requires Ascending(addresses) && i < |addresses|
    requires forall k :: 0 <= k < i ==> addresses[k] < base
    requires forall k :: i <= k < |addresses| ==> addresses[k] >= base
    ensures 8 * w < (addresses[i] as nat) + 8 && 8 * w in addresses <==>
      (8 * w < base && 8 * w in addresses) || 8 * w == addresses[i]
  {
    if 8 * w in addresses {
      var k :| 0 <= k < |addresses| && addresses[k] == 8 * w;
      if k < i {
        assert addresses[k] < addresses[i];
      }
    }
  }

  lemma {:induction false} BitmapAdded(addresses: seq<u64>, i: nat, relr: seq<u64>, base: nat)
    requires Ascending(addresses) && i < |addresses| && Covers(addresses, i, relr, base)
    requires relr != [] && addresses[i] < base + 504
    ensures Covers(addresses, FirstFrom(addresses, i + 1, base + 504), relr + [BitmapOf(addresses, base)], base + 504)
  {
    hide Decode, Decoded, AllAligned, Aligned, EncodedBefore, Upward, Marks, BitmapOf;
    var entry, t := BitmapOf(addresses, base), Decoded(relr);
    var first := Where(t, |t|);
    BitmapRead(addresses, first, 0);
    DecodedMore(relr, entry);
    AlignedMore(relr, entry);
    var e := Decode(entry);
    UpwardMore(t, e);
    WhereKept(t, e, |t|);
    var j := FirstFrom(addresses, i + 1, base + 504);
    forall k | j <= k < |addresses| ensures addresses[k] >= base + 504 {
      assert k > j ==> addresses[j] < addresses[k];
    }
    forall w: nat ensures EncodedBefore(t + [e], |t| + 1, w) <==> 8 * w < base + 504 && 8 * w in addresses {
      EncodedMore(t, e, w);
      BitmapRead(addresses, first, w);
    }
  }

  lemma {:induction false} WrittenCovers(addresses: seq<u64>, i: nat, relr: seq<u64>, base: nat)
    requires Ascending(addresses) && i <= |addresses| && Covers(addresses, i, relr, base)
    ensures
      var table := Written(addresses, i, relr, base);
      && AllAligned(table) && Upward(Decoded(table))
      && forall w: nat :: Encoded(Decoded(table), w) <==> 8 * w in addresses
    decreases |addresses| - i
  {
    hide Ascending, AllAligned, EncodedBefore, Upward, BitmapOf;
    if i == |addresses| {
      AllBelow(addresses, base);
    } else if relr != [] && addresses[i] < base + 504 {
      BitmapAdded(addresses, i, relr, base);
      WrittenCovers(addresses, FirstFrom(addresses, i + 1, base + 504), relr + [BitmapOf(addresses, base)], base + 504);
    } else {
      AddressAdded(addresses, i, relr, base);
      WrittenCovers(addresses, i + 1, relr + [addresses[i]], (addresses[i] as nat) + 8);
    }
  }

  lemma {:induction false} AllBelow(addresses: seq<u64>, base: nat)
    requires forall k :: 0 <= k < |addresses| ==> addresses[k] < base
    ensures forall w: nat :: 8 * w in addresses ==> 8 * w < base
  {
  }

  lemma {:induction false} NothingCovered(addresses: seq<u64>)
    ensures Covers(addresses, 0, [], 0)
  {
  }

  /** The written table is read back: it encodes the words at the given byte addresses and no others. */
  lemma {:induction false} EncodeReadsBack(addresses: seq<u64>, words: nat)
    requires Ascending(addresses) && forall i :: 0 <= i < |addresses| ==> addresses[i] < 8 * words
    ensures AllAligned(Encode(addresses)) && WellFormed(Decoded(Encode(addresses)), words)
    ensures forall w: nat :: Encoded(Decoded(Encode(addresses)), w) <==> 8 * w in addresses
  {
    hide Covers, AllAligned;
    NothingCovered(addresses);
    WrittenCovers(addresses, 0, [], 0);
    var t := Decoded(Encode(addresses));
    forall i, w: nat | 0 <= i < |t| && Names(t, i, w) ensures w < words {
      assert Encoded(t, w);
      var k :| 0 <= k < |addresses| && addresses[k] == 8 * w;
    }
  }

  /** Applying the written table adds the base to the words at exactly these byte addresses, once. */
  lemma {:induction false} EncodedRebased(addresses: seq<u64>, before: seq<u64>, now: seq<u64>, base: u64)
    requires Ascending(addresses) && forall i :: 0 <= i < |addresses| ==> addresses[i] < 8 * |before|
    ensures Rebased(before, now, base, Decoded(Encode(addresses))) <==>
      |now| == |before| && forall w: nat :: w < |before| ==>
        now[w] == if 8 * w in addresses then (before[w] + base) % 0x1_0000_0000_0000_0000 else before[w]
  {
    hide Encode, Decoded, Encoded, WellFormed;
    EncodeReadsBack(addresses, |before|);
  }
}

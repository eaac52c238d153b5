/** Packed relative relocations: the RELR table of an ELF file, over a load zone seen as 64-bit words. */
module Relr {
  import opened Bytes

  /** An even entry is the address of a word, an odd one a bitmap over the next 63 words. */
  datatype Entry = Address(word: nat) | Bitmap(bits: u64)

  /** `entry >> n`. */
  function ShiftRight(entry: nat, n: nat): nat
    decreases n, entry
  {
    if n == 0 then entry else ShiftRight(entry / 2, n - 1)
  }

  function Decode(entry: u64): Entry { if Bit(entry, 0) then Bitmap(entry) else Address(ShiftRight(entry, 3)) }

  /** An address is that of a word: multiples of eight. */
  predicate Aligned(entry: u64) { Bit(entry, 0) || (!Bit(entry, 1) && !Bit(entry, 2)) }

  predicate AllAligned(relr: seq<u64>) { forall i :: 0 <= i < |relr| ==> Aligned(relr[i]) }

  function Decoded(relr: seq<u64>): (t: seq<Entry>)
    ensures |t| == |relr|
  {
    seq(|relr|, i requires 0 <= i < |relr| => Decode(relr[i]))
  }

  function AddWrap(a: u64, b: u64): u64 { (a + b) % 0x1_0000_0000_0000_0000 }

  /** The word after the last one that the first `i` entries speak about. */
  function Where(t: seq<Entry>, i: nat): nat
    requires i <= |t|
    decreases i, |t|
  {
    if i == 0 then 0
    else
      match t[i - 1]
      case Address(word) => word + 1
      case Bitmap(_) => Where(t, i - 1) + 63
  }

  /** Entry `i` encodes word `w`. */
  predicate Names(t: seq<Entry>, i: nat, w: nat)
    requires i < |t|
  {
    match t[i]
    case Address(word) => w == word
    case Bitmap(bits) => Marks(bits, Where(t, i), w)
  }

  /** A bitmap that starts at word `first` marks word `w`: bit 1 stands for the first word. */
  predicate Marks(bits: u64, first: nat, w: nat) { first <= w < first + 63 && Bit(bits, w - first + 1) }

  predicate Encoded(t: seq<Entry>, w: nat) { EncodedBefore(t, |t|, w) }

  predicate EncodedBefore(t: seq<Entry>, n: nat, w: nat)
    requires n <= |t|
  {
    exists i :: 0 <= i < n && Names(t, i, w)
  }

  /** Addresses ascend, and every encoded word lies in the load zone. */
  ghost predicate WellFormed(t: seq<Entry>, words: nat) {
    && (forall i :: 0 <= i < |t| && t[i].Address? ==> Where(t, i) <= t[i].word)
    && forall i, w: nat :: 0 <= i < |t| && Names(t, i, w) ==> w < words
  }

  lemma {:induction false} WhereStep(t: seq<Entry>, words: nat, i: nat)
    requires WellFormed(t, words) && i < |t|
    ensures Where(t, i) <= Where(t, i + 1)
  {
    hide Names;
  }

  lemma {:induction false} WhereGrows(t: seq<Entry>, words: nat, i: nat, j: nat)
    requires WellFormed(t, words) && i <= j <= |t|
    ensures Where(t, i) <= Where(t, j)
    decreases j
  {
    hide WellFormed, Where;
    if i < j {
      WhereGrows(t, words, i, j - 1);
      WhereStep(t, words, j - 1);
    }
  }

  /** What an entry encodes lies between where it starts and where the next one starts. */
  lemma {:induction false} NamesBetween(t: seq<Entry>, words: nat, i: nat, w: nat)
    requires WellFormed(t, words) && i < |t|
    ensures Names(t, i, w) ==> Where(t, i) <= w < Where(t, i + 1)
  {
  }

  /** A well-formed table encodes every word at most once. */
  lemma {:induction false} NamedOnce(t: seq<Entry>, words: nat, i: nat, j: nat, w: nat)
    requires WellFormed(t, words) && i < j < |t| && Names(t, i, w)
    ensures !Names(t, j, w)
  {
    hide WellFormed, Names, Where;
    NamesBetween(t, words, i, w);
    WhereGrows(t, words, i + 1, j);
    NamesBetween(t, words, j, w);
  }

  /** Word `w` after the first `n` entries. */
  function Shifted(before: u64, base: u64, t: seq<Entry>, n: nat, w: nat): u64
    requires n <= |t|
  {
    if EncodedBefore(t, n, w) then AddWrap(before, base) else before
  }

  lemma {:induction false} TableStart(before: seq<u64>, base: u64, t: seq<Entry>)
    ensures Where(t, 0) == 0 && ShiftedTo(before, before, base, t, 0)
  {
  }

  lemma {:induction false} EntryStep(before: u64, base: u64, t: seq<Entry>, words: nat, n: nat, w: nat)
    requires WellFormed(t, words) && n < |t|
    ensures
      var soFar := Shifted(before, base, t, n, w);
      Shifted(before, base, t, n + 1, w) == if Names(t, n, w) then AddWrap(soFar, base) else soFar
  {
    if EncodedBefore(t, n, w) {
      var i :| 0 <= i < n && Names(t, i, w);
      NamedOnce(t, words, i, n, w);
    }
    if Names(t, n, w) {
      assert EncodedBefore(t, n + 1, w);
    }
  }

  /** The zone after the first `n` entries. */
  predicate ShiftedTo(before: seq<u64>, now: seq<u64>, base: u64, t: seq<Entry>, n: nat)
    requires n <= |t|
  {
    |now| == |before| && forall w: nat :: w < |before| ==> now[w] == Shifted(before[w], base, t, n, w)
  }

  predicate EntryApplied(mid: seq<u64>, now: seq<u64>, base: u64, t: seq<Entry>, i: nat)
    requires i < |t|
  {
    |now| == |mid| && forall w: nat :: w < |mid| ==> now[w] == if Names(t, i, w) then AddWrap(mid[w], base) else mid[w]
  }

  lemma {:induction false} TableStep(before: seq<u64>, mid: seq<u64>, now: seq<u64>, base: u64, t: seq<Entry>, n: nat)
    requires n < |t| && WellFormed(t, |before|)
    requires ShiftedTo(before, mid, base, t, n) && EntryApplied(mid, now, base, t, n)
    ensures ShiftedTo(before, now, base, t, n + 1)
  {
    forall w: nat | w < |before| ensures now[w] == Shifted(before[w], base, t, n + 1, w) {
      EntryStep(before[w], base, t, |before|, n, w);
    }
  }

  /** The inner loop: one bitmap. */
  method ApplyBitmap(mem: array<u64>, base: u64, bits: u64, first: nat)
    requires forall w: nat :: Marks(bits, first, w) ==> w < mem.Length
    modifies mem
    ensures forall w: nat :: w < mem.Length ==>
      mem[w] == if Marks(bits, first, w) then AddWrap(old(mem[w]), base) else old(mem[w])
  {
    for bit := 1 to 64
      invariant forall w: nat :: w < mem.Length ==>
        mem[w] == if Marks(bits, first, w) && w < first + bit - 1 then AddWrap(old(mem[w]), base) else old(mem[w])
    {
      if Bit(bits, bit) {
        assert Marks(bits, first, first + bit - 1);
        mem[first + bit - 1] := AddWrap(mem[first + bit - 1], base);
      }
    }
  }

  /** One entry, and where the next one starts. */
  method ApplyEntry(mem: array<u64>, base: u64, entry: Entry, first: nat, ghost t: seq<Entry>, ghost i: nat)
    returns (next: nat)
    requires WellFormed(t, mem.Length) && i < |t| && t[i] == entry && first == Where(t, i)
    modifies mem
    ensures next == Where(t, i + 1) && EntryApplied(old(mem[..]), mem[..], base, t, i)
  {
    match entry
    case Address(word) =>
      assert Names(t, i, word);
      mem[word] := AddWrap(mem[word], base);
      return word + 1;
    case Bitmap(bits) =>
      assert forall w: nat :: Marks(bits, first, w) ==> Names(t, i, w);
      ApplyBitmap(mem, base, bits, first);
      return first + 63;
  }

  /** The zone after a whole table: the load base added once to each encoded word and to no other. */
  predicate Rebased(before: seq<u64>, now: seq<u64>, base: u64, t: seq<Entry>) {
    |now| == |before| && forall w: nat :: w < |before| ==>
      now[w] == if Encoded(t, w) then AddWrap(before[w], base) else before[w]
  }

  lemma {:induction false} TableDone(before: seq<u64>, now: seq<u64>, base: u64, t: seq<Entry>)
    requires ShiftedTo(before, now, base, t, |t|)
    ensures Rebased(before, now, base, t)
  {
  }

  /** `so_process_relr`. */
  method ProcessRelr(mem: array<u64>, base: u64, relr: seq<u64>)
    requires AllAligned(relr) && WellFormed(Decoded(relr), mem.Length)
    modifies mem
    ensures Rebased(old(mem[..]), mem[..], base, Decoded(relr))
  {
    hide ShiftedTo, EntryApplied, WellFormed, Where, Decode, Rebased, AllAligned;
    var first := 0;
    ghost var t, before := Decoded(relr), mem[..];
    TableStart(before, base, t);
    for i := 0 to |relr|
      invariant first == Where(t, i) && ShiftedTo(before, mem[..], base, t, i)
    {
      ghost var mid := mem[..];
      first := ApplyEntry(mem, base, Decode(relr[i]), first, t, i);
      TableStep(before, mid, mem[..], base, t, i);
    }
    TableDone(before, mem[..], base, t);
  }
}

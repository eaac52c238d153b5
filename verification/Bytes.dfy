/** Fixed-width little-endian integers, byte strings and the FNV-1a fold shared by every file format of the port. */
module Bytes {
  type byte = x: int | 0 <= x < 0x100
  type u16 = x: int | 0 <= x < 0x1_0000
  type u32 = x: int | 0 <= x < 0x1_0000_0000
  type u64 = x: int | 0 <= x < 0x1_0000_0000_0000_0000

  const U64_SIZE := 0x1_0000_0000_0000_0000

  datatype Option<+T> = None | Some(value: T)

  function Max(a: int, b: int): int { if a < b then b else a }

  function Min(a: int, b: int): int { if a < b then a else b }

  /** 256 to the power `n`. */
  function Pow256(n: nat): (p: nat)
    ensures p > 0
  {
    if n == 0 then 1 else 256 * Pow256(n - 1)
  }

  /** The `n` bytes that a little-endian machine stores for `v`. */
  function LE(n: nat, v: nat): (s: seq<byte>)
    ensures |s| == n
    decreases n, v
  {
    if n == 0 then [] else [v % 256] + LE(n - 1, v / 256)
  }

  function FromLE(s: seq<byte>): (v: nat)
  {
    if s == [] then 0 else s[0] + 256 * FromLE(s[1..])
  }

  /** Loading a stored integer gives it back. */
  lemma {:induction false} FromLEInvertsLE(n: nat, v: nat)
    requires v < Pow256(n)
    ensures FromLE(LE(n, v)) == v
  {
    if n > 0 {
      assert v / 256 < Pow256(n - 1);
      FromLEInvertsLE(n - 1, v / 256);
      assert LE(n, v)[1..] == LE(n - 1, v / 256);
    }
  }

  lemma {:induction false} FromLEBound(s: seq<byte>)
    ensures FromLE(s) < Pow256(|s|)
  {
    if s != [] {
      FromLEBound(s[1..]);
    }
  }

  lemma {:induction false} Digit(x: byte, w: nat)
    ensures (x + 256 * w) % 256 == x && (x + 256 * w) / 256 == w
  {
  }

  /** Storing a loaded integer gives the bytes back. */
  lemma {:induction false} LEInvertsFromLE(s: seq<byte>)
    ensures LE(|s|, FromLE(s)) == s
  {
    if s != [] {
      LEInvertsFromLE(s[1..]);
      Digit(s[0], FromLE(s[1..]));
    }
  }

  lemma {:induction false} Widths()
    ensures Pow256(4) == 0x1_0000_0000 && Pow256(8) == U64_SIZE
  {
    assert Pow256(1) == 256;
    assert Pow256(3) == 0x100_0000;
    assert Pow256(4) == 0x1_0000_0000;
    assert Pow256(5) == 0x100_0000_0000;
    assert Pow256(6) == 0x1_0000_0000_0000;
    assert Pow256(7) == 0x100_0000_0000_0000;
  }

  lemma {:induction false} RoundTrip32(v: u32)
    ensures FromLE(LE(4, v)) == v
  {
    Widths();
    FromLEInvertsLE(4, v);
  }

  lemma {:induction false} RoundTrip64(v: u64)
    ensures FromLE(LE(8, v)) == v
  {
    Widths();
    FromLEInvertsLE(8, v);
  }

  /** Integers loaded straight out of a buffer, as the file formats do. */
  function U32At(s: seq<byte>, p: nat): u32
    requires p + 4 <= |s|
  {
    FromLEBound(s[p..p + 4]);
    Widths();
    FromLE(s[p..p + 4])
  }

  function U64At(s: seq<byte>, p: nat): u64
    requires p + 8 <= |s|
  {
    FromLEBound(s[p..p + 8]);
    Widths();
    FromLE(s[p..p + 8])
  }

  function U16At(s: seq<byte>, p: nat): u16
    requires p + 2 <= |s|
  {
    (s[p] as int) + 256 * (s[p + 1] as int)
  }

  /** Bit `i` of a number. */
  predicate Bit(v: nat, i: nat)
    decreases i, v
  {
    if i == 0 then v % 2 == 1 else Bit(v / 2, i - 1)
  }

  /** Bitwise exclusive or. */
  function Xor(a: nat, b: nat): nat
    decreases a + b
  {
    if a == 0 then b else if b == 0 then a else (a + b) % 2 + 2 * Xor(a / 2, b / 2)
  }

  /** One round of 64-bit FNV-1a: exclusive-or the byte in, multiply by the prime, wrap. */
  function FnvStep(hash: u64, b: byte): u64 {
    Xor(hash, b) * 1099511628211 % 0x1_0000_0000_0000_0000
  }

  /** The hash of the first `n` bytes, from a given state. */
  function FnvUpTo(hash: u64, data: seq<byte>, n: nat): u64
    requires n <= |data|
    decreases n, hash
  {
    if n == 0 then hash else FnvStep(FnvUpTo(hash, data, n - 1), data[n - 1])
  }

  function Fnv(hash: u64, data: seq<byte>): u64 { FnvUpTo(hash, data, |data|) }

  const FNV_SEED: u64 := 1469598103934665603

  lemma {:induction false} FnvUpToPrefix(hash: u64, a: seq<byte>, b: seq<byte>, n: nat)
    requires a <= b && n <= |a|
    ensures FnvUpTo(hash, a, n) == FnvUpTo(hash, b, n)
  {
    if n > 0 {
      FnvUpToPrefix(hash, a, b, n - 1);
    }
  }

  lemma {:induction false} FnvUpToConcat(hash: u64, a: seq<byte>, b: seq<byte>, n: nat)
    requires n <= |b|
    ensures FnvUpTo(hash, a + b, |a| + n) == FnvUpTo(Fnv(hash, a), b, n)
  {
    if n == 0 {
      FnvUpToPrefix(hash, a, a + b, |a|);
    } else {
      FnvUpToConcat(hash, a, b, n - 1);
      assert (a + b)[|a| + n - 1] == b[n - 1];
    }
  }

  /**
   * Hashing chunk by chunk is hashing the concatenation: what lets the writer and the verifier use different chunks.
   */
  lemma {:induction false} FnvConcat(hash: u64, a: seq<byte>, b: seq<byte>)
    ensures Fnv(hash, a + b) == Fnv(Fnv(hash, a), b)
  {
    FnvUpToConcat(hash, a, b, |b|);
  }

  lemma {:induction false} FnvNothing(hash: u64, data: seq<byte>)
    ensures Fnv(hash, data[..0]) == hash
  {
  }

  /** The loop of `fnv_bytes`. */
  method FnvBytes(seed: u64, data: seq<byte>) returns (hash: u64)
    ensures hash == Fnv(seed, data)
  {
    hash := seed;
    for i := 0 to |data|
      invariant hash == FnvUpTo(seed, data, i)
    {
      hash := FnvStep(hash, data[i]);
    }
  }

  function Zeros(n: nat): (s: seq<byte>)
    ensures |s| == n
    ensures forall i :: 0 <= i < n ==> s[i] == 0
  {
    seq(n, _ => 0)
  }
}

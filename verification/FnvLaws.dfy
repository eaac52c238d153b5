/** What the FNV-1a fold computes: exclusive-or bit by bit, and a step that loses nothing. */
module FnvLaws {
  import opened Arith
  import opened Bytes

  lemma {:induction false} DoubledPlus(low: nat, high: nat)
    requires low < 2
    ensures (low + 2 * high) % 2 == low && (low + 2 * high) / 2 == high
  {
  }

  lemma {:induction false} ZeroSide(a: nat, b: nat)
    ensures a == 0 ==> Xor(a, b) == b
    ensures b == 0 ==> Xor(a, b) == a
  {
  }

  lemma {:induction false} XorHalves(a: nat, b: nat)
    ensures Xor(a, b) % 2 == (a + b) % 2 && Xor(a, b) / 2 == Xor(a / 2, b / 2)
  {
    if a != 0 && b != 0 {
      DoubledPlus((a + b) % 2, Xor(a / 2, b / 2));
    } else {
      ZeroSide(a / 2, b / 2);
    }
  }

  /** A bit of the exclusive or is set exactly when the two bits differ. */
  lemma {:induction false} XorBit(a: nat, b: nat, i: nat)
    ensures Bit(Xor(a, b), i) <==> Bit(a, i) != Bit(b, i)
    decreases i
  {
    hide Xor;
    XorHalves(a, b);
    if i > 0 {
      XorBit(a / 2, b / 2, i - 1);
    }
  }

  /** Numbers with the same bits are the same number. */
  lemma {:induction false} SameBits(a: nat, b: nat)
    requires forall i: nat :: Bit(a, i) == Bit(b, i)
    ensures a == b
    decreases a + b
  {
    assert Bit(a, 0) == Bit(b, 0);
    forall i: nat ensures Bit(a / 2, i) == Bit(b / 2, i) {
      assert Bit(a, i + 1) == Bit(b, i + 1);
    }
    if a + b > 0 {
      SameBits(a / 2, b / 2);
    }
  }

  lemma {:induction false} XorTwice(a: nat, b: nat)
    ensures Xor(Xor(a, b), b) == a
  {
    hide Bit, Xor;
    forall i: nat ensures Bit(Xor(Xor(a, b), b), i) == Bit(a, i) {
      XorBit(Xor(a, b), b, i);
      XorBit(a, b, i);
    }
    SameBits(Xor(Xor(a, b), b), a);
  }

  lemma {:induction false} XorSymmetric(a: nat, b: nat)
    ensures Xor(a, b) == Xor(b, a)
  {
    hide Bit, Xor;
    forall i: nat ensures Bit(Xor(a, b), i) == Bit(Xor(b, a), i) {
      XorBit(a, b, i);
      XorBit(b, a, i);
    }
    SameBits(Xor(a, b), Xor(b, a));
  }

  lemma {:induction false} XorBelow(a: nat, b: nat, n: nat)
    requires a < Pow2(n) && b < Pow2(n)
    ensures Xor(a, b) < Pow2(n)
    decreases n
  {
    hide Xor;
    XorHalves(a, b);
    if n > 0 {
      XorBelow(a / 2, b / 2, n - 1);
    } else {
      XorNothing();
    }
  }

  lemma {:induction false} XorNothing()
    ensures Xor(0, 0) == 0
  {
  }

  const PRIME := 1099511628211

  /** The inverse of the prime modulo 2^64: the prime is odd. */
  const INVERSE := 14886173955864302971

  lemma {:induction false} Remainder(x: int, u: u64, j: int)
    requires x == u + U64_SIZE * j
    ensures x % U64_SIZE == u
  {
  }

  /** So a product modulo 2^64 determines the other factor. */
  lemma {:induction false} PrimeInverts(u: u64)
    ensures u * PRIME % U64_SIZE * INVERSE % U64_SIZE == u
  {
    var k, r := u * PRIME / U64_SIZE, u * PRIME % U64_SIZE;
    assert PRIME * INVERSE == 1 + 887285111055 * U64_SIZE;
    assert r * INVERSE == u + U64_SIZE * (887285111055 * u - k * INVERSE);
    Remainder(r * INVERSE, u, 887285111055 * u - k * INVERSE);
  }

  lemma {:induction false} StepUndone(h: u64, b: byte)
    ensures FnvStep(h, b) * INVERSE % U64_SIZE == Xor(h, b)
  {
    hide Xor;
    Pow2Is();
    XorBelow(h, b, 64);
    PrimeInverts(Xor(h, b));
  }

  /** One step keeps different states apart, and different bytes. */
  lemma {:induction false} StepInjective(h: u64, g: u64, x: byte, y: byte)
    ensures h != g ==> FnvStep(h, x) != FnvStep(g, x)
    ensures x != y ==> FnvStep(h, x) != FnvStep(h, y)
  {
    hide Xor, FnvStep;
    StepUndone(h, x);
    StepUndone(g, x);
    StepUndone(h, y);
    XorTwice(h, x);
    XorTwice(g, x);
    XorSymmetric(h, x);
    XorSymmetric(h, y);
    XorTwice(x, h);
    XorTwice(y, h);
  }

  lemma {:induction false} FoldInjective(h: u64, g: u64, data: seq<byte>, n: nat)
    requires n <= |data| && h != g
    ensures FnvUpTo(h, data, n) != FnvUpTo(g, data, n)
    decreases n
  {
    hide FnvStep;
    if n > 0 {
      FoldInjective(h, g, data, n - 1);
      StepInjective(FnvUpTo(h, data, n - 1), FnvUpTo(g, data, n - 1), data[n - 1], data[n - 1]);
    }
  }

  lemma {:induction false} OneByte(h: u64, x: byte)
    ensures Fnv(h, [x]) == FnvStep(h, x)
  {
    assert FnvUpTo(h, [x], 0) == h;
  }

  /** Another byte anywhere, another hash. */
  lemma {:induction false} ByteCounts(h: u64, a: seq<byte>, x: byte, y: byte, c: seq<byte>)
    requires x != y
    ensures Fnv(h, a + [x] + c) != Fnv(h, a + [y] + c)
  {
    hide FnvStep, Fnv;
    var g := Fnv(h, a);
    FnvConcat(h, a, [x]);
    FnvConcat(h, a, [y]);
    FnvConcat(h, a + [x], c);
    FnvConcat(h, a + [y], c);
    OneByte(g, x);
    OneByte(g, y);
    StepInjective(g, g, x, y);
    StateCounts(FnvStep(g, x), FnvStep(g, y), c);
  }

  /** Another state ahead, another hash. */
  lemma {:induction false} StateCounts(h: u64, g: u64, data: seq<byte>)
    requires h != g
    ensures Fnv(h, data) != Fnv(g, data)
  {
    FoldInjective(h, g, data, |data|);
  }

  lemma {:induction false} XorNone(a: nat)
    ensures Xor(a, 0) == a
  {
  }

  lemma {:induction false} XorUp(a: nat, b: nat, half: nat)
    requires Xor(a / 2, b / 2) == half
    ensures Xor(a, b) == 2 * half + (a + b) % 2
  {
    hide Xor;
    XorHalves(a, b);
  }

  lemma {:induction false} SeedXor()
    ensures Xor(0xcbf29ce484222325, 0x61) == 0xcbf29ce484222344
  {
    hide Xor;
    var v: nat := 0xcbf29ce484222325;
    XorNone(v / 128);
    XorUp(v / 64, 1, v / 128);
    XorUp(v / 32, 3, 0x32fca739210888d);
    XorUp(v / 16, 6, 0x65f94e72421111a);
    XorUp(v / 8, 12, 0xcbf29ce48422234);
    XorUp(v / 4, 24, 0x197e539c90844468);
    XorUp(v / 2, 48, 0x32fca739210888d1);
    XorUp(v, 97, 0x65f94e72421111a2);
  }

  /** The published value for the string "a" from the published offset basis; the port starts from another seed. */
  lemma {:induction false} PublishedValue()
    ensures Fnv(0xcbf29ce484222325, [0x61]) == 0xaf63dc4c8601ec8c
  {
    hide Xor;
    OneByte(0xcbf29ce484222325, 0x61);
    SeedXor();
  }

  lemma {:induction false} PortSeedXor()
    ensures Xor(0x14650fb0739d0383, 0x61) == 0x14650fb0739d03e2
  {
    hide Xor;
    var v: nat := 0x14650fb0739d0383;
    XorNone(v / 128);
    XorUp(v / 64, 1, v / 128);
    XorUp(v / 32, 3, 0x51943ec1ce740f);
    XorUp(v / 16, 6, 0xa3287d839ce81f);
    XorUp(v / 8, 12, 0x14650fb0739d03e);
    XorUp(v / 4, 24, 0x28ca1f60e73a07c);
    XorUp(v / 2, 48, 0x51943ec1ce740f8);
    XorUp(v, 97, 0xa3287d839ce81f1);
  }

  /** And from the port's seed: the inode of a directory "a". */
  lemma {:induction false} PortValue()
    ensures Fnv(FNV_SEED, [0x61]) == 0x44bd8ad473cd9906
  {
    hide Xor;
    OneByte(FNV_SEED, 0x61);
    PortSeedXor();
  }
}

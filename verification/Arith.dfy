/** Products, quotients and remainders of variables, one fact at a time. */
module Arith {
  lemma {:induction false} Monotone(m: nat, k: nat, b: nat)
    ensures m <= k ==> m * b <= k * b
  {
  }

  lemma {:induction false} Divided(a: nat, b: nat)
    requires b > 0
    ensures (a / b) * b <= a < (a / b) * b + b && a % b == a - (a / b) * b
  {
  }

  lemma {:induction false} NextMultiple(q: nat, b: nat)
    ensures (q + 1) * b == q * b + b
  {
  }

  lemma {:induction false} Quotient(a: nat, b: nat, q: nat)
    requires b > 0 && q * b <= a < q * b + b
    ensures a / b == q && a % b == a - q * b
  {
    var p := a / b;
    Divided(a, b);
    NextMultiple(p, b);
    NextMultiple(q, b);
    Monotone(p + 1, q, b);
    Monotone(q + 1, p, b);
  }

  /** Two to the power `n`. */
  function Pow2(n: nat): nat { if n == 0 then 1 else 2 * Pow2(n - 1) }

  lemma {:induction false} Pow2Step(n: nat)
    ensures Pow2(n + 8) == 0x100 * Pow2(n)
  {
    assert Pow2(n + 8) == 2 * Pow2(n + 7) && Pow2(n + 7) == 2 * Pow2(n + 6) && Pow2(n + 6) == 2 * Pow2(n + 5);
    assert Pow2(n + 5) == 2 * Pow2(n + 4) && Pow2(n + 4) == 2 * Pow2(n + 3) && Pow2(n + 3) == 2 * Pow2(n + 2);
    assert Pow2(n + 2) == 2 * Pow2(n + 1) && Pow2(n + 1) == 2 * Pow2(n);
  }

  lemma {:induction false} Pow2Is()
    ensures Pow2(63) == 0x8000_0000_0000_0000 && Pow2(64) == 0x1_0000_0000_0000_0000
  {
    hide Pow2;
    Pow2First();
    Pow2Step(0);
    Pow2Step(8);
    Pow2Step(16);
    Pow2Step(24);
    Pow2Step(32);
    Pow2Step(40);
    Pow2Step(48);
    Pow2Step(56);
    Pow2Last();
  }

  lemma {:induction false} Pow2First()
    ensures Pow2(0) == 1
  {
  }

  lemma {:induction false} Pow2Last()
    ensures Pow2(64) == 2 * Pow2(63)
  {
  }
}

/** Decoding the keyboard's UTF-8 (section 3 of RFC 3629), tolerant of what is not well-formed. */
module Utf8 {
  import opened Bytes

  type bytes = seq<byte>

  const REPLACEMENT := 0xFFFD

  /** A C string holds no NUL; byte `p` of it, with the terminator at its end. */
  predicate NulFree(s: bytes) { 0 !in s }

  function Get(s: bytes, p: nat): byte { if p < |s| then s[p] else 0 }

  datatype Next = Next(cp: nat, pos: nat)

  /** The code point that starts with byte `a`, and its length. */
  function Lead(a: byte, b: byte, c: byte, d: byte): (nat, nat) {
    if a < 0x80 then (a, 1)
    else if a / 32 == 6 && b != 0 then (a % 32 * 64 + b % 64, 2)
    else if a / 16 == 14 && b != 0 && c != 0 then (a % 16 * 4096 + b % 64 * 64 + c % 64, 3)
    else if a / 8 == 30 && b != 0 && c != 0 && d != 0 then
      (a % 8 * 262144 + b % 64 * 4096 + c % 64 * 64 + d % 64, 4)
    else (REPLACEMENT, 1)
  }

  /** What `utf8_next` takes at `p`: nothing at the end, else a code point and where the next one starts. */
  function Take(s: bytes, p: nat): Option<Next> {
    if Get(s, p) == 0 then None
    else
      var (cp, n) := Lead(Get(s, p), Get(s, p + 1), Get(s, p + 2), Get(s, p + 3));
      Some(Next(cp, p + n))
  }

  /** Decoding always advances and never passes the terminator. */
  lemma {:induction false} TakeAdvances(s: bytes, p: nat)
    requires NulFree(s) && p <= |s|
    ensures Take(s, p).None? <==> p == |s|
    ensures Take(s, p).Some? ==> p < Take(s, p).value.pos <= |s| && 0 <= Take(s, p).value.cp < 0x20_0000
  {
  }

  /** All code points from `p` on. */
  function Decode(s: bytes, p: nat): seq<nat>
    requires NulFree(s) && p <= |s|
    decreases |s| - p, s
  {
    TakeAdvances(s, p);
    var n := Take(s, p);
    if n.None? then [] else [n.value.cp] + Decode(s, n.value.pos)
  }

  /** `utf8_next`. */
  method NextCodePoint(s: bytes, pos: nat) returns (more: bool, next: nat, cp: nat)
    requires NulFree(s) && pos <= |s|
    ensures more <==> pos < |s|
    ensures more ==> Take(s, pos) == Some(Next(cp, next)) && pos < next <= |s|
    ensures more ==> Decode(s, pos) == [cp] + Decode(s, next)
    ensures !more ==> Decode(s, pos) == []
  {
    TakeAdvances(s, pos);
    next, cp := pos, 0;
    var a: byte, b: byte := Get(s, pos), Get(s, pos + 1);
    if a == 0 {
      return false, next, cp;
    }
    if a < 0x80 {
      return true, pos + 1, a;
    }
    if a / 32 == 6 && b != 0 {
      return true, pos + 2, a % 32 * 64 + b % 64;
    }
    var c: byte := Get(s, pos + 2);
    if a / 16 == 14 && b != 0 && c != 0 {
      return true, pos + 3, a % 16 * 4096 + b % 64 * 64 + c % 64;
    }
    var d: byte := Get(s, pos + 3);
    if a / 8 == 30 && b != 0 && c != 0 && d != 0 {
      return true, pos + 4, a % 8 * 262144 + b % 64 * 4096 + c % 64 * 64 + d % 64;
    }
    return true, pos + 1, REPLACEMENT;
  }

  // ---- the encoding it inverts ----

  /** The code points that the table of the standard covers, without NUL; surrogates do no harm. */
  predicate Encodable(cp: nat) { 0 < cp < 0x11_0000 }

  /** The table of section 3 of RFC 3629. */
  function Encode(cp: nat): (s: bytes)
    requires Encodable(cp)
    ensures 1 <= |s| <= 4 && NulFree(s)
  {
    if cp < 0x80 then [cp]
    else if cp < 0x800 then [0xC0 + cp / 64, 0x80 + cp % 64]
    else if cp < 0x1_0000 then [0xE0 + cp / 4096, 0x80 + cp / 64 % 64, 0x80 + cp % 64]
    else [0xF0 + cp / 262144, 0x80 + cp / 4096 % 64, 0x80 + cp / 64 % 64, 0x80 + cp % 64]
  }

  predicate AllEncodable(cps: seq<nat>) { forall i :: 0 <= i < |cps| ==> Encodable(cps[i]) }

  function EncodeAll(cps: seq<nat>): (s: bytes)
    requires AllEncodable(cps)
    ensures NulFree(s)
  {
    if cps == [] then [] else Encode(cps[0]) + EncodeAll(cps[1..])
  }

  lemma {:induction false} LeadOfTwo(cp: nat, c: byte, d: byte)
    requires 0x80 <= cp < 0x800
    ensures Lead(0xC0 + cp / 64, 0x80 + cp % 64, c, d) == (cp, 2)
  {
  }

  lemma {:induction false} LeadOfThree(cp: nat, d: byte)
    requires 0x800 <= cp < 0x1_0000
    ensures Lead(0xE0 + cp / 4096, 0x80 + cp / 64 % 64, 0x80 + cp % 64, d) == (cp, 3)
  {
    assert cp == cp / 4096 * 4096 + cp / 64 % 64 * 64 + cp % 64;
  }

  lemma {:induction false} LowBits(b: nat, i: nat)
    requires b == 0x80 + i && i < 64
    ensures b % 64 == i
  {
  }

  lemma {:induction false} LeadFour(h: nat, i: nat, j: nat, k: nat)
    requires h < 5 && i < 64 && j < 64 && k < 64
    ensures Lead(0xF0 + h, 0x80 + i, 0x80 + j, 0x80 + k) == (h * 262144 + i * 4096 + j * 64 + k, 4)
  {
    var a, b, c, d := 0xF0 + h, 0x80 + i, 0x80 + j, 0x80 + k;
    LowBits(b, i);
    LowBits(c, j);
    LowBits(d, k);
    assert a / 32 == 7 && a / 16 == 15 && a / 8 == 30 && a % 8 == h;
  }

  lemma {:induction false} FourDigits(cp: nat)
    ensures cp == cp / 262144 * 262144 + cp / 4096 % 64 * 4096 + cp / 64 % 64 * 64 + cp % 64
  {
    assert cp / 4096 == cp / 64 / 64 && cp / 262144 == cp / 4096 / 64;
  }

  lemma {:induction false} LeadOfFour(cp: nat)
    requires 0x1_0000 <= cp < 0x11_0000
    ensures Lead(0xF0 + cp / 262144, 0x80 + cp / 4096 % 64, 0x80 + cp / 64 % 64, 0x80 + cp % 64) == (cp, 4)
  {
    hide Lead;
    FourDigits(cp);
    LeadFour(cp / 262144, cp / 4096 % 64, cp / 64 % 64, cp % 64);
  }

  /** `e` stands at `p`. */
  predicate StandsAt(s: bytes, p: nat, e: bytes) {
    p + |e| <= |s| && forall i :: 0 <= i < |e| ==> Get(s, p + i) == e[i]
  }

  lemma {:induction false} FirstFour(s: bytes, p: nat, e: bytes)
    requires StandsAt(s, p, e)
    ensures |e| > 0 ==> Get(s, p) == e[0]
    ensures |e| > 1 ==> Get(s, p + 1) == e[1]
    ensures |e| > 2 ==> Get(s, p + 2) == e[2]
    ensures |e| > 3 ==> Get(s, p + 3) == e[3]
  {
    assert |e| > 0 ==> Get(s, p + 0) == e[0];
  }

  /** Wherever an encoded code point stands, it is taken as itself. */
  lemma {:induction false} TakeEncoded(s: bytes, p: nat, cp: nat)
    requires Encodable(cp) && StandsAt(s, p, Encode(cp))
    ensures Take(s, p) == Some(Next(cp, p + |Encode(cp)|))
  {
    FirstFour(s, p, Encode(cp));
    if 0x80 <= cp < 0x800 {
      LeadOfTwo(cp, Get(s, p + 2), Get(s, p + 3));
    }
    if 0x800 <= cp < 0x1_0000 {
      LeadOfThree(cp, Get(s, p + 3));
    }
    if 0x1_0000 <= cp {
      LeadOfFour(cp);
    }
  }

  lemma {:induction false} DecodeStep(s: bytes, p: nat, cp: nat, n: nat)
    requires NulFree(s) && p <= |s| && Take(s, p) == Some(Next(cp, n))
    ensures n <= |s| && Decode(s, p) == [cp] + Decode(s, n)
  {
    TakeAdvances(s, p);
  }

  lemma {:induction false} Joined(head: bytes, e: bytes, tail: bytes)
    requires NulFree(head) && NulFree(e) && NulFree(tail)
    ensures head + (e + tail) == head + e + tail && NulFree(head + e + tail)
    ensures StandsAt(head + e + tail, |head|, e) && |head + e| == |head| + |e|
  {
  }

  lemma {:induction false} DecodeEncoded(head: bytes, cps: seq<nat>)
    requires AllEncodable(cps) && NulFree(head)
    ensures NulFree(head + EncodeAll(cps)) && Decode(head + EncodeAll(cps), |head|) == cps
    decreases |cps|
  {
    if cps == [] {
      assert head + EncodeAll(cps) == head;
    } else {
      Joined(head, Encode(cps[0]), EncodeAll(cps[1..]));
      var s := head + EncodeAll(cps);
      TakeEncoded(s, |head|, cps[0]);
      DecodeStep(s, |head|, cps[0], |head + Encode(cps[0])|);
      DecodeEncoded(head + Encode(cps[0]), cps[1..]);
    }
  }

  /** One known encoding of each length (section 3 of RFC 3629). */
  lemma {:induction false} PublishedValues()
    ensures Encode(0x24) == [0x24] && Encode(0xA3) == [0xC2, 0xA3]
    ensures Encode(0x20AC) == [0xE2, 0x82, 0xAC] && Encode(0x1_0348) == [0xF0, 0x90, 0x8D, 0x88]
  {
  }

  /** A stray continuation byte, an impossible lead and a character cut off by the end give one replacement each. */
  lemma {:induction false} MalformedReplaced(s: bytes, p: nat)
    requires Get(s, p) != 0
    ensures 0x80 <= Get(s, p) < 0xC0 || Get(s, p) >= 0xF8 ==> Take(s, p) == Some(Next(REPLACEMENT, p + 1))
    ensures Get(s, p) >= 0xC0 && Get(s, p + 1) == 0 ==> Take(s, p) == Some(Next(REPLACEMENT, p + 1))
    ensures Get(s, p) >= 0xE0 && Get(s, p + 2) == 0 ==> Take(s, p) == Some(Next(REPLACEMENT, p + 1))
    ensures Get(s, p) >= 0xF0 && Get(s, p + 3) == 0 ==> Take(s, p) == Some(Next(REPLACEMENT, p + 1))
  {
  }

  /** Decoding inverts encoding. */
  lemma {:induction false} RoundTrip(cps: seq<nat>)
    requires AllEncodable(cps)
    ensures Decode(EncodeAll(cps), 0) == cps
  {
    DecodeEncoded([], cps);
    assert [] + EncodeAll(cps) == EncodeAll(cps);
  }
}

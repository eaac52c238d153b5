/** The token buffer of a compiled GDScript: identifiers, constants, line tables and tokens. */
module ScriptTokens {
  import opened Bytes

  type bytes = seq<byte>

  const TOKEN_LITERAL := 3
  const VARIANT_NIL := 0
  const VARIANT_BOOL := 1
  const VARIANT_INT := 2
  const VARIANT_FLOAT := 3
  const VARIANT_STRING := 4
  const VARIANT_STRING_NAME := 21

  /** `read_u32`. */
  function Word(b: bytes, p: nat): u32
    requires p + 4 <= |b|
  {
    (b[p] as int) + 0x100 * (b[p + 1] as int) + 0x1_0000 * (b[p + 2] as int) + 0x100_0000 * (b[p + 3] as int)
  }

  /** The 64-bit payload flag, bit 16 of a constant's header. */
  predicate Flag64(header: u32) { header / 0x1_0000 % 2 == 1 }

  predicate IsText(header: u32) { header % 0x100 == VARIANT_STRING || header % 0x100 == VARIANT_STRING_NAME }

  /** `constant_size`: the encoded size of the constant at `p`, or 0. */
  function ConstantSize(b: bytes, p: nat): nat
    requires p <= |b|
  {
    if |b| - p < 4 then 0
    else
      var header := Word(b, p);
      var kind := header % 0x100;
      if IsText(header) && |b| - p < 8 then 0
      else
        var size := if kind == VARIANT_NIL then 4
                    else if kind == VARIANT_BOOL then 8
                    else if kind == VARIANT_INT || kind == VARIANT_FLOAT then (if Flag64(header) then 12 else 8)
                    else if IsText(header) then 8 + (Word(b, p + 4) + 3) / 4 * 4
                    else 0;
        if size <= |b| - p then size else 0
  }

  // ---- the parser, stage by stage ----

  function IdentifiersEnd(b: bytes, n: nat): (r: Option<nat>)
    requires |b| >= 16
    ensures r.Some? ==> 16 <= r.value <= |b|
  {
    if n == 0 then Some(16)
    else
      match IdentifiersEnd(b, n - 1)
      case None => None
      case Some(p) =>
        if |b| - p < 4 then None
        else
          var chars := Word(b, p);
          if chars > (|b| - p - 4) / 4 then None else Some(p + 4 + 4 * chars)
  }

  function ConstantsEnd(b: bytes, start: nat, n: nat): (r: Option<nat>)
    requires start <= |b|
    ensures r.Some? ==> start <= r.value <= |b|
    decreases n, start
  {
    if n == 0 then Some(start)
    else
      match ConstantsEnd(b, start, n - 1)
      case None => None
      case Some(p) => if ConstantSize(b, p) == 0 then None else Some(p + ConstantSize(b, p))
  }

  function TokenLength(b: bytes, p: nat): nat
    requires p < |b|
  {
    if b[p] >= 0x80 then 8 else 5
  }

  /** Type and index of a token: four bytes when it is wide, else its single byte. */
  function TokenWord(b: bytes, p: nat): u32
    requires p < |b| && p + TokenLength(b, p) <= |b|
  {
    if b[p] >= 0x80 then Word(b, p) else b[p]
  }

  /** A literal token names the constant in the bits above the type byte. */
  predicate IsLiteral(word: u32) { word % 0x80 == TOKEN_LITERAL }

  function TokensEnd(b: bytes, start: nat, n: nat, constants: nat): (r: Option<nat>)
    requires start <= |b|
    ensures r.Some? ==> start <= r.value <= |b|
    decreases n, start
  {
    if n == 0 then Some(start)
    else
      match TokensEnd(b, start, n - 1, constants)
      case None => None
      case Some(p) =>
        if p >= |b| || |b| - p < TokenLength(b, p) then None
        else if IsLiteral(TokenWord(b, p)) && TokenWord(b, p) / 0x100 >= constants then None
        else Some(p + TokenLength(b, p))
  }

  /** How many of the first `n` tokens are literals that name constant `c`. */
  function Uses(b: bytes, start: nat, n: nat, constants: nat, c: nat): nat
    requires start <= |b| && TokensEnd(b, start, n, constants).Some?
    decreases n, start
  {
    if n == 0 then 0
    else
      var p := TokensEnd(b, start, n - 1, constants).value;
      var word := TokenWord(b, p);
      Uses(b, start, n - 1, constants, c) + (if IsLiteral(word) && word / 0x100 == c then 1 else 0)
  }

  /** Where the parts of a buffer are. */
  datatype Layout = Layout(constants: nat, tokens: nat, constStart: nat, constEnd: nat, tokenStart: nat)

  /** The constants of a buffer are where the layout says. */
  predicate ConstantsAt(b: bytes, l: Layout) {
    l.constStart <= |b| && ConstantsEnd(b, l.constStart, l.constants) == Some(l.constEnd)
  }

  /** The whole parse: every count is honoured and the tokens end exactly at the end of the buffer. */
  predicate Parsed(b: bytes, l: Layout) {
    && |b| >= 16
    && l.constants == Word(b, 4) && l.tokens == Word(b, 12)
    && IdentifiersEnd(b, Word(b, 0)) == Some(l.constStart)
    && ConstantsAt(b, l)
    && l.tokenStart == l.constEnd + 16 * Word(b, 8) <= |b|
    && TokensEnd(b, l.tokenStart, l.tokens, l.constants) == Some(|b|)
  }

  lemma {:induction false} ConstantsPrefix(b: bytes, start: nat, i: nat, n: nat)
    requires start <= |b| && i <= n && ConstantsEnd(b, start, n).Some?
    ensures ConstantsEnd(b, start, i).Some?
    ensures ConstantsEnd(b, start, i).value <= ConstantsEnd(b, start, n).value
    decreases n - i
  {
    if i < n {
      ConstantsPrefix(b, start, i, n - 1);
    }
  }

  lemma {:induction false} OffsetInside(b: bytes, start: nat, end: nat, i: nat, n: nat)
    requires start <= |b| && i < n && ConstantsEnd(b, start, n) == Some(end)
    ensures ConstantsEnd(b, start, i).Some?
    ensures
      var p := ConstantsEnd(b, start, i).value;
      && start <= p <= |b| && p + ConstantSize(b, p) <= end <= |b| && ConstantSize(b, p) >= 4
      && ConstantsEnd(b, start, i + 1) == Some(p + ConstantSize(b, p))
  {
    ConstantsPrefix(b, start, i, n);
    ConstantsPrefix(b, start, i + 1, n);
  }

  /** The offset of constant `i`. */
  function OffsetOf(b: bytes, l: Layout, i: nat): (p: nat)
    requires ConstantsAt(b, l) && i < l.constants
    ensures l.constStart <= p <= |b|
    ensures p + ConstantSize(b, p) <= l.constEnd <= |b| && ConstantSize(b, p) >= 4
    ensures ConstantsEnd(b, l.constStart, i) == Some(p)
    ensures ConstantsEnd(b, l.constStart, i + 1) == Some(p + ConstantSize(b, p))
  {
    OffsetInside(b, l.constStart, l.constEnd, i, l.constants);
    ConstantsEnd(b, l.constStart, i).value
  }

  function UsesOf(b: bytes, l: Layout, c: nat): nat
    requires Parsed(b, l)
  {
    Uses(b, l.tokenStart, l.tokens, l.constants, c)
  }

  /** The first byte of a constant that the parser does not look at. */
  function PayloadStart(b: bytes, p: nat): nat
    requires p + 4 <= |b|
  {
    if IsText(Word(b, p)) then p + 8 else p + 4
  }

  /** Byte `k` lies in the payload of constant `i`. */
  predicate InPayload(b: bytes, l: Layout, i: nat, k: nat)
    requires ConstantsAt(b, l)
  {
    && i < l.constants
    && var p := OffsetOf(b, l, i);
       PayloadStart(b, p) <= k < p + ConstantSize(b, p)
  }

  // ---- payloads do not influence the parse ----

  /** The two buffers differ at most in payload bytes of constants. */
  ghost predicate SameFrame(b: bytes, c: bytes, l: Layout)
    requires ConstantsAt(b, l)
  {
    |b| == |c| && forall k :: 0 <= k < |b| && b[k] != c[k] ==> exists i: nat :: InPayload(b, l, i, k)
  }

  /** Constants do not overlap. */
  lemma {:induction false} OffsetsOrdered(b: bytes, l: Layout, i: nat, j: nat)
    requires ConstantsAt(b, l) && i < j < l.constants
    ensures OffsetOf(b, l, i) + ConstantSize(b, OffsetOf(b, l, i)) <= OffsetOf(b, l, j)
  {
    hide ConstantSize;
    ConstantsPrefix(b, l.constStart, j, l.constants);
    ConstantsPrefix(b, l.constStart, i + 1, j);
  }

  /** Byte `k` belongs to constant `i`. */
  predicate InConstant(b: bytes, l: Layout, i: nat, k: nat)
    requires ConstantsAt(b, l) && i < l.constants
  {
    var p := OffsetOf(b, l, i);
    p <= k < p + ConstantSize(b, p)
  }

  lemma {:induction false} OneConstant(b: bytes, l: Layout, i: nat, j: nat, k: nat)
    requires ConstantsAt(b, l) && i < l.constants && j < l.constants && InConstant(b, l, i, k) && InConstant(b, l, j, k)
    ensures i == j
  {
    if i < j {
      OffsetsOrdered(b, l, i, j);
    }
    if j < i {
      OffsetsOrdered(b, l, j, i);
    }
  }

  /** Header and length words of constants are frame. */
  lemma {:induction false} HeaderKept(b: bytes, c: bytes, l: Layout, i: nat, k: nat)
    requires ConstantsAt(b, l) && SameFrame(b, c, l) && i < l.constants
    requires OffsetOf(b, l, i) <= k < PayloadStart(b, OffsetOf(b, l, i))
    requires k < OffsetOf(b, l, i) + ConstantSize(b, OffsetOf(b, l, i))
    ensures k < |b| && b[k] == c[k]
  {
    if j: nat :| InPayload(b, l, j, k) {
      OneConstant(b, l, i, j, k);
    }
  }

  lemma {:induction false} OutsideKept(b: bytes, c: bytes, l: Layout, k: nat)
    requires ConstantsAt(b, l) && SameFrame(b, c, l) && k < |b| && (k < l.constStart || l.constEnd <= k)
    ensures b[k] == c[k]
  {
  }

  lemma {:induction false} SizeByHeader(b: bytes, c: bytes, p: nat)
    requires |b| == |c| && p + 4 <= |b| && Word(b, p) == Word(c, p)
    requires IsText(Word(b, p)) && p + 8 <= |b| ==> Word(b, p + 4) == Word(c, p + 4)
    ensures ConstantSize(c, p) == ConstantSize(b, p) && PayloadStart(c, p) == PayloadStart(b, p)
  {
  }

  /** A constant keeps its size, its kind and its payload boundary. */
  lemma {:induction false} SizeKept(b: bytes, c: bytes, l: Layout, i: nat)
    requires ConstantsAt(b, l) && SameFrame(b, c, l) && i < l.constants
    ensures
      var p := OffsetOf(b, l, i);
      && Word(c, p) == Word(b, p) && ConstantSize(c, p) == ConstantSize(b, p)
      && PayloadStart(c, p) == PayloadStart(b, p)
      && (IsText(Word(b, p)) ==> p + 8 <= |b| && Word(c, p + 4) == Word(b, p + 4))
  {
    var p := OffsetOf(b, l, i);
    forall k | p <= k < PayloadStart(b, p) && k < p + ConstantSize(b, p) ensures b[k] == c[k] {
      HeaderKept(b, c, l, i, k);
    }
    assert b[p] == c[p] && b[p + 1] == c[p + 1] && b[p + 2] == c[p + 2] && b[p + 3] == c[p + 3];
    if IsText(Word(b, p)) {
      assert b[p + 4] == c[p + 4] && b[p + 5] == c[p + 5] && b[p + 6] == c[p + 6] && b[p + 7] == c[p + 7];
    }
    SizeByHeader(b, c, p);
  }

  /** The two buffers see a constant of the same size at `p`. */
  predicate SameConstant(b: bytes, c: bytes, p: nat) {
    p + 4 <= |b| && p + 4 <= |c| && ConstantSize(c, p) == ConstantSize(b, p) && PayloadStart(c, p) == PayloadStart(b, p)
  }

  predicate SameConstants(b: bytes, c: bytes, l: Layout)
    requires ConstantsAt(b, l)
  {
    forall i {:trigger OffsetOf(b, l, i)} :: 0 <= i < l.constants ==> SameConstant(b, c, OffsetOf(b, l, i))
  }

  lemma {:induction false} SizesKept(b: bytes, c: bytes, l: Layout)
    requires ConstantsAt(b, l) && SameFrame(b, c, l)
    ensures SameConstants(b, c, l)
  {
    forall i | 0 <= i < l.constants ensures SameConstant(b, c, OffsetOf(b, l, i)) {
      SizeKept(b, c, l, i);
    }
  }

  lemma {:induction false} ConstantsKept(b: bytes, c: bytes, l: Layout, n: nat)
    requires ConstantsAt(b, l) && |b| == |c| && SameConstants(b, c, l) && n <= l.constants
    ensures ConstantsEnd(c, l.constStart, n) == ConstantsEnd(b, l.constStart, n)
  {
    if n > 0 {
      var p := OffsetOf(b, l, n - 1);
      assert SameConstant(b, c, p);
      ConstantsKept(b, c, l, n - 1);
      ConstantsStepBoth(b, c, l.constStart, n, p);
    }
  }

  lemma {:induction false} ConstantsStepBoth(b: bytes, c: bytes, start: nat, n: nat, p: nat)
    requires start <= |b| == |c| && n > 0
    requires ConstantsEnd(b, start, n - 1) == Some(p) && ConstantsEnd(c, start, n - 1) == Some(p)
    requires ConstantSize(b, p) == ConstantSize(c, p)
    ensures ConstantsEnd(b, start, n) == ConstantsEnd(c, start, n)
  {
  }

  lemma {:induction false} ConstantsStep(b: bytes, start: nat, n: nat, p: nat)
    requires start <= |b| && n > 0 && ConstantsEnd(b, start, n - 1) == Some(p)
    ensures ConstantsEnd(b, start, n) == if ConstantSize(b, p) == 0 then None else Some(p + ConstantSize(b, p))
  {
  }

  lemma {:induction false} SameWord(b: bytes, c: bytes, p: nat)
    requires p + 4 <= |b| == |c|
    ensures b[p] == c[p] && b[p + 1] == c[p + 1] && b[p + 2] == c[p + 2] && b[p + 3] == c[p + 3] ==>
      Word(b, p) == Word(c, p)
  {
  }

  lemma {:induction false} IdentifiersKept(b: bytes, c: bytes, n: nat, end: nat)
    requires 16 <= |b| == |c| && IdentifiersEnd(b, n).Some? && IdentifiersEnd(b, n).value <= end <= |b|
    requires forall k :: 0 <= k < end ==> b[k] == c[k]
    ensures IdentifiersEnd(c, n) == IdentifiersEnd(b, n)
  {
    hide Word;
    if n > 0 {
      IdentifiersKept(b, c, n - 1, end);
      var p := IdentifiersEnd(b, n - 1).value;
      if p + 4 <= |b| {
        SameWord(b, c, p);
      }
    }
  }

  lemma {:induction false} SameToken(b: bytes, c: bytes, p: nat)
    requires |b| == |c| && p < |b| && forall k :: p <= k < |b| ==> b[k] == c[k]
    ensures TokenLength(c, p) == TokenLength(b, p)
    ensures p + TokenLength(b, p) <= |b| ==> TokenWord(c, p) == TokenWord(b, p)
  {
  }

  lemma {:induction false} TokensKept(b: bytes, c: bytes, start: nat, n: nat, constants: nat)
    requires start <= |b| == |c| && TokensEnd(b, start, n, constants).Some?
    requires forall k :: start <= k < |b| ==> b[k] == c[k]
    ensures TokensEnd(c, start, n, constants) == TokensEnd(b, start, n, constants)
    ensures forall i :: Uses(c, start, n, constants, i) == Uses(b, start, n, constants, i)
  {
    hide TokenWord, TokenLength, IsLiteral;
    if n > 0 {
      TokensKept(b, c, start, n - 1, constants);
      var p := TokensEnd(b, start, n - 1, constants).value;
      SameToken(b, c, p);
    }
  }

  lemma {:induction false} FrameBytes(b: bytes, c: bytes, l: Layout)
    requires ConstantsAt(b, l) && SameFrame(b, c, l)
    ensures |b| == |c| && forall k :: 0 <= k < |b| && (k < l.constStart || l.constEnd <= k) ==> b[k] == c[k]
  {
    forall k | 0 <= k < |b| && (k < l.constStart || l.constEnd <= k) ensures b[k] == c[k] {
      OutsideKept(b, c, l, k);
    }
  }

  lemma {:induction false} ParsedKept(b: bytes, c: bytes, l: Layout)
    requires Parsed(b, l) && |b| == |c| && SameConstants(b, c, l)
    requires forall k :: 0 <= k < |b| && (k < l.constStart || l.constEnd <= k) ==> b[k] == c[k]
    ensures Parsed(c, l)
    ensures forall i :: UsesOf(c, l, i) == UsesOf(b, l, i)
  {
    hide ConstantSize, SameConstants;
    assert Word(c, 0) == Word(b, 0) && Word(c, 4) == Word(b, 4) && Word(c, 8) == Word(b, 8)
      && Word(c, 12) == Word(b, 12);
    IdentifiersKept(b, c, Word(b, 0), l.constStart);
    ConstantsKept(b, c, l, l.constants);
    TokensKept(b, c, l.tokenStart, l.tokens, l.constants);
  }

  /** Whatever happens inside payloads, the buffer parses to the same structure. */
  lemma {:induction false} StructureKept(b: bytes, c: bytes, l: Layout)
    requires Parsed(b, l) && SameFrame(b, c, l)
    ensures Parsed(c, l)
    ensures forall i :: UsesOf(c, l, i) == UsesOf(b, l, i)
  {
    FrameBytes(b, c, l);
    SizesKept(b, c, l);
    ParsedKept(b, c, l);
  }

  /** Every constant stays where it is and keeps its size. */
  lemma {:induction false} OffsetsKept(b: bytes, c: bytes, l: Layout, i: nat)
    requires ConstantsAt(b, l) && SameFrame(b, c, l) && i < l.constants
    ensures ConstantsAt(c, l) && OffsetOf(c, l, i) == OffsetOf(b, l, i)
    ensures SameConstant(b, c, OffsetOf(b, l, i))
  {
    SizesKept(b, c, l);
    ConstantsKept(b, c, l, i);
    ConstantsKept(b, c, l, l.constants);
  }
}

/** Rewriting literal constants of a compiled script in place, all patches or none. */
module ScriptPatch {
  import opened Bytes
  import opened ScriptTokens

  const MAX_CONST_PATCHES := 4

  /**
   * A constant to find and its replacement; `uses` is the number of literal tokens that must name it, or
   * nothing for any. The decoding of floats is left abstract: `accepts` says which stored floats count.
   */
  datatype ConstPatch =
    | TextPatch(text: bytes, newText: bytes, uses: Option<u32>)
    | IntPatch(value: int, newValue: int, uses: Option<u32>)
    | FloatPatch(accepts: bytes -> bool, new32: bytes, new64: bytes, uses: Option<u32>)

  /** What the tables of patches satisfy: equal-length texts, 64-bit integers, floats of their widths. */
  predicate WellFormed(patch: ConstPatch) {
    match patch
    case TextPatch(text, newText, _) => |text| == |newText|
    case IntPatch(value, newValue, _) => IsInt64(value) && IsInt64(newValue)
    case FloatPatch(_, new32, new64, _) => |new32| == 4 && |new64| == 8
  }

  predicate IsInt64(v: int) { -0x8000_0000_0000_0000 <= v < 0x8000_0000_0000_0000 }

  /** Two's complement, little-endian. */
  function Encode32(v: int): (s: bytes) ensures |s| == 4 { LE(4, v % 0x1_0000_0000) }

  function Encode64(v: int): (s: bytes) ensures |s| == 8 { LE(8, v % 0x1_0000_0000_0000_0000) }

  function Decode32(s: bytes): int {
    var u := FromLE(s);
    if u < 0x8000_0000 then u else u - 0x1_0000_0000
  }

  function Decode64(s: bytes): int {
    var u := FromLE(s);
    if u < 0x8000_0000_0000_0000 then u else u - 0x1_0000_0000_0000_0000
  }

  const INT32: u32 := 2
  const INT64: u32 := 0x1_0002
  const FLOAT32: u32 := 3
  const FLOAT64: u32 := 0x1_0003

  /** `constant_matches` on the constant at `p`. */
  predicate Matches(b: bytes, p: nat, patch: ConstPatch)
    requires p <= |b| && ConstantSize(b, p) >= 4
  {
    var header := Word(b, p);
    match patch
    case TextPatch(text, _, _) =>
      && (header == VARIANT_STRING || header == VARIANT_STRING_NAME)
      && Word(b, p + 4) == |text| && b[p + 8..p + 8 + |text|] == text
    case IntPatch(value, _, _) =>
      if header == INT64 then Decode64(b[p + 4..p + 12]) == value
      else header == INT32 && Decode32(b[p + 4..p + 8]) == value
    case FloatPatch(accepts, _, _, _) =>
      if header == FLOAT64 then accepts(b[p + 4..p + 12]) else header == FLOAT32 && accepts(b[p + 4..p + 8])
  }

  /** The bytes that take the place of the old value, for a constant with this header. */
  function NewPayload(header: u32, patch: ConstPatch): bytes {
    match patch
    case TextPatch(_, newText, _) => newText
    case IntPatch(_, newValue, _) => if Flag64(header) then Encode64(newValue) else Encode32(newValue)
    case FloatPatch(_, new32, new64, _) => if Flag64(header) then new64 else new32
  }

  function PayloadAt(p: nat, patch: ConstPatch): nat { if patch.TextPatch? then p + 8 else p + 4 }

  /** The patch fits into the payload of a constant of size `size`. */
  predicate FitsConstant(header: u32, size: nat, patch: ConstPatch) {
    && (patch.TextPatch? <==> IsText(header))
    && (if patch.TextPatch? then 8 else 4) + |NewPayload(header, patch)| <= size
  }

  lemma {:induction false} MatchFits(b: bytes, p: nat, patch: ConstPatch)
    requires p <= |b| && ConstantSize(b, p) >= 4 && WellFormed(patch) && Matches(b, p, patch)
    ensures FitsConstant(Word(b, p), ConstantSize(b, p), patch)
  {
  }

  // ---- selection ----

  predicate Hit(b: bytes, l: Layout, patch: ConstPatch, i: nat)
    requires ConstantsAt(b, l) && i < l.constants
  {
    Matches(b, OffsetOf(b, l, i), patch)
  }

  predicate UniqueTarget(b: bytes, l: Layout, patch: ConstPatch, i: nat)
    requires ConstantsAt(b, l)
  {
    i < l.constants && Hit(b, l, patch, i) && forall j :: 0 <= j < l.constants && Hit(b, l, patch, j) ==> j == i
  }

  /** The constant a patch selects: the only match, used as often as expected. */
  predicate Selects(b: bytes, l: Layout, patch: ConstPatch, i: nat)
    requires Parsed(b, l)
  {
    UniqueTarget(b, l, patch, i) && (patch.uses.Some? ==> UsesOf(b, l, i) == patch.uses.value)
  }

  /** What the matching loop knows after the constants whose hits are given. */
  ghost predicate Tally(hits: seq<bool>, found: nat, target: nat) {
    && (found == 0 ==> forall j :: 0 <= j < |hits| ==> !hits[j])
    && (found > 0 ==> target < |hits| && hits[target])
    && (found == 1 ==> forall j :: 0 <= j < |hits| && hits[j] ==> j == target)
    && (found > 1 ==> exists j :: 0 <= j < target && hits[j])
  }

  lemma {:induction false} TallyStep(hits: seq<bool>, found: nat, target: nat, hit: bool)
    requires Tally(hits, found, target)
    ensures if hit then Tally(hits + [hit], found + 1, |hits|) else Tally(hits + [hit], found, target)
  {
    var more := hits + [hit];
    assert forall j :: 0 <= j < |hits| ==> more[j] == hits[j];
    if found > 0 {
      assert more[target];
    }
    if found > 1 {
      var j :| 0 <= j < target && hits[j];
      assert more[j];
    }
  }

  ghost predicate HitsOf(b: bytes, l: Layout, patch: ConstPatch, hits: seq<bool>)
    requires ConstantsAt(b, l) && |hits| <= l.constants
  {
    forall j :: 0 <= j < |hits| ==> hits[j] == Hit(b, l, patch, j)
  }

  lemma {:induction false} HitsStep(b: bytes, l: Layout, patch: ConstPatch, hits: seq<bool>, hit: bool)
    requires ConstantsAt(b, l) && |hits| < l.constants && HitsOf(b, l, patch, hits) && hit == Hit(b, l, patch, |hits|)
    ensures HitsOf(b, l, patch, hits + [hit])
  {
    hide Hit, Matches;
  }

  lemma {:induction false} TallyDone(b: bytes, l: Layout, patch: ConstPatch, hits: seq<bool>, found: nat, target: nat)
    requires ConstantsAt(b, l) && |hits| == l.constants && HitsOf(b, l, patch, hits) && Tally(hits, found, target)
    ensures found == 1 ==> UniqueTarget(b, l, patch, target)
    ensures found != 1 ==> forall i: nat :: !UniqueTarget(b, l, patch, i)
  {
    if found > 1 {
      var j :| 0 <= j < target && hits[j];
      assert Hit(b, l, patch, j) && Hit(b, l, patch, target);
    }
  }

  /** The matching loop for one patch. */
  method FindTarget(b: bytes, ghost l: Layout, offsets: seq<nat>, patch: ConstPatch) returns (r: Option<nat>)
    requires ConstantsAt(b, l) && |offsets| == l.constants
    requires forall i {:trigger offsets[i]} :: 0 <= i < l.constants ==> offsets[i] == OffsetOf(b, l, i)
    ensures r.Some? ==> UniqueTarget(b, l, patch, r.value)
    ensures r.None? ==> forall i: nat :: !UniqueTarget(b, l, patch, i)
  {
    var found, target := 0, 0;
    ghost var hits: seq<bool> := [];
    for i := 0 to |offsets|
      invariant |hits| == i && Tally(hits, found, target) && HitsOf(b, l, patch, hits)
    {
      var hit := Matches(b, offsets[i], patch);
      TallyStep(hits, found, target, hit);
      HitsStep(b, l, patch, hits, hit);
      hits := hits + [hit];
      if hit {
        target := i;
        found := found + 1;
      }
    }
    TallyDone(b, l, patch, hits, found, target);
    return if found == 1 then Some(target) else None;
  }

  /** What the tables of a successful parse say. */
  predicate Tables(b: bytes, l: Layout, offsets: seq<nat>, uses: seq<nat>)
    requires Parsed(b, l)
  {
    && |offsets| == |uses| == l.constants
    && (forall i {:trigger offsets[i]} :: 0 <= i < l.constants ==> offsets[i] == OffsetOf(b, l, i))
    && (forall i {:trigger uses[i]} :: 0 <= i < l.constants ==> uses[i] == UsesOf(b, l, i))
  }

  /** No constant will do for this patch. */
  ghost predicate SelectsNothing(b: bytes, l: Layout, patch: ConstPatch)
    requires Parsed(b, l)
  {
    forall i: nat :: !Selects(b, l, patch, i)
  }

  /** The loop over all patches: every one must select its constant. */
  method SelectTargets(b: bytes, ghost l: Layout, offsets: seq<nat>, uses: seq<nat>, patches: seq<ConstPatch>)
    returns (r: Option<seq<nat>>, ghost bad: nat)
    requires Parsed(b, l) && Tables(b, l, offsets, uses)
    ensures r.Some? ==> |r.value| == |patches| && forall k :: 0 <= k < |patches| ==>
      Selects(b, l, patches[k], r.value[k])
    ensures r.None? ==> bad < |patches| && SelectsNothing(b, l, patches[bad])
  {
    hide Hit, Matches, ConstantsAt;
    var targets: seq<nat> := [];
    bad := 0;
    for k := 0 to |patches|
      invariant |targets| == k && forall j :: 0 <= j < k ==> Selects(b, l, patches[j], targets[j])
    {
      var target := FindTarget(b, l, offsets, patches[k]);
      if target.None? || (patches[k].uses.Some? && uses[target.value] != patches[k].uses.value) {
        bad := k;
        forall i: nat ensures !Selects(b, l, patches[k], i) {
          assert target.Some? && UniqueTarget(b, l, patches[k], i) ==> Hit(b, l, patches[k], i) && i == target.value;
        }
        return None, bad;
      }
      targets := targets + [target.value];
    }
    return Some(targets), bad;
  }

  // ---- parsing ----

  lemma {:induction false} IdentifiersFail(b: bytes, i: nat, n: nat)
    requires |b| >= 16 && i <= n && IdentifiersEnd(b, i).None?
    ensures IdentifiersEnd(b, n).None?
    decreases n - i
  {
    if i < n {
      IdentifiersFail(b, i, n - 1);
    }
  }

  method ParseIdentifiers(b: bytes, n: nat) returns (end: Option<nat>)
    requires |b| >= 16
    ensures end == IdentifiersEnd(b, n)
  {
    var p := 16;
    for i := 0 to n
      invariant IdentifiersEnd(b, i) == Some(p)
    {
      if |b| - p < 4 || Word(b, p) > (|b| - p - 4) / 4 {
        IdentifiersFail(b, i + 1, n);
        return None;
      }
      p := p + 4 + 4 * Word(b, p);
    }
    return Some(p);
  }

  lemma {:induction false} ConstantsFail(b: bytes, start: nat, i: nat, n: nat)
    requires start <= |b| && i <= n && ConstantsEnd(b, start, i).None?
    ensures ConstantsEnd(b, start, n).None?
    decreases n - i
  {
    if i < n {
      ConstantsFail(b, start, i, n - 1);
    }
  }

  predicate Offsets(b: bytes, start: nat, offsets: seq<nat>)
    requires start <= |b|
  {
    forall j :: 0 <= j < |offsets| ==> ConstantsEnd(b, start, j) == Some(offsets[j])
  }

  lemma {:induction false} OffsetsStep(b: bytes, start: nat, offsets: seq<nat>, p: nat)
    requires start <= |b| && Offsets(b, start, offsets) && ConstantsEnd(b, start, |offsets|) == Some(p)
    ensures Offsets(b, start, offsets + [p])
  {
  }

  method ParseConstants(b: bytes, start: nat, n: nat) returns (end: Option<nat>, offsets: seq<nat>)
    requires start <= |b|
    ensures end == ConstantsEnd(b, start, n)
    ensures end.Some? ==> |offsets| == n && Offsets(b, start, offsets)
  {
    var p := start;
    offsets := [];
    for i := 0 to n
      invariant ConstantsEnd(b, start, i) == Some(p)
      invariant |offsets| == i && Offsets(b, start, offsets)
    {
      var size := ConstantSize(b, p);
      ConstantsStep(b, start, i + 1, p);
      if size == 0 {
        ConstantsFail(b, start, i + 1, n);
        return None, [];
      }
      OffsetsStep(b, start, offsets, p);
      offsets := offsets + [p];
      p := p + size;
    }
    return Some(p), offsets;
  }

  lemma {:induction false} TokensFail(b: bytes, start: nat, i: nat, n: nat, constants: nat)
    requires start <= |b| && i <= n && TokensEnd(b, start, i, constants).None?
    ensures TokensEnd(b, start, n, constants).None?
    decreases n - i
  {
    if i < n {
      TokensFail(b, start, i, n - 1, constants);
    }
  }

  lemma {:induction false} TokenStep(b: bytes, start: nat, i: nat, constants: nat, p: nat)
    requires start <= |b| && TokensEnd(b, start, i, constants) == Some(p)
    ensures
      TokensEnd(b, start, i + 1, constants) ==
        if p >= |b| || |b| - p < TokenLength(b, p) then None
        else if IsLiteral(TokenWord(b, p)) && TokenWord(b, p) / 0x100 >= constants then None
        else Some(p + TokenLength(b, p))
  {
  }

  lemma {:induction false} UseStep(b: bytes, start: nat, i: nat, constants: nat, p: nat, c: nat)
    requires start <= |b| && TokensEnd(b, start, i, constants) == Some(p) && TokensEnd(b, start, i + 1, constants).Some?
    requires p < |b| && p + TokenLength(b, p) <= |b|
    ensures
      Uses(b, start, i + 1, constants, c) ==
        Uses(b, start, i, constants, c) + (if IsLiteral(TokenWord(b, p)) && TokenWord(b, p) / 0x100 == c then 1 else 0)
  {
  }

  lemma {:induction false} NoTokens(b: bytes, start: nat, constants: nat)
    requires start <= |b|
    ensures TokensEnd(b, start, 0, constants) == Some(start)
    ensures forall c :: Uses(b, start, 0, constants, c) == 0
  {
  }

  /** The token loop: where the tokens end and how often each constant is named. */
  method CountUses(b: bytes, start: nat, n: nat, constants: nat) returns (end: Option<nat>, uses: seq<nat>)
    requires start <= |b|
    ensures end == TokensEnd(b, start, n, constants)
    ensures end.Some? ==> |uses| == constants && forall c :: 0 <= c < constants ==>
      uses[c] == Uses(b, start, n, constants, c)
  {
    hide TokensEnd, Uses, TokenWord, IsLiteral;
    var p := start;
    uses := seq(constants, _ => 0);
    NoTokens(b, start, constants);
    for i := 0 to n
      invariant TokensEnd(b, start, i, constants) == Some(p) && |uses| == constants
      invariant forall c :: 0 <= c < constants ==> uses[c] == Uses(b, start, i, constants, c)
    {
      TokenStep(b, start, i, constants, p);
      if p >= |b| || |b| - p < TokenLength(b, p) {
        TokensFail(b, start, i + 1, n, constants);
        return None, [];
      }
      var word := TokenWord(b, p);
      if IsLiteral(word) && word / 0x100 >= constants {
        TokensFail(b, start, i + 1, n, constants);
        return None, [];
      }
      forall c | 0 <= c < constants
        ensures Uses(b, start, i + 1, constants, c) == uses[c] + (if IsLiteral(word) && word / 0x100 == c then 1 else 0)
      {
        UseStep(b, start, i, constants, p, c);
      }
      if IsLiteral(word) {
        var c := word / 0x100;
        uses := uses[c := uses[c] + 1];
      }
      p := p + TokenLength(b, p);
    }
    return Some(p), uses;
  }

  method ParseBuffer(b: bytes) returns (ok: bool, ghost l: Layout, offsets: seq<nat>, uses: seq<nat>)
    requires |b| >= 16
    ensures ok ==> Parsed(b, l) && Tables(b, l, offsets, uses)
    ensures !ok ==> forall other :: !Parsed(b, other)
  {
    offsets, uses, l := [], [], Layout(0, 0, 0, 0, 0);
    var constants, lines, tokens := Word(b, 4), Word(b, 8), Word(b, 12);
    var start := ParseIdentifiers(b, Word(b, 0));
    if start.None? {
      return false, l, [], [];
    }
    var end;
    end, offsets := ParseConstants(b, start.value, constants);
    if end.None? || lines > (|b| - end.value) / 16 {
      return false, l, [], [];
    }
    l := Layout(constants, tokens, start.value, end.value, end.value + 16 * lines);
    var done;
    done, uses := CountUses(b, end.value + 16 * lines, tokens, constants);
    ok := done == Some(|b|);
  }
}

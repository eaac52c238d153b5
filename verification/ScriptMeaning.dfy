/** Patching a written script: which constants are selected, and that the result is the script with them replaced. */
module ScriptMeaning {
  import opened Bytes
  import opened Slices
  import opened Edits
  import opened ScriptTokens
  import opened ScriptPatch
  import opened ScriptFile
  import opened ScriptRewrite
  import opened ScriptWriter

  type bytes = seq<byte>

  // ---- what a patch looks for ----

  /** The constant has the value that the patch looks for, in whatever width or kind of string it is stored. */
  predicate Means(c: Constant, patch: ConstPatch) {
    match patch
    case TextPatch(text, _, _) => c.Text? && c.text == text
    case IntPatch(value, _, _) => (c.Small? && c.i == value) || (c.Large? && c.j == value)
    case FloatPatch(accepts, _, _, _) => (c.Single? || c.Double?) && accepts(c.raw)
  }

  lemma {:induction false} FromFour(v: u32)
    ensures FromLE(Four(v)) == v
  {
    var s := Four(v);
    assert FromLE(s[1..][1..][1..][1..]) == 0;
    assert FromLE(s[1..][1..][1..]) == s[3];
    assert FromLE(s[1..][1..]) == s[2] + 256 * FromLE(s[1..][1..][1..]);
    assert FromLE(s[1..]) == s[1] + 256 * FromLE(s[1..][1..]);
    FourDigits(v);
  }

  lemma {:induction false} FourDigits(v: u32)
    ensures v == v % 0x100 + 256 * (v / 0x100 % 0x100 + 256 * (v / 0x1_0000 % 0x100 + 256 * (v / 0x100_0000)))
  {
    var a := v / 0x100;
    var b := a / 0x100;
    assert v / 0x1_0000 == b && v / 0x100_0000 == b / 0x100;
  }

  lemma {:induction false} FromPair(a: seq<byte>, b: seq<byte>)
    requires |a| == 4
    ensures FromLE(a + b) == FromLE(a) + 0x1_0000_0000 * FromLE(b)
  {
    FromFront(a, b);
    FromFront(a[1..], b);
    FromFront(a[1..][1..], b);
    FromFront(a[1..][1..][1..], b);
    assert a[1..][1..][1..][1..] == [] && [] + b == b;
  }

  lemma {:induction false} FromFront(a: seq<byte>, b: seq<byte>)
    requires a != []
    ensures FromLE(a + b) == a[0] + 256 * FromLE(a[1..] + b) && FromLE(a) == a[0] + 256 * FromLE(a[1..])
  {
    assert (a + b)[1..] == a[1..] + b;
  }

  lemma {:induction false} IntsRead(i: int32, j: int64)
    ensures Decode32(Four(Unsigned32(i))) == i && Decode64(Eight(Unsigned64(j))) == j
  {
    hide FromLE, Four;
    FromFour(Unsigned32(i));
    var u := Unsigned64(j);
    FromFour(u % 0x1_0000_0000);
    FromFour(u / 0x1_0000_0000);
    FromPair(Four(u % 0x1_0000_0000), Four(u / 0x1_0000_0000));
  }

  /** The test on the stored bytes is that on the value. */
  lemma {:induction false} MatchIs(b: bytes, p: nat, c: Constant, patch: ConstPatch)
    requires c.Valid() && ConstantStands(b, p, c)
    ensures p <= |b| && ConstantSize(b, p) >= 4 && (Matches(b, p, patch) <==> Means(c, patch))
  {
    hide Word, Four, Eight, ConstantSize, ConstantStands, Decode32, Decode64;
    ConstantRead(b, p, c);
    if c.Small? {
      IntsRead(c.i, 0);
    }
    if c.Large? {
      IntsRead(0, c.j);
    }
  }

  /** The constant that a patch selects: the only one it looks for, named by as many tokens as it expects. */
  predicate Wanted(s: Script, patch: ConstPatch, i: nat) {
    && i < |s.constants| && Means(s.constants[i], patch)
    && (forall j :: 0 <= j < |s.constants| && Means(s.constants[j], patch) ==> j == i)
    && (patch.uses.Some? ==> NameCount(s.tokens, |s.tokens|, i) == patch.uses.value)
  }

  lemma {:induction false} HitIs(s: Script, patch: ConstPatch, i: nat)
    requires s.Valid() && i < |s.constants|
    ensures ConstantsAt(ScriptBytes(s), LayoutOf(s))
    ensures Hit(ScriptBytes(s), LayoutOf(s), patch, i) <==> Means(s.constants[i], patch)
  {
    hide ScriptBytes, Matches, Means, ConstantsAt;
    ConstantAt(s, i);
    MatchIs(ScriptBytes(s), OffsetOf(ScriptBytes(s), LayoutOf(s), i), s.constants[i], patch);
  }

  lemma {:induction false} SelectsIs(s: Script, patch: ConstPatch, i: nat)
    requires s.Valid() && s.Closed()
    ensures Parsed(ScriptBytes(s), LayoutOf(s))
    ensures Selects(ScriptBytes(s), LayoutOf(s), patch, i) <==> Wanted(s, patch, i)
  {
    hide ScriptBytes, Means, Hit, Parsed;
    var b, l := ScriptBytes(s), LayoutOf(s);
    UsesAre(s, i);
    ParsedConstants(b, l);
    forall j: nat | j < |s.constants| ensures Hit(b, l, patch, j) <==> Means(s.constants[j], patch) {
      HitIs(s, patch, j);
    }
  }

  lemma {:induction false} ParsedConstants(b: bytes, l: Layout)
    requires Parsed(b, l)
    ensures ConstantsAt(b, l)
  {
  }

  ghost predicate AllWanted(s: Script, patches: seq<ConstPatch>, targets: seq<nat>) {
    |targets| == |patches| && forall k :: 0 <= k < |patches| ==> Wanted(s, patches[k], targets[k])
  }

  lemma {:induction false} AllSelectIs(s: Script, patches: seq<ConstPatch>, targets: seq<nat>)
    requires s.Valid() && s.Closed()
    ensures Parsed(ScriptBytes(s), LayoutOf(s))
    ensures AllSelect(ScriptBytes(s), LayoutOf(s), patches, targets) <==> AllWanted(s, patches, targets)
  {
    hide ScriptBytes, Selects, Wanted, Parsed;
    ParsedIs(s, LayoutOf(s));
    if |targets| == |patches| {
      forall k | 0 <= k < |patches|
        ensures Selects(ScriptBytes(s), LayoutOf(s), patches[k], targets[k]) <==> Wanted(s, patches[k], targets[k])
      {
        SelectsIs(s, patches[k], targets[k]);
      }
    }
  }

  // ---- what a patch puts there ----

  function Wrapped(v: int): int32 {
    var u := v % 0x1_0000_0000;
    if u < 0x8000_0000 then u else u - 0x1_0000_0000
  }

  /** The constant with the new value, in the width and kind it has. */
  function Replaced(c: Constant, patch: ConstPatch): Constant {
    match patch
    case TextPatch(_, newText, _) => if c.Text? then Text(c.isName, newText) else c
    case IntPatch(_, newValue, _) =>
      if c.Small? then Small(Wrapped(newValue))
      else if c.Large? && IsInt64(newValue) then Large(newValue)
      else c
    case FloatPatch(_, new32, new64, _) =>
      if c.Single? then Single(new32) else if c.Double? then Double(new64) else c
  }

  /** A patch of the right kind and size for the constant. */
  predicate Suits(c: Constant, patch: ConstPatch) {
    match patch
    case TextPatch(_, newText, _) => c.Text? && |newText| == |c.text|
    case IntPatch(_, _, _) => c.Small? || c.Large?
    case FloatPatch(_, _, _, _) => c.Single? || c.Double?
  }

  /** The same kind of constant, of the same size. */
  predicate Alike(c: Constant, d: Constant) {
    && c.Valid() && d.Valid() && HeaderOf(c) == HeaderOf(d)
    && (c.Text? ==> d.Text? && |c.text| == |d.text|) && (c.Flagged? ==> d == c)
  }

  lemma {:induction false} FourLE(v: u32)
    ensures Four(v) == LE(4, v)
  {
    FromFour(v);
    LEInvertsFromLE(Four(v));
  }

  lemma {:induction false} EightLE(v: u64)
    ensures Eight(v) == LE(8, v)
  {
    hide FromLE, LE, Four;
    FromFour(v % 0x1_0000_0000);
    FromFour(v / 0x1_0000_0000);
    FromPair(Four(v % 0x1_0000_0000), Four(v / 0x1_0000_0000));
    LEInvertsFromLE(Eight(v));
  }

  lemma {:induction false} IntsWritten(v: int)
    requires IsInt64(v)
    ensures Encode32(v) == Four(Unsigned32(Wrapped(v))) && Encode64(v) == Eight(Unsigned64(v))
  {
    hide LE, Four, Eight;
    FourLE(v % 0x1_0000_0000);
    EightLE(v % 0x1_0000_0000_0000_0000);
  }

  lemma {:induction false} FlagIs(c: Constant)
    requires c.Valid() && (c.Small? || c.Large? || c.Single? || c.Double?)
    ensures Flag64(HeaderOf(c)) <==> c.Large? || c.Double?
  {
  }

  /** The bytes that the patch writes make the constant into the replaced one. */
  lemma {:induction false} PayloadIs(c: Constant, patch: ConstPatch)
    requires c.Valid() && WellFormed(patch) && Suits(c, patch)
    ensures Replaced(c, patch).Valid() && Alike(c, Replaced(c, patch))
    ensures
      var at, piece := PayloadAt(0, patch), NewPayload(HeaderOf(c), patch);
      && at + |piece| <= |ConstantBytes(c)|
      && ConstantBytes(Replaced(c, patch)) == Splice(ConstantBytes(c), at, piece)
  {
    hide Four, Eight, Encode32, Encode64;
    if patch.IntPatch? {
      IntsWritten(patch.newValue);
      FlagIs(c);
    } else if patch.FloatPatch? {
      FlagIs(c);
    }
  }

  // ---- one constant of the buffer ----

  lemma {:induction false} SpliceMiddle(head: bytes, blk: bytes, tail: bytes, piece: bytes)
    requires |blk| == |piece|
    ensures Splice(head + blk + tail, |head|, piece) == head + piece + tail
  {
  }

  lemma {:induction false} SpliceInside(b: bytes, p: nat, blk: bytes, at: nat, piece: bytes)
    requires p + |blk| <= |b| && b[p..p + |blk|] == blk && at + |piece| <= |blk|
    ensures Splice(b, p, Splice(blk, at, piece)) == Splice(b, p + at, piece)
  {
    var c, d := Splice(b, p, Splice(blk, at, piece)), Splice(b, p + at, piece);
    forall k | 0 <= k < |b| ensures c[k] == d[k] {
      assert p <= k < p + |blk| ==> b[k] == b[p..p + |blk|][k - p];
    }
  }

  /** Exchanging one block for another of the same size. */
  lemma {:induction false} JoinedUpdate(blocks: seq<bytes>, i: nat, blk: bytes)
    requires i < |blocks| && |blk| == |blocks[i]|
    ensures |Joined(blocks[..i])| + |blk| <= |Joined(blocks)|
    ensures Joined(blocks[i := blk]) == Splice(Joined(blocks), |Joined(blocks[..i])|, blk)
    decreases |blocks|
  {
    var init, last := DropLast(blocks), Last(blocks);
    var more := blocks[i := blk];
    if i == |blocks| - 1 {
      assert DropLast(more) == init && blocks[..i] == init;
      SpliceMiddle(Joined(init), last, [], blk);
      assert Joined(init) + last + [] == Joined(blocks);
    } else {
      JoinedUpdate(init, i, blk);
      assert DropLast(more) == init[i := blk] && blocks[..i] == init[..i];
      SpliceFront(Joined(init), last, |Joined(init[..i])|, blk);
    }
  }

  lemma {:induction false} SpliceFront(b: bytes, tail: bytes, at: nat, piece: bytes)
    requires at + |piece| <= |b|
    ensures Splice(b + tail, at, piece) == Splice(b, at, piece) + tail
  {
  }

  lemma {:induction false} SpliceBack(head: bytes, b: bytes, at: nat, piece: bytes)
    requires at + |piece| <= |b|
    ensures Splice(head + b, |head| + at, piece) == head + Splice(b, at, piece)
  {
  }

  /** Another constant of the same size in the place of one. */
  function Exchanged(s: Script, i: nat, c: Constant): Script
    requires i < |s.constants|
  {
    s.(constants := s.constants[i := c])
  }

  lemma {:induction false} BlocksExchanged(s: Script, i: nat, c: Constant)
    requires s.Valid() && c.Valid() && i < |s.constants|
    ensures Exchanged(s, i, c).Valid()
    ensures ConstantBlocks(Exchanged(s, i, c)) == ConstantBlocks(s)[i := ConstantBytes(c)]
    ensures IdentifierBlocks(Exchanged(s, i, c)) == IdentifierBlocks(s)
    ensures TokenBlocks(Exchanged(s, i, c)) == TokenBlocks(s)
    ensures CountBytes(Exchanged(s, i, c)) == CountBytes(s)
  {
  }

  lemma {:induction false} AlikeSize(c: Constant, d: Constant)
    requires c.Valid() && d.Valid() && Alike(c, d)
    ensures |ConstantBytes(d)| == |ConstantBytes(c)|
  {
  }

  lemma {:induction false} FiveSplice(c: bytes, i: bytes, k: bytes, n: bytes, t: bytes, at: nat, piece: bytes)
    requires at + |piece| <= |k|
    ensures Splice(c + i + k + n + t, |c| + |i| + at, piece) == c + i + Splice(k, at, piece) + n + t
  {
    SpliceFront(c + i + k + n, t, |c| + |i| + at, piece);
    SpliceFront(c + i + k, n, |c| + |i| + at, piece);
    SpliceBack(c + i, k, at, piece);
  }

  /** In the bytes, only the constant changes. */
  lemma {:induction false} ScriptExchanged(s: Script, i: nat, c: Constant)
    requires s.Valid() && c.Valid() && i < |s.constants| && Alike(s.constants[i], c)
    ensures Exchanged(s, i, c).Valid() && LayoutOf(Exchanged(s, i, c)) == LayoutOf(s)
    ensures
      var p := PlaceOf(LayoutOf(s).constStart, ConstantBlocks(s), i);
      && p + |ConstantBytes(c)| <= |ScriptBytes(s)|
      && ScriptBytes(Exchanged(s, i, c)) == Splice(ScriptBytes(s), p, ConstantBytes(c))
  {
    hide Joined, ConstantBlocks, IdentifierBlocks, TokenBlocks, CountBytes, ConstantBytes;
    BlocksExchanged(s, i, c);
    AlikeSize(s.constants[i], c);
    BlockIs(s, i);
    JoinedUpdate(ConstantBlocks(s), i, ConstantBytes(c));
    FiveSplice(CountBytes(s), Joined(IdentifierBlocks(s)), Joined(ConstantBlocks(s)), Joined(s.lines),
               Joined(TokenBlocks(s)), |Joined(ConstantBlocks(s)[..i])|, ConstantBytes(c));
  }

  lemma {:induction false} BlockIs(s: Script, i: nat)
    requires s.Valid() && i < |s.constants|
    ensures ConstantBlocks(s)[i] == ConstantBytes(s.constants[i])
  {
  }

  // ---- all patches ----

  /** The script after the first `n` replacements. */
  function Patched(s: Script, patches: seq<ConstPatch>, targets: seq<nat>, n: nat): (r: Script)
    requires n <= |patches| == |targets| && forall k :: 0 <= k < |targets| ==> targets[k] < |s.constants|
    ensures |r.constants| == |s.constants| && r == s.(constants := r.constants)
    decreases n
  {
    if n == 0 then s
    else
      var t, i := Patched(s, patches, targets, n - 1), targets[n - 1];
      Exchanged(t, i, Replaced(t.constants[i], patches[n - 1]))
  }

  /** The same constants but for their values. */
  predicate SameShape(s: Script, t: Script) {
    && t == s.(constants := t.constants) && |t.constants| == |s.constants|
    && forall i :: 0 <= i < |s.constants| ==> Alike(s.constants[i], t.constants[i])
  }

  lemma {:induction false} WantedSuits(c: Constant, d: Constant, patch: ConstPatch)
    requires WellFormed(patch) && Means(c, patch) && Alike(c, d)
    ensures Suits(d, patch)
  {
  }

  lemma {:induction false} SamePlaces(s: Script, t: Script, i: nat)
    requires s.Valid() && t.Valid() && SameShape(s, t) && i <= |s.constants|
    ensures |Joined(ConstantBlocks(t)[..i])| == |Joined(ConstantBlocks(s)[..i])|
    decreases i
  {
    hide Joined, ConstantBytes;
    if i > 0 {
      SamePlaces(s, t, i - 1);
      JoinedStep(ConstantBlocks(s), i - 1);
      JoinedStep(ConstantBlocks(t), i - 1);
      AlikeSize(s.constants[i - 1], t.constants[i - 1]);
    }
  }

  /** One rewrite of the buffer is one replacement in the script. */
  lemma {:induction false} OneReplaced(s: Script, i: nat, patch: ConstPatch)
    requires s.Valid() && i < |s.constants| && WellFormed(patch) && Suits(s.constants[i], patch)
    ensures
      var b, p := ScriptBytes(s), PlaceOf(LayoutOf(s).constStart, ConstantBlocks(s), i);
      && p + 4 <= |b| && PayloadAt(p, patch) + |NewPayload(Word(b, p), patch)| <= |b|
      && Exchanged(s, i, Replaced(s.constants[i], patch)).Valid()
      && ScriptBytes(Exchanged(s, i, Replaced(s.constants[i], patch))) ==
         Splice(b, PayloadAt(p, patch), NewPayload(Word(b, p), patch))
  {
    hide Joined, ScriptBytes, ConstantBytes, NewPayload, Word, Replaced, Suits, WellFormed, BodyOf, LayoutOf;
    var c := s.constants[i];
    var b, p := ScriptBytes(s), PlaceOf(LayoutOf(s).constStart, ConstantBlocks(s), i);
    PayloadIs(c, patch);
    ConstantPlaced(s, i);
    ConstantRead(b, p, c);
    ScriptExchanged(s, i, Replaced(c, patch));
    SpliceInside(b, p, ConstantBytes(c), PayloadAt(0, patch), NewPayload(HeaderOf(c), patch));
  }

  lemma {:induction false} ShapeExchanged(s: Script, t: Script, i: nat, c: Constant)
    requires SameShape(s, t) && i < |s.constants| && Alike(t.constants[i], c)
    ensures SameShape(s, Exchanged(t, i, c))
  {
  }

  lemma {:induction false} ShapeAlike(s: Script, t: Script, i: nat)
    requires SameShape(s, t) && i < |s.constants|
    ensures |t.constants| == |s.constants| && Alike(s.constants[i], t.constants[i])
  {
  }

  lemma {:induction false} PlaceKept(s: Script, t: Script, i: nat)
    requires s.Valid() && t.Valid() && SameShape(s, t) && i < |s.constants|
    ensures ConstantsAt(ScriptBytes(s), LayoutOf(s))
    ensures PlaceOf(LayoutOf(t).constStart, ConstantBlocks(t), i) == OffsetOf(ScriptBytes(s), LayoutOf(s), i)
  {
    hide ScriptBytes, Joined, ConstantsAt, Alike;
    SamePlaces(s, t, i);
    ConstantAt(s, i);
    assert IdentifierBlocks(t) == IdentifierBlocks(s);
  }

  /** One more replacement, from wherever the patches have come to. */
  lemma {:induction false} OneStep(s: Script, t: Script, i: nat, patch: ConstPatch)
    requires s.Valid() && t.Valid() && SameShape(s, t) && i < |s.constants| == |t.constants|
    requires WellFormed(patch) && Means(s.constants[i], patch)
    ensures ConstantsAt(ScriptBytes(s), LayoutOf(s))
    ensures
      var e, b := Exchanged(t, i, Replaced(t.constants[i], patch)), ScriptBytes(t);
      var p := OffsetOf(ScriptBytes(s), LayoutOf(s), i);
      && e.Valid() && SameShape(s, e)
      && p + 4 <= |b| && PayloadAt(p, patch) + |NewPayload(Word(b, p), patch)| <= |b|
      && ScriptBytes(e) == Splice(b, PayloadAt(p, patch), NewPayload(Word(b, p), patch))
  {
    hide ScriptBytes, SameShape, Means, Suits, Replaced, NewPayload, Word, Joined, Exchanged, LayoutOf, ConstantsAt;
    var c := t.constants[i];
    ShapeAlike(s, t, i);
    WantedSuits(s.constants[i], c, patch);
    PayloadIs(c, patch);
    OneReplaced(t, i, patch);
    ShapeExchanged(s, t, i, Replaced(c, patch));
    PlaceKept(s, t, i);
  }

  lemma {:induction false} TargetsIn(s: Script, patches: seq<ConstPatch>, targets: seq<nat>)
    requires AllWanted(s, patches, targets)
    ensures |targets| == |patches| && forall k :: 0 <= k < |targets| ==> targets[k] < |s.constants|
    ensures forall k :: 0 <= k < |targets| ==> Means(s.constants[targets[k]], patches[k])
  {
  }

  lemma {:induction false} RewrittenIs(s: Script, patches: seq<ConstPatch>, targets: seq<nat>, n: nat)
    requires s.Valid() && s.Closed() && AllWellFormed(patches) && AllWanted(s, patches, targets) && n <= |patches|
    ensures |targets| == |patches| && forall k :: 0 <= k < |targets| ==> targets[k] < |s.constants|
    ensures Parsed(ScriptBytes(s), LayoutOf(s)) && AllSelect(ScriptBytes(s), LayoutOf(s), patches, targets)
    ensures
      var t := Patched(s, patches, targets, n);
      && t.Valid() && SameShape(s, t)
      && ScriptBytes(t) == Rewritten(ScriptBytes(s), LayoutOf(s), patches, targets, n)
    decreases n
  {
    hide ScriptBytes, Parsed, AllSelect, Rewritten, SameShape, AllWanted, Means, Suits, Replaced, NewPayload, Word,
      Joined, PayloadAt, LayoutOf, Script.Valid, Script.Closed, ConstantsAt;
    TargetsIn(s, patches, targets);
    AllSelectIs(s, patches, targets);
    if n == 0 {
      NothingPatched(s, patches, targets);
    } else {
      RewrittenIs(s, patches, targets, n - 1);
      OneStep(s, Patched(s, patches, targets, n - 1), targets[n - 1], patches[n - 1]);
      RewriteStep(ScriptBytes(s), LayoutOf(s), patches, targets, n - 1);
    }
  }

  lemma {:induction false} NothingPatched(s: Script, patches: seq<ConstPatch>, targets: seq<nat>)
    requires s.Valid() && AllWellFormed(patches)
    requires Parsed(ScriptBytes(s), LayoutOf(s)) && AllSelect(ScriptBytes(s), LayoutOf(s), patches, targets)
    ensures SameShape(s, s) && Rewritten(ScriptBytes(s), LayoutOf(s), patches, targets, 0) == ScriptBytes(s)
  {
  }

  // ---- the patcher on written scripts ----

  /** It goes ahead just when the literals are closed and every patch has its constant. */
  lemma {:induction false} PatchableIs(s: Script, patches: seq<ConstPatch>)
    requires s.Valid()
    ensures Patchable(ScriptBytes(s), patches) <==>
      && |patches| <= MAX_CONST_PATCHES && s.Closed() && exists targets :: AllWanted(s, patches, targets)
  {
    hide ScriptBytes, Parsed, AllSelect, AllWanted;
    CountsRead(s);
    ParsedIs(s, LayoutOf(s));
    forall l, targets | Parsed(ScriptBytes(s), l) && AllSelect(ScriptBytes(s), l, patches, targets)
      ensures s.Closed() && AllWanted(s, patches, targets)
    {
      ParsedIs(s, l);
      AllSelectIs(s, patches, targets);
    }
    if targets :| s.Closed() && AllWanted(s, patches, targets) {
      AllSelectIs(s, patches, targets);
    }
  }

  /** And the result is the script with those constants replaced, byte for byte. */
  lemma {:induction false} PatchedIs(s: Script, patches: seq<ConstPatch>, c: bytes) returns (targets: seq<nat>)
    requires s.Valid() && AllWellFormed(patches) && PatchedInto(ScriptBytes(s), patches, c)
    ensures AllWanted(s, patches, targets)
    ensures |targets| == |patches| && forall k :: 0 <= k < |targets| ==> targets[k] < |s.constants|
    ensures
      var t := Patched(s, patches, targets, |patches|);
      t.Valid() && c == ScriptBytes(t)
  {
    hide ScriptBytes, Parsed, AllSelect, AllWanted, Rewritten, SameShape;
    var l: Layout;
    l, targets :| Parsed(ScriptBytes(s), l) && AllSelect(ScriptBytes(s), l, patches, targets)
      && c == Rewritten(ScriptBytes(s), l, patches, targets, |patches|);
    ParsedIs(s, l);
    AllSelectIs(s, patches, targets);
    TargetsIn(s, patches, targets);
    RewrittenIs(s, patches, targets, |patches|);
  }

  // ---- whole files ----

  /** A script file: "GDSC", the version, the length of the tokens (0 when they are stored as they are), the body. */
  function GdcFile(version: u32, rawLength: u32, body: bytes): bytes {
    [0x47, 0x44, 0x53, 0x43] + Four(version) + Four(rawLength) + body
  }

  lemma {:induction false} GdcRead(version: u32, rawLength: u32, body: bytes)
    ensures
      var file := GdcFile(version, rawLength, body);
      && |file| >= HEADER && file[HEADER..] == body
      && (HeaderOk(file) <==> rawLength <= 0x100_0000) && (HeaderOk(file) ==> RawLength(file) == rawLength)
  {
    hide Word, Four;
    var file := GdcFile(version, rawLength, body);
    FourParts([0x47, 0x44, 0x53, 0x43], Four(version), Four(rawLength), body);
    Whole(file);
    FourRead(file, 8, rawLength);
  }

  /** The tokens of a script file: its body, or what the body unpacks to, when that has the recorded length. */
  lemma {:induction false} GdcTokens(z: Zstd, version: u32, rawLength: u32, body: bytes)
    requires 0 < rawLength <= 0x100_0000
    ensures Tokens(z, GdcFile(version, 0, body)) == Some(body)
    ensures
      var tokens := z.decompress(body, rawLength);
      Tokens(z, GdcFile(version, rawLength, body)) ==
        if tokens.Some? && |tokens.value| == rawLength then tokens else None
  {
    hide GdcFile;
    GdcRead(version, 0, body);
    GdcRead(version, rawLength, body);
  }

  /** A written script that is stored as it is: its file is replaced by that of the patched script. */
  lemma {:induction false} StoredScriptReplaced(z: Zstd, version: u32, s: Script, patches: seq<ConstPatch>, c: bytes)
    returns (targets: seq<nat>)
    requires s.Valid() && AllWellFormed(patches) && HeaderOk(GdcFile(version, 0, ScriptBytes(s)))
    requires Replaces(z, GdcFile(version, 0, ScriptBytes(s)), patches, c)
    ensures AllWanted(s, patches, targets)
    ensures |targets| == |patches| && forall k :: 0 <= k < |targets| ==> targets[k] < |s.constants|
    ensures
      var t := Patched(s, patches, targets, |patches|);
      t.Valid() && c == GdcFile(version, 0, ScriptBytes(t))
  {
    hide ScriptBytes, AllWanted, PatchedInto, Patched, Word, GdcFile;
    var file := GdcFile(version, 0, ScriptBytes(s));
    GdcRead(version, 0, ScriptBytes(s));
    SameLength(file, c);
    targets := PatchedIs(s, patches, c[HEADER..]);
    GdcHead(version, ScriptBytes(s), c);
  }

  lemma {:induction false} SameLength(file: bytes, c: bytes)
    requires HeaderOk(file) && HeaderOk(c) && c[..HEADER] == file[..HEADER]
    ensures RawLength(c) == RawLength(file)
  {
    assert forall i :: 0 <= i < HEADER ==> c[i] == c[..HEADER][i] == file[i];
  }

  lemma {:induction false} GdcHead(version: u32, body: bytes, c: bytes)
    requires |c| >= HEADER && c[..HEADER] == GdcFile(version, 0, body)[..HEADER]
    ensures c == GdcFile(version, 0, c[HEADER..])
  {
    assert c == c[..HEADER] + c[HEADER..];
  }
}

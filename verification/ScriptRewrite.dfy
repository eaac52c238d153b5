/** Rewriting the selected constants of a token buffer in place: all of them or none. */
module ScriptRewrite {
  import opened Bytes
  import opened Edits
  import opened ScriptTokens
  import opened ScriptPatch

  type bytes = seq<byte>

  predicate AllWellFormed(patches: seq<ConstPatch>) { forall k :: 0 <= k < |patches| ==> WellFormed(patches[k]) }

  /** Every patch selects its constant. */
  predicate AllSelect(b: bytes, l: Layout, patches: seq<ConstPatch>, targets: seq<nat>)
    requires Parsed(b, l)
  {
    |targets| == |patches| && forall k :: 0 <= k < |patches| ==> Selects(b, l, patches[k], targets[k])
  }

  /** What patch `patch` does to constant `i`. */
  function EditOf(b: bytes, l: Layout, patch: ConstPatch, i: nat): Edit
    requires ConstantsAt(b, l) && i < l.constants
  {
    var p := OffsetOf(b, l, i);
    Edit(PayloadAt(p, patch), NewPayload(Word(b, p), patch))
  }

  predicate EditInside(b: bytes, l: Layout, i: nat, e: Edit)
    requires ConstantsAt(b, l) && i < l.constants
  {
    var p := OffsetOf(b, l, i);
    PayloadStart(b, p) <= e.at && e.at + |e.piece| <= p + ConstantSize(b, p)
  }

  lemma {:induction false} EditStaysInside(b: bytes, l: Layout, patch: ConstPatch, i: nat)
    requires ConstantsAt(b, l) && i < l.constants && WellFormed(patch) && Hit(b, l, patch, i)
    ensures EditInside(b, l, i, EditOf(b, l, patch, i))
  {
    MatchFits(b, OffsetOf(b, l, i), patch);
  }

  function EditsOf(b: bytes, l: Layout, patches: seq<ConstPatch>, targets: seq<nat>): (edits: seq<Edit>)
    requires Parsed(b, l) && AllSelect(b, l, patches, targets)
    ensures |edits| == |patches|
  {
    seq(|patches|, k requires 0 <= k < |patches| => EditAt(b, l, patches, targets, k))
  }

  function EditAt(b: bytes, l: Layout, patches: seq<ConstPatch>, targets: seq<nat>, k: nat): Edit
    requires Parsed(b, l) && AllSelect(b, l, patches, targets) && k < |patches|
  {
    assert Selects(b, l, patches[k], targets[k]);
    EditOf(b, l, patches[k], targets[k])
  }

  lemma {:induction false} EditsFit(b: bytes, l: Layout, patches: seq<ConstPatch>, targets: seq<nat>)
    requires Parsed(b, l) && AllSelect(b, l, patches, targets) && AllWellFormed(patches)
    ensures AllFit(EditsOf(b, l, patches, targets), |b|)
  {
    var edits := EditsOf(b, l, patches, targets);
    forall k | 0 <= k < |edits| ensures edits[k].Fits(|b|) {
      assert Selects(b, l, patches[k], targets[k]);
      EditStaysInside(b, l, patches[k], targets[k]);
      assert edits[k] == EditAt(b, l, patches, targets, k);
    }
  }

  /** The buffer after the first `n` rewrites. */
  function Rewritten(b: bytes, l: Layout, patches: seq<ConstPatch>, targets: seq<nat>, n: nat): (c: bytes)
    requires Parsed(b, l) && AllSelect(b, l, patches, targets) && AllWellFormed(patches) && n <= |patches|
    ensures |c| == |b|
  {
    EditsFit(b, l, patches, targets);
    Apply(b, EditsOf(b, l, patches, targets), n)
  }

  // ---- what is kept ----

  /** A changed byte lies in the part of a target's payload that its patch replaces. */
  lemma {:induction false} ChangedByte(b: bytes, l: Layout, patches: seq<ConstPatch>, targets: seq<nat>, n: nat, k: nat)
    returns (i: nat)
    requires Parsed(b, l) && AllSelect(b, l, patches, targets) && AllWellFormed(patches) && n <= |patches|
    requires k < |b| && Rewritten(b, l, patches, targets, n)[k] != b[k]
    ensures i < n && EditAt(b, l, patches, targets, i).Covers(k) && InPayload(b, l, targets[i], k)
  {
    EditsFit(b, l, patches, targets);
    var edits := EditsOf(b, l, patches, targets);
    if Untouched(edits, n, k) {
      UntouchedKept(b, edits, n, k);
    }
    i :| 0 <= i < n && edits[i].Covers(k);
    assert Selects(b, l, patches[i], targets[i]);
    EditStaysInside(b, l, patches[i], targets[i]);
    assert edits[i] == EditAt(b, l, patches, targets, i);
  }

  lemma {:induction false} FrameKept(b: bytes, l: Layout, patches: seq<ConstPatch>, targets: seq<nat>, n: nat)
    requires Parsed(b, l) && AllSelect(b, l, patches, targets) && AllWellFormed(patches) && n <= |patches|
    ensures SameFrame(b, Rewritten(b, l, patches, targets, n), l)
  {
    var c := Rewritten(b, l, patches, targets, n);
    forall k | 0 <= k < |b| && b[k] != c[k] ensures exists i: nat :: InPayload(b, l, i, k) {
      var i := ChangedByte(b, l, patches, targets, n, k);
    }
  }

  /** The patched buffer parses to the same identifiers, offsets, sizes, tokens and use counts. */
  lemma {:induction false} PatchKeepsStructure(b: bytes, l: Layout, patches: seq<ConstPatch>, targets: seq<nat>)
    requires Parsed(b, l) && AllSelect(b, l, patches, targets) && AllWellFormed(patches)
    ensures
      var c := Rewritten(b, l, patches, targets, |patches|);
      && Parsed(c, l)
      && (forall i :: UsesOf(c, l, i) == UsesOf(b, l, i))
      && (forall i: nat :: i < l.constants ==>
            OffsetOf(c, l, i) == OffsetOf(b, l, i) && SameConstant(b, c, OffsetOf(b, l, i)))
  {
    var c := Rewritten(b, l, patches, targets, |patches|);
    FrameKept(b, l, patches, targets, |patches|);
    StructureKept(b, c, l);
    forall i: nat | i < l.constants
      ensures OffsetOf(c, l, i) == OffsetOf(b, l, i) && SameConstant(b, c, OffsetOf(b, l, i))
    {
      OffsetsKept(b, c, l, i);
    }
  }

  /** Constants that no patch selects keep every byte. */
  lemma {:induction false} OthersKept(b: bytes, l: Layout, patches: seq<ConstPatch>, targets: seq<nat>, i: nat, k: nat)
    requires Parsed(b, l) && AllSelect(b, l, patches, targets) && AllWellFormed(patches)
    requires i < l.constants && i !in targets
    requires InConstant(b, l, i, k)
    ensures Rewritten(b, l, patches, targets, |patches|)[k] == b[k]
  {
    if Rewritten(b, l, patches, targets, |patches|)[k] != b[k] {
      var j := ChangedByte(b, l, patches, targets, |patches|, k);
      assert InConstant(b, l, targets[j], k);
      OneConstant(b, l, i, targets[j], k);
    }
  }

  // ---- what takes effect ----

  predicate Distinct(targets: seq<nat>) { forall i, j :: 0 <= i < j < |targets| ==> targets[i] != targets[j] }

  /** Two patches that look for different texts, or different integers, never select the same constant. */
  lemma {:induction false} SameTargetSameValue(b: bytes, l: Layout, x: ConstPatch, y: ConstPatch, i: nat)
    requires ConstantsAt(b, l) && i < l.constants && Hit(b, l, x, i) && Hit(b, l, y, i)
    ensures x.TextPatch? <==> y.TextPatch?
    ensures x.IntPatch? <==> y.IntPatch?
    ensures x.TextPatch? ==> x.text == y.text
    ensures x.IntPatch? ==> x.value == y.value
  {
  }

  lemma {:induction false} EditsDisjoint(b: bytes, l: Layout, patches: seq<ConstPatch>, targets: seq<nat>)
    requires Parsed(b, l) && AllSelect(b, l, patches, targets) && AllWellFormed(patches) && Distinct(targets)
    ensures Disjoint(EditsOf(b, l, patches, targets))
  {
    var edits := EditsOf(b, l, patches, targets);
    forall i, j | 0 <= i < j < |edits|
      ensures edits[i].at + |edits[i].piece| <= edits[j].at || edits[j].at + |edits[j].piece| <= edits[i].at
    {
      EditsApart(b, l, patches, targets, i, j);
      assert edits[i] == EditAt(b, l, patches, targets, i) && edits[j] == EditAt(b, l, patches, targets, j);
    }
  }

  lemma {:induction false} EditsApart(b: bytes, l: Layout, patches: seq<ConstPatch>, targets: seq<nat>, i: nat, j: nat)
    requires Parsed(b, l) && AllSelect(b, l, patches, targets) && AllWellFormed(patches) && Distinct(targets)
    requires i < j < |patches|
    ensures
      var x, y := EditAt(b, l, patches, targets, i), EditAt(b, l, patches, targets, j);
      x.at + |x.piece| <= y.at || y.at + |y.piece| <= x.at
  {
    assert Selects(b, l, patches[i], targets[i]) && Selects(b, l, patches[j], targets[j]);
    EditStaysInside(b, l, patches[i], targets[i]);
    EditStaysInside(b, l, patches[j], targets[j]);
    if targets[i] < targets[j] {
      OffsetsOrdered(b, l, targets[i], targets[j]);
    } else {
      OffsetsOrdered(b, l, targets[j], targets[i]);
    }
  }

  /** With distinct targets, each target's payload holds the replacement afterwards. */
  lemma {:induction false} ReplacementStands(b: bytes, l: Layout, patches: seq<ConstPatch>, targets: seq<nat>, i: nat)
    requires Parsed(b, l) && AllSelect(b, l, patches, targets) && AllWellFormed(patches) && Distinct(targets)
    requires i < |patches|
    ensures
      var e := EditAt(b, l, patches, targets, i);
      && e.Fits(|b|)
      && Rewritten(b, l, patches, targets, |patches|)[e.at..e.at + |e.piece|] == e.piece
  {
    hide AllSelect, AllFit, Disjoint, Apply, EditAt, Distinct;
    EditsFit(b, l, patches, targets);
    EditsDisjoint(b, l, patches, targets);
    var edits := EditsOf(b, l, patches, targets);
    assert edits[i] == EditAt(b, l, patches, targets, i);
    PieceStands(b, edits, i);
  }

  // ---- the patch seen backwards ----

  /** Old and new value exchanged; a float patch has no exact inverse. */
  function Reverse(patch: ConstPatch): ConstPatch
    requires !patch.FloatPatch?
  {
    match patch
    case TextPatch(text, newText, uses) => TextPatch(newText, text, uses)
    case IntPatch(value, newValue, uses) => IntPatch(newValue, value, uses)
  }

  /** The replacement survives the width of the constant it goes into. */
  predicate FitsWidth(header: u32, patch: ConstPatch) {
    patch.IntPatch? && !Flag64(header) ==> -0x8000_0000 <= patch.newValue < 0x8000_0000
  }

  lemma {:induction false} Decode64Encode64(v: int)
    requires IsInt64(v)
    ensures Decode64(Encode64(v)) == v
  {
    RoundTrip64(v % 0x1_0000_0000_0000_0000);
  }

  lemma {:induction false} Decode32Encode32(v: int)
    requires -0x8000_0000 <= v < 0x8000_0000
    ensures Decode32(Encode32(v)) == v
  {
    RoundTrip32(v % 0x1_0000_0000);
  }

  lemma {:induction false} Wrap64(s: bytes)
    requires |s| == 8
    ensures FromLE(s) < 0x1_0000_0000_0000_0000
    ensures Decode64(s) % 0x1_0000_0000_0000_0000 == FromLE(s)
  {
    hide FromLE;
    FromLEBound(s);
    Widths();
  }

  lemma {:induction false} Encode64Decode64(s: bytes)
    requires |s| == 8
    ensures Encode64(Decode64(s)) == s
  {
    Wrap64(s);
    LEInvertsFromLE(s);
  }

  lemma {:induction false} Wrap32(s: bytes)
    requires |s| == 4
    ensures FromLE(s) < 0x1_0000_0000
    ensures Decode32(s) % 0x1_0000_0000 == FromLE(s)
  {
    hide FromLE;
    FromLEBound(s);
    Widths();
  }

  lemma {:induction false} Encode32Decode32(s: bytes)
    requires |s| == 4
    ensures Encode32(Decode32(s)) == s
  {
    Wrap32(s);
    LEInvertsFromLE(s);
  }

  /** The constant that held the old value now holds the new one: a text, or an integer of either width. */
  lemma {:induction false} NewTextMatches(c: bytes, p: nat, patch: ConstPatch)
    requires p <= |c| && ConstantSize(c, p) >= 4 && patch.TextPatch? && WellFormed(patch)
    requires Word(c, p) in {VARIANT_STRING, VARIANT_STRING_NAME} && Word(c, p + 4) == |patch.text|
    requires p + 8 + |patch.newText| <= |c| && c[p + 8..p + 8 + |patch.newText|] == patch.newText
    ensures Matches(c, p, Reverse(patch))
  {
    hide ConstantSize, Word;
  }

  lemma {:induction false} NewIntMatches(c: bytes, p: nat, patch: ConstPatch)
    requires p <= |c| && ConstantSize(c, p) >= 4 && patch.IntPatch? && WellFormed(patch) && FitsWidth(Word(c, p), patch)
    requires Word(c, p) == INT32 || Word(c, p) == INT64
    requires Word(c, p) == INT32 ==> p + 8 <= |c| && c[p + 4..p + 8] == Encode32(patch.newValue)
    requires Word(c, p) == INT64 ==> p + 12 <= |c| && c[p + 4..p + 12] == Encode64(patch.newValue)
    ensures Matches(c, p, Reverse(patch))
  {
    hide ConstantSize, Word, Decode32, Decode64, Encode32, Encode64;
    if Word(c, p) == INT64 {
      Decode64Encode64(patch.newValue);
    } else {
      Decode32Encode32(patch.newValue);
    }
  }

  lemma {:induction false} NewValueMatches(c: bytes, p: nat, header: u32, patch: ConstPatch)
    requires p <= |c| && ConstantSize(c, p) >= 4 && Word(c, p) == header
    requires WellFormed(patch) && !patch.FloatPatch? && FitsConstant(header, ConstantSize(c, p), patch)
    requires FitsWidth(header, patch)
    requires patch.TextPatch? ==> header in {VARIANT_STRING, VARIANT_STRING_NAME} && Word(c, p + 4) == |patch.text|
    requires patch.IntPatch? ==> header in {INT32, INT64}
    requires
      var at, piece := PayloadAt(p, patch), NewPayload(header, patch);
      c[at..at + |piece|] == piece
    ensures Matches(c, p, Reverse(patch))
  {
    hide Matches, Encode32, Encode64;
    if patch.TextPatch? {
      NewTextMatches(c, p, patch);
    } else {
      NewIntMatches(c, p, patch);
    }
  }

  /** The bytes a patch overwrites are the ones its reverse writes. */
  lemma {:induction false} ReversePayload(b: bytes, p: nat, patch: ConstPatch)
    requires p <= |b| && ConstantSize(b, p) >= 4 && WellFormed(patch) && !patch.FloatPatch? && Matches(b, p, patch)
    ensures
      var at, piece := PayloadAt(p, patch), NewPayload(Word(b, p), patch);
      && at + |piece| <= |b|
      && NewPayload(Word(b, p), Reverse(patch)) == b[at..at + |piece|]
  {
    MatchFits(b, p, patch);
    if patch.IntPatch? {
      if Word(b, p) == INT64 {
        Encode64Decode64(b[p + 4..p + 12]);
      } else {
        Encode32Decode32(b[p + 4..p + 8]);
      }
    }
  }

  predicate NoFloats(patches: seq<ConstPatch>) { forall k :: 0 <= k < |patches| ==> !patches[k].FloatPatch? }

  /** A constant keeps its place, header, length word and size. */
  predicate SamePlace(b: bytes, c: bytes, l: Layout, i: nat)
    requires ConstantsAt(b, l) && ConstantsAt(c, l) && i < l.constants
  {
    var p := OffsetOf(b, l, i);
    && OffsetOf(c, l, i) == p && p + 4 <= |b| && p + 4 <= |c|
    && Word(c, p) == Word(b, p) && ConstantSize(c, p) == ConstantSize(b, p)
    && (IsText(Word(b, p)) ==> p + 8 <= |b| && p + 8 <= |c| && Word(c, p + 4) == Word(b, p + 4))
  }

  lemma {:induction false} PlaceKept(b: bytes, c: bytes, l: Layout, i: nat)
    requires ConstantsAt(b, l) && SameFrame(b, c, l) && i < l.constants
    ensures ConstantsAt(c, l) && SamePlace(b, c, l, i)
  {
    SizeKept(b, c, l, i);
    OffsetsKept(b, c, l, i);
  }

  lemma {:induction false} TargetKept(b: bytes, l: Layout, patches: seq<ConstPatch>, targets: seq<nat>, i: nat)
    requires Parsed(b, l) && AllSelect(b, l, patches, targets) && AllWellFormed(patches) && i < |patches|
    ensures |targets| == |patches| && targets[i] < l.constants && Hit(b, l, patches[i], targets[i])
    ensures
      var c := Rewritten(b, l, patches, targets, |patches|);
      Parsed(c, l) && SamePlace(b, c, l, targets[i])
  {
    assert Selects(b, l, patches[i], targets[i]);
    PatchKeepsStructure(b, l, patches, targets);
    FrameKept(b, l, patches, targets, |patches|);
    PlaceKept(b, Rewritten(b, l, patches, targets, |patches|), l, targets[i]);
  }

  lemma {:induction false} TakesEffectHere(b: bytes, c: bytes, l: Layout, patch: ConstPatch, i: nat)
    requires ConstantsAt(b, l) && ConstantsAt(c, l) && i < l.constants && SamePlace(b, c, l, i)
    requires WellFormed(patch) && !patch.FloatPatch? && Hit(b, l, patch, i)
    requires FitsWidth(Word(b, OffsetOf(b, l, i)), patch)
    requires
      var e := EditOf(b, l, patch, i);
      e.Fits(|c|) && c[e.at..e.at + |e.piece|] == e.piece
    ensures Hit(c, l, Reverse(patch), i)
  {
    var p := OffsetOf(b, l, i);
    MatchFits(b, p, patch);
    NewValueMatches(c, p, Word(b, p), patch);
  }

  /** After a patch with distinct targets, each target matches the patch's new value. */
  lemma {:induction false} PatchTakesEffect(b: bytes, l: Layout, patches: seq<ConstPatch>, targets: seq<nat>, i: nat)
    requires Parsed(b, l) && AllSelect(b, l, patches, targets) && AllWellFormed(patches) && Distinct(targets)
    requires i < |patches| && targets[i] < l.constants && !patches[i].FloatPatch?
    requires FitsWidth(Word(b, OffsetOf(b, l, targets[i])), patches[i])
    ensures
      var c := Rewritten(b, l, patches, targets, |patches|);
      Parsed(c, l) && Hit(c, l, Reverse(patches[i]), targets[i])
  {
    hide AllSelect, Rewritten, ConstantSize, Matches, SamePlace;
    var c := Rewritten(b, l, patches, targets, |patches|);
    TargetKept(b, l, patches, targets, i);
    ReplacementStands(b, l, patches, targets, i);
    TakesEffectHere(b, c, l, patches[i], targets[i]);
  }

  /** The edits that write the old values back into a patched buffer. */
  function ReverseEdits(c: bytes, l: Layout, patches: seq<ConstPatch>, targets: seq<nat>): (edits: seq<Edit>)
    requires ConstantsAt(c, l) && |targets| == |patches| && NoFloats(patches)
    requires forall k :: 0 <= k < |targets| ==> targets[k] < l.constants
    ensures |edits| == |patches|
  {
    seq(|patches|, k requires 0 <= k < |patches| => EditOf(c, l, Reverse(patches[k]), targets[k]))
  }

  lemma {:induction false} ReverseEdit(b: bytes, l: Layout, patches: seq<ConstPatch>, targets: seq<nat>, i: nat)
    requires Parsed(b, l) && AllSelect(b, l, patches, targets) && AllWellFormed(patches) && NoFloats(patches)
    requires i < |patches|
    ensures
      var c := Rewritten(b, l, patches, targets, |patches|);
      var e := EditAt(b, l, patches, targets, i);
      && Parsed(c, l) && targets[i] < l.constants && e.Fits(|b|)
      && EditOf(c, l, Reverse(patches[i]), targets[i]) == e.Undo(b)
  {
    hide AllSelect, Rewritten, ConstantSize, Matches, ConstantsAt, OffsetOf, WellFormed, NewPayload, Word;
    TargetKept(b, l, patches, targets, i);
    ReversePayload(b, OffsetOf(b, l, targets[i]), patches[i]);
  }

  /** Writing the old values back restores the buffer byte for byte. */
  lemma {:induction false} PatchUndone(b: bytes, l: Layout, patches: seq<ConstPatch>, targets: seq<nat>)
    requires Parsed(b, l) && AllSelect(b, l, patches, targets) && AllWellFormed(patches) && NoFloats(patches)
    requires Distinct(targets)
    ensures
      var c := Rewritten(b, l, patches, targets, |patches|);
      && Parsed(c, l) && (forall k :: 0 <= k < |targets| ==> targets[k] < l.constants)
      && var undo := ReverseEdits(c, l, patches, targets);
         AllFit(undo, |c|) && Apply(c, undo, |undo|) == b
  {
    var c := Rewritten(b, l, patches, targets, |patches|);
    PatchKeepsStructure(b, l, patches, targets);
    EditsFit(b, l, patches, targets);
    EditsDisjoint(b, l, patches, targets);
    var edits := EditsOf(b, l, patches, targets);
    forall k | 0 <= k < |targets| ensures targets[k] < l.constants {
      assert Selects(b, l, patches[k], targets[k]);
    }
    var undo := ReverseEdits(c, l, patches, targets);
    forall i | 0 <= i < |edits| ensures undo[i] == edits[i].Undo(b) {
      ReverseEdit(b, l, patches, targets, i);
      assert edits[i] == EditAt(b, l, patches, targets, i);
    }
    UndoRestores(b, edits, undo);
  }

  // ---- the patcher ----

  /** `memcpy` into the buffer. */
  method CopyInto(buf: array<byte>, at: nat, piece: bytes)
    requires at + |piece| <= buf.Length
    modifies buf
    ensures buf[..] == Splice(old(buf[..]), at, piece)
  {
    ghost var before := buf[..];
    for i := 0 to |piece|
      invariant forall k :: 0 <= k < buf.Length ==> buf[k] == if at <= k < at + i then piece[k - at] else before[k]
    {
      buf[at + i] := piece[i];
    }
    assert buf[..] == Splice(before, at, piece);
  }

  /** `constant_rewrite` on the constant at `p`. */
  method RewriteConstant(buf: array<byte>, p: nat, patch: ConstPatch)
    requires p + 4 <= buf.Length
    requires PayloadAt(p, patch) + |NewPayload(Word(buf[..], p), patch)| <= buf.Length
    modifies buf
    ensures buf[..] == Splice(old(buf[..]), PayloadAt(p, patch), NewPayload(Word(old(buf[..]), p), patch))
  {
    var at, piece := PayloadAt(p, patch), NewPayload(Word(buf[..], p), patch);
    CopyInto(buf, at, piece);
  }

  /** What one more rewrite does, seen from the state the loop has reached. */
  lemma {:induction false} RewriteStep(b: bytes, l: Layout, patches: seq<ConstPatch>, targets: seq<nat>, k: nat)
    requires Parsed(b, l) && AllSelect(b, l, patches, targets) && AllWellFormed(patches) && k < |patches|
    ensures
      var c := Rewritten(b, l, patches, targets, k);
      && targets[k] < l.constants
      && var p := OffsetOf(b, l, targets[k]);
      && p + 4 <= |b|
      && var at, piece := PayloadAt(p, patches[k]), NewPayload(Word(c, p), patches[k]);
      && at + |piece| <= |b|
      && Rewritten(b, l, patches, targets, k + 1) == Splice(c, at, piece)
  {
    var c := Rewritten(b, l, patches, targets, k);
    assert Selects(b, l, patches[k], targets[k]);
    EditsFit(b, l, patches, targets);
    FrameKept(b, l, patches, targets, k);
    SizeKept(b, c, l, targets[k]);
    MatchFits(b, OffsetOf(b, l, targets[k]), patches[k]);
    assert EditsOf(b, l, patches, targets)[k] == EditAt(b, l, patches, targets, k);
  }

  /** The rewriting loop. */
  method RewriteAll(buf: array<byte>, ghost l: Layout, offsets: seq<nat>, patches: seq<ConstPatch>, targets: seq<nat>)
    requires Parsed(buf[..], l) && AllSelect(buf[..], l, patches, targets) && AllWellFormed(patches)
    requires |offsets| == l.constants
    requires forall i {:trigger offsets[i]} :: 0 <= i < l.constants ==> offsets[i] == OffsetOf(buf[..], l, i)
    modifies buf
    ensures buf[..] == Rewritten(old(buf[..]), l, patches, targets, |patches|)
  {
    ghost var b := buf[..];
    for k := 0 to |patches|
      invariant buf[..] == Rewritten(b, l, patches, targets, k)
    {
      RewriteStep(b, l, patches, targets, k);
      RewriteConstant(buf, offsets[targets[k]], patches[k]);
    }
  }

  /** A buffer the patcher accepts: it parses to its end and every patch selects one constant. */
  ghost predicate Patchable(b: bytes, patches: seq<ConstPatch>) {
    && |b| >= 16 && |patches| <= MAX_CONST_PATCHES
    && exists l, targets :: Parsed(b, l) && AllSelect(b, l, patches, targets)
  }

  /** `c` is `b` with the constant that each patch selects rewritten. */
  ghost predicate PatchedInto(b: bytes, patches: seq<ConstPatch>, c: bytes)
    requires AllWellFormed(patches)
  {
    exists l, targets :: Parsed(b, l) && AllSelect(b, l, patches, targets)
      && c == Rewritten(b, l, patches, targets, |patches|)
  }

  lemma {:induction false} OneLayout(b: bytes, l: Layout, m: Layout)
    requires Parsed(b, l) && Parsed(b, m)
    ensures l == m
  {
  }

  lemma {:induction false} OneSelection(b: bytes, l: Layout, patches: seq<ConstPatch>, s: seq<nat>, t: seq<nat>)
    requires Parsed(b, l) && AllSelect(b, l, patches, s) && AllSelect(b, l, patches, t)
    ensures s == t
  {
    forall k | 0 <= k < |patches| ensures s[k] == t[k] {
      assert Selects(b, l, patches[k], s[k]) && Selects(b, l, patches[k], t[k]);
      assert Hit(b, l, patches[k], s[k]) && Hit(b, l, patches[k], t[k]);
    }
  }

  /** The outcome of a patch is determined by the buffer and the patches. */
  lemma {:induction false} OneOutcome(b: bytes, patches: seq<ConstPatch>, c: bytes, d: bytes)
    requires AllWellFormed(patches) && PatchedInto(b, patches, c) && PatchedInto(b, patches, d)
    ensures c == d
  {
    var l, s :| Parsed(b, l) && AllSelect(b, l, patches, s) && c == Rewritten(b, l, patches, s, |patches|);
    var m, t :| Parsed(b, m) && AllSelect(b, m, patches, t) && d == Rewritten(b, m, patches, t, |patches|);
    OneLayout(b, l, m);
    OneSelection(b, l, patches, s, t);
  }

  lemma {:induction false} NoneSelect(b: bytes, l: Layout, patches: seq<ConstPatch>, bad: nat)
    requires Parsed(b, l) && bad < |patches| && SelectsNothing(b, l, patches[bad])
    ensures !Patchable(b, patches)
  {
    forall m, targets | Parsed(b, m) ensures !AllSelect(b, m, patches, targets) {
      OneLayout(b, l, m);
    }
  }

  /** `patch_token_buffer`: all patches or none. */
  method PatchTokenBuffer(buf: array<byte>, patches: seq<ConstPatch>) returns (ok: bool)
    requires AllWellFormed(patches)
    modifies buf
    ensures ok <==> Patchable(old(buf[..]), patches)
    ensures ok ==> PatchedInto(old(buf[..]), patches, buf[..])
    ensures !ok ==> buf[..] == old(buf[..])
  {
    if buf.Length < 16 || |patches| > MAX_CONST_PATCHES {
      return false;
    }
    ghost var b := buf[..];
    var parsed, l, offsets, uses := ParseBuffer(buf[..]);
    if !parsed {
      return false;
    }
    var selected, bad := SelectTargets(buf[..], l, offsets, uses, patches);
    if selected.None? {
      NoneSelect(b, l, patches, bad);
      return false;
    }
    RewriteAll(buf, l, offsets, patches, selected.value);
    return true;
  }
}

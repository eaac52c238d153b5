/** Patching a whole compiled script file without changing its length. */
module ScriptFile {
  import opened Bytes
  import opened Slices
  import opened ScriptTokens
  import opened ScriptPatch
  import opened ScriptRewrite

  type bytes = seq<byte>

  const HEADER := 12
  const MAGIC: bytes := [0x47, 0x44, 0x53, 0x43]
  const MAX_TOKEN_BUFFER := 0x100_0000
  const SKIPPABLE_MAGIC := 0x184D2A50
  const SKIPPABLE_HEADER := 8
  const LEVELS: seq<nat> := [19, 12, 6]

  /** The compressor, left abstract: nothing is an error code. */
  datatype Zstd = Zstd(
    decompress: (bytes, nat) -> Option<bytes>,
    compress: (bytes, nat, nat) -> Option<bytes>)

  predicate HeaderOk(file: bytes) {
    |file| >= HEADER && file[..4] == MAGIC && Word(file, 8) <= MAX_TOKEN_BUFFER
  }

  /** Length of the token buffer; zero when it is stored uncompressed. */
  function RawLength(file: bytes): nat
    requires HeaderOk(file)
  {
    Word(file, 8)
  }

  function DecodeBody(z: Zstd, body: bytes, rawLength: nat): Option<bytes> {
    if rawLength == 0 then Some(body)
    else
      var tokens := z.decompress(body, rawLength);
      if tokens.Some? && |tokens.value| == rawLength then tokens else None
  }

  /** The token buffer the engine gets out of a file. */
  function Tokens(z: Zstd, file: bytes): Option<bytes>
    requires HeaderOk(file)
  {
    DecodeBody(z, file[HEADER..], RawLength(file))
  }

  // ---- filling the old length ----

  function Skippable(gap: nat): (s: bytes)
    requires gap >= SKIPPABLE_HEADER
    ensures |s| == gap
  {
    LE(4, SKIPPABLE_MAGIC) + LE(4, (gap - SKIPPABLE_HEADER) % 0x1_0000_0000) + Zeros(gap - SKIPPABLE_HEADER)
  }

  /** A compressed frame brought to exactly `stored` bytes, when the gap is zero or holds a frame header. */
  function Fill(packed: bytes, stored: nat): (f: Option<bytes>)
    ensures f.Some? ==> |f.value| == stored && packed <= f.value
  {
    if |packed| > stored then None
    else if |packed| == stored then Some(packed)
    else if stored - |packed| >= SKIPPABLE_HEADER then Some(packed + Skippable(stored - |packed|))
    else None
  }

  function FillAt(z: Zstd, raw: bytes, stored: nat, i: nat): (f: Option<bytes>)
    requires i < |LEVELS|
    ensures f.Some? ==> |f.value| == stored
  {
    var packed := z.compress(raw, stored, LEVELS[i]);
    if packed.None? then None else Fill(packed.value, stored)
  }

  /** The first level from `i` on that fills the length. */
  function FirstFill(z: Zstd, raw: bytes, stored: nat, i: nat): (f: Option<bytes>)
    requires i <= |LEVELS|
    ensures f.Some? ==> |f.value| == stored
    decreases |LEVELS| - i, stored
  {
    if i == |LEVELS| then None
    else if FillAt(z, raw, stored, i).Some? then FillAt(z, raw, stored, i)
    else FirstFill(z, raw, stored, i + 1)
  }

  /** The gap behind a frame can be filled just when there is none or a skippable frame's header fits into it. */
  lemma {:induction false} FillExactly(packed: bytes, stored: nat)
    ensures Fill(packed, stored).Some? <==> |packed| == stored || |packed| + 8 <= stored
    ensures |packed| == stored ==> Fill(packed, stored) == Some(packed)
  {
  }

  /** The levels are tried in the order 19, 12, 6. */
  lemma {:induction false} LevelsInOrder(z: Zstd, raw: bytes, stored: nat)
    ensures
      var at := (level: nat) =>
        var packed := z.compress(raw, stored, level);
        if packed.Some? then Fill(packed.value, stored) else None;
      FirstFill(z, raw, stored, 0) ==
        if at(19).Some? then at(19) else if at(12).Some? then at(12) else if at(6).Some? then at(6) else None
  {
    assert FirstFill(z, raw, stored, 3) == None;
    assert FirstFill(z, raw, stored, 2) == FillAt(z, raw, stored, 2);
  }

  lemma {:induction false} SkippableFields(gap: nat)
    requires SKIPPABLE_HEADER <= gap < 0x1_0000_0000
    ensures Skippable(gap)[0..4] == LE(4, SKIPPABLE_MAGIC) && Skippable(gap)[4..8] == LE(4, gap - SKIPPABLE_HEADER)
  {
    hide LE, Zeros;
    ThreeParts(LE(4, SKIPPABLE_MAGIC), LE(4, gap - SKIPPABLE_HEADER), Zeros(gap - SKIPPABLE_HEADER));
  }

  /** After the compressed frame comes one skippable frame that ends exactly at the end (section 3.1.2 of RFC 8878). */
  lemma {:induction false} FillIsSkippable(packed: bytes, stored: nat)
    requires Fill(packed, stored).Some? && |packed| < stored < 0x1_0000_0000
    ensures
      var f, p := Fill(packed, stored).value, |packed|;
      && p + 8 <= |f| == stored && f[..p] == packed
      && U32At(f, p) == SKIPPABLE_MAGIC && p + 8 + U32At(f, p + 4) == stored
  {
    var gap := stored - |packed|;
    SkippableFields(gap);
    OfSuffix(packed, Skippable(gap), 0, 4);
    OfSuffix(packed, Skippable(gap), 4, 8);
    RoundTrip32(SKIPPABLE_MAGIC);
    RoundTrip32(gap - SKIPPABLE_HEADER);
  }

  // ---- the patcher ----

  /**
   * A replacement of the same length and header whose tokens, as the engine decodes them, are the original ones
   * patched.
   */
  ghost predicate Replaces(z: Zstd, file: bytes, patches: seq<ConstPatch>, c: bytes)
    requires HeaderOk(file) && AllWellFormed(patches)
  {
    && |c| == |file| && c[..HEADER] == file[..HEADER] && HeaderOk(c)
    && Tokens(z, file).Some? && Tokens(z, c).Some?
    && PatchedInto(Tokens(z, file).value, patches, Tokens(z, c).value)
  }

  /** The patched tokens can be stored in `stored` bytes so that they are read back. */
  ghost predicate Storable(z: Zstd, tokens: bytes, patches: seq<ConstPatch>, stored: nat)
    requires AllWellFormed(patches)
  {
    exists raw ::
      && PatchedInto(tokens, patches, raw) && FirstFill(z, raw, stored, 0).Some?
      && z.decompress(FirstFill(z, raw, stored, 0).value, |tokens|) == Some(raw)
  }

  /** Exactly when a script can be patched. */
  ghost predicate Replaceable(z: Zstd, file: bytes, patches: seq<ConstPatch>)
    requires AllWellFormed(patches)
  {
    && HeaderOk(file) && Tokens(z, file).Some? && Patchable(Tokens(z, file).value, patches)
    && (RawLength(file) == 0 || Storable(z, Tokens(z, file).value, patches, |file| - HEADER))
  }

  method CopyOf(s: bytes) returns (a: array<byte>)
    ensures fresh(a) && a[..] == s
  {
    a := new byte[|s|](i requires 0 <= i < |s| => s[i]);
  }

  /** Tries the levels in order. */
  method Compress(z: Zstd, raw: bytes, stored: nat) returns (f: Option<bytes>)
    ensures f == FirstFill(z, raw, stored, 0)
  {
    f := None;
    var i := 0;
    while i < |LEVELS| && f.None?
      invariant i <= |LEVELS|
      invariant FirstFill(z, raw, stored, 0) == if f.Some? then f else FirstFill(z, raw, stored, i)
    {
      f := FillAt(z, raw, stored, i);
      i := i + 1;
    }
  }

  lemma {:induction false} SameHeader(file: bytes, body: bytes)
    requires HeaderOk(file) && |body| == |file| - HEADER
    ensures
      var c := file[..HEADER] + body;
      |c| == |file| && c[..HEADER] == file[..HEADER] && HeaderOk(c) && RawLength(c) == RawLength(file)
        && c[HEADER..] == body
  {
  }

  lemma {:induction false} NotStorable(z: Zstd, tokens: bytes, patches: seq<ConstPatch>, stored: nat, raw: bytes)
    requires AllWellFormed(patches) && PatchedInto(tokens, patches, raw)
    requires
      var f := FirstFill(z, raw, stored, 0);
      f.None? || z.decompress(f.value, |tokens|) != Some(raw)
    ensures !Storable(z, tokens, patches, stored)
  {
    if Storable(z, tokens, patches, stored) {
      var other :| PatchedInto(tokens, patches, other) && FirstFill(z, other, stored, 0).Some?
        && z.decompress(FirstFill(z, other, stored, 0).value, |tokens|) == Some(other);
      OneOutcome(tokens, patches, raw, other);
      assert false;
    }
  }

  lemma {:induction false} PatchedLength(tokens: bytes, patches: seq<ConstPatch>, raw: bytes)
    requires AllWellFormed(patches) && PatchedInto(tokens, patches, raw)
    ensures |raw| == |tokens|
  {
  }

  lemma {:induction false} Assemble(z: Zstd, file: bytes, patches: seq<ConstPatch>, tokens: bytes, raw: bytes,
                                    body: bytes)
    requires HeaderOk(file) && AllWellFormed(patches) && Tokens(z, file) == Some(tokens)
    requires PatchedInto(tokens, patches, raw) && |body| == |file| - HEADER
    requires if RawLength(file) == 0 then body == raw else z.decompress(body, |tokens|) == Some(raw)
    ensures Replaces(z, file, patches, file[..HEADER] + body)
  {
    PatchedLength(tokens, patches, raw);
    SameHeader(file, body);
  }

  /** The compressed case: some level must fill the old length with something that is read back. */
  method Pack(z: Zstd, tokens: bytes, raw: bytes, stored: nat, ghost patches: seq<ConstPatch>)
    returns (body: Option<bytes>)
    requires AllWellFormed(patches) && PatchedInto(tokens, patches, raw)
    ensures body.Some? <==> Storable(z, tokens, patches, stored)
    ensures body.Some? ==> |body.value| == stored && z.decompress(body.value, |tokens|) == Some(raw)
  {
    PatchedLength(tokens, patches, raw);
    body := Compress(z, raw, stored);
    if body.None? || z.decompress(body.value, |raw|) != Some(raw) {
      NotStorable(z, tokens, patches, stored, raw);
      return None;
    }
  }

  /** The part between decoding and writing out: the new body and the tokens in it. */
  method PatchBody(z: Zstd, tokens: bytes, stored: nat, packed: bool, patches: seq<ConstPatch>)
    returns (body: Option<bytes>, ghost raw: bytes)
    requires AllWellFormed(patches) && (!packed ==> |tokens| == stored)
    ensures body.Some? <==> Patchable(tokens, patches) && (!packed || Storable(z, tokens, patches, stored))
    ensures body.Some? ==> PatchedInto(tokens, patches, raw) && |body.value| == stored
    ensures body.Some? ==> if packed then z.decompress(body.value, |tokens|) == Some(raw) else body.value == raw
  {
    var buf := CopyOf(tokens);
    var ok := PatchTokenBuffer(buf, patches);
    raw := buf[..];
    if !ok {
      return None, raw;
    }
    if !packed {
      return Some(buf[..]), raw;
    }
    body := Pack(z, tokens, buf[..], stored, patches);
  }

  /** `patch_script`: a file of the same length, or nothing. */
  method PatchScript(z: Zstd, file: bytes, patches: seq<ConstPatch>) returns (r: Option<bytes>)
    requires AllWellFormed(patches)
    ensures r.Some? <==> Replaceable(z, file, patches)
    ensures r.Some? ==> Replaces(z, file, patches, r.value)
  {
    hide Storable, PatchedInto, Patchable;
    if !HeaderOk(file) {
      return None;
    }
    var tokens := Tokens(z, file);
    if tokens.None? {
      return None;
    }
    var body, raw := PatchBody(z, tokens.value, |file| - HEADER, RawLength(file) != 0, patches);
    if body.None? {
      return None;
    }
    Assemble(z, file, patches, tokens.value, raw, body.value);
    return Some(file[..HEADER] + body.value);
  }
}

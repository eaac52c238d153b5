/** The second half of `patch_aei_dot`: write the repaired tables, and what the repair preserves. */
module FontRewrite {
  import opened Bytes
  import opened Slices
  import opened FontAtlas
  import opened FontPatch

  // ---- writing ----

  /** Nothing outside `[p, q)` has changed. */
  twostate predicate OnlyWithin(out: array<byte>, p: int, q: int)
    reads out
  {
    forall k :: 0 <= k < out.Length && !(p <= k < q) ==> out[k] == old(out[k])
  }

  /** `aei_put_u16`. */
  method PutU16(out: array<byte>, p: nat, v: u16)
    requires p + 2 <= out.Length
    modifies out
    ensures U16At(out[..], p) == v
    ensures OnlyWithin(out, p, p + 2)
  {
    out[p] := v % 256;
    out[p + 1] := v / 256;
  }

  /** `memcpy` out of the source buffer. */
  method CopyBytes(out: array<byte>, p: nat, src: bytes, q: nat, n: nat)
    requires p + n <= out.Length && q + n <= |src|
    modifies out
    ensures forall k :: p <= k < p + n ==> out[k] == src[q + k - p]
    ensures OnlyWithin(out, p, p + n)
  {
    forall k | p <= k < p + n {
      out[k] := src[q + k - p];
    }
  }

  method PutRect(out: array<byte>, p: nat, r: Rect)
    requires p + 8 <= out.Length
    modifies out
    ensures ParseRect(out[..], p) == r
    ensures OnlyWithin(out, p, p + 8)
  {
    PutU16(out, p, r.x);
    PutU16(out, p + 2, r.y);
    PutU16(out, p + 4, r.w);
    PutU16(out, p + 6, r.h);
  }

  lemma {:induction false} CodesCopied(b: bytes, p: nat, src: bytes, q: nat, codes: seq<u16>)
    requires p + 2 * |codes| <= |b| && q + 2 * |codes| <= |src| && CodesAt(src, q, codes)
    requires forall k :: p <= k < p + 2 * |codes| ==> b[k] == src[q + k - p]
    ensures CodesAt(b, p, codes)
  {
    forall i | 0 <= i < |codes| ensures U16At(b, p + 2 * i) == codes[i] {
      assert U16At(src, q + 2 * i) == codes[i];
      assert b[p + 2 * i] == src[q + 2 * i] && b[p + 2 * i + 1] == src[q + 2 * i + 1];
    }
  }

  lemma {:induction false} CodesSnoc(b: bytes, p: nat, codes: seq<u16>, code: u16)
    requires p + 2 * |codes| + 2 <= |b| && CodesAt(b, p, codes) && U16At(b, p + 2 * |codes|) == code
    ensures CodesAt(b, p, codes + [code])
  {
    forall i | 0 <= i < |codes| + 1 ensures U16At(b, p + 2 * i) == (codes + [code])[i] {
      if i < |codes| {
        assert (codes + [code])[i] == codes[i];
      }
    }
  }

  lemma {:induction false} RectsSnoc(b: bytes, p: nat, rects: seq<Rect>, rect: Rect)
    requires p + 8 * |rects| + 8 <= |b| && RectsAt(b, p, rects) && ParseRect(b, p + 8 * |rects|) == rect
    ensures RectsAt(b, p, rects + [rect])
  {
    forall i | 0 <= i < |rects| + 1 ensures ParseRect(b, p + 8 * i) == (rects + [rect])[i] {
      if i < |rects| {
        assert (rects + [rect])[i] == rects[i];
      }
    }
  }

  lemma {:induction false} CodesKept(b: bytes, c: bytes, p: nat, codes: seq<u16>)
    requires p + 2 * |codes| <= |b| && p + 2 * |codes| <= |c| && CodesAt(b, p, codes)
    requires forall k :: p <= k < p + 2 * |codes| ==> b[k] == c[k]
    ensures CodesAt(c, p, codes)
  {
    forall i | 0 <= i < |codes| ensures U16At(c, p + 2 * i) == codes[i] {
      assert U16At(b, p + 2 * i) == codes[i];
    }
  }

  lemma {:induction false} RectsKept(b: bytes, c: bytes, p: nat, rects: seq<Rect>)
    requires p + 8 * |rects| <= |b| && p + 8 * |rects| <= |c| && RectsAt(b, p, rects)
    requires forall k :: p <= k < p + 8 * |rects| ==> b[k] == c[k]
    ensures RectsAt(c, p, rects)
  {
    forall i | 0 <= i < |rects| ensures ParseRect(c, p + 8 * i) == rects[i] {
      assert ParseRect(b, p + 8 * i) == rects[i];
    }
  }

  lemma {:induction false} U16Kept(b: bytes, c: bytes, p: nat)
    requires p + 2 <= |b| && p + 2 <= |c| && b[p] == c[p] && b[p + 1] == c[p + 1]
    ensures U16At(b, p) == U16At(c, p)
  {
  }

  method CopyCodes(out: array<byte>, p: nat, src: bytes, q: nat, n: nat, ghost codes: seq<u16>)
    requires n == |codes| && q + 2 * n <= |src| && CodesAt(src, q, codes) && p + 2 * n <= out.Length
    modifies out
    ensures CodesAt(out[..], p, codes) && OnlyWithin(out, p, p + 2 * n)
  {
    hide CodesAt;
    CopyBytes(out, p, src, q, 2 * n);
    CodesCopied(out[..], p, src, q, codes);
  }

  method AppendDot(out: array<byte>, p: nat, n: nat, ghost codes: seq<u16>)
    requires n == |codes| && p + 2 * n + 2 <= out.Length && CodesAt(out[..], p, codes)
    modifies out
    ensures CodesAt(out[..], p, codes + [DOT_CODE]) && OnlyWithin(out, p + 2 * n, p + 2 * n + 2)
  {
    hide CodesAt;
    ghost var before := out[..];
    PutU16(out, p + 2 * n, DOT_CODE);
    CodesKept(before, out[..], p, codes);
    CodesSnoc(out[..], p, codes, DOT_CODE);
  }

  /** The glyph count and the codes, with the full stop appended when the font lacks one. */
  method WriteCodes(out: array<byte>, p: nat, src: bytes, q: nat, ghost f: Font, add: bool)
    requires FontAt(src, q, f) && |f.codes| < 0xFFFF
    requires p + 2 + 2 * |f.codes| + (if add then 2 else 0) <= out.Length
    modifies out
    ensures
      var codes := if add then f.codes + [DOT_CODE] else f.codes;
      && U16At(out[..], p) == |codes| && CodesAt(out[..], p + 2, codes)
      && OnlyWithin(out, p, p + 2 + 2 * |codes|)
  {
    hide RectsAt, CodesAt, U16At;
    var n: nat := U16At(src, q);
    PutU16(out, p, if add then n + 1 else n);
    ghost var counted := out[..];
    CopyCodes(out, p + 2, src, q + 2, n, f.codes);
    if add {
      AppendDot(out, p + 2, n, f.codes);
    }
    U16Kept(counted, out[..], p);
  }

  /** One rectangle of the old table: copied, or replaced when it is the empty full stop's. */
  method WriteRect(out: array<byte>, at: nat, src: bytes, q: nat, ghost f: Font, fix: Fix, i: nat)
    requires FontAt(src, q, f) && i < |f.codes| && (fix.Reuse? ==> fix.dot < |f.rects|) && at + 8 <= out.Length
    modifies out
    ensures ParseRect(out[..], at) == Fixed(f, fix).rects[i]
    ensures OnlyWithin(out, at, at + 8)
  {
    GlyphAt(src, q, f, i);
    if fix.Reuse? && fix.dot == i {
      PutRect(out, at, fix.rect);
    } else {
      var rp := q + 2 + 2 * U16At(src, q) + 8 * i;
      CopyBytes(out, at, src, rp, 8);
      assert ParseRect(out[..], at) == ParseRect(src, rp);
    }
  }

  lemma {:induction false} NoRects(b: bytes, p: nat)
    requires p <= |b|
    ensures RectsAt(b, p, [])
  {
  }

  /** One more rectangle behind the ones written. */
  method WriteNextRect(out: array<byte>, p: nat, src: bytes, q: nat, ghost f: Font, fix: Fix, i: nat)
    requires FontAt(src, q, f) && (fix.Reuse? ==> fix.dot < |f.rects|) && i < |f.rects|
    requires p + 8 * |Fixed(f, fix).rects| <= out.Length && RectsAt(out[..], p, Fixed(f, fix).rects[..i])
    modifies out
    ensures RectsAt(out[..], p, Fixed(f, fix).rects[..i + 1]) && OnlyWithin(out, p + 8 * i, p + 8 * i + 8)
  {
    hide RectsAt, CodesAt;
    ghost var fixed := Fixed(f, fix).rects;
    ghost var before := out[..];
    WriteRect(out, p + 8 * i, src, q, f, fix, i);
    RectsKept(before, out[..], p, fixed[..i]);
    RectsSnoc(out[..], p, fixed[..i], fixed[i]);
    Extend(fixed, i);
  }

  /** The rectangles, with the reused or appended one where it belongs. */
  method WriteRects(out: array<byte>, p: nat, src: bytes, q: nat, ghost f: Font, fix: Fix)
    requires FontAt(src, q, f) && (fix.Reuse? ==> fix.dot < |f.rects|)
    requires p + 8 * |Fixed(f, fix).rects| <= out.Length
    modifies out
    ensures RectsAt(out[..], p, Fixed(f, fix).rects)
    ensures OnlyWithin(out, p, p + 8 * |Fixed(f, fix).rects|)
  {
    var n: nat := U16At(src, q);
    var at := p;
    ghost var fixed := Fixed(f, fix).rects;
    NoRects(out[..], p);
    assert fixed[..0] == [];
    for i := 0 to n
      invariant at == p + 8 * i && RectsAt(out[..], p, fixed[..i]) && OnlyWithin(out, p, at)
    {
      WriteNextRect(out, p, src, q, f, fix, i);
      at := at + 8;
    }
    if fix.Append? {
      ghost var before := out[..];
      PutRect(out, at, fix.rect);
      RectsKept(before, out[..], p, fixed[..n]);
      RectsSnoc(out[..], p, fixed[..n], fix.rect);
      assert fixed == fixed[..n] + [fix.rect];
    } else {
      Whole(fixed);
    }
  }

  /** One turn of the rewrite loop. */
  method WriteFont(out: array<byte>, newp: nat, src: bytes, oldp: nat, ghost f: Font, fix: Fix)
    returns (newEnd: nat, oldEnd: nat)
    requires FontAt(src, oldp, f) && |f.codes| < 0xFFFF && (fix.Reuse? ==> fix.dot < |f.rects|)
    requires newp + TableSize(|Fixed(f, fix).codes|) <= out.Length
    modifies out
    ensures FontAt(out[..], newp, Fixed(f, fix)) && OnlyWithin(out, newp, newEnd)
    ensures newEnd == newp + TableSize(|Fixed(f, fix).codes|) && oldEnd == oldp + TableSize(|f.codes|)
  {
    hide RectsAt, CodesAt;
    var n: nat := U16At(src, oldp);
    var add := fix.Append?;
    var m := if add then n + 1 else n;
    WriteCodes(out, newp, src, oldp, f, add);
    ghost var before := out[..];
    WriteRects(out, newp + 2 + 2 * m, src, oldp, f, fix);
    CodesKept(before, out[..], newp + 2, Fixed(f, fix).codes);
    newEnd, oldEnd := newp + 2 + 10 * m, oldp + 2 + 10 * n;
  }

  // ---- the whole repair ----

  lemma {:induction false} PatchesListed(fixes: seq<Fix>)
    ensures forall pt :: pt in PatchesOf(fixes) ==>
      pt.fontIndex < |fixes| && fixes[pt.fontIndex] == pt.fix != Keep
    ensures forall i :: 0 <= i < |fixes| && fixes[i] != Keep ==> FontDotPatch(i, fixes[i]) in PatchesOf(fixes)
  {
    if fixes != [] {
      PatchesListed(DropLast(fixes));
      forall i | 0 <= i < |fixes| && fixes[i] != Keep ensures FontDotPatch(i, fixes[i]) in PatchesOf(fixes) {
        if i < |fixes| - 1 {
          assert DropLast(fixes)[i] == fixes[i];
        }
      }
    }
  }

  /** The search for the patch of a font. */
  method FindPatch(patches: seq<FontDotPatch>, i: nat, ghost fixes: seq<Fix>) returns (fix: Fix)
    requires patches == PatchesOf(fixes) && i < |fixes|
    ensures fix == fixes[i]
  {
    PatchesListed(fixes);
    for k := 0 to |patches|
      invariant forall j :: 0 <= j < k ==> patches[j].fontIndex != i
    {
      if patches[k].fontIndex == i {
        assert patches[k] in patches;
        return patches[k].fix;
      }
    }
    assert FontDotPatch(i, fixes[i]) !in patches;
    return Keep;
  }

  lemma {:induction false} EndOfStep(p: nat, fonts: seq<Font>, i: nat)
    requires i < |fonts|
    ensures EndOf(p, fonts[..i + 1]) == EndOf(p, fonts[..i]) + TableSize(|fonts[i].codes|)
    ensures EndOf(p, fonts[..i + 1]) <= EndOf(p, fonts)
    decreases |fonts| - i
  {
    Extend(fonts, i);
    if i + 1 < |fonts| {
      EndOfStep(p, fonts, i + 1);
    } else {
      Whole(fonts);
    }
  }

  lemma {:induction false} GrownStep(fixes: seq<Fix>, i: nat)
    requires i < |fixes|
    ensures Grown(fixes[..i + 1]) == Grown(fixes[..i]) + (if fixes[i].Append? then 1 else 0)
    ensures Grown(fixes[..i + 1]) <= Grown(fixes)
    decreases |fixes| - i
  {
    Extend(fixes, i);
    if i + 1 < |fixes| {
      GrownStep(fixes, i + 1);
    } else {
      Whole(fixes);
    }
  }

  lemma {:induction false} FontsSnoc(b: bytes, c: bytes, p: nat, fonts: seq<Font>, f: Font)
    requires b <= c && FontsAt(b, p, fonts) && FontAt(c, EndOf(p, fonts), f)
    ensures FontsAt(c, p, fonts + [f])
  {
    FontsAtPrefix(b, c, p, fonts);
    assert DropLast(fonts + [f]) == fonts;
  }

  /** A font written into the buffer stands in the part written so far. */
  lemma {:induction false} FontInPart(b: bytes, p: nat, f: Font, end: nat)
    requires FontAt(b, p, f) && p + TableSize(|f.codes|) <= end <= |b|
    ensures FontAt(b[..end], p, f)
  {
    var c := b[..end];
    CodesKept(b, c, p + 2, f.codes);
    RectsKept(b, c, p + 2 + 2 * |f.codes|, f.rects);
  }

  /** Old fonts, new fonts and the decisions that lead from one to the other. */
  predicate Related(fonts: seq<Font>, fixed: seq<Font>, fixes: seq<Fix>) {
    && |fonts| == |fixed| == |fixes|
    && forall i {:trigger fonts[i]} {:trigger fixed[i]} :: 0 <= i < |fonts| ==>
         && |fonts[i].codes| == |fonts[i].rects| <= MAX_GLYPHS && (fixes[i].Reuse? ==> fixes[i].dot < |fonts[i].rects|)
         && fixed[i] == Fixed(fonts[i], fixes[i])
  }

  /** The cursors after `i` turns of the rewrite loop. */
  predicate Cursors(start: nat, fonts: seq<Font>, fixed: seq<Font>, fixes: seq<Fix>, i: nat, oldp: nat, newp: nat) {
    && i <= |fonts| == |fixed| == |fixes|
    && oldp == EndOf(start, fonts[..i]) && newp == EndOf(start, fixed[..i]) == oldp + 10 * Grown(fixes[..i])
  }

  lemma {:induction false} CursorsStart(b: bytes, start: nat, fonts: seq<Font>, fixed: seq<Font>, fixes: seq<Fix>)
    requires Related(fonts, fixed, fixes) && start <= |b|
    ensures Cursors(start, fonts, fixed, fixes, 0, start, start) && FontsAt(b[..start], start, fixed[..0])
  {
  }

  lemma {:induction false} CursorsStep(start: nat, fonts: seq<Font>, fixed: seq<Font>, fixes: seq<Fix>, i: nat,
                                       oldp: nat, newp: nat)
    requires Related(fonts, fixed, fixes) && i < |fonts| && Cursors(start, fonts, fixed, fixes, i, oldp, newp)
    ensures
      var oldEnd, newEnd := oldp + TableSize(|fonts[i].codes|), newp + TableSize(|fixed[i].codes|);
      && Cursors(start, fonts, fixed, fixes, i + 1, oldEnd, newEnd)
      && oldEnd <= EndOf(start, fonts) && newEnd <= EndOf(start, fonts) + 10 * Grown(fixes)
  {
    EndOfStep(start, fonts, i);
    EndOfStep(start, fixed, i);
    GrownStep(fixes, i);
  }

  lemma {:induction false} WrittenStep(b: bytes, c: bytes, start: nat, fixed: seq<Font>, i: nat, p: nat, end: nat)
    requires i < |fixed| && p == EndOf(start, fixed[..i]) <= end <= |c| == |b| && b[..p] == c[..p]
    requires FontsAt(b[..p], start, fixed[..i]) && FontAt(c, p, fixed[i]) && end == p + TableSize(|fixed[i].codes|)
    ensures FontsAt(c[..end], start, fixed[..i + 1])
  {
    assert b[..p] <= c[..end];
    FontInPart(c, p, fixed[i], end);
    FontsSnoc(b[..p], c[..end], start, fixed[..i], fixed[i]);
    Extend(fixed, i);
  }

  /** The rewrite loop over all fonts. */
  method RewriteFonts(out: array<byte>, src: bytes, start: nat, patches: seq<FontDotPatch>,
                      ghost fonts: seq<Font>, ghost fixed: seq<Font>, ghost fixes: seq<Fix>,
                      count: nat) returns (newp: nat)
    requires Related(fonts, fixed, fixes) && |fonts| == count && patches == PatchesOf(fixes)
    requires FontsAt(src, start, fonts) && EndOf(start, fonts) <= |src| && out.Length == |src| + 10 * Grown(fixes)
    modifies out
    ensures newp == EndOf(start, fixed) == EndOf(start, fonts) + 10 * Grown(fixes) && start <= newp <= out.Length
    ensures FontsAt(out[..newp], start, fixed) && OnlyWithin(out, start, newp)
  {
    hide FontAt, EndOf, Grown, PatchesOf;
    CursorsStart(out[..], start, fonts, fixed, fixes);
    var oldp := start;
    newp := start;
    for i := 0 to count
      invariant Cursors(start, fonts, fixed, fixes, i, oldp, newp) && start <= newp <= out.Length
      invariant FontsAt(out[..newp], start, fixed[..i]) && OnlyWithin(out, start, newp)
    {
      CursorsStep(start, fonts, fixed, fixes, i, oldp, newp);
      FontsAtIndex(src, start, fonts, i);
      assert fixed[i] == Fixed(fonts[i], fixes[i]);
      var fix := FindPatch(patches, i, fixes);
      ghost var before, at := out[..], newp;
      newp, oldp := WriteFont(out, newp, src, oldp, fonts[i], fix);
      WrittenStep(before, out[..], start, fixed, i, at, newp);
    }
    Whole(fonts);
    Whole(fixed);
    Whole(fixes);
  }

  lemma {:induction false} FontsAtIndex(b: bytes, p: nat, fonts: seq<Font>, i: nat)
    requires FontsAt(b, p, fonts) && i < |fonts|
    ensures FontAt(b, EndOf(p, fonts[..i]), fonts[i])
  {
    if i < |fonts| - 1 {
      FontsAtIndex(b, p, DropLast(fonts), i);
      assert DropLast(fonts)[..i] == fonts[..i];
    }
  }

  /** The glyph tables of an atlas that parses. */
  function FontsIn(src: bytes): Option<(Atlas, seq<Font>)> {
    match ParseHeader(src)
    case None => None
    case Some(a) =>
      match ParseFonts(a, src, a.imageEnd + 2, a.fontCount)
      case None => None
      case Some(fonts) => Some((a, fonts))
  }

  predicate NeedsFix(a: Atlas, src: bytes, fonts: seq<Font>)
    requires FontsOk(a, fonts)
  {
    exists i :: 0 <= i < |fonts| && FixOf(a, src, fonts[i]) != Keep
  }

  /** What makes the repair go ahead: everything parses, nothing follows the tables, and some font needs it. */
  predicate Repairable(src: bytes) {
    && FontsIn(src).Some?
    && var (a, fonts) := FontsIn(src).value;
       EndOf(a.imageEnd + 2, fonts) == |src| && FontsOk(a, fonts) && NeedsFix(a, src, fonts)
  }

  lemma {:induction false} HeaderShape(src: bytes)
    requires ParseHeader(src).Some?
    ensures
      var a := ParseHeader(src).value;
      && 17 <= a.imageEnd + 2 <= |src| && 0 < a.fontCount <= MAX_FONTS
      && a.imageEnd == a.imageStart + 4 * Area(a.width, a.height)
  {
  }

  lemma {:induction false} RelatedFixes(a: Atlas, src: bytes, fonts: seq<Font>)
    requires FontsOk(a, fonts)
    ensures Related(fonts, FixAll(a, src, fonts), FixesOf(a, src, fonts))
  {
  }

  /** The plan is empty exactly when nothing needs repair. */
  lemma {:induction false} PlanDecides(a: Atlas, src: bytes, fonts: seq<Font>)
    requires FontsOk(a, fonts)
    ensures PatchesOf(FixesOf(a, src, fonts)) != [] <==> NeedsFix(a, src, fonts)
    ensures Grown(FixesOf(a, src, fonts)) <= |fonts|
  {
    var fixes := FixesOf(a, src, fonts);
    PatchCount(fixes);
    if i :| 0 <= i < |fonts| && FixOf(a, src, fonts[i]) != Keep {
      assert fixes[i] != Keep;
    }
  }

  /** The file that the repair produces: the same bytes up to the tables, then the repaired tables. */
  predicate RewrittenTo(src: bytes, a: Atlas, fonts: seq<Font>, dst: bytes)
    requires FontsOk(a, fonts)
  {
    var start := a.imageEnd + 2;
    && start <= |src| && start <= |dst| && dst[..start] == src[..start]
    && FontsAt(dst, start, FixAll(a, src, fonts)) && |dst| == EndOf(start, FixAll(a, src, fonts))
  }

  predicate RepairedInto(src: bytes, dst: bytes) {
    && FontsIn(src).Some?
    && var (a, fonts) := FontsIn(src).value;
       FontsOk(a, fonts) && RewrittenTo(src, a, fonts, dst)
  }

  /** `patch_aei_dot`: the repaired file, or nothing when the file is left as it is. */
  method PatchAeiDot(src: bytes) returns (r: Option<bytes>)
    ensures r.Some? <==> Repairable(src)
    ensures r.Some? ==> RepairedInto(src, r.value)
  {
    hide ParseHeader, ParseFonts, FontsOk, NeedsFix, RewrittenTo, EndOf;
    var header := ParseHeader(src);
    if header.None? {
      return None;
    }
    HeaderShape(src);
    TablesIn(src, header.value);
    r := PatchTables(src, header.value);
  }

  lemma {:induction false} TablesIn(src: bytes, a: Atlas)
    requires ParseHeader(src) == Some(a)
    ensures FontsIn(src) == match ParseFonts(a, src, a.imageEnd + 2, a.fontCount)
                            case None => None
                            case Some(fonts) => Some((a, fonts))
  {
  }

  /** The part of the repair after the header. */
  method PatchTables(src: bytes, a: Atlas) returns (r: Option<bytes>)
    requires a.imageEnd == a.imageStart + 4 * Area(a.width, a.height) && a.imageEnd + 2 <= |src|
    requires a.fontCount <= MAX_FONTS
    ensures r.Some? <==>
      && ParseFonts(a, src, a.imageEnd + 2, a.fontCount).Some?
      && EndOf(a.imageEnd + 2, ParsedOk(a, src, a.imageEnd + 2)) == |src|
      && NeedsFix(a, src, ParsedOk(a, src, a.imageEnd + 2))
    ensures r.Some? ==> RewrittenTo(src, a, ParsedOk(a, src, a.imageEnd + 2), r.value)
  {
    var ok, patches, added := PlanPatches(a, src, a.imageEnd + 2);
    if !ok {
      return None;
    }
    ghost var fonts := ParsedOk(a, src, a.imageEnd + 2);
    ParsedFonts(a, src, a.imageEnd + 2, a.fontCount);
    PlanDecides(a, src, fonts);
    if patches == [] || added > MAX_PATCHES {
      return None;
    }
    r := Rewrite(src, a, patches, added, fonts);
  }

  /** The writing half: allocate, copy the head, rewrite the tables, check that they fill the buffer. */
  method Rewrite(src: bytes, a: Atlas, patches: seq<FontDotPatch>, added: nat, ghost fonts: seq<Font>)
    returns (r: Option<bytes>)
    requires FontsOk(a, fonts) && |fonts| == a.fontCount
    requires FontsAt(src, a.imageEnd + 2, fonts) && EndOf(a.imageEnd + 2, fonts) <= |src|
    requires patches == PatchesOf(FixesOf(a, src, fonts)) && added == Grown(FixesOf(a, src, fonts))
    ensures r.Some? <==> EndOf(a.imageEnd + 2, fonts) == |src|
    ensures r.Some? ==> RewrittenTo(src, a, fonts, r.value)
  {
    hide Related, FontsOk, FontsAt, EndOf, Grown, PatchesOf, FixesOf, FixAll;
    var start := a.imageEnd + 2;
    ghost var fixes, fixed := FixesOf(a, src, fonts), FixAll(a, src, fonts);
    RelatedFixes(a, src, fonts);
    var out := new byte[|src| + 10 * added];
    CopyBytes(out, 0, src, 0, start);
    ghost var head := out[..];
    SameHead(head, src, start);
    var newp := RewriteFonts(out, src, start, patches, fonts, fixed, fixes, a.fontCount);
    if newp != out.Length {
      return None;
    }
    Whole(out[..]);
    assert out[..newp] == out[..];
    SameHead(out[..], head, start);
    r := Some(out[..]);
  }

  lemma {:induction false} SameHead(b: bytes, c: bytes, n: nat)
    requires n <= |b| && n <= |c| && forall k :: 0 <= k < n ==> b[k] == c[k]
    ensures b[..n] == c[..n]
  {
  }
}

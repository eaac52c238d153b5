/** `patch_aei_dot`: give every font table of an atlas a usable full stop without touching a pixel. */
module FontPatch {
  import opened Bytes
  import opened Slices
  import opened FontAtlas

  const DOT_CODE: u16 := 46
  const NO_RANK := 999
  const MAX_PATCHES := 32

  /** What is to be done to one font. */
  datatype Fix = Keep | Reuse(dot: nat, rect: Rect) | Append(rect: Rect)

  datatype FontDotPatch = FontDotPatch(fontIndex: nat, fix: Fix)

  /** Preference among the glyphs that can stand in: middle dot, colon, comma, apostrophe. */
  function Rank(code: u16): nat {
    if code == 183 then 0 else if code == 58 then 1 else if code == 44 then 2 else if code == 39 then 3 else NO_RANK
  }

  function LastDot(codes: seq<u16>): (r: Option<nat>)
    ensures r.Some? ==> r.value < |codes| && codes[r.value] == DOT_CODE
  {
    if codes == [] then None else if Last(codes) == DOT_CODE then Some(|codes| - 1) else LastDot(DropLast(codes))
  }

  function BestSource(codes: seq<u16>): (r: Option<nat>)
    ensures r.Some? ==> r.value < |codes| && Rank(codes[r.value]) < NO_RANK
  {
    if codes == [] then None
    else
      var prev := BestSource(DropLast(codes));
      if Rank(Last(codes)) < BestRank(DropLast(codes), prev) then Some(|codes| - 1) else prev
  }

  function BestRank(codes: seq<u16>, source: Option<nat>): nat
    requires source.Some? ==> source.value < |codes|
  {
    if source.Some? then Rank(codes[source.value]) else NO_RANK
  }

  function FixOf(a: Atlas, b: bytes, f: Font): Fix
    requires |f.rects| == |f.codes|
  {
    var dot, source := LastDot(f.codes), BestSource(f.codes);
    if source.None? then Keep
    else if dot.None? then Append(f.rects[source.value])
    else if Visible(a, b, f.rects[dot.value]) then Keep
    else Reuse(dot.value, f.rects[source.value])
  }

  function Fixed(f: Font, fix: Fix): Font
    requires fix.Reuse? ==> fix.dot < |f.rects|
  {
    match fix
    case Keep => f
    case Reuse(dot, rect) => Font(f.codes, f.rects[dot := rect])
    case Append(rect) => Font(f.codes + [DOT_CODE], f.rects + [rect])
  }

  /** The repaired fonts. */
  function FixAll(a: Atlas, b: bytes, fonts: seq<Font>): (fixed: seq<Font>)
    requires FontsOk(a, fonts)
    ensures |fixed| == |fonts|
    ensures forall i :: 0 <= i < |fonts| ==> fixed[i] == Fixed(fonts[i], FixOf(a, b, fonts[i]))
  {
    seq(|fonts|, i requires 0 <= i < |fonts| => Fixed(fonts[i], FixOf(a, b, fonts[i])))
  }

  // ---- reading ----

  /** The visibility scan over the rows and columns of a glyph. */
  method IsVisible(a: Atlas, src: bytes, r: Rect) returns (visible: bool)
    requires RectOk(a, r) && a.imageEnd == a.imageStart + 4 * Area(a.width, a.height) && a.imageEnd <= |src|
    ensures visible <==> Visible(a, src, r)
  {
    for row := 0 to r.h
      invariant forall x, y :: r.x <= x < r.x + r.w && r.y <= y < r.y + row ==> !Opaque(a, src, x, y)
    {
      var y := r.y + row;
      for col := 0 to r.w
        invariant forall x :: r.x <= x < r.x + col ==> !Opaque(a, src, x, y)
      {
        AlphaInImage(a, r.x + col, y);
        if src[AlphaAt(a, r.x + col, y)] != 0 {
          assert Opaque(a, src, r.x + col, y);
          return true;
        }
      }
    }
    return false;
  }

  lemma {:induction false} ScanNothing(codes: seq<u16>)
    ensures LastDot(codes[..0]) == None && BestSource(codes[..0]) == None && BestRank(codes[..0], None) == NO_RANK
  {
  }

  /** The test on one rectangle. */
  method RectFits(a: Atlas, rect: Rect) returns (fits: bool)
    ensures fits <==> RectOk(a, rect)
  {
    return !(rect.w == 0 || rect.h == 0 || rect.x + rect.w > a.width || rect.y + rect.h > a.height);
  }

  /** The glyph loop: check every rectangle, remember the last dot and the best stand-in. */
  method ScanGlyphs(a: Atlas, src: bytes, p: nat, ghost f: Font)
    returns (ok: bool, dot: Option<nat>, source: Option<nat>)
    requires FontAt(src, p, f)
    ensures ok <==> forall i :: 0 <= i < |f.rects| ==> RectOk(a, f.rects[i])
    ensures ok ==> dot == LastDot(f.codes) && source == BestSource(f.codes)
  {
    hide LastDot, BestSource, Rank, CodesAt, RectsAt, U16At, ParseRect, RectOk;
    var n: nat := U16At(src, p);
    dot, source := None, None;
    var sourceRank := NO_RANK;
    ScanNothing(f.codes);
    for i := 0 to n
      invariant forall j :: 0 <= j < i ==> RectOk(a, f.rects[j])
      invariant dot == LastDot(f.codes[..i]) && source == BestSource(f.codes[..i])
      invariant sourceRank == BestRank(f.codes[..i], source)
    {
      var code := U16At(src, p + 2 + 2 * i);
      var rect := ParseRect(src, p + 2 + 2 * n + 8 * i);
      GlyphAt(src, p, f, i);
      var fits := RectFits(a, rect);
      if !fits {
        return false, None, None;
      }
      ScanStep(f.codes, i);
      if code == DOT_CODE {
        dot := Some(i);
      }
      var rank := Rank(code);
      if rank < sourceRank {
        source := Some(i);
        sourceRank := rank;
      }
    }
    Whole(f.codes);
    ok := true;
  }

  lemma {:induction false} GlyphAt(src: bytes, p: nat, f: Font, i: nat)
    requires FontAt(src, p, f) && i < |f.codes|
    ensures U16At(src, p + 2 + 2 * i) == f.codes[i]
    ensures ParseRect(src, p + 2 + 2 * |f.codes| + 8 * i) == f.rects[i]
  {
    var code, rect := f.codes[i], f.rects[i];
  }

  lemma {:induction false} ScanStep(codes: seq<u16>, i: nat)
    requires i < |codes|
    ensures LastDot(codes[..i + 1]) == if codes[i] == DOT_CODE then Some(i) else LastDot(codes[..i])
    ensures
      var prev := BestSource(codes[..i]);
      && BestRank(codes[..i], prev) == BestRank(codes[..i + 1], prev)
      && BestSource(codes[..i + 1]) == if Rank(codes[i]) < BestRank(codes[..i], prev) then Some(i) else prev
  {
    Extend(codes, i);
  }

  /** The patch that one font needs, from what the scan found. */
  method DecideFix(a: Atlas, src: bytes, p: nat, ghost f: Font, dot: Option<nat>, source: Option<nat>)
    returns (fix: Fix)
    requires FontAt(src, p, f) && FontOk(a, f) && dot == LastDot(f.codes) && source == BestSource(f.codes)
    requires a.imageEnd == a.imageStart + 4 * Area(a.width, a.height) && a.imageEnd <= |src|
    ensures fix == FixOf(a, src, f)
  {
    var rects := p + 2 + 2 * U16At(src, p);
    if dot.Some? {
      var rect := ParseRect(src, rects + 8 * dot.value);
      assert rect == f.rects[dot.value];
      var visible := IsVisible(a, src, rect);
      if visible || source.None? {
        return Keep;
      }
      assert ParseRect(src, rects + 8 * source.value) == f.rects[source.value];
      return Reuse(dot.value, ParseRect(src, rects + 8 * source.value));
    }
    if source.Some? {
      assert ParseRect(src, rects + 8 * source.value) == f.rects[source.value];
      return Append(ParseRect(src, rects + 8 * source.value));
    }
    return Keep;
  }

  /** The patch list for a sequence of per-font decisions. */
  function PatchesOf(fixes: seq<Fix>): seq<FontDotPatch> {
    if fixes == [] then []
    else if Last(fixes) == Keep then PatchesOf(DropLast(fixes))
    else PatchesOf(DropLast(fixes)) + [FontDotPatch(|fixes| - 1, Last(fixes))]
  }

  function FixesOf(a: Atlas, b: bytes, fonts: seq<Font>): (fixes: seq<Fix>)
    requires FontsOk(a, fonts)
    ensures |fixes| == |fonts|
    ensures forall i :: 0 <= i < |fonts| ==> fixes[i] == FixOf(a, b, fonts[i])
  {
    seq(|fonts|, i requires 0 <= i < |fonts| => FixOf(a, b, fonts[i]))
  }

  function Grown(fixes: seq<Fix>): (n: nat)
    ensures n <= |fixes|
  {
    if fixes == [] then 0 else Grown(DropLast(fixes)) + (if Last(fixes).Append? then 1 else 0)
  }

  lemma {:induction false} PatchCount(fixes: seq<Fix>)
    ensures |PatchesOf(fixes)| <= |fixes|
    ensures PatchesOf(fixes) == [] <==> forall i :: 0 <= i < |fixes| ==> fixes[i] == Keep
  {
    if fixes != [] {
      PatchCount(DropLast(fixes));
    }
  }

  /** One turn of the parse loop: check a table and decide what it needs. */
  method PlanFont(a: Atlas, src: bytes, p: nat) returns (fix: Option<Fix>, tableEnd: nat)
    requires a.imageEnd == a.imageStart + 4 * Area(a.width, a.height) && a.imageEnd <= |src|
    ensures fix.None? <==> ParseFont(a, src, p).None?
    ensures fix.Some? ==>
      var f := ParseFont(a, src, p).value;
      FontOk(a, f) && FontAt(src, p, f) && fix.value == FixOf(a, src, f) && tableEnd == p + TableSize(|f.codes|)
  {
    tableEnd := p;
    if p + 2 > |src| {
      return None, p;
    }
    var n: nat := U16At(src, p);
    tableEnd := p + 2 + 2 * n + 8 * n;
    if n == 0 || n > MAX_GLYPHS || tableEnd > |src| {
      return None, p;
    }
    ghost var f := RawFont(src, p);
    RawFontAt(src, p);
    FontReadBack(a, src, p, f);
    var good, dot, source := ScanGlyphs(a, src, p, f);
    if !good {
      return None, p;
    }
    var decided := DecideFix(a, src, p, f, dot, source);
    fix := Some(decided);
  }

  lemma {:induction false} ParseStep(a: Atlas, src: bytes, start: nat, i: nat, done: seq<Font>)
    requires ParseFonts(a, src, start, i) == Some(done)
    ensures
      var f := ParseFont(a, src, EndOf(start, done));
      ParseFonts(a, src, start, i + 1) == if f.None? then None else Some(done + [f.value])
  {
  }

  lemma {:induction false} PlanNothing(a: Atlas, src: bytes, start: nat)
    ensures ParseFonts(a, src, start, 0) == Some([]) && FontsOk(a, []) && EndOf(start, []) == start
    ensures PatchesOf(FixesOf(a, src, [])) == [] && Grown(FixesOf(a, src, [])) == 0
  {
  }

  /** The parse loop: reads and checks every table, and plans the patches. */
  method PlanPatches(a: Atlas, src: bytes, start: nat) returns (ok: bool, patches: seq<FontDotPatch>, added: nat)
    requires a.imageEnd == a.imageStart + 4 * Area(a.width, a.height) && a.imageEnd <= |src|
    requires a.fontCount <= MAX_FONTS
    ensures ok <==> ParseFonts(a, src, start, a.fontCount).Some?
    ensures ok ==>
      var fixes := FixesOf(a, src, ParsedOk(a, src, start));
      patches == PatchesOf(fixes) && added == Grown(fixes)
  {
    hide ParseFonts, ParseFont, FontsOk, FontOk, EndOf, FixOf, FixesOf, PatchesOf, Grown;
    PlanNothing(a, src, start);
    patches, added := [], 0;
    var p := start;
    ghost var done: seq<Font> := [];
    for i := 0 to a.fontCount
      invariant ParseFonts(a, src, start, i) == Some(done) && |done| == i && FontsOk(a, done) && p == EndOf(start, done)
      invariant patches == PatchesOf(FixesOf(a, src, done)) && added == Grown(FixesOf(a, src, done))
    {
      var fix, tableEnd := PlanFont(a, src, p);
      ParseStep(a, src, start, i, done);
      if fix.None? {
        ParseFontsFails(a, src, start, i + 1, a.fontCount);
        return false, [], 0;
      }
      ghost var f := ParseFont(a, src, p).value;
      PlanStep(a, src, done, f);
      PatchCount(FixesOf(a, src, done));
      if fix.value != Keep && |patches| < MAX_PATCHES {
        patches := patches + [FontDotPatch(i, fix.value)];
        if fix.value.Append? {
          added := added + 1;
        }
      }
      done := done + [f];
      p := tableEnd;
    }
    ok := true;
  }

  lemma {:induction false} PlanStep(a: Atlas, b: bytes, done: seq<Font>, f: Font)
    requires FontsOk(a, done) && FontOk(a, f)
    ensures FontsOk(a, done + [f])
    ensures forall p :: EndOf(p, done + [f]) == EndOf(p, done) + TableSize(|f.codes|)
    ensures
      var fix := FixOf(a, b, f);
      var fixes := FixesOf(a, b, done);
      && FixesOf(a, b, done + [f]) == fixes + [fix]
      && PatchesOf(fixes + [fix]) == PatchesOf(fixes) + (if fix == Keep then [] else [FontDotPatch(|done|, fix)])
      && Grown(fixes + [fix]) == Grown(fixes) + (if fix.Append? then 1 else 0)
  {
    assert DropLast(done + [f]) == done;
    assert FixesOf(a, b, done + [f]) == FixesOf(a, b, done) + [FixOf(a, b, f)];
    assert DropLast(FixesOf(a, b, done) + [FixOf(a, b, f)]) == FixesOf(a, b, done);
  }

  function ParsedOk(a: Atlas, src: bytes, start: nat): (fonts: seq<Font>)
    requires ParseFonts(a, src, start, a.fontCount).Some?
    ensures FontsOk(a, fonts)
  {
    ParsedFonts(a, src, start, a.fontCount);
    ParseFonts(a, src, start, a.fontCount).value
  }

  lemma {:induction false} ParseFontsFails(a: Atlas, src: bytes, start: nat, i: nat, n: nat)
    requires i <= n && ParseFonts(a, src, start, i).None?
    ensures ParseFonts(a, src, start, n).None?
  {
    hide ParseFont;
    if i < n {
      ParseFontsFails(a, src, start, i, n - 1);
    }
  }
}

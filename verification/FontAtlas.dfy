/** The imported font atlas (.aei): header, pixels and glyph tables, as bytes and as fonts. */
module FontAtlas {
  import opened Bytes
  import opened Slices

  type bytes = seq<byte>

  const AEI_MAGIC: bytes := [0x41, 0x45, 0x69, 0x6D, 0x61, 0x67, 0x65, 0x00]  // "AEimage\0"
  const MAX_SIDE := 4096
  const MAX_FONTS := 32
  const MAX_GLYPHS := 4096

  datatype Rect = Rect(x: u16, y: u16, w: u16, h: u16)

  datatype Font = Font(codes: seq<u16>, rects: seq<Rect>)

  /** Where the parts of an atlas are. */
  datatype Atlas = Atlas(width: nat, height: nat, imageStart: nat, imageEnd: nat, fontCount: nat)

  predicate StartsWith(b: bytes, magic: bytes) {
    |magic| <= |b| && forall i :: 0 <= i < |magic| ==> b[i] == magic[i]
  }

  function Area(width: nat, height: nat): nat { width * height }

  /** The tests on everything ahead of the glyph tables. */
  function ParseHeader(b: bytes): Option<Atlas> {
    if |b| < 17 || !StartsWith(b, AEI_MAGIC) || b[8] != 1 then None
    else
      var width, height, regions := U16At(b, 9), U16At(b, 11), U16At(b, 13);
      var start := 15 + 8 * regions;
      var end := start + 4 * Area(width, height);
      if width == 0 || height == 0 || width > MAX_SIDE || height > MAX_SIDE || end + 2 > |b| then None
      else
        var fonts := U16At(b, end);
        if fonts == 0 || fonts > MAX_FONTS then None else Some(Atlas(width, height, start, end, fonts))
  }

  predicate RectOk(a: Atlas, r: Rect) {
    0 < r.w && 0 < r.h && r.x + r.w <= a.width && r.y + r.h <= a.height
  }

  predicate FontOk(a: Atlas, f: Font) {
    && 0 < |f.codes| <= MAX_GLYPHS && |f.rects| == |f.codes|
    && forall i :: 0 <= i < |f.rects| ==> RectOk(a, f.rects[i])
  }

  // ---- glyph tables ----

  function ParseRect(b: bytes, p: nat): Rect
    requires p + 8 <= |b|
  {
    Rect(U16At(b, p), U16At(b, p + 2), U16At(b, p + 4), U16At(b, p + 6))
  }

  /** The bytes a table of `n` glyphs takes. */
  function TableSize(n: nat): nat { 2 + 10 * n }

  predicate CodesAt(b: bytes, p: nat, codes: seq<u16>)
    requires p + 2 * |codes| <= |b|
  {
    forall i {:trigger codes[i]} :: 0 <= i < |codes| ==> U16At(b, p + 2 * i) == codes[i]
  }

  predicate RectsAt(b: bytes, p: nat, rects: seq<Rect>)
    requires p + 8 * |rects| <= |b|
  {
    forall i {:trigger rects[i]} :: 0 <= i < |rects| ==> ParseRect(b, p + 8 * i) == rects[i]
  }

  /** A font stands at `p`: its glyph count, all codes, then all rectangles. */
  predicate FontAt(b: bytes, p: nat, f: Font) {
    var n := |f.codes|;
    && |f.rects| == n && p + TableSize(n) <= |b|
    && U16At(b, p) == n && CodesAt(b, p + 2, f.codes) && RectsAt(b, p + 2 + 2 * n, f.rects)
  }

  function EndOf(p: nat, fonts: seq<Font>): (end: nat)
    ensures p <= end
  {
    if fonts == [] then p else EndOf(p, DropLast(fonts)) + TableSize(|Last(fonts).codes|)
  }

  /** The fonts stand one after the other from `p` on. */
  predicate FontsAt(b: bytes, p: nat, fonts: seq<Font>) {
    fonts != [] ==> FontsAt(b, p, DropLast(fonts)) && FontAt(b, EndOf(p, DropLast(fonts)), Last(fonts))
  }

  /** One glyph table, as it stands. */
  function RawFont(b: bytes, p: nat): (f: Font)
    requires p + 2 <= |b| && p + TableSize(U16At(b, p)) <= |b|
    ensures |f.codes| == |f.rects| == U16At(b, p)
  {
    var n := U16At(b, p);
    Font(seq(n, i requires 0 <= i < n => U16At(b, p + 2 + 2 * i)),
         seq(n, i requires 0 <= i < n => ParseRect(b, p + 2 + 2 * n + 8 * i)))
  }

  lemma {:induction false} RawFontAt(b: bytes, p: nat)
    requires p + 2 <= |b| && p + TableSize(U16At(b, p)) <= |b|
    ensures FontAt(b, p, RawFont(b, p))
  {
  }

  /** One glyph table, read and checked. */
  function ParseFont(a: Atlas, b: bytes, p: nat): Option<Font> {
    if p + 2 > |b| then None
    else
      var n := U16At(b, p);
      if n == 0 || n > MAX_GLYPHS || p + TableSize(n) > |b| then None
      else
        var f := RawFont(b, p);
        if FontOk(a, f) then Some(f) else None
  }

  /** The first `n` tables from `p` on, when all of them pass. */
  function ParseFonts(a: Atlas, b: bytes, p: nat, n: nat): Option<seq<Font>> {
    if n == 0 then Some([])
    else
      match ParseFonts(a, b, p, n - 1)
      case None => None
      case Some(init) =>
        match ParseFont(a, b, EndOf(p, init))
        case None => None
        case Some(f) => Some(init + [f])
  }

  lemma {:induction false} ParsedFont(a: Atlas, b: bytes, p: nat)
    requires ParseFont(a, b, p).Some?
    ensures FontOk(a, ParseFont(a, b, p).value) && FontAt(b, p, ParseFont(a, b, p).value)
    ensures |ParseFont(a, b, p).value.codes| == U16At(b, p)
  {
  }

  /** A font that stands in its place and is well formed is parsed. */
  lemma {:induction false} FontReadBack(a: Atlas, b: bytes, p: nat, f: Font)
    requires FontAt(b, p, f)
    ensures ParseFont(a, b, p) == if FontOk(a, f) then Some(f) else None
  {
    var g := RawFont(b, p);
    assert g.codes == f.codes && g.rects == f.rects;
  }

  predicate FontsOk(a: Atlas, fonts: seq<Font>) {
    forall i :: 0 <= i < |fonts| ==> FontOk(a, fonts[i])
  }

  lemma {:induction false} ParsedFonts(a: Atlas, b: bytes, p: nat, n: nat)
    requires ParseFonts(a, b, p, n).Some?
    ensures
      var fonts := ParseFonts(a, b, p, n).value;
      |fonts| == n && FontsOk(a, fonts) && FontsAt(b, p, fonts) && (p <= |b| ==> EndOf(p, fonts) <= |b|)
  {
    if n > 0 {
      ParsedFonts(a, b, p, n - 1);
      var init := ParseFonts(a, b, p, n - 1).value;
      ParsedFont(a, b, EndOf(p, init));
      assert DropLast(ParseFonts(a, b, p, n).value) == init;
    }
  }

  /** Fonts that stand in their places are parsed exactly when all of them are well formed. */
  lemma {:induction false} FontsReadBack(a: Atlas, b: bytes, p: nat, fonts: seq<Font>)
    requires FontsAt(b, p, fonts)
    ensures ParseFonts(a, b, p, |fonts|) == if FontsOk(a, fonts) then Some(fonts) else None
  {
    if fonts != [] {
      var init := DropLast(fonts);
      FontsReadBack(a, b, p, init);
      FontReadBack(a, b, EndOf(p, init), Last(fonts));
      assert fonts == init + [Last(fonts)];
      assert FontsOk(a, fonts) <==> FontsOk(a, init) && FontOk(a, Last(fonts)) by {
        assert forall i :: 0 <= i < |init| ==> fonts[i] == init[i];
      }
    }
  }

  lemma {:induction false} SameU16(b: bytes, c: bytes, p: nat)
    requires p + 2 <= |b| && p + 2 <= |c| && U16At(b, p) == U16At(c, p)
    ensures b[p] == c[p] && b[p + 1] == c[p + 1]
  {
  }

  lemma {:induction false} SameCode(b: bytes, c: bytes, p: nat, f: Font, i: nat)
    requires FontAt(b, p, f) && FontAt(c, p, f) && i < |f.codes|
    ensures
      var q := p + 2 + 2 * i;
      b[q] == c[q] && b[q + 1] == c[q + 1]
  {
    var q := p + 2 + 2 * i;
    assert U16At(b, q) == f.codes[i] == U16At(c, q);
    SameU16(b, c, q);
  }

  lemma {:induction false} SameRect(b: bytes, c: bytes, p: nat, f: Font, i: nat)
    requires FontAt(b, p, f) && FontAt(c, p, f) && i < |f.codes|
    ensures
      var q := p + 2 + 2 * |f.codes| + 8 * i;
      && b[q] == c[q] && b[q + 1] == c[q + 1] && b[q + 2] == c[q + 2] && b[q + 3] == c[q + 3]
      && b[q + 4] == c[q + 4] && b[q + 5] == c[q + 5] && b[q + 6] == c[q + 6] && b[q + 7] == c[q + 7]
  {
    var q := p + 2 + 2 * |f.codes| + 8 * i;
    assert ParseRect(b, q) == f.rects[i] == ParseRect(c, q);
    SameU16(b, c, q);
    SameU16(b, c, q + 2);
    SameU16(b, c, q + 4);
    SameU16(b, c, q + 6);
  }

  lemma {:induction false} SameFontByte(b: bytes, c: bytes, p: nat, f: Font, k: nat)
    requires FontAt(b, p, f) && FontAt(c, p, f) && p <= k < p + TableSize(|f.codes|)
    ensures b[k] == c[k]
  {
    var n := |f.codes|;
    if k < p + 2 {
      SameU16(b, c, p);
    } else if k < p + 2 + 2 * n {
      SameCode(b, c, p, f, (k - p - 2) / 2);
    } else {
      SameRect(b, c, p, f, (k - p - 2 - 2 * n) / 8);
    }
  }

  /** Two files that hold the same font in the same place agree on its bytes. */
  lemma {:induction false} SameFontBytes(b: bytes, c: bytes, p: nat, f: Font)
    requires FontAt(b, p, f) && FontAt(c, p, f)
    ensures b[p..p + TableSize(|f.codes|)] == c[p..p + TableSize(|f.codes|)]
  {
    forall k | p <= k < p + TableSize(|f.codes|) ensures b[k] == c[k] {
      SameFontByte(b, c, p, f, k);
    }
  }

  lemma {:induction false} SameFontsBytes(b: bytes, c: bytes, p: nat, fonts: seq<Font>)
    requires FontsAt(b, p, fonts) && FontsAt(c, p, fonts) && EndOf(p, fonts) <= |b| && EndOf(p, fonts) <= |c|
    ensures b[p..EndOf(p, fonts)] == c[p..EndOf(p, fonts)]
  {
    if fonts != [] {
      var q := EndOf(p, DropLast(fonts));
      SameFontsBytes(b, c, p, DropLast(fonts));
      SameFontBytes(b, c, q, Last(fonts));
      Adjacent(b, p, q, EndOf(p, fonts));
      Adjacent(c, p, q, EndOf(p, fonts));
    }
  }

  lemma {:induction false} FontAtPrefix(b: bytes, c: bytes, p: nat, f: Font)
    requires b <= c && FontAt(b, p, f)
    ensures FontAt(c, p, f)
  {
  }

  lemma {:induction false} FontsAtPrefix(b: bytes, c: bytes, p: nat, fonts: seq<Font>)
    requires b <= c && FontsAt(b, p, fonts)
    ensures FontsAt(c, p, fonts)
  {
    if fonts != [] {
      FontsAtPrefix(b, c, p, DropLast(fonts));
      FontAtPrefix(b, c, EndOf(p, DropLast(fonts)), Last(fonts));
    }
  }

  // ---- pixels ----

  /** Where the alpha byte of a pixel is. */
  function AlphaAt(a: Atlas, x: nat, y: nat): nat { a.imageStart + Area(y, a.width) * 4 + x * 4 + 3 }

  lemma {:induction false} AlphaInImage(a: Atlas, x: nat, y: nat)
    requires x < a.width && y < a.height && a.imageEnd == a.imageStart + 4 * Area(a.width, a.height)
    ensures AlphaAt(a, x, y) < a.imageEnd
  {
    assert Area(y, a.width) + a.width == (y + 1) * a.width <= a.height * a.width == Area(a.width, a.height);
  }

  /** The pixel is not fully transparent. */
  predicate Opaque(a: Atlas, b: bytes, x: nat, y: nat) {
    AlphaAt(a, x, y) < |b| && b[AlphaAt(a, x, y)] != 0
  }

  /** Some pixel of the rectangle is not fully transparent. */
  predicate Visible(a: Atlas, b: bytes, r: Rect) {
    exists x, y :: r.x <= x < r.x + r.w && r.y <= y < r.y + r.h && Opaque(a, b, x, y)
  }
}

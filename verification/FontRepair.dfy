/**
 * What the full-stop repair guarantees: nothing else changes, the stop becomes usable, a second run changes no byte.
 */
module FontRepair {
  import opened Bytes
  import opened Slices
  import opened FontAtlas
  import opened FontPatch
  import opened FontRewrite

  /** The glyph the repair borrows from: the first one of the best rank present. */
  predicate IsBestSource(codes: seq<u16>, s: nat) {
    && s < |codes| && Rank(codes[s]) < NO_RANK
    && (forall i :: 0 <= i < |codes| ==> Rank(codes[s]) <= Rank(codes[i]))
    && (forall i :: 0 <= i < s ==> Rank(codes[s]) < Rank(codes[i]))
  }

  predicate HasSource(codes: seq<u16>) {
    exists i :: 0 <= i < |codes| && Rank(codes[i]) < NO_RANK
  }

  lemma {:induction false} BestSourceIs(codes: seq<u16>)
    ensures BestSource(codes).None? <==> !HasSource(codes)
    ensures BestSource(codes).Some? ==> IsBestSource(codes, BestSource(codes).value)
  {
    if codes != [] {
      var init := DropLast(codes);
      BestSourceIs(init);
      assert forall i :: 0 <= i < |init| ==> codes[i] == init[i];
      if BestSource(init).None? && Rank(Last(codes)) >= NO_RANK {
        forall i | 0 <= i < |codes| ensures Rank(codes[i]) >= NO_RANK {
          assert i < |init| ==> Rank(init[i]) >= NO_RANK;
        }
      }
    }
  }

  lemma {:induction false} LastDotIs(codes: seq<u16>)
    ensures LastDot(codes).None? <==> DOT_CODE !in codes
    ensures LastDot(codes).Some? ==> forall i :: LastDot(codes).value < i < |codes| ==> codes[i] != DOT_CODE
  {
    if codes != [] {
      LastDotIs(DropLast(codes));
      assert codes == DropLast(codes) + [Last(codes)];
    }
  }

  /** The repaired font has a full stop that was visible all along or shows the best stand-in. */
  ghost predicate Served(a: Atlas, b: bytes, f: Font, g: Font, d: nat) {
    && d < |g.codes| == |g.rects| && |f.codes| == |f.rects| && g.codes[d] == DOT_CODE
    && ((d < |f.rects| && g.rects[d] == f.rects[d] && Visible(a, b, f.rects[d]))
        || exists s: nat :: IsBestSource(f.codes, s) && g.rects[d] == f.rects[s])
  }

  /** Meaning is preserved, glyph by glyph. */
  lemma {:induction false} RepairKeeps(a: Atlas, b: bytes, f: Font)
    requires FontOk(a, f)
    ensures
      var g := Fixed(f, FixOf(a, b, f));
      && |g.codes| == |g.rects| && (g.codes == f.codes || g.codes == f.codes + [DOT_CODE])
      && (g.codes != f.codes ==> DOT_CODE !in f.codes)
      && (forall i :: 0 <= i < |g.rects| ==> RectOk(a, g.rects[i]))
      && (forall i :: 0 <= i < |f.rects| && g.rects[i] != f.rects[i] ==>
            f.codes[i] == DOT_CODE && !Visible(a, b, f.rects[i])
            && forall j :: i < j < |f.codes| ==> f.codes[j] != DOT_CODE)
  {
    LastDotIs(f.codes);
    BestSourceIs(f.codes);
  }

  /** Every font with a stand-in ends up with a usable full stop. */
  lemma {:induction false} RepairServes(a: Atlas, b: bytes, f: Font) returns (d: nat)
    requires FontOk(a, f) && HasSource(f.codes)
    ensures Served(a, b, f, Fixed(f, FixOf(a, b, f)), d)
  {
    BestSourceIs(f.codes);
    var dot := LastDot(f.codes);
    d := if dot.Some? then dot.value else |f.codes|;
  }

  /** Repairing a repaired font changes nothing. */
  lemma {:induction false} RepairTwice(a: Atlas, b: bytes, f: Font)
    requires FontOk(a, f)
    ensures
      var g := Fixed(f, FixOf(a, b, f));
      |g.codes| == |g.rects| && Fixed(g, FixOf(a, b, g)) == g
  {
    var g := Fixed(f, FixOf(a, b, f));
    var source := BestSource(f.codes);
    if FixOf(a, b, f).Append? {
      assert DropLast(g.codes) == f.codes && Last(g.codes) == DOT_CODE;
      assert BestSource(g.codes) == source;
      assert g.rects[|f.rects| := g.rects[source.value]] == g.rects;
    } else if FixOf(a, b, f).Reuse? {
      var dot := LastDot(f.codes).value;
      assert g.rects[source.value] == f.rects[source.value] == g.rects[dot];
      assert g.rects[dot := g.rects[source.value]] == g.rects;
    }
  }

  // ---- the file ----

  lemma {:induction false} SameVisible(src: bytes, dst: bytes, a: Atlas, r: Rect)
    requires a.imageEnd == a.imageStart + 4 * Area(a.width, a.height) && RectOk(a, r)
    requires a.imageEnd <= |src| && a.imageEnd <= |dst| && forall k :: 0 <= k < a.imageEnd ==> dst[k] == src[k]
    ensures Visible(a, dst, r) <==> Visible(a, src, r)
  {
    hide Area;
    forall x, y | r.x <= x < r.x + r.w && r.y <= y < r.y + r.h ensures Opaque(a, dst, x, y) <==> Opaque(a, src, x, y) {
      AlphaInImage(a, x, y);
    }
  }

  /** Header, regions and pixels are the same bytes, so they mean the same. */
  lemma {:induction false} SameHeader(src: bytes, dst: bytes, a: Atlas)
    requires ParseHeader(src) == Some(a)
    requires a.imageEnd + 2 <= |dst| && a.imageEnd + 2 <= |src| && dst[..a.imageEnd + 2] == src[..a.imageEnd + 2]
    ensures ParseHeader(dst) == Some(a)
    ensures forall r :: RectOk(a, r) ==> (Visible(a, dst, r) <==> Visible(a, src, r))
  {
    HeaderShape(src);
    var n := a.imageEnd + 2;
    forall k | 0 <= k < n ensures dst[k] == src[k] {
      assert dst[..n][k] == src[..n][k];
    }
    forall r | RectOk(a, r) ensures Visible(a, dst, r) <==> Visible(a, src, r) {
      SameVisible(src, dst, a, r);
    }
  }

  /** The repair appends a glyph: the font has a stand-in but no full stop. */
  predicate Grows(f: Font) { DOT_CODE !in f.codes && HasSource(f.codes) }

  /** No font that is to grow is full already. */
  predicate NoneOutgrown(fonts: seq<Font>) {
    forall i :: 0 <= i < |fonts| && Grows(fonts[i]) ==> |fonts[i].codes| < MAX_GLYPHS
  }

  lemma {:induction false} FixedOk(a: Atlas, b: bytes, f: Font)
    requires FontOk(a, f)
    ensures FontOk(a, Fixed(f, FixOf(a, b, f))) <==> (Grows(f) ==> |f.codes| < MAX_GLYPHS)
  {
    RepairKeeps(a, b, f);
    LastDotIs(f.codes);
    BestSourceIs(f.codes);
  }

  lemma {:induction false} AllFixedOk(a: Atlas, b: bytes, fonts: seq<Font>)
    requires FontsOk(a, fonts)
    ensures FontsOk(a, FixAll(a, b, fonts)) <==> NoneOutgrown(fonts)
  {
    var fixed := FixAll(a, b, fonts);
    forall i | 0 <= i < |fonts| ensures FontOk(a, fixed[i]) <==> (Grows(fonts[i]) ==> |fonts[i].codes| < MAX_GLYPHS) {
      FixedOk(a, b, fonts[i]);
    }
  }

  lemma {:induction false} TablesReparse(src: bytes, dst: bytes, a: Atlas, fonts: seq<Font>)
    requires ParseHeader(src) == Some(a) && FontsOk(a, fonts) && |fonts| == a.fontCount
      && RewrittenTo(src, a, fonts, dst)
    ensures ParseHeader(dst) == Some(a)
    ensures
      var fixed := FixAll(a, src, fonts);
      ParseFonts(a, dst, a.imageEnd + 2, a.fontCount) == if NoneOutgrown(fonts) then Some(fixed) else None
  {
    SameHeader(src, dst, a);
    FontsReadBack(a, dst, a.imageEnd + 2, FixAll(a, src, fonts));
    AllFixedOk(a, src, fonts);
  }

  lemma {:induction false} FontsInShape(src: bytes)
    requires FontsIn(src).Some?
    ensures
      var (a, fonts) := FontsIn(src).value;
      ParseHeader(src) == Some(a) && FontsOk(a, fonts) && |fonts| == a.fontCount
  {
    var a := ParseHeader(src).value;
    ParsedFonts(a, src, a.imageEnd + 2, a.fontCount);
  }

  /** The repaired file parses to the repaired fonts, exactly when no font that grows was full before. */
  lemma {:induction false} RepairReparses(src: bytes, dst: bytes)
    requires RepairedInto(src, dst)
    ensures
      var (a, fonts) := FontsIn(src).value;
      var fixed := FixAll(a, src, fonts);
      FontsIn(dst) == if NoneOutgrown(fonts) then Some((a, fixed)) else None
  {
    var (a, fonts) := FontsIn(src).value;
    FontsInShape(src);
    TablesReparse(src, dst, a, fonts);
    TablesIn(dst, a);
  }

  lemma {:induction false} FixAllTwice(a: Atlas, src: bytes, dst: bytes, fonts: seq<Font>)
    requires FontsOk(a, fonts) && FontsOk(a, FixAll(a, src, fonts))
    requires forall r :: RectOk(a, r) ==> (Visible(a, dst, r) <==> Visible(a, src, r))
    ensures FixAll(a, dst, FixAll(a, src, fonts)) == FixAll(a, src, fonts)
  {
    var fixed := FixAll(a, src, fonts);
    forall i | 0 <= i < |fixed| ensures FixAll(a, dst, fixed)[i] == fixed[i] {
      RepairTwice(a, src, fonts[i]);
      assert FontOk(a, fixed[i]);
      assert FixOf(a, dst, fixed[i]) == FixOf(a, src, fixed[i]);
    }
  }

  lemma {:induction false} TablesStable(src: bytes, dst: bytes, again: bytes, a: Atlas, fonts: seq<Font>)
    requires ParseHeader(src) == Some(a) && FontsOk(a, fonts) && RewrittenTo(src, a, fonts, dst)
    requires FontsOk(a, FixAll(a, src, fonts)) && RewrittenTo(dst, a, FixAll(a, src, fonts), again)
    ensures again == dst
  {
    var fixed := FixAll(a, src, fonts);
    var start := a.imageEnd + 2;
    SameHeader(src, dst, a);
    FixAllTwice(a, src, dst, fonts);
    SameFontsBytes(dst, again, start, fixed);
    Halves(dst, start);
    Halves(again, start);
  }

  lemma {:induction false} Halves(b: bytes, n: nat)
    requires n <= |b|
    ensures b == b[..n] + b[n..|b|]
  {
  }

  /** A second run changes no byte. */
  lemma {:induction false} RepairStable(src: bytes, dst: bytes, again: bytes)
    requires RepairedInto(src, dst) && RepairedInto(dst, again)
    ensures again == dst
  {
    var (a, fonts) := FontsIn(src).value;
    FontsInShape(src);
    FontsInShape(dst);
    RepairReparses(src, dst);
    TablesStable(src, dst, again, a, fonts);
  }
}

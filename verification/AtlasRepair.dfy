/** The full-stop repair seen from outside: which atlases it rewrites, and into which. */
module AtlasRepair {
  import opened Bytes
  import opened FontAtlas
  import opened FontPatch
  import opened FontRewrite
  import opened FontRepair
  import opened AtlasWriter

  const DOT: u16 := 46
  const MIDDLE_DOT: u16 := 183
  const COLON_SIGN: u16 := 58
  const COMMA: u16 := 44
  const APOSTROPHE: u16 := 39

  /** The first glyph with that code. */
  function FirstGlyph(codes: seq<u16>, code: u16): (i: nat)
    requires code in codes
    ensures i < |codes| && codes[i] == code && forall j :: 0 <= j < i ==> codes[j] != code
  {
    if codes[0] == code then 0 else 1 + FirstGlyph(codes[1..], code)
  }

  /** The glyph to borrow: a middle dot, else a colon, else a comma, else an apostrophe. */
  function StandIn(codes: seq<u16>): (r: Option<nat>)
    ensures r.Some? ==> r.value < |codes|
  {
    if MIDDLE_DOT in codes then Some(FirstGlyph(codes, MIDDLE_DOT))
    else if COLON_SIGN in codes then Some(FirstGlyph(codes, COLON_SIGN))
    else if COMMA in codes then Some(FirstGlyph(codes, COMMA))
    else if APOSTROPHE in codes then Some(FirstGlyph(codes, APOSTROPHE))
    else None
  }

  /** The last of several full stops. */
  predicate IsStop(codes: seq<u16>, d: nat) {
    d < |codes| && codes[d] == DOT && forall j :: d < j < |codes| ==> codes[j] != DOT
  }

  /**
   * `g` is `f` repaired: untouched when there is nothing to borrow or the full stop shows, else with a full stop
   * that looks like the borrowed glyph.
   */
  ghost predicate RepairedFont(rows: Image, f: Font, g: Font)
    requires |f.codes| == |f.rects|
  {
    var source := StandIn(f.codes);
    if source.None? then g == f
    else if DOT !in f.codes then g == Font(f.codes + [DOT], f.rects + [f.rects[source.value]])
    else
      exists d: nat ::
        && IsStop(f.codes, d)
        && g == if Shows(rows, f.rects[d]) then f else Font(f.codes, f.rects[d := f.rects[source.value]])
  }

  // ---- the choices of the repair are these ----

  lemma {:induction false} BestIsStandIn(codes: seq<u16>)
    ensures BestSource(codes) == StandIn(codes)
  {
    BestSourceIs(codes);
    if MIDDLE_DOT in codes {
      BestAt(codes, FirstGlyph(codes, MIDDLE_DOT));
    } else if COLON_SIGN in codes {
      BestAt(codes, FirstGlyph(codes, COLON_SIGN));
    } else if COMMA in codes {
      BestAt(codes, FirstGlyph(codes, COMMA));
    } else if APOSTROPHE in codes {
      BestAt(codes, FirstGlyph(codes, APOSTROPHE));
    }
  }

  lemma {:induction false} BestAt(codes: seq<u16>, i: nat)
    requires i < |codes| && Rank(codes[i]) < NO_RANK
    requires forall j :: 0 <= j < |codes| ==> Rank(codes[i]) <= Rank(codes[j])
    requires forall j :: 0 <= j < i ==> codes[j] != codes[i]
    ensures BestSource(codes) == Some(i)
  {
    BestSourceIs(codes);
    var s := BestSource(codes).value;
    SameRank(codes[s], codes[i]);
  }

  lemma {:induction false} SameRank(a: u16, b: u16)
    ensures Rank(a) == Rank(b) < NO_RANK ==> a == b
  {
  }

  /** What is done to a font of a written atlas. */
  lemma {:induction false} FixedIsRepaired(p: Picture, f: Font)
    requires p.Valid() && FontOk(AtlasOf(p), f)
    ensures RepairedFont(p.rows, f, Fixed(f, FixOf(AtlasOf(p), FileBytes(p), f)))
    ensures FixOf(AtlasOf(p), FileBytes(p), f) == Keep <==>
      StandIn(f.codes).None? || exists d: nat :: IsStop(f.codes, d) && Shows(p.rows, f.rects[d])
  {
    hide FileBytes, Visible, Shows, BestSource, StandIn, LastDot;
    BestIsStandIn(f.codes);
    LastDotIs(f.codes);
    var dot := LastDot(f.codes);
    if dot.Some? {
      VisibleIs(p, f.rects[dot.value]);
      assert IsStop(f.codes, dot.value);
      forall d: nat | IsStop(f.codes, d) ensures d == dot.value {
      }
    }
  }

  // ---- whole files ----

  ghost predicate Borrows(p: Picture, f: Font)
    requires |f.codes| == |f.rects|
  {
    StandIn(f.codes).Some? && !exists d: nat :: IsStop(f.codes, d) && Shows(p.rows, f.rects[d])
  }

  lemma {:induction false} WrittenIn(p: Picture)
    requires p.Sized()
    ensures
      FontsIn(FileBytes(p)) ==
        if p.Within() && FontsOk(AtlasOf(p), p.fonts) then Some((AtlasOf(p), p.fonts)) else None
  {
    hide FileBytes, FontsAt, FontsOk, ParseHeader;
    var a := AtlasOf(p);
    HeaderRead(p);
    if p.Within() {
      TablesRead(p);
      TablesIn(FileBytes(p), a);
      FontsReadBack(a, FileBytes(p), a.imageEnd + 2, p.fonts);
    }
  }

  lemma {:induction false} BorrowsIs(p: Picture, f: Font)
    requires p.Valid() && FontOk(AtlasOf(p), f)
    ensures FixOf(AtlasOf(p), FileBytes(p), f) != Keep <==> Borrows(p, f)
  {
    hide FileBytes, Shows, StandIn, FixOf, IsStop;
    FixedIsRepaired(p, f);
  }

  /** A written atlas is rewritten just when it is within limits, its fonts are well formed, and one has to borrow. */
  lemma {:induction false} RepairableIs(p: Picture)
    requires p.Sized()
    ensures Repairable(FileBytes(p)) <==>
      p.Within() && FontsOk(AtlasOf(p), p.fonts) && exists i :: 0 <= i < |p.fonts| && Borrows(p, p.fonts[i])
  {
    hide FileBytes, Borrows, FixOf, ParseHeader, ParseFonts, FontsIn, FontsAt, FontOk;
    WrittenIn(p);
    TablesRead(p);
    if p.Within() && FontsOk(AtlasOf(p), p.fonts) {
      forall i | 0 <= i < |p.fonts|
        ensures FixOf(AtlasOf(p), FileBytes(p), p.fonts[i]) != Keep <==> Borrows(p, p.fonts[i])
      {
        BorrowsIs(p, p.fonts[i]);
      }
    }
  }

  /** And it becomes the atlas of the same picture with repaired fonts, byte for byte. */
  lemma {:induction false} RepairedFile(p: Picture, dst: bytes) returns (q: Picture)
    requires p.Valid() && RepairedInto(FileBytes(p), dst)
    ensures q.Valid() && q == p.(fonts := q.fonts) && |q.fonts| == |p.fonts|
    ensures forall i :: 0 <= i < |p.fonts| ==> RepairedFont(p.rows, p.fonts[i], q.fonts[i])
    ensures dst == FileBytes(q)
  {
    hide RepairedFont, FixOf, Fixed, FontsAt, HeadBytes, FontsBytes, FontOk;
    var a, src := AtlasOf(p), FileBytes(p);
    WrittenIn(p);
    Pieces(p);
    var fixed := FixAll(a, src, p.fonts);
    q := p.(fonts := fixed);
    forall i | 0 <= i < |fixed|
      ensures RepairedFont(p.rows, p.fonts[i], fixed[i]) && p.GoodFont(fixed[i])
    {
      FixedIsRepaired(p, p.fonts[i]);
      FixedGood(a, src, p.fonts[i]);
    }
    SameHead(p, q);
    SameFile(HeadBytes(p), src, dst, fixed);
  }

  lemma {:induction false} FixedGood(a: Atlas, src: bytes, f: Font)
    requires FontOk(a, f)
    ensures
      var g := Fixed(f, FixOf(a, src, f));
      0 < |g.codes| == |g.rects| && |g.codes| < 0x1_0000
  {
  }

  lemma {:induction false} SameHead(p: Picture, q: Picture)
    requires p.Valid() && q.Valid() && q == p.(fonts := q.fonts) && |q.fonts| == |p.fonts|
    ensures HeadBytes(q) == HeadBytes(p)
  {
  }

  lemma {:induction false} Rejoin(b: bytes, n: nat)
    requires n <= |b|
    ensures b == b[..n] + b[n..|b|]
  {
  }

  lemma {:induction false} SameFile(head: bytes, src: bytes, dst: bytes, fonts: seq<Font>)
    requires forall i :: 0 <= i < |fonts| ==> |fonts[i].codes| == |fonts[i].rects| < 0x1_0000
    requires head <= src && head <= dst && FontsAt(dst, |head|, fonts) && |dst| == EndOf(|head|, fonts)
    ensures dst == head + FontsBytes(fonts)
  {
    hide FontsAt, EndOf, FontsBytes;
    var c := head + FontsBytes(fonts);
    FontsRead(head, fonts);
    SameFontsBytes(dst, c, |head|, fonts);
    Rejoin(dst, |head|);
    Rejoin(c, |head|);
  }
}

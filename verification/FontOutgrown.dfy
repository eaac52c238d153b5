/** A family of atlases that shows where the repaired file stops being readable: one font of `n` colons. */
module FontOutgrown {
  import opened Bytes
  import opened Slices
  import opened FontAtlas
  import opened FontPatch
  import opened FontRewrite
  import opened FontRepair

  /** Byte `j` of the rectangle of the one pixel. */
  function PixelByte(j: nat): byte { if j == 4 || j == 6 then 1 else 0 }

  function ColonByte(n: nat, k: nat): byte
    requires n <= MAX_GLYPHS
  {
    if k < 8 then AEI_MAGIC[k]
    else if k == 8 || k == 9 || k == 11 || k == 19 then 1
    else if k < 21 then 0
    else if k == 21 then n % 256
    else if k == 22 then n / 256
    else if k < 23 + 2 * n then (if k % 2 == 1 then 58 else 0)
    else PixelByte((k - 23 - 2 * n) % 8)
  }

  function ColonFile(n: nat): (b: bytes)
    requires n <= MAX_GLYPHS
    ensures |b| == 23 + 10 * n
    ensures forall k :: 0 <= k < |b| ==> b[k] == ColonByte(n, k)
  {
    seq(23 + 10 * n, k requires 0 <= k < 23 + 10 * n => ColonByte(n, k))
  }

  function ColonFont(n: nat): (f: Font)
    ensures |f.codes| == |f.rects| == n
    ensures forall i :: 0 <= i < n ==> f.codes[i] == 58 && f.rects[i] == Rect(0, 0, 1, 1)
  {
    Font(seq(n, _ => 58), seq(n, _ => Rect(0, 0, 1, 1)))
  }

  const ONE_PIXEL := Atlas(1, 1, 15, 19, 1)

  lemma {:induction false} ColonCode(n: nat, i: nat)
    requires i < n <= MAX_GLYPHS
    ensures U16At(ColonFile(n), 23 + 2 * i) == 58
  {
  }

  lemma {:induction false} ColonRectByte(n: nat, i: nat, j: nat)
    requires i < n <= MAX_GLYPHS && j < 8
    ensures ColonByte(n, 23 + 2 * n + 8 * i + j) == PixelByte(j)
  {
    assert (8 * i + j) % 8 == j;
  }

  lemma {:induction false} PixelRect(b: bytes, p: nat)
    requires p + 8 <= |b|
    requires b[p] == 0 && b[p + 1] == 0 && b[p + 2] == 0 && b[p + 3] == 0
    requires b[p + 4] == 1 && b[p + 5] == 0 && b[p + 6] == 1 && b[p + 7] == 0
    ensures ParseRect(b, p) == Rect(0, 0, 1, 1)
  {
  }

  lemma {:induction false} ColonRect(n: nat, i: nat)
    requires i < n <= MAX_GLYPHS
    ensures ParseRect(ColonFile(n), 23 + 2 * n + 8 * i) == Rect(0, 0, 1, 1)
  {
    hide ColonByte;
    ColonRectByte(n, i, 0);
    ColonRectByte(n, i, 1);
    ColonRectByte(n, i, 2);
    ColonRectByte(n, i, 3);
    ColonRectByte(n, i, 4);
    ColonRectByte(n, i, 5);
    ColonRectByte(n, i, 6);
    ColonRectByte(n, i, 7);
    PixelRect(ColonFile(n), 23 + 2 * n + 8 * i);
  }

  lemma {:induction false} ColonHead(n: nat)
    requires 0 < n <= MAX_GLYPHS
    ensures ParseHeader(ColonFile(n)) == Some(ONE_PIXEL) && U16At(ColonFile(n), 21) == n
  {
    var b := ColonFile(n);
    assert U16At(b, 9) == 1 && U16At(b, 11) == 1 && U16At(b, 13) == 0 && U16At(b, 19) == 1;
  }

  lemma {:induction false} ColonCodes(n: nat)
    requires n <= MAX_GLYPHS
    ensures CodesAt(ColonFile(n), 23, ColonFont(n).codes)
  {
    hide ColonFile, U16At;
    forall i | 0 <= i < n ensures U16At(ColonFile(n), 23 + 2 * i) == ColonFont(n).codes[i] {
      ColonCode(n, i);
    }
  }

  lemma {:induction false} ColonRects(n: nat)
    requires n <= MAX_GLYPHS
    ensures RectsAt(ColonFile(n), 23 + 2 * n, ColonFont(n).rects)
  {
    hide ColonFile, ParseRect;
    forall i | 0 <= i < n ensures ParseRect(ColonFile(n), 23 + 2 * n + 8 * i) == ColonFont(n).rects[i] {
      ColonRect(n, i);
    }
  }

  lemma {:induction false} ColonTables(n: nat)
    requires 0 < n <= MAX_GLYPHS
    ensures FontsAt(ColonFile(n), 21, [ColonFont(n)])
  {
    hide ColonFile, CodesAt, RectsAt, U16At;
    ColonHead(n);
    ColonCodes(n);
    ColonRects(n);
    assert FontAt(ColonFile(n), 21, ColonFont(n));
    assert DropLast([ColonFont(n)]) == [];
  }

  lemma {:induction false} ColonFontGrows(n: nat, b: bytes)
    requires 0 < n <= MAX_GLYPHS
    ensures FontOk(ONE_PIXEL, ColonFont(n)) && Grows(ColonFont(n)) && FixOf(ONE_PIXEL, b, ColonFont(n)) != Keep
  {
    var f := ColonFont(n);
    assert Rank(f.codes[0]) < NO_RANK;
    LastDotIs(f.codes);
    BestSourceIs(f.codes);
  }

  lemma {:induction false} ColonParses(n: nat)
    requires 0 < n <= MAX_GLYPHS
    ensures FontsIn(ColonFile(n)) == Some((ONE_PIXEL, [ColonFont(n)]))
  {
    hide ColonFile, FontsAt, ParseHeader, FontOk;
    ColonHead(n);
    ColonTables(n);
    ColonFontGrows(n, []);
    FontsReadBack(ONE_PIXEL, ColonFile(n), 21, [ColonFont(n)]);
    TablesIn(ColonFile(n), ONE_PIXEL);
  }

  /** Each of these files is repaired; the repaired form is refused by the parser just when the font has 4096 glyphs. */
  lemma {:induction false} ColonFileRepaired(n: nat, dst: bytes)
    requires 0 < n <= MAX_GLYPHS
    ensures Repairable(ColonFile(n))
    ensures RepairedInto(ColonFile(n), dst) ==> (FontsIn(dst).None? <==> n == MAX_GLYPHS)
  {
    hide FontsIn, RewrittenTo, FixOf, FontOk, Grows;
    var src, f := ColonFile(n), ColonFont(n);
    ColonParses(n);
    ColonFontGrows(n, src);
    assert [f][0] == f && EndOf(21, [f]) == 21 + TableSize(n) by {
      assert DropLast([f]) == [] && Last([f]) == f;
    }
    if RepairedInto(src, dst) {
      RepairReparses(src, dst);
    }
  }
}

/** Font atlases written from pixels, rows and glyphs, apart from the reader: it finds what was meant. */
module AtlasWriter {
  import opened Bytes
  import opened Slices
  import opened FontAtlas

  datatype Pixel = Pixel(r: byte, g: byte, b: byte, a: byte)

  type Image = seq<seq<Pixel>>

  /** An atlas as its maker sees it: the rows of the image from the top, `regions` records of 8 bytes, the fonts. */
  datatype Picture = Picture(width: u16, rows: Image, regions: bytes, fonts: seq<Font>) {
    /** What the fields of the file can hold. */
    predicate Sized() {
      && |rows| < 0x1_0000 && (forall y :: 0 <= y < |rows| ==> |rows[y]| == width)
      && |regions| % 8 == 0 && |regions| / 8 < 0x1_0000
      && |fonts| < 0x1_0000 && forall i :: 0 <= i < |fonts| ==> GoodFont(fonts[i])
    }

    /** What the program accepts of that. */
    predicate Within() { 0 < width <= 4096 && 0 < |rows| <= 4096 && 0 < |fonts| <= 32 }

    predicate Valid() { Sized() && Within() }

    predicate GoodFont(f: Font) {
      |f.codes| == |f.rects| < 0x1_0000
    }
  }

  // ---- the bytes ----

  function Two(v: u16): (s: bytes) ensures |s| == 2 { [v % 256, v / 256] }

  function RowBytes(row: seq<Pixel>): (s: bytes)
    ensures |s| == 4 * |row|
  {
    if row == [] then [] else RowBytes(DropLast(row)) + [Last(row).r, Last(row).g, Last(row).b, Last(row).a]
  }

  function ImageBytes(rows: Image): bytes {
    if rows == [] then [] else ImageBytes(DropLast(rows)) + RowBytes(Last(rows))
  }

  function CodeBytes(codes: seq<u16>): (s: bytes)
    ensures |s| == 2 * |codes|
  {
    if codes == [] then [] else CodeBytes(DropLast(codes)) + Two(Last(codes))
  }

  function RectBytes(r: Rect): (s: bytes) ensures |s| == 8 { Two(r.x) + Two(r.y) + Two(r.w) + Two(r.h) }

  function RectsBytes(rects: seq<Rect>): (s: bytes)
    ensures |s| == 8 * |rects|
  {
    if rects == [] then [] else RectsBytes(DropLast(rects)) + RectBytes(Last(rects))
  }

  function FontBytes(f: Font): (s: bytes)
    requires |f.codes| == |f.rects| < 0x1_0000
    ensures |s| == 2 + 10 * |f.codes|
  {
    Two(|f.codes|) + CodeBytes(f.codes) + RectsBytes(f.rects)
  }

  function FontsBytes(fonts: seq<Font>): bytes
    requires forall i :: 0 <= i < |fonts| ==> |fonts[i].codes| == |fonts[i].rects| < 0x1_0000
  {
    if fonts == [] then [] else FontsBytes(DropLast(fonts)) + FontBytes(Last(fonts))
  }

  /** "AEimage", a zero byte and the version. */
  const MAGIC: bytes := [0x41, 0x45, 0x69, 0x6D, 0x61, 0x67, 0x65, 0x00, 0x01]

  /** Everything ahead of the glyph tables. */
  function HeadBytes(p: Picture): bytes
    requires p.Sized()
  {
    MAGIC + Two(p.width) + Two(|p.rows|) + Two(|p.regions| / 8) + p.regions + ImageBytes(p.rows) + Two(|p.fonts|)
  }

  function FileBytes(p: Picture): bytes
    requires p.Sized()
  {
    HeadBytes(p) + FontsBytes(p.fonts)
  }

  // ---- pieces ----

  lemma {:induction false} TwoRead(b: bytes, p: nat, v: u16)
    requires p + 2 <= |b| && b[p..p + 2] == Two(v)
    ensures U16At(b, p) == v
  {
    assert b[p] == b[p..p + 2][0] && b[p + 1] == b[p..p + 2][1];
  }

  lemma {:induction false} ImageSize(rows: Image, width: nat)
    requires forall y :: 0 <= y < |rows| ==> |rows[y]| == width
    ensures |ImageBytes(rows)| == 4 * Area(width, |rows|)
  {
    if rows != [] {
      ImageSize(DropLast(rows), width);
      assert Area(width, |rows|) == Area(width, |rows| - 1) + width;
    }
  }

  lemma {:induction false} RowAt(row: seq<Pixel>, x: nat)
    requires x < |row|
    ensures RowBytes(row)[4 * x + 3] == row[x].a
    decreases |row|
  {
    if x < |row| - 1 {
      RowAt(DropLast(row), x);
    }
  }

  /** The alpha byte of the pixel in column `x` of row `y`. */
  lemma {:induction false} ImageAt(rows: Image, width: nat, x: nat, y: nat)
    requires y < |rows| && x < width && forall i :: 0 <= i < |rows| ==> |rows[i]| == width
    ensures 4 * Area(width, y) + 4 * x + 3 < |ImageBytes(rows)|
    ensures ImageBytes(rows)[4 * Area(width, y) + 4 * x + 3] == rows[y][x].a
    decreases |rows|
  {
    hide Area, RowBytes;
    ImageSize(DropLast(rows), width);
    if y < |rows| - 1 {
      ImageAt(DropLast(rows), width, x, y);
    } else {
      RowAt(Last(rows), x);
    }
  }

  lemma {:induction false} CodePlaced(codes: seq<u16>, i: nat)
    requires i < |codes|
    ensures CodeBytes(codes)[2 * i..2 * i + 2] == Two(codes[i])
    decreases |codes|
  {
    if i < |codes| - 1 {
      CodePlaced(DropLast(codes), i);
      OfPrefix(CodeBytes(DropLast(codes)), CodeBytes(codes), 2 * i, 2 * i + 2);
    }
  }

  lemma {:induction false} RectPlaced(rects: seq<Rect>, i: nat)
    requires i < |rects|
    ensures RectsBytes(rects)[8 * i..8 * i + 8] == RectBytes(rects[i])
    decreases |rects|
  {
    hide RectBytes;
    if i < |rects| - 1 {
      RectPlaced(DropLast(rects), i);
      OfPrefix(RectsBytes(DropLast(rects)), RectsBytes(rects), 8 * i, 8 * i + 8);
    }
  }

  lemma {:induction false} RectRead(b: bytes, p: nat, r: Rect)
    requires p + 8 <= |b| && b[p..p + 8] == RectBytes(r)
    ensures ParseRect(b, p) == r
  {
    hide Two, U16At;
    FourParts(Two(r.x), Two(r.y), Two(r.w), Two(r.h));
    OfSlice(b, p, 8, 0, 2);
    OfSlice(b, p, 8, 2, 4);
    OfSlice(b, p, 8, 4, 6);
    OfSlice(b, p, 8, 6, 8);
    TwoRead(b, p, r.x);
    TwoRead(b, p + 2, r.y);
    TwoRead(b, p + 4, r.w);
    TwoRead(b, p + 6, r.h);
  }

  lemma {:induction false} CodesRead(b: bytes, p: nat, codes: seq<u16>)
    requires p + 2 * |codes| <= |b| && b[p..p + 2 * |codes|] == CodeBytes(codes)
    ensures CodesAt(b, p, codes)
  {
    hide Two, CodeBytes, U16At;
    forall i | 0 <= i < |codes| ensures U16At(b, p + 2 * i) == codes[i] {
      CodePlaced(codes, i);
      OfSlice(b, p, 2 * |codes|, 2 * i, 2 * i + 2);
      TwoRead(b, p + 2 * i, codes[i]);
    }
  }

  lemma {:induction false} RectsRead(b: bytes, p: nat, rects: seq<Rect>)
    requires p + 8 * |rects| <= |b| && b[p..p + 8 * |rects|] == RectsBytes(rects)
    ensures RectsAt(b, p, rects)
  {
    hide RectBytes, RectsBytes, ParseRect;
    forall i | 0 <= i < |rects| ensures ParseRect(b, p + 8 * i) == rects[i] {
      RectPlaced(rects, i);
      OfSlice(b, p, 8 * |rects|, 8 * i, 8 * i + 8);
      RectRead(b, p + 8 * i, rects[i]);
    }
  }

  /** A written table is found by the reader. */
  lemma {:induction false} FontRead(b: bytes, p: nat, f: Font)
    requires |f.codes| == |f.rects| < 0x1_0000
    requires p + 2 + 10 * |f.codes| <= |b| && b[p..p + 2 + 10 * |f.codes|] == FontBytes(f)
    ensures FontAt(b, p, f)
  {
    hide Two, CodeBytes, RectsBytes, U16At, CodesAt, RectsAt;
    var n := |f.codes|;
    ThreeParts(Two(n), CodeBytes(f.codes), RectsBytes(f.rects));
    OfSlice(b, p, 2 + 10 * n, 0, 2);
    OfSlice(b, p, 2 + 10 * n, 2, 2 + 2 * n);
    OfSlice(b, p, 2 + 10 * n, 2 + 2 * n, 2 + 10 * n);
    TwoRead(b, p, n);
    CodesRead(b, p + 2, f.codes);
    RectsRead(b, p + 2 + 2 * n, f.rects);
  }

  lemma {:induction false} FontsRead(head: bytes, fonts: seq<Font>)
    requires forall i :: 0 <= i < |fonts| ==> |fonts[i].codes| == |fonts[i].rects| < 0x1_0000
    ensures FontsAt(head + FontsBytes(fonts), |head|, fonts)
    ensures EndOf(|head|, fonts) == |head| + |FontsBytes(fonts)|
  {
    hide FontAt, FontBytes;
    if fonts != [] {
      var init, f := DropLast(fonts), Last(fonts);
      var b, whole := head + FontsBytes(init), head + FontsBytes(fonts);
      FontsRead(head, init);
      Associative(head, FontsBytes(init), FontBytes(f));
      assert whole == b + FontBytes(f);
      FontsAtPrefix(b, whole, |head|, init);
      assert whole[|b|..|b| + |FontBytes(f)|] == FontBytes(f);
      FontRead(whole, |b|, f);
    }
  }

  // ---- the whole file ----

  /** Where the parts of the written file are. */
  function AtlasOf(p: Picture): Atlas
    requires p.Sized()
  {
    var start := 15 + |p.regions|;
    Atlas(p.width, |p.rows|, start, start + 4 * Area(p.width, |p.rows|), |p.fonts|)
  }

  lemma {:induction false} Pieces(p: Picture)
    requires p.Sized()
    ensures
      var b, a := FileBytes(p), AtlasOf(p);
      && a.imageEnd + 2 == |HeadBytes(p)| <= |b|
      && b[..9] == MAGIC && b[9..11] == Two(p.width) && b[11..13] == Two(|p.rows|)
      && b[13..15] == Two(|p.regions| / 8) && b[a.imageStart..a.imageEnd] == ImageBytes(p.rows)
      && b[a.imageEnd..a.imageEnd + 2] == Two(|p.fonts|)
  {
    hide Two, ImageBytes, FontsBytes;
    ImageSize(p.rows, p.width);
    var b, a := FileBytes(p), AtlasOf(p);
    var s1 := MAGIC + Two(p.width) + Two(|p.rows|);
    var s2 := s1 + Two(|p.regions| / 8) + p.regions;
    var s3 := s2 + ImageBytes(p.rows) + Two(|p.fonts|);
    ThreeParts(MAGIC, Two(p.width), Two(|p.rows|));
    ThreeParts(s1, Two(|p.regions| / 8), p.regions);
    ThreeParts(s2, ImageBytes(p.rows), Two(|p.fonts|));
    assert s3 == HeadBytes(p);
    assert s1 <= s2 <= s3 <= b;
    OfPrefix(s1, b, 0, 9);
    OfPrefix(s1, b, 9, 11);
    OfPrefix(s1, b, 11, 13);
    OfPrefix(s2, b, 13, 15);
    OfPrefix(s3, b, a.imageStart, a.imageEnd);
    OfPrefix(s3, b, a.imageEnd, a.imageEnd + 2);
  }

  /** The reader finds the width, the height and every part, or refuses what is outside its limits. */
  lemma {:induction false} HeaderRead(p: Picture)
    requires p.Sized()
    ensures ParseHeader(FileBytes(p)) == if p.Within() then Some(AtlasOf(p)) else None
  {
    hide Two, ImageBytes, FontsBytes, FileBytes, U16At;
    var b, a := FileBytes(p), AtlasOf(p);
    Pieces(p);
    TwoRead(b, 9, p.width);
    TwoRead(b, 11, |p.rows|);
    TwoRead(b, 13, |p.regions| / 8);
    TwoRead(b, a.imageEnd, |p.fonts|);
    assert b[8] == b[..9][8];
    assert forall i :: 0 <= i < 8 ==> b[i] == b[..9][i];
    assert 8 * (|p.regions| / 8) == |p.regions|;
  }

  /** Other magic bytes, another version and a file that ends too early are refused. */
  lemma {:induction false} HeaderNeeds(b: bytes)
    requires ParseHeader(b).Some?
    ensures |b| >= 17 && b[..9] == MAGIC && ParseHeader(b).value.imageEnd + 2 <= |b|
  {
    hide U16At;
  }

  /** The pixels that the reader looks at are those of the image, row by row. */
  lemma {:induction false} OpaqueIs(p: Picture, x: nat, y: nat)
    requires p.Sized() && x < p.width && y < |p.rows|
    ensures Opaque(AtlasOf(p), FileBytes(p), x, y) <==> p.rows[y][x].a != 0
  {
    hide ImageBytes, FileBytes, Two;
    var b, a := FileBytes(p), AtlasOf(p);
    Pieces(p);
    ImageAt(p.rows, p.width, x, y);
    var k := 4 * Area(p.width, y) + 4 * x + 3;
    assert Area(y, p.width) == Area(p.width, y);
    assert b[a.imageStart..a.imageEnd][k] == b[a.imageStart + k];
  }

  /** Some pixel inside the rectangle is not fully transparent. */
  predicate Shows(rows: Image, r: Rect) {
    exists x, y ::
      r.x <= x < r.x + r.w && r.y <= y < r.y + r.h && y < |rows| && x < |rows[y]| && rows[y][x].a != 0
  }

  /** What the visibility scan decides. */
  lemma {:induction false} VisibleIs(p: Picture, r: Rect)
    requires p.Sized() && RectOk(AtlasOf(p), r)
    ensures Visible(AtlasOf(p), FileBytes(p), r) <==> Shows(p.rows, r)
  {
    hide Opaque, FileBytes;
    forall x, y | r.x <= x < r.x + r.w && r.y <= y < r.y + r.h
      ensures Opaque(AtlasOf(p), FileBytes(p), x, y) <==> p.rows[y][x].a != 0
    {
      OpaqueIs(p, x, y);
    }
  }

  predicate InImage(rows: Image, x: nat, y: nat) { y < |rows| && x < |rows[y]| }

  /** The rectangle has a pixel, and all its pixels are in the image. */
  predicate Inside(rows: Image, r: Rect) {
    && r.w != 0 && r.h != 0
    && forall x: nat, y: nat :: r.x <= x < r.x + r.w && r.y <= y < r.y + r.h ==> InImage(rows, x, y)
  }

  /** A rectangle passes just when it has a pixel and all its pixels are in the image. */
  lemma {:induction false} RectInside(p: Picture, r: Rect)
    requires p.Sized()
    ensures RectOk(AtlasOf(p), r) <==> Inside(p.rows, r)
  {
    if Inside(p.rows, r) {
      assert InImage(p.rows, r.x + r.w - 1, r.y + r.h - 1);
    }
  }

  /** A font passes just when it has one to 4096 glyphs, and all of them lie in the image. */
  lemma {:induction false} FontInside(p: Picture, f: Font)
    requires p.Sized()
    ensures FontOk(AtlasOf(p), f) <==>
      && 1 <= |f.codes| <= 4096 && |f.rects| == |f.codes|
      && forall i :: 0 <= i < |f.rects| ==> Inside(p.rows, f.rects[i])
  {
    hide RectOk, Inside;
    forall i | 0 <= i < |f.rects| ensures RectOk(AtlasOf(p), f.rects[i]) <==> Inside(p.rows, f.rects[i]) {
      RectInside(p, f.rects[i]);
    }
  }

  /** All fonts are found in their places, behind the image. */
  lemma {:induction false} TablesRead(p: Picture)
    requires p.Sized()
    ensures
      var start := AtlasOf(p).imageEnd + 2;
      FontsAt(FileBytes(p), start, p.fonts) && EndOf(start, p.fonts) == |FileBytes(p)|
  {
    hide HeadBytes, FontsBytes;
    Pieces(p);
    FontsRead(HeadBytes(p), p.fonts);
  }
}

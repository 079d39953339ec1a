/**
 * Luma conversion (core/grayscale.go): the flat row-major variant RgbToGrayscale
 * and the image-shaped variant rgbToGrayscale, here RgbToGrayscaleImage.
 *
 * Both weigh the 16-bit channels that RGBA() reports by 0.299, 0.587 and 0.114
 * and scale the sum down to 8 bits by dividing by 256.  The weights are exact
 * rationals here and the conversion to uint8 is the floor of a non-negative value.
 */
module Grayscale {
  import opened Pictures

  /** floor((0.299 r + 0.587 g + 0.114 b) / 256), in exact arithmetic. */
  function Luma(r: nat, g: nat, b: nat): nat {
    (299 * r + 587 * g + 114 * b) / 256000
  }

  /** The weights sum to one, so 16-bit inputs give an 8-bit result. */
  lemma LumaRange(r: nat, g: nat, b: nat)
    requires r <= 0xffff && g <= 0xffff && b <= 0xffff
    ensures Luma(r, g, b) <= 255
  {
    assert 299 * r + 587 * g + 114 * b <= 1000 * 0xffff;
  }

  /** All three weights are positive, so the luma never drops when a channel grows. */
  lemma LumaMonotone(r: nat, g: nat, b: nat, r': nat, g': nat, b': nat)
    requires r <= r' && g <= g' && b <= b'
    ensures Luma(r, g, b) <= Luma(r', g', b')
  {
    assert 299 * r + 587 * g + 114 * b <= 299 * r' + 587 * g' + 114 * b';
  }

  /** The grey level of a colour, as both converters compute it from c.RGBA(). */
  function GreyLevel(c: Color): byte {
    var r, g, b := Channel16(c.r, c.a), Channel16(c.g, c.a), Channel16(c.b, c.a);
    LumaRange(r, g, b);
    Luma(r, g, b) as byte
  }

  /** An opaque grey colour keeps its level: the conversion loses nothing on grey input. */
  lemma GreyLevelOfGrey(v: byte)
    ensures GreyLevel(Color(v, v, v, 255)) == v
  {
    var w := v as int * 0x101;
    assert Channel16(v, 255) == w;
    assert 299 * w + 587 * w + 114 * w == 256000 * v as int + 1000 * v as int;
    assert 1000 * v as int < 256000;
  }

  /**
   * The grey levels of src, row by row: index i holds pixel (i % cols, i / cols)
   * with coordinates counted from 0.
   */
  function FlatGreys(src: Picture): (g: seq<byte>)
    ensures |g| == src.rect.Dy() * src.rect.Dx()
  {
    var cols, rows := src.rect.Dx(), src.rect.Dy();
    if cols == 0 then [] else
      seq(rows * cols, i requires 0 <= i < rows * cols => GreyLevel(At(src, i % cols, i / cols)))
  }

  /** RgbToGrayscale: the grey levels of src in a fresh slice of rows * cols bytes. */
  method RgbToGrayscale(src: Picture) returns (gray: array<byte>)
    ensures fresh(gray)
    ensures gray[..] == FlatGreys(src)
  {
    var cols, rows := src.rect.Dx(), src.rect.Dy();
    ghost var want := FlatGreys(src);
    gray := new byte[rows * cols];
    var y := 0;
    while y < rows
      invariant 0 <= y <= rows
      invariant y * cols <= rows * cols
      invariant forall k :: 0 <= k < y * cols ==> gray[k] == want[k]
    {
      MulMono(y + 1, rows, cols);
      var x := 0;
      while x < cols
        invariant 0 <= x <= cols
        invariant forall k :: 0 <= k < y * cols + x ==> gray[k] == want[k]
      {
        var i := y * cols + x;
        DivModOf(y, x, cols);
        assert want[i] == GreyLevel(At(src, x, y));
        gray[i] := GreyLevel(At(src, x, y));
        x := x + 1;
      }
      assert y * cols + cols == (y + 1) * cols;
      y := y + 1;
    }
    assert gray[..] == want;
  }

  /**
   * The flat layout: pixel (x, y), counted from 0, lives at index y * cols + x,
   * which lies inside the slice.
   */
  lemma FlatGreysAt(src: Picture, x: int, y: int)
    requires 0 <= x < src.rect.Dx() && 0 <= y < src.rect.Dy()
    ensures 0 <= y * src.rect.Dx() + x < |FlatGreys(src)|
    ensures FlatGreys(src)[y * src.rect.Dx() + x] == GreyLevel(At(src, x, y))
  {
    var cols, rows := src.rect.Dx(), src.rect.Dy();
    MulMono(y + 1, rows, cols);
    DivModOf(y, x, cols);
  }

  /**
   * Distinct pixels land on distinct indices, so the nested loops, which
   * visit every pixel once, write every index of the slice exactly once.
   */
  lemma FlatIndexDistinct(src: Picture, x: int, y: int, x': int, y': int)
    requires 0 <= x < src.rect.Dx() && 0 <= y < src.rect.Dy()
    requires 0 <= x' < src.rect.Dx() && 0 <= y' < src.rect.Dy()
    requires x != x' || y != y'
    ensures y * src.rect.Dx() + x != y' * src.rect.Dx() + x'
  {
    var cols := src.rect.Dx();
    DivModOf(y, x, cols);
    DivModOf(y', x', cols);
  }

  /** color.Gray{Y: v} as an NRGBA buffer stores it. */
  function GreyColor(v: byte): Color {
    Color(v, v, v, 255)
  }

  /**
   * What rgbToGrayscale produces: a picture over src's bounds whose pixels with
   * non-negative coordinates are grey (the loops run from 0 to Max), the rest
   * left as NewNRGBA allocated them.
   */
  function GreyPicture(src: Picture): (p: Picture)
    ensures p.rect == src.rect
  {
    Build(src.rect, (x, y) => if 0 <= x && 0 <= y then GreyColor(GreyLevel(At(src, x, y))) else Transparent)
  }

  /**
   * Every pixel of the grey picture with non-negative coordinates (every pixel
   * the loops reach) is opaque grey, at the level the flat converter computes
   * for that pixel.
   */
  lemma GreyPictureIsGrey(src: Picture, x: int, y: int)
    requires 0 <= x && 0 <= y && src.rect.Contains(x, y)
    ensures var c := At(GreyPicture(src), x, y);
      c.r == c.g == c.b == GreyLevel(At(src, x, y)) && c.a == 255
  {
    AtBuild(src.rect, (x, y) => if 0 <= x && 0 <= y then GreyColor(GreyLevel(At(src, x, y))) else Transparent, x, y);
  }

  /**
   * On a source with origin (0, 0) the two converters agree: the slice entry
   * of pixel (x, y) is the grey level of that pixel of the grey image.
   */
  lemma ConvertersAgree(src: Picture, x: int, y: int)
    requires src.rect.minX == 0 && src.rect.minY == 0 && src.rect.Contains(x, y)
    ensures 0 <= y * src.rect.Dx() + x < |FlatGreys(src)|
    ensures FlatGreys(src)[y * src.rect.Dx() + x] == At(GreyPicture(src), x, y).r
  {
    FlatGreysAt(src, x, y);
    GreyPictureIsGrey(src, x, y);
  }

  /** rgbToGrayscale: a fresh image over src's bounds, filled by Set column by column. */
  method RgbToGrayscaleImage(src: Picture) returns (dst: Image)
    ensures fresh(dst) && fresh(dst.pix) && dst.Valid()
    ensures dst.Snapshot() == GreyPicture(src)
  {
    var dx, dy := src.rect.maxX, src.rect.maxY;
    dst := new Image.Blank(src.rect);
    ghost var base := dst.Snapshot();
    ghost var f := (px: int, py: int) => GreyColor(GreyLevel(At(src, px, py)));
    OverwriteStart(base, f, dy);
    var x := 0;
    while x < dx
      invariant 0 <= x && (x <= dx || x == 0)
      invariant dst.Valid() && fresh(dst.pix)
      invariant dst.Snapshot() == Overwrite(base, f, x, 0, dy)
    {
      var y := 0;
      while y < dy
        invariant 0 <= y && (y <= dy || y == 0)
        invariant dst.Valid()
        invariant dst.Snapshot() == Overwrite(base, f, x, y, dy)
      {
        var lum := GreyLevel(At(src, x, y));
        OverwriteStep(base, f, x, y, dy);
        dst.Set(x, y, GreyColor(lum));
        y := y + 1;
      }
      OverwriteNextColumn(base, f, x, y, dy);
      x := x + 1;
    }
    forall px, py | src.rect.Contains(px, py)
      ensures At(dst.Snapshot(), px, py) == At(GreyPicture(src), px, py)
    {
      AtOverwrite(base, f, x, 0, dy, px, py);
      AtBuild(src.rect, (x, y) => if 0 <= x && 0 <= y then GreyColor(GreyLevel(At(src, x, y))) else Transparent, px, py);
    }
    Extensionality(dst.Snapshot(), GreyPicture(src));
  }
}

/**
 * The parts of Go's `image` and `image/color` packages that the blink detector
 * relies on: integer rectangles (`image.Rectangle`), non-premultiplied colours
 * (`color.NRGBA`) and NRGBA pixel buffers (`image.NRGBA`).
 *
 * A `Picture` is an immutable snapshot of an NRGBA buffer: a rectangle and its
 * pixels in row-major order.  Reading outside the rectangle yields the zero
 * colour and writing outside it changes nothing, as in Go.
 */
module Pictures {

  newtype byte = x: int | 0 <= x < 256

  /** An 8-bit, non-premultiplied colour (Go's color.NRGBA). */
  datatype Color = Color(r: byte, g: byte, b: byte, a: byte)

  /** The zero colour, returned by NRGBA.At outside the bounds. */
  const Transparent := Color(0, 0, 0, 0)
  const White := Color(255, 255, 255, 255)
  const Black := Color(0, 0, 0, 255)

  /**
   * One channel as NRGBA.RGBA() reports it: the byte replicated to 16 bits
   * (v | v << 8 == v * 0x101), multiplied by alpha and divided by 0xff.
   */
  function Channel16(v: byte, alpha: byte): (w: nat)
    ensures w <= 0xffff
    ensures alpha == 255 ==> w == v as int * 0x101
    ensures alpha == 0 || v == 0 ==> w == 0
  {
    ProductBound(v as int, alpha as int);
    (v as int * 0x101 * alpha as int) / 0xff
  }

  lemma ProductBound(v: int, alpha: int)
    requires 0 <= v < 256 && 0 <= alpha < 256
    ensures 0 <= v * 0x101 * alpha <= 0xff * 0xffff
  {
    assert v * alpha <= 255 * alpha <= 255 * 255;
  }

  /** The high byte of a 16-bit value (Go's `w >> 8`). */
  function High(w: nat): nat { w / 256 }

  /** `r >> 8` of the red value RGBA() reports for c. */
  function RedHigh(c: Color): (h: nat)
    ensures h <= 255
    ensures c.a == 255 ==> h == c.r as int
  {
    High(Channel16(c.r, c.a))
  }

  // ---------------------------------------------------------------------
  // Rectangles

  /** An image.Rectangle: the points (x, y) with min <= (x, y) < max. */
  datatype Rect = Rect(minX: int, minY: int, maxX: int, maxY: int) {
    predicate WellFormed() { minX <= maxX && minY <= maxY }
    function Dx(): int { maxX - minX }
    function Dy(): int { maxY - minY }
    predicate Empty() { minX >= maxX || minY >= maxY }
    /** image.Point.In */
    predicate Contains(x: int, y: int) { minX <= x < maxX && minY <= y < maxY }
  }

  /** image.ZR, the zero rectangle. */
  const ZR := Rect(0, 0, 0, 0)

  /** image.Rect: the rectangle with corners (x0, y0) and (x1, y1), swapped into order. */
  function MakeRect(x0: int, y0: int, x1: int, y1: int): (r: Rect)
    ensures r.WellFormed()
    ensures forall x, y :: r.Contains(x, y) <==>
      ((x0 <= x < x1 || x1 <= x < x0) && (y0 <= y < y1 || y1 <= y < y0))
  {
    var (loX, hiX) := if x0 > x1 then (x1, x0) else (x0, x1);
    var (loY, hiY) := if y0 > y1 then (y1, y0) else (y0, y1);
    Rect(loX, loY, hiX, hiY)
  }

  /** Rectangle.Intersect: the common points of r and s, or ZR when there are none. */
  function Intersect(r: Rect, s: Rect): (t: Rect)
    ensures t.WellFormed()
    ensures forall x, y :: t.Contains(x, y) <==> r.Contains(x, y) && s.Contains(x, y)
    ensures t.Empty() ==> t == ZR
  {
    var t := Rect(if r.minX < s.minX then s.minX else r.minX,
                  if r.minY < s.minY then s.minY else r.minY,
                  if r.maxX > s.maxX then s.maxX else r.maxX,
                  if r.maxY > s.maxY then s.maxY else r.maxY);
    if t.Empty() then ZR else t
  }

  // ---------------------------------------------------------------------
  // Pixel buffers

  /** An image.NRGBA: a rectangle and its pixels, row by row. */
  datatype NRGBA = NRGBA(rect: Rect, pix: seq<Color>) {
    predicate Valid() { rect.WellFormed() && |pix| == rect.Dx() * rect.Dy() }
  }

  type Picture = p: NRGBA | p.Valid() witness NRGBA(ZR, [])

  /** Position of pixel (x, y) in the row-major pixel sequence (NRGBA.PixOffset, in pixels). */
  function Offset(r: Rect, x: int, y: int): int {
    (y - r.minY) * r.Dx() + (x - r.minX)
  }

  lemma MulMono(a: int, b: int, w: int)
    requires a <= b && 0 <= w
    ensures a * w <= b * w
  {
    assert b * w - a * w == (b - a) * w;
  }

  lemma OffsetInRange(r: Rect, x: int, y: int)
    requires r.WellFormed() && r.Contains(x, y)
    ensures 0 <= Offset(r, x, y) < r.Dx() * r.Dy()
  {
    MulMono(y - r.minY, r.Dy() - 1, r.Dx());
    assert (r.Dy() - 1) * r.Dx() == r.Dx() * r.Dy() - r.Dx();
    MulMono(0, y - r.minY, r.Dx());
  }

  lemma DivModOf(q: int, m: int, w: int)
    requires 0 <= q && 0 <= m < w
    ensures (q * w + m) / w == q && (q * w + m) % w == m
  {
    var i := q * w + m;
    var q', m' := i / w, i % w;
    assert i == q' * w + m';
    if q' < q {
      MulMono(q' + 1, q, w);
    } else if q' > q {
      MulMono(q + 1, q', w);
    }
  }

  /** NRGBA.At: the pixel at (x, y), or the zero colour outside the bounds. */
  function At(p: Picture, x: int, y: int): (c: Color)
    ensures !p.rect.Contains(x, y) ==> c == Transparent
  {
    if p.rect.Contains(x, y) then
      OffsetInRange(p.rect, x, y);
      p.pix[Offset(p.rect, x, y)]
    else
      Transparent
  }

  /** NRGBA.Set: p with pixel (x, y) replaced by c; no change outside the bounds. */
  function SetPixel(p: Picture, x: int, y: int, c: Color): (q: Picture)
    ensures q.rect == p.rect
  {
    if p.rect.Contains(x, y) then
      OffsetInRange(p.rect, x, y);
      p.(pix := p.pix[Offset(p.rect, x, y) := c])
    else
      p
  }

  lemma OffsetInjective(r: Rect, x: int, y: int, x': int, y': int)
    requires r.WellFormed() && r.Contains(x, y) && r.Contains(x', y')
    requires Offset(r, x, y) == Offset(r, x', y')
    ensures x == x' && y == y'
  {
    DivModOf(y - r.minY, x - r.minX, r.Dx());
    DivModOf(y' - r.minY, x' - r.minX, r.Dx());
  }

  lemma AtSetPixel(p: Picture, x: int, y: int, c: Color, x': int, y': int)
    ensures At(SetPixel(p, x, y, c), x', y') ==
      if p.rect.Contains(x, y) && x == x' && y == y' then c else At(p, x', y')
  {
    if p.rect.Contains(x, y) && p.rect.Contains(x', y') {
      OffsetInRange(p.rect, x, y);
      OffsetInRange(p.rect, x', y');
      var i, j := Offset(p.rect, x, y), Offset(p.rect, x', y');
      if x != x' || y != y' {
        if i == j {
          OffsetInjective(p.rect, x, y, x', y');
        }
        assert i != j;
        assert SetPixel(p, x, y, c).pix[j] == p.pix[j];
      }
    }
  }

  /** The picture over r whose pixel (x, y) is f(x, y). */
  function Build(r: Rect, f: (int, int) -> Color): Picture
    requires r.WellFormed()
  {
    var w := r.Dx();
    NRGBA(r, seq(w * r.Dy(), i requires 0 <= i < w * r.Dy() => f(r.minX + i % w, r.minY + i / w)))
  }

  lemma AtBuild(r: Rect, f: (int, int) -> Color, x: int, y: int)
    requires r.WellFormed()
    ensures At(Build(r, f), x, y) == if r.Contains(x, y) then f(x, y) else Transparent
  {
    if r.Contains(x, y) {
      OffsetInRange(r, x, y);
      DivModOf(y - r.minY, x - r.minX, r.Dx());
    }
  }

  /** Two pictures over the same rectangle are equal when they agree on every pixel. */
  lemma Extensionality(p: Picture, q: Picture)
    requires p.rect == q.rect
    requires forall x, y :: p.rect.Contains(x, y) ==> At(p, x, y) == At(q, x, y)
    ensures p == q
  {
    var r, w := p.rect, p.rect.Dx();
    forall i | 0 <= i < |p.pix|
      ensures p.pix[i] == q.pix[i]
    {
      var m, k := i % w, i / w;
      assert i == k * w + m;
      if k >= r.Dy() {
        MulMono(r.Dy(), k, w);
      }
      assert r.Contains(r.minX + m, r.minY + k);
      assert Offset(r, r.minX + m, r.minY + k) == i;
      assert At(p, r.minX + m, r.minY + k) == p.pix[i];
    }
  }

  /** image.NewNRGBA: a picture over r in which every pixel is the zero colour. */
  function BlankPicture(r: Rect): (p: Picture)
    requires r.WellFormed()
    ensures p.rect == r
    ensures forall x, y :: At(p, x, y) == Transparent
  {
    var p := NRGBA(r, seq(r.Dx() * r.Dy(), _ => Transparent));
    forall x, y | r.Contains(x, y) ensures At(p, x, y) == Transparent {
      OffsetInRange(r, x, y);
    }
    p
  }

  /** SubImage: the view of p through r, restricted to p's own bounds. */
  function SubImage(p: Picture, r: Rect): (s: Picture)
    ensures s.rect == Intersect(r, p.rect)
    ensures forall x, y :: At(s, x, y) == if s.rect.Contains(x, y) then At(p, x, y) else Transparent
  {
    var t := Intersect(r, p.rect);
    var s := Build(t, (x, y) => At(p, x, y));
    forall x, y ensures At(s, x, y) == if t.Contains(x, y) then At(p, x, y) else Transparent {
      AtBuild(t, (x, y) => At(p, x, y), x, y);
    }
    s
  }

  // ---------------------------------------------------------------------
  // Column-major sweeps

  /**
   * Whether pixel (px, py) has already been visited by the Go loop nest
   *   for x := 0; x < X; x++ { for y := 0; y < rows; y++ { ... } }
   * when it is about to handle (x, y).
   */
  predicate Swept(x: int, y: int, rows: int, px: int, py: int) {
    0 <= px && 0 <= py < rows && (px < x || (px == x && py < y))
  }

  /** base with f(px, py) written at every pixel swept before (x, y). */
  function Overwrite(base: Picture, f: (int, int) -> Color, x: int, y: int, rows: int): (q: Picture)
    ensures q.rect == base.rect
  {
    Build(base.rect, (px, py) => if Swept(x, y, rows, px, py) then f(px, py) else At(base, px, py))
  }

  lemma AtOverwrite(base: Picture, f: (int, int) -> Color, x: int, y: int, rows: int, px: int, py: int)
    ensures At(Overwrite(base, f, x, y, rows), px, py) ==
      if base.rect.Contains(px, py) && Swept(x, y, rows, px, py) then f(px, py) else At(base, px, py)
  {
    AtBuild(base.rect, (px, py) => if Swept(x, y, rows, px, py) then f(px, py) else At(base, px, py), px, py);
  }

  lemma OverwriteStart(base: Picture, f: (int, int) -> Color, rows: int)
    ensures Overwrite(base, f, 0, 0, rows) == base
  {
    forall px, py | base.rect.Contains(px, py)
      ensures At(Overwrite(base, f, 0, 0, rows), px, py) == At(base, px, py)
    {
      AtOverwrite(base, f, 0, 0, rows, px, py);
    }
    Extensionality(Overwrite(base, f, 0, 0, rows), base);
  }

  /** Handling pixel (x, y) of the sweep is one SetPixel. */
  lemma OverwriteStep(base: Picture, f: (int, int) -> Color, x: int, y: int, rows: int)
    requires 0 <= x && 0 <= y < rows
    ensures Overwrite(base, f, x, y + 1, rows) == SetPixel(Overwrite(base, f, x, y, rows), x, y, f(x, y))
  {
    var before := Overwrite(base, f, x, y, rows);
    var after := Overwrite(base, f, x, y + 1, rows);
    forall px, py | base.rect.Contains(px, py)
      ensures At(after, px, py) == At(SetPixel(before, x, y, f(x, y)), px, py)
    {
      AtOverwrite(base, f, x, y + 1, rows, px, py);
      AtOverwrite(base, f, x, y, rows, px, py);
      AtSetPixel(before, x, y, f(x, y), px, py);
    }
    Extensionality(after, SetPixel(before, x, y, f(x, y)));
  }

  /** Finishing column x is the same as starting column x + 1. */
  lemma OverwriteNextColumn(base: Picture, f: (int, int) -> Color, x: int, y: int, rows: int)
    requires 0 <= x && rows <= y
    ensures Overwrite(base, f, x, y, rows) == Overwrite(base, f, x + 1, 0, rows)
  {
    forall px, py | base.rect.Contains(px, py)
      ensures At(Overwrite(base, f, x, y, rows), px, py) == At(Overwrite(base, f, x + 1, 0, rows), px, py)
    {
      AtOverwrite(base, f, x, y, rows, px, py);
      AtOverwrite(base, f, x + 1, 0, rows, px, py);
    }
    Extensionality(Overwrite(base, f, x, y, rows), Overwrite(base, f, x + 1, 0, rows));
  }

  // ---------------------------------------------------------------------
  // Mutable buffers

  /** An image.NRGBA that is updated in place through Set. */
  class Image {
    const rect: Rect
    const pix: array<Color>

    ghost predicate Valid()
      reads this
    {
      rect.WellFormed() && pix.Length == rect.Dx() * rect.Dy()
    }

    /** The current contents as a value. */
    function Snapshot(): (p: Picture)
      reads this, pix
      requires Valid()
      ensures p.rect == rect
    {
      NRGBA(rect, pix[..])
    }

    /** image.NewNRGBA(r) */
    constructor Blank(r: Rect)
      requires r.WellFormed()
      ensures Valid() && fresh(pix)
      ensures Snapshot() == BlankPicture(r)
    {
      rect := r;
      pix := new Color[r.Dx() * r.Dy()](_ => Transparent);
    }

    /** A freshly allocated buffer holding p, as a filter returns it. */
    constructor Of(p: Picture)
      ensures Valid() && fresh(pix)
      ensures Snapshot() == p
    {
      rect := p.rect;
      pix := new Color[|p.pix|](i requires 0 <= i < |p.pix| => p.pix[i]);
    }

    function Pixel(x: int, y: int): (c: Color)
      reads this, pix
      requires Valid()
      ensures c == At(Snapshot(), x, y)
    {
      if rect.Contains(x, y) then
        OffsetInRange(rect, x, y);
        pix[Offset(rect, x, y)]
      else
        Transparent
    }

    method Set(x: int, y: int, c: Color)
      requires Valid()
      modifies pix
      ensures Snapshot() == SetPixel(old(Snapshot()), x, y, c)
    {
      if rect.Contains(x, y) {
        OffsetInRange(rect, x, y);
        pix[Offset(rect, x, y)] := c;
      }
    }
  }
}

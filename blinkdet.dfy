/**
 * The eyelid-gap blink classifier (core/blinkdet.go).
 *
 * BlinkDetector cuts an eye rectangle around the pupil, converts it to grey,
 * hands it to an external blur and an external Sobel filter, thresholds the
 * result to black and white in place, and asks DetectBlink whether the eye is
 * open.  DetectBlink casts four rays from the centre of the picture, counting
 * the pixels each passes before it meets a white one and painting the black
 * ones it passes red, corrects at most one saturated count, and compares the
 * vertical-to-horizontal ratio with a threshold.
 */
module BlinkDet {
  import opened Pictures
  import opened Grayscale

  datatype Option<T> = None | Some(value: T)
  datatype Result<T> = Ok(value: T) | Err(error: string)

  /** The pupil estimate handed over by the pupil localizer (the Puploc struct). */
  datatype Puploc = Puploc(row: int, col: int, scale: real, perturbs: int)

  const BlurRadius := 5
  const SobelThreshold := 70
  const BlinkThreshold := 0.44

  // ---------------------------------------------------------------------
  // The eye rectangle

  /** Go's conversion int(v) of a floating value: truncation toward zero. */
  function Trunc(v: real): (k: int)
    ensures 0.0 <= v ==> 0 <= k && k as real <= v < k as real + 1.0
    ensures v < 0.0 ==> k <= 0 && k as real - 1.0 < v <= k as real
  {
    if v >= 0.0 then v.Floor else -((-v).Floor)
  }

  /** int(puploc.Scale*1.5), the half side of the eye rectangle. */
  function HalfSize(scale: real): (k: int)
    ensures 0.0 <= scale ==> 0 <= k && k as real <= scale * 1.5 < k as real + 1.0
  {
    Trunc(scale * 1.5)
  }

  function Abs(k: int): nat { if k < 0 then -k else k }

  /** The rectangle BlinkDetector cuts out around the pupil (x is the column, y the row). */
  function EyeRect(p: Puploc): (r: Rect)
    ensures r.WellFormed()
    ensures var k := Abs(HalfSize(p.scale));
      forall x, y :: r.Contains(x, y) <==> p.col - k <= x < p.col + k && p.row - k <= y < p.row + k
  {
    var k := HalfSize(p.scale);
    MakeRect(p.col - k, p.row - k, p.col + k, p.row + k)
  }

  /**
   * The eye rectangle is centred on the pupil on both axes and is a square of
   * side 2|k|; for a non-negative scale it is [col-k, col+k) x [row-k, row+k).
   */
  lemma EyeRectSymmetric(p: Puploc)
    ensures var r, k := EyeRect(p), HalfSize(p.scale);
      && r.minX + r.maxX == 2 * p.col && r.minY + r.maxY == 2 * p.row
      && r.Dx() == 2 * Abs(k) && r.Dy() == 2 * Abs(k)
    ensures 0.0 <= p.scale ==> var k := HalfSize(p.scale);
      0 <= k && forall x, y :: EyeRect(p).Contains(x, y) <==>
        p.col - k <= x < p.col + k && p.row - k <= y < p.row + k
  {
  }

  /**
   * When the eye rectangle misses the image entirely, the sub-image and the
   * grey picture handed to the blur have no pixels at all; the blur's verdict
   * on that empty picture is the only failure BlinkDetector reports.
   */
  lemma RegionOutsideImage(p: Puploc, img: Picture)
    requires forall x, y :: EyeRect(p).Contains(x, y) ==> !img.rect.Contains(x, y)
    ensures SubImage(img, EyeRect(p)).rect == ZR
    ensures |GreyPicture(SubImage(img, EyeRect(p))).pix| == 0
  {
    var t := SubImage(img, EyeRect(p)).rect;
    if !t.Empty() {
      assert t.Contains(t.minX, t.minY);
    }
  }

  // ---------------------------------------------------------------------
  // Thresholding

  /** The thresholding closure of BlinkDetector, applied to one pixel. */
  function Threshold(c: Color): (t: Color)
    ensures t == White || t == Black
  {
    if Channel16(c.r, c.a) > 127 then White else Black
  }

  /**
   * The closure compares the 16-bit red value with 127, so an opaque pixel
   * turns white as soon as its red byte is non-zero.
   */
  lemma ThresholdOpaque(c: Color)
    requires c.a == 255
    ensures Threshold(c) == White <==> c.r > 0
    ensures Threshold(c) == Black <==> c.r == 0
  {
  }

  /** The picture after the thresholding loop over 0 <= x < dx, 0 <= y < dy. */
  function Binarize(p: Picture, dx: int, dy: int): (q: Picture)
    ensures q.rect == p.rect
  {
    Build(p.rect, (x, y) => if 0 <= x < dx && 0 <= y < dy then Threshold(At(p, x, y)) else At(p, x, y))
  }

  /**
   * Every pixel the loop visits ends up exactly white or exactly black, white
   * iff its 16-bit red value exceeds 127; every other pixel is unchanged.
   */
  lemma BinarizeTwoLevel(p: Picture, dx: int, dy: int, x: int, y: int)
    requires p.rect.Contains(x, y)
    ensures var c, q := At(p, x, y), At(Binarize(p, dx, dy), x, y);
      if 0 <= x < dx && 0 <= y < dy then
        (q == White || q == Black) && (q == White <==> Channel16(c.r, c.a) > 127)
      else q == c
  {
    AtBuild(p.rect, (x, y) => if 0 <= x < dx && 0 <= y < dy then Threshold(At(p, x, y)) else At(p, x, y), x, y);
  }

  /** When the loop bounds are the picture's own bounds, the whole picture is two-level. */
  lemma BinarizeWhole(p: Picture)
    requires p.rect.minX == 0 && p.rect.minY == 0
    ensures forall x, y :: p.rect.Contains(x, y) ==>
      At(Binarize(p, p.rect.maxX, p.rect.maxY), x, y) == White ||
      At(Binarize(p, p.rect.maxX, p.rect.maxY), x, y) == Black
  {
    forall x, y | p.rect.Contains(x, y)
      ensures At(Binarize(p, p.rect.maxX, p.rect.maxY), x, y) == White ||
              At(Binarize(p, p.rect.maxX, p.rect.maxY), x, y) == Black
    {
      BinarizeTwoLevel(p, p.rect.maxX, p.rect.maxY, x, y);
    }
  }

  /** The thresholding loop of BlinkDetector, rewriting res in place. */
  method BinarizeInPlace(res: Image, dx: nat, dy: nat)
    requires res.Valid()
    modifies res.pix
    ensures res.Snapshot() == Binarize(old(res.Snapshot()), dx, dy)
  {
    ghost var p0 := res.Snapshot();
    ghost var f := (px: int, py: int) => Threshold(At(p0, px, py));
    OverwriteStart(p0, f, dy);
    for x := 0 to dx
      invariant res.Snapshot() == Overwrite(p0, f, x, 0, dy)
    {
      for y := 0 to dy
        invariant res.Snapshot() == Overwrite(p0, f, x, y, dy)
      {
        AtOverwrite(p0, f, x, y, dy, x, y);
        var pixel := res.Pixel(x, y);
        OverwriteStep(p0, f, x, y, dy);
        res.Set(x, y, Threshold(pixel));
      }
      OverwriteNextColumn(p0, f, x, dy, dy);
    }
    forall px, py | p0.rect.Contains(px, py)
      ensures At(res.Snapshot(), px, py) == At(Binarize(p0, dx, dy), px, py)
    {
      AtOverwrite(p0, f, dx, 0, dy, px, py);
      AtBuild(p0.rect, (x, y) => if 0 <= x < dx && 0 <= y < dy then Threshold(At(p0, x, y)) else At(p0, x, y), px, py);
    }
    Extensionality(res.Snapshot(), Binarize(p0, dx, dy));
  }

  // ---------------------------------------------------------------------
  // Rays

  datatype Dir = Right | Left | Down | Up

  /**
   * One of detectBlink's four loops: it starts at (x0, y0), moves one pixel in
   * direction dir per iteration and runs for at most n iterations.
   */
  datatype Ray = Ray(dir: Dir, x0: int, y0: int, n: nat)

  /** The position of iteration t. */
  function RayX(ray: Ray, t: int): int {
    match ray.dir
    case Right => ray.x0 + t
    case Left => ray.x0 - t
    case _ => ray.x0
  }

  function RayY(ray: Ray, t: int): int {
    match ray.dir
    case Down => ray.y0 + t
    case Up => ray.y0 - t
    case _ => ray.y0
  }

  /** Go's a/2, which truncates toward zero. */
  function Half(a: int): (h: int)
    ensures 0 <= a ==> 0 <= h && 2 * h <= a <= 2 * h + 1
    ensures a < 0 ==> h <= 0 && 2 * h - 1 <= a <= 2 * h
  {
    if a >= 0 then a / 2 else -((-a) / 2)
  }

  /** The number of iterations of `for v := lo; v <= hi; v++` (or of the same range walked down). */
  function Span(lo: int, hi: int): nat {
    if lo <= hi then hi - lo + 1 else 0
  }

  /** The right ray walks x from Max.X/2 up to Max.X inclusive. */
  function RightRay(r: Rect): (ray: Ray)
    ensures ray.dir == Right && RayX(ray, 0) == Half(r.maxX) && RayY(ray, 0) == Half(r.maxY)
    ensures forall t :: 0 <= t ==> (t < ray.n <==> RayX(ray, t) <= r.maxX)
  {
    Ray(Right, Half(r.maxX), Half(r.maxY), Span(Half(r.maxX), r.maxX))
  }

  /** The left ray walks x from Max.X/2 - 1 down to Min.X. */
  function LeftRay(r: Rect): (ray: Ray)
    ensures ray.dir == Left && RayX(ray, 0) == Half(r.maxX) - 1 && RayY(ray, 0) == Half(r.maxY)
    ensures forall t :: 0 <= t ==> (t < ray.n <==> RayX(ray, t) >= r.minX)
  {
    Ray(Left, Half(r.maxX) - 1, Half(r.maxY), Span(r.minX, Half(r.maxX) - 1))
  }

  /** The down ray walks y from Max.Y/2 + 1 up to Max.Y inclusive. */
  function DownRay(r: Rect): (ray: Ray)
    ensures ray.dir == Down && RayX(ray, 0) == Half(r.maxX) && RayY(ray, 0) == Half(r.maxY) + 1
    ensures forall t :: 0 <= t ==> (t < ray.n <==> RayY(ray, t) <= r.maxY)
  {
    Ray(Down, Half(r.maxX), Half(r.maxY) + 1, Span(Half(r.maxY) + 1, r.maxY))
  }

  /** The up ray walks y from Max.Y/2 - 1 down to Min.Y. */
  function UpRay(r: Rect): (ray: Ray)
    ensures ray.dir == Up && RayX(ray, 0) == Half(r.maxX) && RayY(ray, 0) == Half(r.maxY) - 1
    ensures forall t :: 0 <= t ==> (t < ray.n <==> RayY(ray, t) >= r.minY)
  {
    Ray(Up, Half(r.maxX), Half(r.maxY) - 1, Span(r.minY, Half(r.maxY) - 1))
  }

  /** The break test of the loops: the red byte r>>8 is 255. */
  predicate Stops(c: Color) {
    RedHigh(c) == 255
  }

  /** How many of the iterations t, t+1, ... the loop counts before it breaks or runs out. */
  function CountFrom(p: Picture, ray: Ray, t: nat): (c: nat)
    requires t <= ray.n
    ensures c <= ray.n - t
    decreases ray.n - t
  {
    if t == ray.n || Stops(At(p, RayX(ray, t), RayY(ray, t))) then 0
    else 1 + CountFrom(p, ray, t + 1)
  }

  /** The counter a loop leaves behind. */
  function Count(p: Picture, ray: Ray): nat {
    CountFrom(p, ray, 0)
  }

  lemma {:induction false} CountFromIsFirstStop(p: Picture, ray: Ray, t: nat, k: int)
    requires t <= ray.n
    ensures CountFrom(p, ray, t) == k - t <==>
      && t <= k <= ray.n
      && (forall s :: t <= s < k ==> !Stops(At(p, RayX(ray, s), RayY(ray, s))))
      && (k < ray.n ==> Stops(At(p, RayX(ray, k), RayY(ray, k))))
    decreases ray.n - t
  {
    if t < ray.n && !Stops(At(p, RayX(ray, t), RayY(ray, t))) {
      CountFromIsFirstStop(p, ray, t + 1, k);
    }
  }

  /**
   * A counter is the number of pixels visited before the first one whose red
   * byte is 255; that pixel itself is not counted, and when there is none the
   * counter is the full span of the loop.
   */
  lemma CountIsFirstStop(p: Picture, ray: Ray, k: int)
    ensures Count(p, ray) == k <==>
      && 0 <= k <= ray.n
      && (forall s :: 0 <= s < k ==> !Stops(At(p, RayX(ray, s), RayY(ray, s))))
      && (k < ray.n ==> Stops(At(p, RayX(ray, k), RayY(ray, k))))
  {
    CountFromIsFirstStop(p, ray, 0, k);
  }

  lemma {:induction false} CountFromFrame(p: Picture, q: Picture, ray: Ray, t: nat)
    requires t <= ray.n
    requires forall s :: 0 <= s < ray.n ==> At(p, RayX(ray, s), RayY(ray, s)) == At(q, RayX(ray, s), RayY(ray, s))
    ensures CountFrom(p, ray, t) == CountFrom(q, ray, t)
    decreases ray.n - t
  {
    if t < ray.n {
      CountFromFrame(p, q, ray, t + 1);
    }
  }

  /** Whether (x, y) is among the first c positions of the ray. */
  predicate OnRay(ray: Ray, c: int, x: int, y: int) {
    match ray.dir
    case Right => y == ray.y0 && ray.x0 <= x < ray.x0 + c
    case Left => y == ray.y0 && ray.x0 - c < x <= ray.x0
    case Down => x == ray.x0 && ray.y0 <= y < ray.y0 + c
    case Up => x == ray.x0 && ray.y0 - c < y <= ray.y0
  }

  /** color.RGBA{R: 255, G: uint8(g >> 8), B: uint8(b >> 8), A: 255} as an NRGBA buffer stores it. */
  function Repaint(c: Color): (q: Color)
    ensures q.r == 255 && q.a == 255
  {
    Color(255, High(Channel16(c.g, c.a)) as byte, High(Channel16(c.b, c.a)) as byte, 255)
  }

  /** On an opaque pixel the repaint forces red to 255 and keeps green and blue. */
  lemma RepaintOpaque(c: Color)
    requires c.a == 255
    ensures Repaint(c) == c.(r := 255)
  {
  }

  /** The picture after a loop has visited the first c positions of the ray. */
  function Paint(p: Picture, ray: Ray, c: int): (q: Picture)
    ensures q.rect == p.rect
  {
    Build(p.rect, (x, y) => if OnRay(ray, c, x, y) && RedHigh(At(p, x, y)) == 0 then Repaint(At(p, x, y)) else At(p, x, y))
  }

  /** Painting repaints exactly the visited pixels whose red byte is 0. */
  lemma AtPaint(p: Picture, ray: Ray, c: int, x: int, y: int)
    ensures At(Paint(p, ray, c), x, y) ==
      if p.rect.Contains(x, y) && OnRay(ray, c, x, y) && RedHigh(At(p, x, y)) == 0
      then Repaint(At(p, x, y)) else At(p, x, y)
  {
    AtBuild(p.rect, (x, y) => if OnRay(ray, c, x, y) && RedHigh(At(p, x, y)) == 0 then Repaint(At(p, x, y)) else At(p, x, y), x, y);
  }

  lemma PaintStart(p: Picture, ray: Ray)
    ensures Paint(p, ray, 0) == p
  {
    forall x, y | p.rect.Contains(x, y) ensures At(Paint(p, ray, 0), x, y) == At(p, x, y) {
      AtPaint(p, ray, 0, x, y);
    }
    Extensionality(Paint(p, ray, 0), p);
  }

  /** Visiting position t is one conditional Set. */
  lemma PaintStep(p: Picture, ray: Ray, t: nat)
    ensures var x, y := RayX(ray, t), RayY(ray, t);
      && At(Paint(p, ray, t), x, y) == At(p, x, y)
      && Paint(p, ray, t + 1) ==
           if RedHigh(At(p, x, y)) == 0 then SetPixel(Paint(p, ray, t), x, y, Repaint(At(p, x, y)))
           else Paint(p, ray, t)
  {
    var x, y := RayX(ray, t), RayY(ray, t);
    var before, after := Paint(p, ray, t), Paint(p, ray, t + 1);
    var expected := if RedHigh(At(p, x, y)) == 0 then SetPixel(before, x, y, Repaint(At(p, x, y))) else before;
    AtPaint(p, ray, t, x, y);
    forall px, py | p.rect.Contains(px, py) ensures At(after, px, py) == At(expected, px, py) {
      AtPaint(p, ray, t, px, py);
      AtPaint(p, ray, t + 1, px, py);
      AtSetPixel(before, x, y, Repaint(At(p, x, y)), px, py);
    }
    Extensionality(after, expected);
  }

  /** Painting one ray does not change what a ray over other pixels counts. */
  lemma CountAfterPaint(p: Picture, a: Ray, c: int, b: Ray)
    requires forall s :: 0 <= s < b.n ==> !OnRay(a, c, RayX(b, s), RayY(b, s))
    ensures Count(Paint(p, a, c), b) == Count(p, b)
  {
    forall s | 0 <= s < b.n
      ensures At(Paint(p, a, c), RayX(b, s), RayY(b, s)) == At(p, RayX(b, s), RayY(b, s))
    {
      AtPaint(p, a, c, RayX(b, s), RayY(b, s));
    }
    CountFromFrame(Paint(p, a, c), p, b, 0);
  }

  /**
   * One of detectBlink's loops: count the pixels up to the first one whose red
   * byte is 255, repainting those whose red byte is 0.
   */
  method CastRay(img: Image, ray: Ray) returns (count: nat)
    requires img.Valid()
    modifies img.pix
    ensures count == Count(old(img.Snapshot()), ray)
    ensures img.Snapshot() == Paint(old(img.Snapshot()), ray, count)
  {
    ghost var p0 := img.Snapshot();
    PaintStart(p0, ray);
    count := 0;
    var x, y := ray.x0, ray.y0;
    while count < ray.n
      invariant count <= ray.n
      invariant x == RayX(ray, count) && y == RayY(ray, count)
      invariant Count(p0, ray) == count + CountFrom(p0, ray, count)
      invariant img.Snapshot() == Paint(p0, ray, count)
    {
      var c := img.Pixel(x, y);
      PaintStep(p0, ray, count);
      if RedHigh(c) == 0 {
        img.Set(x, y, Repaint(c));
      }
      if RedHigh(c) == 255 {
        break;
      }
      count := count + 1;
      match ray.dir {
        case Right => x := x + 1;
        case Left => x := x - 1;
        case Down => y := y + 1;
        case Up => y := y - 1;
      }
    }
  }

  /** The four paths never share a pixel, whatever their counts. */
  lemma RaysDisjoint(r: Rect, c1: int, c2: int, c3: int, c4: int, x: int, y: int)
    ensures !(OnRay(RightRay(r), c1, x, y) && OnRay(LeftRay(r), c2, x, y))
    ensures !(OnRay(RightRay(r), c1, x, y) && OnRay(DownRay(r), c3, x, y))
    ensures !(OnRay(RightRay(r), c1, x, y) && OnRay(UpRay(r), c4, x, y))
    ensures !(OnRay(LeftRay(r), c2, x, y) && OnRay(DownRay(r), c3, x, y))
    ensures !(OnRay(LeftRay(r), c2, x, y) && OnRay(UpRay(r), c4, x, y))
    ensures !(OnRay(DownRay(r), c3, x, y) && OnRay(UpRay(r), c4, x, y))
  {
  }

  // ---------------------------------------------------------------------
  // Measurement and decision

  /** The four counters cx1 (right), cx2 (left), cy1 (down), cy2 (up). */
  datatype Gap = Gap(cx1: nat, cx2: nat, cy1: nat, cy2: nat)

  /** The counters the four loops of detectBlink leave on picture p. */
  function Measure(p: Picture): (g: Gap)
    ensures g.cx1 <= RightRay(p.rect).n && g.cx2 <= LeftRay(p.rect).n
    ensures g.cy1 <= DownRay(p.rect).n && g.cy2 <= UpRay(p.rect).n
  {
    Gap(Count(p, RightRay(p.rect)), Count(p, LeftRay(p.rect)), Count(p, DownRay(p.rect)), Count(p, UpRay(p.rect)))
  }

  /**
   * Each counter is bounded by its loop's span; for a picture with origin 0
   * that is 0 <= cx1 <= Max.X - startX + 1, 0 <= cx2 <= startX,
   * 0 <= cy1 <= Max.Y - startY and 0 <= cy2 <= startY.
   */
  lemma CounterBounds(p: Picture)
    requires p.rect.minX == 0 && p.rect.minY == 0
    ensures var g, startX, startY := Measure(p), p.rect.maxX / 2, p.rect.maxY / 2;
      && g.cx1 <= p.rect.maxX - startX + 1 && g.cx2 <= startX
      && g.cy1 <= p.rect.maxY - startY && g.cy2 <= startY
  {
  }

  /**
   * The right and down loops run to Max inclusive, and the pixel at Max lies
   * outside the picture, reads as zero and never stops a loop.  So a right or
   * down counter is never one short of its span: it is the full span or at
   * most two short.
   */
  lemma LastStepNeverStops(p: Picture, ray: Ray)
    requires ray == RightRay(p.rect) || ray == DownRay(p.rect)
    requires ray.n > 0
    ensures Count(p, ray) != ray.n - 1
  {
    var k := ray.n - 1;
    assert !p.rect.Contains(RayX(ray, k), RayY(ray, k));
    CountIsFirstStop(p, ray, k);
  }

  /**
   * On a picture of even height with Max.Y >= 0 the down counter never equals
   * Max.Y/2 - 1, so the third branch of the saturation correction is never taken.
   */
  lemma DownTestUnreachable(p: Picture)
    requires p.rect.maxY >= 0 && p.rect.maxY % 2 == 0
    ensures Measure(p).cy1 != Half(p.rect.maxY) - 1
  {
    var ray := DownRay(p.rect);
    if ray.n > 0 {
      LastStepNeverStops(p, ray);
    }
  }

  /** The if/else-if chain that zeroes a counter equal to its saturation value. */
  function Saturate(g: Gap, maxX: int, maxY: int): (s: Gap)
    ensures s.cx1 <= g.cx1 && s.cx2 <= g.cx2 && s.cy1 <= g.cy1 && s.cy2 <= g.cy2
  {
    if g.cx1 == Half(maxX) - 1 then g.(cx1 := 0)
    else if g.cx2 == Half(maxX) then g.(cx2 := 0)
    else if g.cy1 == Half(maxY) - 1 then g.(cy1 := 0)
    else if g.cy2 == Half(maxY) then g.(cy2 := 0)
    else g
  }

  /** The counters in the order the correction inspects them. */
  function Counter(g: Gap, i: int): nat {
    if i == 0 then g.cx1 else if i == 1 then g.cx2 else if i == 2 then g.cy1 else g.cy2
  }

  /** The value that marks counter i as saturated. */
  function Limit(i: int, maxX: int, maxY: int): int {
    if i == 0 then Half(maxX) - 1 else if i == 1 then Half(maxX) else if i == 2 then Half(maxY) - 1 else Half(maxY)
  }

  /** Counter i is saturated and no counter before it in the order is. */
  predicate FirstSaturated(g: Gap, maxX: int, maxY: int, i: int) {
    0 <= i < 4 && Counter(g, i) == Limit(i, maxX, maxY) &&
    forall j :: 0 <= j < i ==> Counter(g, j) != Limit(j, maxX, maxY)
  }

  /**
   * The correction zeroes the first saturated counter in the order cx1, cx2,
   * cy1, cy2 and leaves every other counter as it was, so at most one counter
   * changes even when several are saturated.
   */
  lemma SaturateZeroesFirstSaturated(g: Gap, maxX: int, maxY: int)
    ensures forall i :: 0 <= i < 4 ==>
      Counter(Saturate(g, maxX, maxY), i) == if FirstSaturated(g, maxX, maxY, i) then 0 else Counter(g, i)
    ensures forall i, j :: 0 <= i < j < 4 ==>
      Counter(Saturate(g, maxX, maxY), i) == Counter(g, i) || Counter(Saturate(g, maxX, maxY), j) == Counter(g, j)
  {
    var r := Saturate(g, maxX, maxY);
    forall i | 0 <= i < 4
      ensures Counter(r, i) == if FirstSaturated(g, maxX, maxY, i) then 0 else Counter(g, i)
    {
      assert FirstSaturated(g, maxX, maxY, i) <==>
        Counter(g, i) == Limit(i, maxX, maxY) &&
        (i > 0 ==> Counter(g, 0) != Limit(0, maxX, maxY)) &&
        (i > 1 ==> Counter(g, 1) != Limit(1, maxX, maxY)) &&
        (i > 2 ==> Counter(g, 2) != Limit(2, maxX, maxY));
    }
  }

  /** cy/cx after the correction, or 0 when either sum is 0 (cy is forced to 0 when cx is). */
  function AspectRatio(g: Gap): (ratio: real)
    ensures ratio >= 0.0
  {
    var cx := g.cx1 + g.cx2;
    var cy := if cx == 0 then 0 else g.cy1 + g.cy2;
    if cx > 0 && cy > 0 then cy as real / cx as real else 0.0
  }

  /** A zero horizontal span gives ratio 0, whatever the vertical counters are. */
  lemma ZeroSpan(g: Gap, th: real)
    requires g.cx1 + g.cx2 == 0 && th >= 0.0
    ensures AspectRatio(g) == 0.0
    ensures !(AspectRatio(g) > th)
  {
  }

  /**
   * For a non-negative threshold the ratio exceeds it iff both sums are
   * positive and cy > th * cx; a ratio equal to the threshold does not.
   */
  lemma RatioExceeds(g: Gap, th: real)
    requires th >= 0.0
    ensures var cx, cy := g.cx1 + g.cx2, g.cy1 + g.cy2;
      AspectRatio(g) > th <==> cx > 0 && cy > 0 && cy as real > th * cx as real
  {
    var cx, cy := g.cx1 + g.cx2, g.cy1 + g.cy2;
    if cx > 0 && cy > 0 {
      var q := cy as real / cx as real;
      assert q * cx as real == cy as real;
      if q > th {
        assert q * cx as real > th * cx as real;
      } else {
        assert q * cx as real <= th * cx as real;
      }
    }
  }

  /** With the reference threshold 0.44 the test is 100 * cy > 44 * cx on integers. */
  lemma ReferenceThreshold(g: Gap)
    ensures var cx, cy := g.cx1 + g.cx2, g.cy1 + g.cy2;
      AspectRatio(g) > BlinkThreshold <==> cx > 0 && 100 * cy > 44 * cx
  {
    RatioExceeds(g, BlinkThreshold);
  }

  /** What detectBlink(src, th) returns for a picture p: whether the corrected ratio exceeds th. */
  predicate Opens(p: Picture, th: real) {
    AspectRatio(Saturate(Measure(p), p.rect.maxX, p.rect.maxY)) > th
  }

  /** The picture detectBlink leaves behind: the four paths painted, with the counts of p. */
  function Overlay(p: Picture): (q: Picture)
    ensures q.rect == p.rect
  {
    var g, r := Measure(p), p.rect;
    Paint(Paint(Paint(Paint(p, RightRay(r), g.cx1), LeftRay(r), g.cx2), DownRay(r), g.cy1), UpRay(r), g.cy2)
  }

  /** Whether (x, y) is visited by one of the four loops before it stops. */
  predicate OnPaths(p: Picture, x: int, y: int) {
    var g, r := Measure(p), p.rect;
    OnRay(RightRay(r), g.cx1, x, y) || OnRay(LeftRay(r), g.cx2, x, y) ||
    OnRay(DownRay(r), g.cy1, x, y) || OnRay(UpRay(r), g.cy2, x, y)
  }

  /**
   * The overlay repaints exactly the visited pixels whose red byte is 0 and
   * leaves every other pixel, on the paths or off them, as it was.
   */
  lemma OverlayAt(p: Picture, x: int, y: int)
    requires p.rect.Contains(x, y)
    ensures At(Overlay(p), x, y) ==
      if OnPaths(p, x, y) && RedHigh(At(p, x, y)) == 0 then Repaint(At(p, x, y)) else At(p, x, y)
  {
    var g, r := Measure(p), p.rect;
    var p1 := Paint(p, RightRay(r), g.cx1);
    var p2 := Paint(p1, LeftRay(r), g.cx2);
    var p3 := Paint(p2, DownRay(r), g.cy1);
    RaysDisjoint(r, g.cx1, g.cx2, g.cy1, g.cy2, x, y);
    AtPaint(p, RightRay(r), g.cx1, x, y);
    AtPaint(p1, LeftRay(r), g.cx2, x, y);
    AtPaint(p2, DownRay(r), g.cy1, x, y);
    AtPaint(p3, UpRay(r), g.cy2, x, y);
  }

  const Red := Color(255, 0, 0, 255)

  /** On a two-level picture the overlay turns the visited black pixels red and nothing else. */
  lemma OverlayOfTwoLevel(p: Picture, x: int, y: int)
    requires p.rect.Contains(x, y)
    requires At(p, x, y) == White || At(p, x, y) == Black
    ensures At(Overlay(p), x, y) == if OnPaths(p, x, y) && At(p, x, y) == Black then Red else At(p, x, y)
  {
    OverlayAt(p, x, y);
  }

  /**
   * Each loop meets the pixels of its own path as they were before any loop
   * ran, because the paths painted before it do not touch its path.  So the
   * counters the loops leave in turn are the counters of the unpainted picture.
   */
  lemma PaintedCounts(p: Picture)
    ensures var g, r := Measure(p), p.rect;
      var p1 := Paint(p, RightRay(r), g.cx1);
      var p2 := Paint(p1, LeftRay(r), g.cx2);
      var p3 := Paint(p2, DownRay(r), g.cy1);
      Count(p1, LeftRay(r)) == g.cx2 && Count(p2, DownRay(r)) == g.cy1 && Count(p3, UpRay(r)) == g.cy2
  {
    var g, r := Measure(p), p.rect;
    var right, left, down, up := RightRay(r), LeftRay(r), DownRay(r), UpRay(r);
    var p1 := Paint(p, right, g.cx1);
    var p2 := Paint(p1, left, g.cx2);
    CountAfterPaint(p, right, g.cx1, left);
    CountAfterPaint(p, right, g.cx1, down);
    CountAfterPaint(p, right, g.cx1, up);
    CountAfterPaint(p1, left, g.cx2, down);
    CountAfterPaint(p1, left, g.cx2, up);
    CountAfterPaint(p2, down, g.cy1, up);
  }

  /**
   * The tail of detectBlink: zero at most one saturated counter, sum the
   * counters, force cy to 0 when cx is 0, and compare cy/cx with th.
   * It mirrors the code step by step; its ensures holds it to Saturate and
   * AspectRatio, which the lemmas above characterise.
   */
  method Decide(cx1: nat, cx2: nat, cy1: nat, cy2: nat, maxX: int, maxY: int, th: real)
    returns (open: bool)
    ensures open == (AspectRatio(Saturate(Gap(cx1, cx2, cy1, cy2), maxX, maxY)) > th)
  {
    var c1, c2, c3, c4 := cx1, cx2, cy1, cy2;
    if c1 == Half(maxX) - 1 {
      c1 := 0;
    } else if c2 == Half(maxX) {
      c2 := 0;
    } else if c3 == Half(maxY) - 1 {
      c3 := 0;
    } else if c4 == Half(maxY) {
      c4 := 0;
    }
    assert Gap(c1, c2, c3, c4) == Saturate(Gap(cx1, cx2, cy1, cy2), maxX, maxY);

    var cx := c1 + c2;
    var cy := c3 + c4;
    if cx == 0 {
      cy := 0;
    }
    var ratio := 0.0;
    if cx > 0 && cy > 0 {
      ratio := cy as real / cx as real;
    }
    open := ratio > th;
  }

  /**
   * detectBlink: cast the four rays over src (measuring and painting it), apply
   * the saturation correction and report whether the ratio exceeds th.
   */
  method DetectBlink(src: Image, th: real) returns (open: bool)
    requires src.Valid()
    modifies src.pix
    ensures open == Opens(old(src.Snapshot()), th)
    ensures src.Snapshot() == Overlay(old(src.Snapshot()))
  {
    ghost var p0 := src.Snapshot();
    var bounds := src.rect;
    var right, left, down, up := RightRay(bounds), LeftRay(bounds), DownRay(bounds), UpRay(bounds);
    ghost var g := Measure(p0);
    PaintedCounts(p0);
    var cx1 := CastRay(src, right);
    var cx2 := CastRay(src, left);
    var cy1 := CastRay(src, down);
    var cy2 := CastRay(src, up);
    assert Gap(cx1, cx2, cy1, cy2) == g;
    open := Decide(cx1, cx2, cy1, cy2, bounds.maxX, bounds.maxY, th);
  }

  // ---------------------------------------------------------------------
  // The entry point

  /**
   * BlinkDetector: cut the eye region, convert it to grey, blur it (which may
   * fail), apply the Sobel filter, threshold the result and run DetectBlink
   * with threshold 0.44.  The boolean reported is the negation of DetectBlink's
   * answer.  The blur and the Sobel filter are external and are given as
   * functions, called with radius 5 and threshold 70.
   */
  method BlinkDetector(puploc: Puploc, img: Picture,
                       blur: (Picture, nat) -> Result<Picture>, sobel: (Picture, nat) -> Picture)
    returns (res: Image?, blink: bool, err: Option<string>)
    ensures var sub := SubImage(img, EyeRect(puploc));
      var blurred := blur(GreyPicture(sub), BlurRadius);
      if blurred.Err? then
        res == null && !blink && err == Some(blurred.error)
      else
        var bin := Binarize(sobel(blurred.value, SobelThreshold), sub.rect.Dx(), sub.rect.Dy());
        && err == None && res != null && fresh(res) && res.Valid()
        && res.Snapshot() == Overlay(bin)
        && blink == !Opens(bin, BlinkThreshold)
  {
    var rect := EyeRect(puploc);
    var subImg := SubImage(img, rect);
    var dx, dy := subImg.rect.Dx(), subImg.rect.Dy();

    var grey := RgbToGrayscaleImage(subImg);
    var blurred := blur(grey.Snapshot(), BlurRadius);
    if blurred.Err? {
      return null, false, Some(blurred.error);
    }

    res := new Image.Of(sobel(blurred.value, SobelThreshold));
    BinarizeInPlace(res, dx, dy);
    var ok := DetectBlink(res, BlinkThreshold);
    if !ok {
      return res, true, None;
    }
    return res, false, None;
  }

  /**
   * When the Sobel filter returns a picture of the eye region's size with
   * origin (0, 0), every pixel of the image BlinkDetector returns is white,
   * black or red, and it is red exactly where a ray passed over black.
   */
  lemma DetectorOutputColours(puploc: Puploc, img: Picture,
                              blur: (Picture, nat) -> Result<Picture>, sobel: (Picture, nat) -> Picture,
                              x: int, y: int)
    requires var sub := SubImage(img, EyeRect(puploc));
      var blurred := blur(GreyPicture(sub), BlurRadius);
      && blurred.Ok?
      && sobel(blurred.value, SobelThreshold).rect == Rect(0, 0, sub.rect.Dx(), sub.rect.Dy())
      && 0 <= x < sub.rect.Dx() && 0 <= y < sub.rect.Dy()
    ensures var sub := SubImage(img, EyeRect(puploc));
      var blurred := blur(GreyPicture(sub), BlurRadius);
      var bin := Binarize(sobel(blurred.value, SobelThreshold), sub.rect.Dx(), sub.rect.Dy());
      var c := At(Overlay(bin), x, y);
      && (c == White || c == Black || c == Red)
      && (c == Red <==> OnPaths(bin, x, y) && At(bin, x, y) == Black)
  {
    var sub := SubImage(img, EyeRect(puploc));
    var blurred := blur(GreyPicture(sub), BlurRadius);
    var q := sobel(blurred.value, SobelThreshold);
    var bin := Binarize(q, sub.rect.Dx(), sub.rect.Dy());
    BinarizeTwoLevel(q, sub.rect.Dx(), sub.rect.Dy(), x, y);
    OverlayOfTwoLevel(bin, x, y);
  }
}

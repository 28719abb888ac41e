/**
 Shrinking an image to fit a box (`backend/utils/image_resize.go`), over exact
 reals.  A pixel read outside the image is transparent.
 */
module Resize {
  type Channel = x: int | 0 <= x < 0x100

  datatype Pixel = Pixel(r: Channel, g: Channel, b: Channel, a: Channel)

  const TRANSPARENT := Pixel(0, 0, 0, 0)

  /** math.Round of a number that is not negative: halves go up.  (Of a negative one only the sign matters here.) */
  function Round(x: real): int {
    (x + 0.5).Floor
  }

  function Clamp(x: real): real {
    if x < 0.0 then 0.0 else x
  }

  // ---- sizes

  /** The smaller of the two shrinking factors, 1 when the image already fits. */
  function Scale(width: int, height: int, maxWidth: int, maxHeight: int): real
    requires width > 0 && height > 0
  {
    var byWidth := if width > maxWidth then maxWidth as real / width as real else 1.0;
    if height > maxHeight && maxHeight as real / height as real < byWidth then maxHeight as real / height as real
    else byWidth
  }

  function Target(size: int, scale: real): int {
    var rounded := Round(size as real * scale);
    if rounded < 1 then 1 else rounded
  }

  lemma QuotientBounds(a: real, b: real, scale: real)
    requires b > 0.0 && scale <= a / b
    ensures b * scale <= a
  {
    assert b * (a / b) == a;
    Scaled(b, scale, a / b);
  }

  lemma Scaled(b: real, x: real, y: real)
    requires b >= 0.0 && x <= y
    ensures b * x <= b * y
  {
  }

  lemma Quotient(a: int, b: int)
    requires a > 0 && b > 0
    ensures a as real / b as real > 0.0
  {
  }

  lemma ScaleFits(width: int, height: int, maxWidth: int, maxHeight: int)
    requires width > 0 && height > 0 && maxWidth > 0 && maxHeight > 0
    ensures var scale := Scale(width, height, maxWidth, maxHeight);
      && 0.0 < scale <= 1.0
      && width as real * scale <= maxWidth as real && height as real * scale <= maxHeight as real
  {
    var scale := Scale(width, height, maxWidth, maxHeight);
    Quotient(maxWidth, width);
    Quotient(maxHeight, height);
    if width > maxWidth {
      QuotientBounds(maxWidth as real, width as real, scale);
      assert maxWidth as real / width as real <= 1.0;
    } else {
      Scaled(width as real, scale, 1.0);
    }
    if height > maxHeight {
      QuotientBounds(maxHeight as real, height as real, scale);
    } else {
      Scaled(height as real, scale, 1.0);
    }
  }

  lemma Bounded(a: real, b: real, scale: real)
    requires b > 0.0 && b * scale <= a
    ensures scale <= a / b
  {
    Divided(a, scale, b);
  }

  /** No larger factor, up to 1, fits the box. */
  lemma ScaleIsLargest(width: int, height: int, maxWidth: int, maxHeight: int, other: real)
    requires width > 0 && height > 0
    requires other <= 1.0 && width as real * other <= maxWidth as real && height as real * other <= maxHeight as real
    ensures other <= Scale(width, height, maxWidth, maxHeight)
  {
    Bounded(maxWidth as real, width as real, other);
    Bounded(maxHeight as real, height as real, other);
  }

  /** A side of the result is the scaled side rounded to the nearest whole number, or 1 if that is 0. */
  lemma TargetIsNearest(size: int, scale: real)
    requires size as real * scale >= 0.0
    ensures var exact := size as real * scale;
      if exact < 0.5 then Target(size, scale) == 1
      else exact - 0.5 < Target(size, scale) as real <= exact + 0.5
  {
  }

  /** The result never exceeds the box, and it has at least one pixel. */
  lemma ResultFitsBox(width: int, height: int, maxWidth: int, maxHeight: int)
    requires width > 0 && height > 0 && maxWidth > 0 && maxHeight > 0
    ensures var scale := Scale(width, height, maxWidth, maxHeight);
      1 <= Target(width, scale) <= maxWidth && 1 <= Target(height, scale) <= maxHeight
  {
    ScaleFits(width, height, maxWidth, maxHeight);
  }

  /** A negative limit makes the scale negative, and then the result is one pixel, taken from the corner. */
  lemma NegativeLimit(width: int, height: int, maxWidth: int, maxHeight: int)
    requires width > 0 && height > 0 && (maxWidth < 0 || maxHeight < 0)
    ensures var scale := Scale(width, height, maxWidth, maxHeight);
      && scale < 0.0 && Target(width, scale) == 1 && Target(height, scale) == 1
      && Coordinate(0, scale) == 0.0
  {
    Divided(maxWidth as real, 0.0, width as real);
    Divided(maxHeight as real, 0.0, height as real);
    var scale := Scale(width, height, maxWidth, maxHeight);
    Scaled(width as real, scale, 0.0);
    Scaled(height as real, scale, 0.0);
    var q := 0.5 / scale;
    assert q * scale == 0.5;
  }

  /** A limit of zero beside one that is not negative makes the scale zero, and the result is one pixel. */
  lemma ZeroLimit(width: int, height: int, maxWidth: int, maxHeight: int)
    requires width > 0 && height > 0 && maxWidth >= 0 && maxHeight >= 0 && (maxWidth == 0 || maxHeight == 0)
    ensures var scale := Scale(width, height, maxWidth, maxHeight);
      scale == 0.0 && Target(width, scale) == 1 && Target(height, scale) == 1
  {
    Divided(0.0, maxWidth as real, width as real);
    Divided(0.0, maxHeight as real, height as real);
  }

  // ---- sampling

  /** The source coordinate under the centre of the result's pixel. */
  function Coordinate(position: int, scale: real): real
    requires scale != 0.0
  {
    Clamp((position as real + 0.5) / scale - 0.5)
  }

  /** Scaled back, it is the centre of the result's pixel, unless that lies before the first source pixel's centre. */
  lemma CentreIsSampled(position: int, scale: real)
    requires scale > 0.0
    ensures Coordinate(position, scale) >= 0.0
    ensures position as real + 0.5 >= 0.5 * scale ==>
      (Coordinate(position, scale) + 0.5) * scale == position as real + 0.5
    ensures position as real + 0.5 < 0.5 * scale ==> Coordinate(position, scale) == 0.0
  {
    Divided(position as real + 0.5, 0.5, scale);
    var q := (position as real + 0.5) / scale;
    assert q * scale == position as real + 0.5;
  }

  predicate InRange(position: int, size: int, scale: real)
    requires scale > 0.0
  {
    0 <= Coordinate(position, scale).Floor < size
  }

  lemma Divided(a: real, b: real, scale: real)
    requires scale > 0.0
    ensures a < b * scale <==> a / scale < b
    ensures a <= b * scale <==> a / scale <= b
  {
    var q := a / scale;
    assert q * scale == a;
  }

  /** Unless the size was rounded up to 1, every sampled coordinate is inside. */
  lemma SamplesInside(position: int, size: int, scale: real)
    requires scale > 0.0 && size > 0 && Round(size as real * scale) >= 1
    requires 0 <= position < Target(size, scale)
    ensures InRange(position, size, scale)
  {
    assert position as real + 0.5 <= size as real * scale;
    Divided(position as real + 0.5, size as real, scale);
  }

  /** When it was rounded up to 1, the one sample is inside exactly if scale * (size + 1/2) > 1/2. */
  lemma SingleSampleInside(size: int, scale: real)
    requires scale > 0.0 && size > 0 && Round(size as real * scale) < 1
    ensures Target(size, scale) == 1
    ensures InRange(0, size, scale) <==> scale * (size as real + 0.5) > 0.5
  {
    Divided(0.5, size as real + 0.5, scale);
    assert scale * (size as real + 0.5) == (size as real + 0.5) * scale;
  }

  /** A 1000 by 1 image shrunk into 100 by 100 samples its only row outside. */
  lemma ThinImageMissesItsRow()
    ensures var scale := Scale(1000, 1, 100, 100);
      scale == 0.1 && Target(1, scale) == 1 && !InRange(0, 1, scale)
  {
    var scale := Scale(1000, 1, 100, 100);
    assert scale == 0.1;
    SingleSampleInside(1, scale);
  }

  // ---- interpolation

  function Times(x: real, y: real): real {
    x * y
  }

  function Mix(a: real, b: real, f: real): real {
    a * (1.0 - f) + b * f
  }

  lemma Part(d: real, f: real)
    requires d >= 0.0 && 0.0 <= f <= 1.0
    ensures 0.0 <= Times(d, f) <= d
  {
    Scaled(d, 0.0, f);
    Scaled(d, f, 1.0);
  }

  lemma MixAsStep(a: real, b: real, f: real)
    ensures Mix(a, b, f) == a + Times(b - a, f) == a - Times(a - b, f)
  {
  }

  lemma MixStaysBetween(a: real, b: real, f: real, low: real, high: real)
    requires 0.0 <= f <= 1.0 && low <= a <= high && low <= b <= high
    ensures low <= Mix(a, b, f) <= high
  {
    hide Mix, Times;
    MixAsStep(a, b, f);
    if a <= b {
      Part(b - a, f);
    } else {
      Part(a - b, f);
    }
  }

  function Least(a: int, b: int): int {
    if a <= b then a else b
  }

  function Greatest(a: int, b: int): int {
    if a >= b then a else b
  }

  function Blended(v00: Channel, v01: Channel, v10: Channel, v11: Channel, fx: real, fy: real): real {
    Mix(Mix(v00 as real, v10 as real, fx), Mix(v01 as real, v11 as real, fx), fy)
  }

  lemma BlendStaysBetween(v00: Channel, v01: Channel, v10: Channel, v11: Channel, fx: real, fy: real)
    requires 0.0 <= fx <= 1.0 && 0.0 <= fy <= 1.0
    ensures var low, high := Least(Least(v00, v01), Least(v10, v11)), Greatest(Greatest(v00, v01), Greatest(v10, v11));
      low as real <= Blended(v00, v01, v10, v11, fx, fy) <= high as real
  {
    hide Mix;
    var low := Least(Least(v00, v01), Least(v10, v11)) as real;
    var high := Greatest(Greatest(v00, v01), Greatest(v10, v11)) as real;
    MixStaysBetween(v00 as real, v10 as real, fx, low, high);
    MixStaysBetween(v01 as real, v11 as real, fx, low, high);
    MixStaysBetween(Mix(v00 as real, v10 as real, fx), Mix(v01 as real, v11 as real, fx), fy, low, high);
  }

  /** The bilinear weights of the four samples: `fx` towards v10 and v11, `fy` towards v01 and v11. */
  function Weighted(v00: real, v01: real, v10: real, v11: real, fx: real, fy: real): real {
    v00 * ((1.0 - fx) * (1.0 - fy)) + v01 * ((1.0 - fx) * fy) + v10 * (fx * (1.0 - fy)) + v11 * (fx * fy)
  }

  predicate Nearest(v: int, exact: real) {
    exact - 0.5 < v as real <= exact + 0.5
  }

  lemma BlendIsBilinear(v00: Channel, v01: Channel, v10: Channel, v11: Channel, fx: real, fy: real)
    ensures Blended(v00, v01, v10, v11, fx, fy) ==
      Weighted(v00 as real, v01 as real, v10 as real, v11 as real, fx, fy)
  {
  }

  /** Each channel is the bilinear mean of its four samples, rounded; it lies between the least and the greatest. */
  function InterpolateChannel(v00: Channel, v01: Channel, v10: Channel, v11: Channel, fx: real, fy: real): (v: Channel)
    requires 0.0 <= fx <= 1.0 && 0.0 <= fy <= 1.0
    ensures Least(Least(v00, v01), Least(v10, v11)) <= v <= Greatest(Greatest(v00, v01), Greatest(v10, v11))
    ensures Nearest(v, Weighted(v00 as real, v01 as real, v10 as real, v11 as real, fx, fy))
  {
    hide Blended, Weighted;
    BlendIsBilinear(v00, v01, v10, v11, fx, fy);
    BlendStaysBetween(v00, v01, v10, v11, fx, fy);
    Round(Blended(v00, v01, v10, v11, fx, fy))
  }

  // ---- the image

  function PixelAt(image: array2<Pixel>, x: int, y: int): Pixel
    reads image
  {
    if 0 <= x < image.Length0 && 0 <= y < image.Length1 then image[x, y] else TRANSPARENT
  }

  function Neighbour(position: int, size: int): int {
    if position + 1 >= size then size - 1 else position + 1
  }

  function Sample(image: array2<Pixel>, x: int, y: int, scale: real): Pixel
    requires scale != 0.0
    reads image
  {
    var sx, sy := Coordinate(x, scale), Coordinate(y, scale);
    var x0, y0 := sx.Floor, sy.Floor;
    var x1, y1 := Neighbour(x0, image.Length0), Neighbour(y0, image.Length1);
    var fx, fy := sx - x0 as real, sy - y0 as real;
    var c00, c01 := PixelAt(image, x0, y0), PixelAt(image, x0, y1);
    var c10, c11 := PixelAt(image, x1, y0), PixelAt(image, x1, y1);
    Pixel(InterpolateChannel(c00.r, c01.r, c10.r, c11.r, fx, fy),
      InterpolateChannel(c00.g, c01.g, c10.g, c11.g, fx, fy),
      InterpolateChannel(c00.b, c01.b, c10.b, c11.b, fx, fy),
      InterpolateChannel(c00.a, c01.a, c10.a, c11.a, fx, fy))
  }

  /**
   Between the centres of source pixel (i, j) and the next ones, the result is
   the bilinear mean of the four; past the last column or row it repeats that.
   */
  lemma SampleIsBilinear(image: array2<Pixel>, x: int, y: int, scale: real, i: int, j: int)
    requires scale != 0.0 && 0 <= i < image.Length0 && 0 <= j < image.Length1
    requires i as real <= Coordinate(x, scale) < i as real + 1.0 && j as real <= Coordinate(y, scale) < j as real + 1.0
    ensures var fx, fy := Coordinate(x, scale) - i as real, Coordinate(y, scale) - j as real;
      var i1 := if i + 1 < image.Length0 then i + 1 else i;
      var j1 := if j + 1 < image.Length1 then j + 1 else j;
      var a, b, c, d := image[i, j], image[i, j1], image[i1, j], image[i1, j1];
      var p := Sample(image, x, y, scale);
      && Nearest(p.r, Weighted(a.r as real, b.r as real, c.r as real, d.r as real, fx, fy))
      && Nearest(p.g, Weighted(a.g as real, b.g as real, c.g as real, d.g as real, fx, fy))
      && Nearest(p.b, Weighted(a.b as real, b.b as real, c.b as real, d.b as real, fx, fy))
      && Nearest(p.a, Weighted(a.a as real, b.a as real, c.a as real, d.a as real, fx, fy))
  {
    hide Weighted, Coordinate, Nearest, Least, Greatest, InterpolateChannel;
  }

  /** A limit of zero makes the coordinate infinite; what the platform then makes of the pixel is a parameter. */
  method ResizeToFit(src: array2<Pixel>, maxWidth: int, maxHeight: int, platform: Pixel)
    returns (result: array2<Pixel>)
    ensures (src.Length0 <= maxWidth && src.Length1 <= maxHeight) || src.Length0 == 0 || src.Length1 == 0 ==>
      result == src
    ensures !((src.Length0 <= maxWidth && src.Length1 <= maxHeight) || src.Length0 == 0 || src.Length1 == 0) ==>
      var scale := Scale(src.Length0, src.Length1, maxWidth, maxHeight);
      && fresh(result) && (scale == 0.0 ==> maxWidth == 0 || maxHeight == 0)
      && (maxWidth > 0 && maxHeight > 0 ==> result.Length0 <= maxWidth && result.Length1 <= maxHeight)
      && result.Length0 == Target(src.Length0, scale) && result.Length1 == Target(src.Length1, scale)
      && (scale == 0.0 ==> result.Length0 == 1 && result.Length1 == 1)
      && (scale != 0.0 ==>
            forall x, y | 0 <= x < result.Length0 && 0 <= y < result.Length1 ::
              result[x, y] == Sample(src, x, y, scale))
  {
    hide Sample, Scale, Target;
    var width, height := src.Length0, src.Length1;
    if width <= 0 || height <= 0 {
      return src;
    }
    var scale := Scale(width, height, maxWidth, maxHeight);
    ShrinksWhenLarger(width, height, maxWidth, maxHeight);
    if scale >= 1.0 {
      return src;
    }
    if maxWidth > 0 && maxHeight > 0 {
      ScaleFits(width, height, maxWidth, maxHeight);
      ResultFitsBox(width, height, maxWidth, maxHeight);
    } else if maxWidth < 0 || maxHeight < 0 {
      NegativeLimit(width, height, maxWidth, maxHeight);
    } else {
      ZeroLimit(width, height, maxWidth, maxHeight);
      result := new Pixel[1, 1]((x, y) => platform);
      return;
    }
    var targetWidth, targetHeight := Target(width, scale), Target(height, scale);
    result := new Pixel[targetWidth, targetHeight]((x, y) => TRANSPARENT);
    for y := 0 to targetHeight
      invariant forall i, j | 0 <= i < targetWidth && 0 <= j < y :: result[i, j] == Sample(src, i, j, scale)
    {
      for x := 0 to targetWidth
        invariant forall i, j | 0 <= i < targetWidth && 0 <= j < y :: result[i, j] == Sample(src, i, j, scale)
        invariant forall i | 0 <= i < x :: result[i, y] == Sample(src, i, y, scale)
      {
        result[x, y] := Sample(src, x, y, scale);
      }
    }
  }

  lemma ShrinksWhenLarger(width: int, height: int, maxWidth: int, maxHeight: int)
    requires width > 0 && height > 0
    ensures Scale(width, height, maxWidth, maxHeight) < 1.0 <==> width > maxWidth || height > maxHeight
  {
    Divided(maxWidth as real, 1.0, width as real);
    Divided(maxHeight as real, 1.0, height as real);
  }
}

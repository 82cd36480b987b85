/** Scaling a camera picture into its region; the scale is a real number. */
module ImageFit {
  import opened MosaicRegions

  function Round(x: real): (n: int)
    requires x >= 0.0
    ensures n as real - 0.5 <= x <= n as real + 0.5
  {
    (x + 0.5).Floor
  }

  /** The largest scale at which the image still fits. */
  function Scale(srcWidth: nat, srcHeight: nat, width: nat, height: nat): real
    requires srcWidth > 0 && srcHeight > 0
  {
    var sx, sy := width as real / srcWidth as real, height as real / srcHeight as real;
    if sx < sy then sx else sy
  }

  function Scaled(src: nat, scale: real): int
    requires scale >= 0.0
  {
    Max(1, Round(src as real * scale))
  }

  function FitRect(srcWidth: int, srcHeight: int, bounds: Rect): Rect {
    if srcWidth <= 0 || srcHeight <= 0 || bounds.Empty() then bounds
    else
      var width, height := bounds.maxX - bounds.minX, bounds.maxY - bounds.minY;
      var scale := Scale(srcWidth, srcHeight, width, height);
      ScalePositive(srcWidth, srcHeight, width, height);
      var w, h := Scaled(srcWidth, scale), Scaled(srcHeight, scale);
      var x, y := bounds.minX + (width - w) / 2, bounds.minY + (height - h) / 2;
      MakeRect(x, y, x + w, y + h)
  }

  lemma ScalePositive(srcWidth: nat, srcHeight: nat, width: nat, height: nat)
    requires srcWidth > 0 && srcHeight > 0 && width > 0 && height > 0
    ensures Scale(srcWidth, srcHeight, width, height) > 0.0
  {
  }

  lemma Quotient(a: real, b: real)
    requires b > 0.0
    ensures b * (a / b) == a
  {
  }

  lemma CastProduct(a: int, b: int)
    ensures (a * b) as real == a as real * b as real
  {
  }

  /** `n` is the whole number of pixels nearest to `num / den`, and at least one. */
  predicate NearestPixels(n: int, num: nat, den: nat) {
    n >= 1 && ((n == 1 && 2 * num <= den) || (2 * (n * den - num) <= den && 2 * (num - n * den) <= den))
  }

  lemma RoundedShare(n: int, x: real, src: nat, product: nat)
    requires src > 0 && x >= 0.0 && x * src as real == product as real && n == Round(x)
    ensures 2 * (n * src - product) <= src && 2 * (product - n * src) <= src
  {
    HalfScaled(n as real, x, src as real, product as real);
    hide Round;
    CastProduct(n, src);
    var q := n * src;
    HalfApart(q, product, src);
  }

  lemma HalfScaled(m: real, x: real, s: real, p: real)
    requires m - 0.5 <= x <= m + 0.5 && s >= 0.0 && x * s == p
    ensures m * s - 0.5 * s <= p <= m * s + 0.5 * s
  {
    var below, above := x - m + 0.5, m + 0.5 - x;
    assert below * s >= 0.0 && above * s >= 0.0;
    assert below * s == x * s - m * s + 0.5 * s;
    assert above * s == m * s + 0.5 * s - x * s;
  }

  lemma HalfApart(a: int, b: int, c: nat)
    requires a as real - 0.5 * c as real <= b as real <= a as real + 0.5 * c as real
    ensures 2 * (a - b) <= c && 2 * (b - a) <= c
  {
    assert (2 * (b - a)) as real <= c as real && (2 * (a - b)) as real <= c as real;
  }

  lemma ShareInRoom(n: int, src: nat, product: nat, room: nat)
    requires src > 0 && room > 0 && product <= room * src && 2 * (n * src - product) <= src && 2 * (product - n * src) <= src
    ensures Max(1, n) <= room && NearestPixels(Max(1, n), product, src)
  {
    if n > room {
      Multiples(room, n, src);
    }
    if n <= 0 {
      assert n * src <= 0;
    }
  }

  lemma ShareScaled(src: nat, full: nat, other: nat)
    requires src > 0
    ensures other as real * (full as real / src as real) * src as real == (full * other) as real
  {
    Quotient(full as real, src as real);
    CastProduct(full, other);
    var q := full as real / src as real;
    assert other as real * q * src as real == other as real * (src as real * q);
  }

  lemma FullSide(src: nat, full: nat)
    requires src > 0 && full > 0
    ensures full as real / src as real >= 0.0 && Scaled(src, full as real / src as real) == full
  {
    Quotient(full as real, src as real);
  }

  /** Scaling by `full / src` fills `full`, and the other side stays in proportion and inside its room. */
  lemma ScaledSides(src: nat, full: nat, other: nat, room: nat)
    requires src > 0 && full > 0 && room > 0 && full * other <= room * src
    ensures var scale := full as real / src as real;
      && scale >= 0.0 && Scaled(src, scale) == full
      && NearestPixels(Scaled(other, scale), full * other, src) && Scaled(other, scale) <= room
  {
    var scale := full as real / src as real;
    FullSide(src, full);
    ShareScaled(src, full, other);
    OtherSide(src, other, scale, full * other, room);
  }

  lemma OtherSide(src: nat, other: nat, scale: real, product: nat, room: nat)
    requires src > 0 && room > 0 && scale >= 0.0 && other as real * scale * src as real == product as real && product <= room * src
    ensures Scaled(other, scale) <= room && NearestPixels(Scaled(other, scale), product, src)
  {
    var x := other as real * scale;
    assert x >= 0.0;
    RoundedShare(Round(x), x, src, product);
    ShareInRoom(Round(x), src, product, room);
    hide NearestPixels, Round;
  }

  /** The side that is relatively shorter in the bounds decides the scale. */
  lemma ScaleSide(srcWidth: nat, srcHeight: nat, width: nat, height: nat)
    requires srcWidth > 0 && srcHeight > 0
    ensures width * srcHeight <= height * srcWidth ==> Scale(srcWidth, srcHeight, width, height) == width as real / srcWidth as real
    ensures width * srcHeight >= height * srcWidth ==> Scale(srcWidth, srcHeight, width, height) == height as real / srcHeight as real
  {
    var a, b, w, h := width as real, height as real, srcWidth as real, srcHeight as real;
    CastProduct(width, srcHeight);
    CastProduct(height, srcWidth);
    Quotient(a, w);
    Quotient(b, h);
    if width * srcHeight <= height * srcWidth {
      SmallerQuotient(a, w, b, h);
    }
    if width * srcHeight >= height * srcWidth {
      SmallerQuotient(b, h, a, w);
    }
  }

  lemma SmallerQuotient(a: real, w: real, b: real, h: real)
    requires w > 0.0 && h > 0.0 && a * h <= b * w
    ensures a / w <= b / h
  {
    var p, q := a / w, b / h;
    Quotient(a, w);
    Quotient(b, h);
    assert p * w * h == a * h && q * w * h == b * w;
  }

  /**
    * A fitted image lies inside its bounds, fills the side that limits it, keeps its proportions to within
    * half a pixel on the other side, and is centred to within one pixel.
    */
  lemma FitRectFits(srcWidth: int, srcHeight: int, bounds: Rect)
    requires srcWidth > 0 && srcHeight > 0 && !bounds.Empty()
    ensures var r := FitRect(srcWidth, srcHeight, bounds);
      var width, height := bounds.maxX - bounds.minX, bounds.maxY - bounds.minY;
      && !r.Empty() && Inside(r, bounds)
      && 0 <= (bounds.maxX - r.maxX) - (r.minX - bounds.minX) <= 1
      && 0 <= (bounds.maxY - r.maxY) - (r.minY - bounds.minY) <= 1
      && (width * srcHeight <= height * srcWidth ==>
            r.maxX - r.minX == width && NearestPixels(r.maxY - r.minY, width * srcHeight, srcWidth))
      && (width * srcHeight >= height * srcWidth ==>
            r.maxY - r.minY == height && NearestPixels(r.maxX - r.minX, height * srcWidth, srcHeight))
  {
    var width, height := bounds.maxX - bounds.minX, bounds.maxY - bounds.minY;
    ScaleSide(srcWidth, srcHeight, width, height);
    if width * srcHeight <= height * srcWidth {
      ScaledSides(srcWidth, width, srcHeight, height);
    }
    if width * srcHeight >= height * srcWidth {
      ScaledSides(srcHeight, height, srcWidth, width);
    }
    hide Scale, Scaled, NearestPixels;
  }
}

/**
 * The bounding-box scan that `runRoute` performs over the canvas's RGBA pixel
 * buffer before placing result overlays, and the centre it derives from it.
 */
module BoundsScan {
  import opened Common

  /** The running bounds `minX`, `minY`, `maxX`, `maxY` of the scan. */
  datatype Box = Box(minX: int, minY: int, maxX: int, maxY: int)

  /** Offset of the alpha byte of pixel (x, y) in a row-major RGBA buffer. */
  function AlphaIndex(width: nat, x: nat, y: nat): nat
  {
    (y * width + x) * 4 + 3
  }

  /** Every alpha byte the scan reads lies inside the `width * height * 4` buffer. */
  lemma AlphaIndexInRange(width: nat, height: nat, x: nat, y: nat)
    requires x < width && y < height
    ensures AlphaIndex(width, x, y) < width * height * 4
  {
    assert y * width + x < (y + 1) * width;
    assert (y + 1) * width <= height * width by {
      MulLeq(y + 1, height, width);
    }
  }

  /** Multiplication by a natural number is monotonic. */
  lemma {:induction false} MulLeq(a: nat, b: nat, c: nat)
    requires a <= b
    ensures a * c <= b * c
  {
    if c > 0 {
      MulLeq(a, b, c - 1);
      assert a * c == a * (c - 1) + a;
      assert b * c == b * (c - 1) + b;
    }
  }

  /** Distinct pixels have distinct alpha bytes. */
  lemma AlphaIndexInjective(width: nat, x: nat, y: nat, x': nat, y': nat)
    requires x < width && x' < width
    requires AlphaIndex(width, x, y) == AlphaIndex(width, x', y')
    ensures x == x' && y == y'
  {
    assert y * width + x == y' * width + x';
    if y < y' {
      MulLeq(y + 1, y', width);
      assert false;
    } else if y' < y {
      MulLeq(y' + 1, y, width);
      assert false;
    }
  }

  /** Pixel (x, y) is marked when it lies on the canvas and its alpha byte is above zero. */
  predicate Marked(px: seq<byte>, width: nat, height: nat, x: int, y: int)
    requires |px| == width * height * 4
  {
    0 <= x < width && 0 <= y < height &&
    (AlphaIndexInRange(width, height, x, y); px[AlphaIndex(width, x, y)] > 0)
  }

  /** Some pixel of the buffer is marked. */
  ghost predicate AnyMarked(px: seq<byte>, width: nat, height: nat)
    requires |px| == width * height * 4
  {
    exists x, y :: Marked(px, width, height, x, y)
  }

  /**
   * What the scan yields: when some pixel is marked, the tightest box around
   * the marked pixels (every marked pixel inside, every side touched by one);
   * when none is, the initial values `width`, `height`, 0, 0.
   */
  ghost predicate IsScanResult(px: seq<byte>, width: nat, height: nat, b: Box)
    requires |px| == width * height * 4
  {
    if AnyMarked(px, width, height) then
      && (forall x, y :: Marked(px, width, height, x, y) ==>
            b.minX <= x <= b.maxX && b.minY <= y <= b.maxY)
      && (exists y :: Marked(px, width, height, b.minX, y))
      && (exists y :: Marked(px, width, height, b.maxX, y))
      && (exists x :: Marked(px, width, height, x, b.minY))
      && (exists x :: Marked(px, width, height, x, b.maxY))
    else
      b == Box(width, height, 0, 0)
  }

  /** Pixel (x, y) comes before the scan position (cx, cy) in row-major order. */
  ghost predicate Scanned(x: int, y: int, cx: int, cy: int)
  {
    y < cy || (y == cy && x < cx)
  }

  /** The state of the scan after every pixel before (cx, cy) has been visited. */
  ghost predicate ScanInvariant(px: seq<byte>, width: nat, height: nat, cx: int, cy: int,
                                b: Box, found: bool,
                                yAtMinX: int, yAtMaxX: int, xAtMinY: int, xAtMaxY: int)
    requires |px| == width * height * 4
  {
    && (found <==> exists x, y :: Scanned(x, y, cx, cy) && Marked(px, width, height, x, y))
    && (!found ==> b == Box(width, height, 0, 0))
    && (found ==>
          && (forall x, y :: Scanned(x, y, cx, cy) && Marked(px, width, height, x, y) ==>
                b.minX <= x <= b.maxX && b.minY <= y <= b.maxY)
          && Marked(px, width, height, b.minX, yAtMinX)
          && Marked(px, width, height, b.maxX, yAtMaxX)
          && Marked(px, width, height, xAtMinY, b.minY)
          && Marked(px, width, height, xAtMaxY, b.maxY))
  }

  /**
   * The nested row/column scan of `runRoute`: starts from `width`, `height`,
   * 0, 0 and folds `Math.min`/`Math.max` over every pixel whose alpha byte is
   * above zero.
   */
  method ComputeBounds(data: array<byte>, width: nat, height: nat) returns (b: Box)
    requires data.Length == width * height * 4
    ensures IsScanResult(data[..], width, height, b)
  {
    ghost var px := data[..];
    var minX, minY, maxX, maxY := width as int, height as int, 0, 0;
    ghost var found := false;
    ghost var yAtMinX, yAtMaxX, xAtMinY, xAtMaxY := 0, 0, 0, 0;
    for y := 0 to height
      invariant ScanInvariant(px, width, height, 0, y, Box(minX, minY, maxX, maxY), found,
                              yAtMinX, yAtMaxX, xAtMinY, xAtMaxY)
    {
      for x := 0 to width
        invariant ScanInvariant(px, width, height, x, y, Box(minX, minY, maxX, maxY), found,
                                yAtMinX, yAtMaxX, xAtMinY, xAtMaxY)
      {
        AlphaIndexInRange(width, height, x, y);
        var i := (y * width + x) * 4;
        if data[i + 3] > 0 {
          assert Marked(px, width, height, x, y);
          if x <= minX { yAtMinX := y; }
          if y <= minY { xAtMinY := x; }
          if x >= maxX { yAtMaxX := y; }
          if y >= maxY { xAtMaxY := x; }
          minX := if x < minX then x else minX;
          minY := if y < minY then y else minY;
          maxX := if x > maxX then x else maxX;
          maxY := if y > maxY then y else maxY;
          found := true;
        }
      }
    }
    b := Box(minX, minY, maxX, maxY);
  }

  /** The overlay anchor `((minX + maxX) / 2, (minY + maxY) / 2)`; JavaScript division is exact here. */
  function Centre(b: Box): (c: Point)
    ensures b.minX <= b.maxX ==> b.minX as real <= c.x <= b.maxX as real
    ensures b.minY <= b.maxY ==> b.minY as real <= c.y <= b.maxY as real
    ensures c.x - b.minX as real == b.maxX as real - c.x && c.y - b.minY as real == b.maxY as real - c.y
  {
    Point((b.minX + b.maxX) as real / 2.0, (b.minY + b.maxY) as real / 2.0)
  }

  /** The scan's outcome is determined by the buffer: two results of the same scan are equal. */
  lemma ScanResultUnique(px: seq<byte>, width: nat, height: nat, b1: Box, b2: Box)
    requires |px| == width * height * 4
    requires IsScanResult(px, width, height, b1) && IsScanResult(px, width, height, b2)
    ensures b1 == b2
  {
    if AnyMarked(px, width, height) {
      var y1 :| Marked(px, width, height, b1.minX, y1);
      var y2 :| Marked(px, width, height, b2.minX, y2);
      var y3 :| Marked(px, width, height, b1.maxX, y3);
      var y4 :| Marked(px, width, height, b2.maxX, y4);
      var x1 :| Marked(px, width, height, x1, b1.minY);
      var x2 :| Marked(px, width, height, x2, b2.minY);
      var x3 :| Marked(px, width, height, x3, b1.maxY);
      var x4 :| Marked(px, width, height, x4, b2.maxY);
    }
  }

  /** With marked pixels, the centre lies inside the scanned box. */
  lemma CentreInsideBox(px: seq<byte>, width: nat, height: nat, b: Box)
    requires |px| == width * height * 4
    requires AnyMarked(px, width, height) && IsScanResult(px, width, height, b)
    ensures b.minX as real <= Centre(b).x <= b.maxX as real
    ensures b.minY as real <= Centre(b).y <= b.maxY as real
  {
    var x, y :| Marked(px, width, height, x, y);
    assert b.minX <= x <= b.maxX && b.minY <= y <= b.maxY;
  }

  /** A blank canvas keeps the initial bounds, so the overlays go to the middle of the canvas. */
  lemma BlankCanvasCentre(px: seq<byte>, width: nat, height: nat, b: Box)
    requires |px| == width * height * 4
    requires forall x, y :: !Marked(px, width, height, x, y)
    requires IsScanResult(px, width, height, b)
    ensures b == Box(width, height, 0, 0)
    ensures Centre(b) == Point(width as real / 2.0, height as real / 2.0)
  {
  }

  /** A single marked pixel is its own box and its own centre. */
  lemma SingleMarkCentre(px: seq<byte>, width: nat, height: nat, x: nat, y: nat, b: Box)
    requires |px| == width * height * 4
    requires forall x', y' :: Marked(px, width, height, x', y') <==> x' == x && y' == y
    requires IsScanResult(px, width, height, b)
    ensures b == Box(x, y, x, y)
    ensures Centre(b) == Point(x as real, y as real)
  {
    assert Marked(px, width, height, x, y);
    assert AnyMarked(px, width, height);
    var y1 :| Marked(px, width, height, b.minX, y1);
    var y2 :| Marked(px, width, height, b.maxX, y2);
    var x1 :| Marked(px, width, height, x1, b.minY);
    var x2 :| Marked(px, width, height, x2, b.maxY);
  }

  /** Marks only at (10, 10) and (50, 40) give the box (10, 10)-(50, 40) and the centre (30, 25). */
  lemma TwoMarksCentre(px: seq<byte>, width: nat, height: nat, b: Box)
    requires |px| == width * height * 4
    requires forall x, y :: Marked(px, width, height, x, y) <==> (x == 10 && y == 10) || (x == 50 && y == 40)
    requires IsScanResult(px, width, height, b)
    ensures b == Box(10, 10, 50, 40)
    ensures Centre(b) == Point(30.0, 25.0)
  {
    assert Marked(px, width, height, 10, 10);
    assert AnyMarked(px, width, height);
    assert Marked(px, width, height, 50, 40);
    var y1 :| Marked(px, width, height, b.minX, y1);
    var y2 :| Marked(px, width, height, b.maxX, y2);
    var x1 :| Marked(px, width, height, x1, b.minY);
    var x2 :| Marked(px, width, height, x2, b.maxY);
  }
}

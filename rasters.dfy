/** Pixel grids as values, and the functions that specify the traversals and
    regions of the image-processing library: what each one makes of a grid. */
module Rasters {
  import opened Colors

  /** A snapshot of an image's pixels: g[y][x] is the pixel in column x of row y. */
  type Grid = seq<seq<Color>>

  /** A per-pixel function, such as the `func` of imageMap. */
  type PixelFn = Color -> Color

  predicate InBounds(g: Grid, x: int, y: int)
  {
    0 <= y < |g| && 0 <= x < |g[y]|
  }

  /** g is a width-by-height raster: height rows of width pixels each. */
  predicate IsRaster(g: Grid, width: nat, height: nat)
  {
    |g| == height && forall y | 0 <= y < height :: |g[y]| == width
  }

  predicate SameShape(a: Grid, b: Grid)
  {
    |a| == |b| && forall y | 0 <= y < |a| :: |a[y]| == |b[y]|
  }

  /** A coordinate callback may be applied at every in-bounds coordinate of g. */
  ghost predicate DefinedOn<T>(fn: (Grid, int, int) --> T, g: Grid)
  {
    forall x, y | InBounds(g, x, y) :: fn.requires(g, x, y)
  }

  /** The grid of width-by-height pixels all equal to c. */
  function Filled(width: nat, height: nat, c: Color): (g: Grid)
    ensures IsRaster(g, width, height)
    ensures forall x, y | InBounds(g, x, y) :: g[y][x] == c
  {
    seq(height, _ => seq(width, _ => c))
  }

  /** Two grids of the same shape that agree on every pixel are equal. */
  lemma GridsEqual(a: Grid, b: Grid)
    requires SameShape(a, b)
    requires forall x, y | InBounds(a, x, y) :: a[y][x] == b[y][x]
    ensures a == b
  {
    forall y | 0 <= y < |a|
      ensures a[y] == b[y]
    {
      assert forall x | 0 <= x < |a[y]| :: InBounds(a, x, y);
    }
  }

  // ---------------------------------------------------------------------
  // Traversals
  // ---------------------------------------------------------------------

  /** imageMap: every pixel replaced by f of itself. */
  function Mapped(g: Grid, f: PixelFn): (r: Grid)
    ensures SameShape(r, g)
    ensures forall x, y | InBounds(g, x, y) :: r[y][x] == f(g[y][x])
  {
    seq(|g|, y requires 0 <= y < |g| => seq(|g[y]|, x requires 0 <= x < |g[y]| => f(g[y][x])))
  }

  /** mapLine: row lineNo has f applied to each of its pixels; a lineNo
      outside [0, height) leaves the grid as it is. */
  function MappedLine(g: Grid, lineNo: int, f: PixelFn): (r: Grid)
    ensures SameShape(r, g)
    ensures forall x, y | InBounds(g, x, y) :: r[y][x] == if y == lineNo then f(g[y][x]) else g[y][x]
  {
    if lineNo < 0 || lineNo >= |g| then g
    else g[lineNo := seq(|g[lineNo]|, x requires 0 <= x < |g[lineNo]| => f(g[lineNo][x]))]
  }

  /** imageMapCoord: the pixel at (x, y) becomes func(g, x, y), where func
      always sees the original grid g. */
  function MappedCoord(g: Grid, func: (Grid, int, int) --> Color): (r: Grid)
    requires DefinedOn(func, g)
    ensures SameShape(r, g)
    ensures forall x, y | InBounds(g, x, y) :: r[y][x] == func(g, x, y)
  {
    seq(|g|, y requires 0 <= y < |g| =>
      seq(|g[y]|, x requires 0 <= x < |g[y]| => assert InBounds(g, x, y); func(g, x, y)))
  }

  /** The coordinate function imageMapIf hands to imageMapCoord: f of the
      original pixel where cond holds, the original pixel elsewhere. */
  function Chosen(cond: (Grid, int, int) --> bool, f: PixelFn): (chosen: (Grid, int, int) --> Color)
    ensures forall g, x, y | InBounds(g, x, y) && cond.requires(g, x, y) ::
      chosen.requires(g, x, y) && chosen(g, x, y) == if cond(g, x, y) then f(g[y][x]) else g[y][x]
  {
    (g: Grid, x: int, y: int) requires InBounds(g, x, y) && cond.requires(g, x, y) =>
      if cond(g, x, y) then f(g[y][x]) else g[y][x]
  }

  /** imageMapIf: f applied exactly at the pixels where cond holds of the
      original grid. */
  function MappedIf(g: Grid, cond: (Grid, int, int) --> bool, f: PixelFn): (r: Grid)
    requires DefinedOn(cond, g)
    ensures SameShape(r, g)
    ensures forall x, y | InBounds(g, x, y) :: r[y][x] == if cond(g, x, y) then f(g[y][x]) else g[y][x]
  {
    assert DefinedOn(Chosen(cond, f), g);
    MappedCoord(g, Chosen(cond, f))
  }

  // ---------------------------------------------------------------------
  // Regions
  // ---------------------------------------------------------------------

  /** `interval[0] <= v` in JavaScript: false when the array has no element 0,
      since a comparison with `undefined` is false. */
  predicate AtLeastLower(interval: seq<int>, v: int)
  {
    |interval| >= 1 && interval[0] <= v
  }

  /** `interval[1] >= v` in JavaScript: false when the array has no element 1. */
  predicate AtMostUpper(interval: seq<int>, v: int)
  {
    |interval| >= 2 && interval[1] >= v
  }

  /** `interval[0] <= v && interval[1] >= v` in JavaScript: v lies in the
      inclusive interval, and nothing does when the array is shorter than two. */
  function InInterval(interval: seq<int>, v: int): (inside: bool)
    ensures inside <==> |interval| >= 2 && interval[0] <= v <= interval[1]
  {
    AtLeastLower(interval, v) && AtMostUpper(interval, v)
  }

  /** The condition mapWindow passes to imageMapIf. It holds exactly inside the
      inclusive window [xInterval[0], xInterval[1]] x [yInterval[0], yInterval[1]];
      an interval with fewer than two elements selects nothing, and elements
      past the second are ignored. */
  function InWindow(xInterval: seq<int>, yInterval: seq<int>): (inWindow: (Grid, int, int) --> bool)
    ensures forall g, x, y ::
              inWindow.requires(g, x, y) &&
              (inWindow(g, x, y) <==> (|xInterval| >= 2 && |yInterval| >= 2 &&
                                       xInterval[0] <= x <= xInterval[1] && yInterval[0] <= y <= yInterval[1]))
  {
    (g: Grid, x: int, y: int) => InInterval(xInterval, x) && InInterval(yInterval, y)
  }

  /** mapWindow: f applied inside the inclusive window, nothing changed outside
      it; with an interval shorter than two elements nothing changes at all. */
  function Windowed(g: Grid, xInterval: seq<int>, yInterval: seq<int>, f: PixelFn): (r: Grid)
    ensures SameShape(r, g)
    ensures forall x, y | InBounds(g, x, y) ::
      r[y][x] == if |xInterval| >= 2 && |yInterval| >= 2 &&
                    xInterval[0] <= x <= xInterval[1] && yInterval[0] <= y <= yInterval[1]
                 then f(g[y][x]) else g[y][x]
  {
    MappedIf(g, InWindow(xInterval, yInterval), f)
  }

  /** The band makeBorder rewrites: within `thickness` of some edge of a
      width-by-height image. */
  function InBorder(x: int, y: int, width: int, height: int, thickness: int): (inBand: bool)
    ensures inBand <==> !(thickness <= x < width - thickness && thickness <= y < height - thickness)
  {
    x < thickness || y < thickness || x >= width - thickness || y >= height - thickness
  }

  /** The test of makeBorder's loop, as a condition on coordinates. */
  function BorderCond(width: int, height: int, thickness: int): (inBand: (Grid, int, int) --> bool)
    ensures forall g, x, y ::
              inBand.requires(g, x, y) &&
              (inBand(g, x, y) <==> !(thickness <= x < width - thickness && thickness <= y < height - thickness))
  {
    (g: Grid, x: int, y: int) => InBorder(x, y, width, height, thickness)
  }

  /** makeBorder: f applied to the pixels of the border band, interior
      pixels copied unchanged. */
  function Bordered(g: Grid, width: int, height: int, thickness: int, f: PixelFn): (r: Grid)
    ensures SameShape(r, g)
    ensures forall x, y | InBounds(g, x, y) ::
      r[y][x] == if thickness <= x < width - thickness && thickness <= y < height - thickness
                 then g[y][x] else f(g[y][x])
  {
    MappedIf(g, BorderCond(width, height, thickness), f)
  }

  // ---------------------------------------------------------------------
  // Relations between the traversals
  // ---------------------------------------------------------------------

  /** imageMapIf with a condition that always holds is imageMap. */
  lemma MappedIfAlwaysIsMapped(g: Grid, cond: (Grid, int, int) --> bool, f: PixelFn)
    requires DefinedOn(cond, g)
    requires forall x, y | InBounds(g, x, y) :: cond(g, x, y)
    ensures MappedIf(g, cond, f) == Mapped(g, f)
  {
    GridsEqual(MappedIf(g, cond, f), Mapped(g, f));
  }

  /** imageMapIf with a condition that never holds leaves every pixel as it is. */
  lemma MappedIfNeverIsIdentity(g: Grid, cond: (Grid, int, int) --> bool, f: PixelFn)
    requires DefinedOn(cond, g)
    requires forall x, y | InBounds(g, x, y) :: !cond(g, x, y)
    ensures MappedIf(g, cond, f) == g
  {
    GridsEqual(MappedIf(g, cond, f), g);
  }

  /** The coordinate function (img, x, y) => img.getPixel(x, y). */
  function PixelAt(): (pixelAt: (Grid, int, int) --> Color)
  {
    (h: Grid, x: int, y: int) requires InBounds(h, x, y) => h[y][x]
  }

  /** The coordinate function (img, x, y) => f(img.getPixel(x, y)). */
  function OfPixel(f: PixelFn): (ofPixel: (Grid, int, int) --> Color)
  {
    (h: Grid, x: int, y: int) requires InBounds(h, x, y) => f(h[y][x])
  }

  /** imageMapCoord with the identity coordinate function gives back the image. */
  lemma MappedCoordIdentity(g: Grid)
    ensures MappedCoord(g, PixelAt()) == g
  {
    GridsEqual(MappedCoord(g, PixelAt()), g);
  }

  /** imageMapCoord with a coordinate function that only looks at the pixel
      at (x, y) is imageMap of that pixel function. */
  lemma MappedCoordOfPixelFn(g: Grid, f: PixelFn)
    ensures MappedCoord(g, OfPixel(f)) == Mapped(g, f)
  {
    GridsEqual(MappedCoord(g, OfPixel(f)), Mapped(g, f));
  }

  /** The window [0, width - 1] x [0, height - 1] is the whole image: mapWindow
      over it is imageMap. */
  lemma WindowedWholeIsMapped(g: Grid, width: nat, height: nat, f: PixelFn)
    requires IsRaster(g, width, height)
    ensures Windowed(g, [0, width - 1], [0, height - 1], f) == Mapped(g, f)
  {
    GridsEqual(Windowed(g, [0, width - 1], [0, height - 1], f), Mapped(g, f));
  }

  /** An empty window (lower bound above upper bound) or an interval with fewer
      than two elements changes nothing. */
  lemma WindowedEmptyIsIdentity(g: Grid, xInterval: seq<int>, yInterval: seq<int>, f: PixelFn)
    requires |xInterval| < 2 || |yInterval| < 2 ||
             xInterval[0] > xInterval[1] || yInterval[0] > yInterval[1]
    ensures Windowed(g, xInterval, yInterval, f) == g
  {
    GridsEqual(Windowed(g, xInterval, yInterval, f), g);
  }

  /** A thickness of zero or less selects no border pixel: makeBorder copies the image. */
  lemma BorderedThinIsIdentity(g: Grid, width: nat, height: nat, thickness: int, f: PixelFn)
    requires IsRaster(g, width, height)
    requires thickness <= 0
    ensures Bordered(g, width, height, thickness, f) == g
  {
    GridsEqual(Bordered(g, width, height, thickness, f), g);
  }

  /** When the bands from opposite edges meet (2 * thickness >= width or
      >= height), every pixel is a border pixel: makeBorder is imageMap. */
  lemma BorderedThickIsMapped(g: Grid, width: nat, height: nat, thickness: int, f: PixelFn)
    requires IsRaster(g, width, height)
    requires 2 * thickness >= width || 2 * thickness >= height
    ensures Bordered(g, width, height, thickness, f) == Mapped(g, f)
  {
    GridsEqual(Bordered(g, width, height, thickness, f), Mapped(g, f));
  }

  /** mapLine applied to rows 0 .. n - 1 in turn. */
  function MappedLines(g: Grid, n: nat, f: PixelFn): (r: Grid)
  {
    if n == 0 then g else MappedLine(MappedLines(g, n - 1, f), n - 1, f)
  }

  /** mapLine applied to rows 0 .. n - 1 maps exactly the pixels of those rows. */
  lemma {:induction false} MappedLinesPartial(g: Grid, n: nat, f: PixelFn)
    ensures SameShape(MappedLines(g, n, f), g)
    ensures forall x, y | InBounds(g, x, y) ::
      MappedLines(g, n, f)[y][x] == if y < n then f(g[y][x]) else g[y][x]
  {
    if n > 0 {
      MappedLinesPartial(g, n - 1, f);
    }
  }

  /** mapLine applied to every row in turn is imageMap. */
  lemma MappedLinesIsMapped(g: Grid, f: PixelFn)
    ensures MappedLines(g, |g|, f) == Mapped(g, f)
  {
    MappedLinesPartial(g, |g|, f);
    GridsEqual(MappedLines(g, |g|, f), Mapped(g, f));
  }

  /** The channel-wise 255-minus function of the imageMapCoord test. */
  function Inverted(p: Color): (q: Color)
  {
    Color(255.0 - p.r, 255.0 - p.g, 255.0 - p.b)
  }

  /** The test scenario of imageMapCoord: on a 2x2 red image the channel-wise
      255-minus function gives [0, 255, 255] everywhere. */
  lemma InvertRedScenario()
    ensures MappedCoord(Filled(2, 2, Color(255.0, 0.0, 0.0)), OfPixel(Inverted)) ==
            Filled(2, 2, Color(0.0, 255.0, 255.0))
  {
    var red := Filled(2, 2, Color(255.0, 0.0, 0.0));
    GridsEqual(MappedCoord(red, OfPixel(Inverted)), Filled(2, 2, Color(0.0, 255.0, 255.0)));
  }
}

/** The effects of the library, dimCenter and makeGrayish, as functions of
    the original pixel grid; and, beside each, the behaviour its test suite and
    name call for, with the inputs on which the two part. */
module Effects {
  import opened Colors
  import opened Rasters

  function Min(a: int, b: int): (m: int)
  {
    if a <= b then a else b
  }

  /** distToEdge of dimCenter, for xRange = [t, width - t] and
      yRange = [t, height - t]. */
  function DistToEdge(x: int, y: int, width: int, height: int, thickness: int): (d: int)
    ensures d <= x - thickness && d <= (width - thickness) - x
    ensures d <= y - thickness && d <= (height - thickness) - y
    ensures d == x - thickness || d == (width - thickness) - x ||
            d == y - thickness || d == (height - thickness) - y
  {
    Min(Min(x - thickness, (width - thickness) - x), Min(y - thickness, (height - thickness) - y))
  }

  /** dimCenter's condition, distToEdge < thickness. It holds exactly within
      2 * thickness of the top or left edge, or more than width - 2 * thickness
      (height - 2 * thickness) along the other axis: the outer band, not the centre. */
  function NearEdge(x: int, y: int, width: int, height: int, thickness: int): (near: bool)
    ensures near <==>
      x < 2 * thickness || x > width - 2 * thickness ||
      y < 2 * thickness || y > height - 2 * thickness
  {
    DistToEdge(x, y, width, height, thickness) < thickness
  }

  /** The condition dimCenter passes to imageMapIf. */
  function DimCond(width: int, height: int, thickness: int): (near: (Grid, int, int) --> bool)
    ensures forall g, x, y ::
              near.requires(g, x, y) &&
              (near(g, x, y) <==> DistToEdge(x, y, width, height, thickness) < thickness)
  {
    (g: Grid, x: int, y: int) => NearEdge(x, y, width, height, thickness)
  }

  /** dimCenter as written: Dim applied where distToEdge < thickness, every
      other pixel unchanged. */
  function DimmedCenter(g: Grid, width: int, height: int, thickness: int): (r: Grid)
    ensures SameShape(r, g)
    ensures forall x, y | InBounds(g, x, y) ::
      r[y][x] == if x < 2 * thickness || x > width - 2 * thickness ||
                    y < 2 * thickness || y > height - 2 * thickness
                 then Dim(g[y][x]) else g[y][x]
  {
    MappedIf(g, DimCond(width, height, thickness), Dim)
  }

  /** The condition makeGrayish passes to imageMapIf: the original pixel is grayish. */
  function GrayCond(): (grayish: (Grid, int, int) --> bool)
    ensures forall g, x, y | InBounds(g, x, y) ::
      grayish.requires(g, x, y) && (grayish(g, x, y) <==> IsGrayish(g[y][x]))
  {
    (g: Grid, x: int, y: int) requires InBounds(g, x, y) => IsGrayish(g[y][x])
  }

  /** makeGrayish as written. A 1x1 image gets its pixel desaturated. Any other
      image is passed to imageMapIf with a condition (grayish) under which the
      pixel function (change only non-grayish pixels) never changes anything,
      so its pixels come back as they were. */
  function MadeGrayish(g: Grid, width: nat, height: nat): (r: Grid)
    requires IsRaster(g, width, height)
    ensures SameShape(r, g)
    ensures width == 1 && height == 1 ==>
      r[0][0].r + r[0][0].g + r[0][0].b == g[0][0].r + g[0][0].g + g[0][0].b &&
      IsGrayish(r[0][0]) && (IsGrayish(g[0][0]) ==> r == g) &&
      (!IsGrayish(g[0][0]) ==> r[0][0].r == r[0][0].g == r[0][0].b)
    ensures !(width == 1 && height == 1) ==> r == g
  {
    if width == 1 && height == 1 then
      assert g == [[g[0][0]]] by {
        assert |g[0]| == 1;
        assert g[0] == [g[0][0]];
      }
      [[Desaturated(g[0][0])]]
    else
      var r := MappedIf(g, GrayCond(), Desaturated);
      GridsEqual(r, g);
      r
  }

  /** A grid of grayish pixels is a fixed point of makeGrayish. */
  lemma MadeGrayishKeepsGrayish(g: Grid, width: nat, height: nat)
    requires IsRaster(g, width, height)
    requires forall x, y | InBounds(g, x, y) :: IsGrayish(g[y][x])
    ensures MadeGrayish(g, width, height) == g
  {
  }

  /** makeGrayish is idempotent. */
  lemma MadeGrayishIdempotent(g: Grid, width: nat, height: nat)
    requires IsRaster(g, width, height)
    ensures var once := MadeGrayish(g, width, height);
            IsRaster(once, width, height) && MadeGrayish(once, width, height) == once
  {
  }

  /** The test scenarios of makeGrayish: on an all-black or all-white image the
      result is that image, so every pixel has three equal channels within [0, 255]. */
  lemma MadeGrayishBlackAndWhite(width: nat, height: nat)
    ensures MadeGrayish(Filled(width, height, Black), width, height) == Filled(width, height, Black)
    ensures MadeGrayish(Filled(width, height, White), width, height) == Filled(width, height, White)
  {
  }

  // ---------------------------------------------------------------------
  // The behaviour the tests and the names call for
  // ---------------------------------------------------------------------

  /** The region the dimCenter test expects to be dimmed: at least `thickness`
      away from every edge. It is exactly the complement of makeBorder's band. */
  function Interior(x: int, y: int, width: int, height: int, thickness: int): (inside: bool)
    ensures inside <==> !InBorder(x, y, width, height, thickness)
  {
    thickness <= x < width - thickness && thickness <= y < height - thickness
  }

  function InteriorCond(width: int, height: int, thickness: int): (inside: (Grid, int, int) --> bool)
  {
    (g: Grid, x: int, y: int) => Interior(x, y, width, height, thickness)
  }

  /** dimCenter as intended: Dim applied to the interior, a border band of
      width `thickness` left untouched. */
  function DimmedInterior(g: Grid, width: int, height: int, thickness: int): (r: Grid)
    ensures SameShape(r, g)
    ensures forall x, y | InBounds(g, x, y) ::
      r[y][x] == if InBorder(x, y, width, height, thickness) then g[y][x] else Dim(g[y][x])
  {
    MappedIf(g, InteriorCond(width, height, thickness), Dim)
  }

  /** The intended dimCenter is mapWindow over [thickness, width - thickness - 1]
      x [thickness, height - thickness - 1] with Dim. */
  lemma DimmedInteriorIsWindowed(g: Grid, width: int, height: int, thickness: int)
    ensures DimmedInterior(g, width, height, thickness) ==
            Windowed(g, [thickness, width - thickness - 1], [thickness, height - thickness - 1], Dim)
  {
    GridsEqual(DimmedInterior(g, width, height, thickness),
               Windowed(g, [thickness, width - thickness - 1], [thickness, height - thickness - 1], Dim));
  }

  /** makeGrayish as intended: every pixel that is not grayish is replaced by
      its average, at every image size. */
  function MadeGrayishEverywhere(g: Grid): (r: Grid)
    ensures SameShape(r, g)
    ensures forall x, y | InBounds(g, x, y) :: IsGrayish(r[y][x])
    ensures forall x, y | InBounds(g, x, y) && IsGrayish(g[y][x]) :: r[y][x] == g[y][x]
    ensures forall x, y | InBounds(g, x, y) && !IsGrayish(g[y][x]) ::
      r[y][x].r == r[y][x].g == r[y][x].b &&
      r[y][x].r + r[y][x].g + r[y][x].b == g[y][x].r + g[y][x].g + g[y][x].b
  {
    Mapped(g, Desaturated)
  }

  /** On a 1x1 image the code as written already does what was intended. */
  lemma MadeGrayishAgreesOnSingleton(g: Grid)
    requires IsRaster(g, 1, 1)
    ensures MadeGrayish(g, 1, 1) == MadeGrayishEverywhere(g)
  {
    assert InBounds(g, 0, 0);
    GridsEqual(MadeGrayish(g, 1, 1), MadeGrayishEverywhere(g));
  }

  // ---------------------------------------------------------------------
  // Inputs that show the discrepancies
  // ---------------------------------------------------------------------

  /** dimCenter as written on a 4x4 white image with thickness 1: the centre
      pixel (2, 2) stays white while the corner (0, 0) is dimmed, so the
      test's expectation of [204, 204, 204] at (2, 2) does not hold. */
  lemma DimCenterDimsEdgeNotCentre()
    ensures var r := DimmedCenter(Filled(4, 4, White), 4, 4, 1);
            r[2][2] == White && r[0][0] == Color(204.0, 204.0, 204.0)
  {
  }

  /** The intended dimCenter on the same input: every interior pixel is
      [204, 204, 204] and the border stays white. */
  lemma DimmedInteriorScenario()
    ensures var r := DimmedInterior(Filled(4, 4, White), 4, 4, 1);
            (forall x, y | 1 <= x < 3 && 1 <= y < 3 :: r[y][x] == Color(204.0, 204.0, 204.0)) &&
            r[0][0] == White && r[3][3] == White
  {
  }

  /** makeGrayish as written on a red image: the 1x1 image is desaturated,
      the 2x1 image comes back red, although its pixel is not grayish. */
  lemma MakeGrayishSkipsLargerImages()
    ensures !IsGrayish(MadeGrayish(Filled(2, 1, Color(255.0, 0.0, 0.0)), 2, 1)[0][0])
    ensures IsGrayish(MadeGrayish(Filled(1, 1, Color(255.0, 0.0, 0.0)), 1, 1)[0][0])
  {
  }
}

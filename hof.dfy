/** The higher-order image-processing library: traversals, regions and
    effects over an Image. Every operation except mapLine and the 1x1 case
    of makeGrayish works on a copy and leaves its argument unchanged. */
module ImageProcessingHof {
  import opened Colors
  import opened Rasters
  import opened Effects
  import opened Images

  /** imageMap: a new image whose pixel (x, y) is f of the input's pixel (x, y).
      Like the source, it reads each pixel from the copy it writes to; every
      cell is visited once, so the value read is still the input's. */
  method ImageMap(img: Image, f: PixelFn) returns (r: Image)
    requires img.Valid()
    ensures fresh(r) && r.Valid()
    ensures r.width == img.width && r.height == img.height
    ensures r.rows == Mapped(img.rows, f)
    ensures img.rows == old(img.rows)
  {
    r := img.Copy();
    for i := 0 to r.width
      invariant r.Valid() && r.width == img.width && r.height == img.height
      invariant forall x, y | 0 <= x < r.width && 0 <= y < r.height ::
        r.rows[y][x] == if x < i then f(img.rows[y][x]) else img.rows[y][x]
    {
      for j := 0 to r.height
        invariant r.Valid()
        invariant forall x, y | 0 <= x < r.width && 0 <= y < r.height ::
          r.rows[y][x] == if x < i || (x == i && y < j) then f(img.rows[y][x]) else img.rows[y][x]
      {
        var pixel := r.GetPixel(i, j);
        r.SetPixel(i, j, f(pixel));
      }
    }
    GridsEqual(r.rows, Mapped(img.rows, f));
  }

  /** mapLine: rewrites row lineNo of img in place with f; a lineNo outside
      [0, height) changes nothing. */
  method MapLine(img: Image, lineNo: int, f: PixelFn)
    requires img.Valid()
    modifies img
    ensures img.Valid()
    ensures img.rows == MappedLine(old(img.rows), lineNo, f)
  {
    if lineNo < 0 || lineNo >= img.height {
      return;
    }
    for i := 0 to img.width
      invariant img.Valid()
      invariant forall x, y | 0 <= x < img.width && 0 <= y < img.height ::
        img.rows[y][x] == if y == lineNo && x < i then f(old(img.rows)[y][x]) else old(img.rows)[y][x]
    {
      img.SetPixel(i, lineNo, f(img.GetPixel(i, lineNo)));
    }
    GridsEqual(img.rows, MappedLine(old(img.rows), lineNo, f));
  }

  /** imageMapCoord: a new image whose pixel (x, y) is func(original, x, y);
      func always receives the unmodified input. */
  method ImageMapCoord(img: Image, func: (Grid, int, int) --> Color) returns (r: Image)
    requires img.Valid() && DefinedOn(func, img.rows)
    ensures fresh(r) && r.Valid()
    ensures r.width == img.width && r.height == img.height
    ensures r.rows == MappedCoord(img.rows, func)
    ensures img.rows == old(img.rows)
  {
    r := img.Copy();
    for i := 0 to r.width
      invariant r.Valid() && r.width == img.width && r.height == img.height
      invariant forall x, y | 0 <= x < r.width && 0 <= y < r.height ::
        r.rows[y][x] == if x < i then func(img.rows, x, y) else img.rows[y][x]
    {
      for j := 0 to r.height
        invariant r.Valid()
        invariant forall x, y | 0 <= x < r.width && 0 <= y < r.height ::
          r.rows[y][x] == if x < i || (x == i && y < j) then func(img.rows, x, y) else img.rows[y][x]
      {
        r.SetPixel(i, j, func(img.rows, i, j));
      }
    }
    GridsEqual(r.rows, MappedCoord(img.rows, func));
  }

  /** imageMapIf: imageMapCoord with the coordinate function that applies f
      where cond holds of the original image. */
  method ImageMapIf(img: Image, cond: (Grid, int, int) --> bool, f: PixelFn) returns (r: Image)
    requires img.Valid() && DefinedOn(cond, img.rows)
    ensures fresh(r) && r.Valid()
    ensures r.width == img.width && r.height == img.height
    ensures r.rows == MappedIf(img.rows, cond, f)
    ensures img.rows == old(img.rows)
  {
    assert DefinedOn(Chosen(cond, f), img.rows);
    r := ImageMapCoord(img, Chosen(cond, f));
  }

  /** mapWindow: f applied inside the inclusive window xInterval x yInterval;
      an interval with fewer than two elements selects no pixel. */
  method MapWindow(img: Image, xInterval: seq<int>, yInterval: seq<int>, f: PixelFn) returns (r: Image)
    requires img.Valid()
    ensures fresh(r) && r.Valid()
    ensures r.width == img.width && r.height == img.height
    ensures r.rows == Windowed(img.rows, xInterval, yInterval, f)
    ensures img.rows == old(img.rows)
  {
    r := ImageMapIf(img, InWindow(xInterval, yInterval), f);
  }

  /** makeBorder: a copy in which the pixels within `thickness` of an edge
      are f of the original pixel. */
  method MakeBorder(img: Image, thickness: int, f: PixelFn) returns (r: Image)
    requires img.Valid()
    ensures fresh(r) && r.Valid()
    ensures r.width == img.width && r.height == img.height
    ensures r.rows == Bordered(img.rows, img.width, img.height, thickness, f)
    ensures img.rows == old(img.rows)
  {
    r := img.Copy();
    for i := 0 to img.width
      invariant r.Valid() && r.width == img.width && r.height == img.height
      invariant forall x, y | 0 <= x < r.width && 0 <= y < r.height ::
        r.rows[y][x] == if x < i && InBorder(x, y, img.width, img.height, thickness)
                        then f(img.rows[y][x]) else img.rows[y][x]
    {
      for j := 0 to img.height
        invariant r.Valid()
        invariant forall x, y | 0 <= x < r.width && 0 <= y < r.height ::
          r.rows[y][x] == if (x < i || (x == i && y < j)) && InBorder(x, y, img.width, img.height, thickness)
                          then f(img.rows[y][x]) else img.rows[y][x]
      {
        if i < thickness || j < thickness || i >= img.width - thickness || j >= img.height - thickness {
          r.SetPixel(i, j, f(img.GetPixel(i, j)));
        }
      }
    }
    GridsEqual(r.rows, Bordered(img.rows, img.width, img.height, thickness, f));
  }

  /** dimCenter: Dim applied where distToEdge < thickness, for the ranges
      [thickness, width - thickness] and [thickness, height - thickness]. */
  method DimCenter(img: Image, thickness: int) returns (r: Image)
    requires img.Valid()
    ensures fresh(r) && r.Valid()
    ensures r.width == img.width && r.height == img.height
    ensures r.rows == DimmedCenter(img.rows, img.width, img.height, thickness)
    ensures img.rows == old(img.rows)
  {
    r := ImageMapIf(img, DimCond(img.width, img.height, thickness), Dim);
  }

  /** makeGrayish: a 1x1 image is changed in place and returned itself; any
      other image goes through imageMapIf and comes back as a fresh copy. */
  method MakeGrayish(img: Image) returns (r: Image)
    requires img.Valid()
    modifies img
    ensures r.Valid()
    ensures r.width == img.width && r.height == img.height
    ensures r.rows == MadeGrayish(old(img.rows), img.width, img.height)
    ensures img.width == 1 && img.height == 1 ==> r == img
    ensures !(img.width == 1 && img.height == 1) ==> fresh(r) && img.rows == old(img.rows)
  {
    if img.width == 1 && img.height == 1 {
      var pixel := img.GetPixel(0, 0);
      if !IsGrayish(pixel) {
        img.SetPixel(0, 0, Averaged(pixel));
        assert img.rows[0] == [Averaged(pixel)];
        return img;
      } else {
        return img;
      }
    } else {
      r := ImageMapIf(img, GrayCond(), Desaturated);
    }
  }
}

/** The image collaborator, specified only by what the library uses of it:
    width, height, getPixel, setPixel and copy. */
module Images {
  import opened Colors
  import opened Rasters

  class Image {
    const width: nat
    const height: nat
    /** The pixels, rows[y][x]; setPixel replaces the whole value. */
    var rows: Grid

    ghost predicate Valid()
      reads this
    {
      IsRaster(rows, width, height)
    }

    /** A width-by-height image holding the pixels g. */
    constructor (w: nat, h: nat, g: Grid)
      requires IsRaster(g, w, h)
      ensures Valid() && width == w && height == h && rows == g
    {
      width, height, rows := w, h, g;
    }

    /** The pixel in column x of row y. */
    function GetPixel(x: int, y: int): (c: Color)
      reads this
      requires Valid() && 0 <= x < width && 0 <= y < height
      ensures InBounds(rows, x, y) && c == rows[y][x]
    {
      rows[y][x]
    }

    /** Writes pixel (x, y); every other pixel keeps its value. */
    method SetPixel(x: int, y: int, c: Color)
      requires Valid() && 0 <= x < width && 0 <= y < height
      modifies this
      ensures Valid()
      ensures rows == old(rows)[y := old(rows)[y][x := c]]
    {
      rows := rows[y := rows[y][x := c]];
    }

    /** A new image with the same dimensions and pixels and storage of its own. */
    method Copy() returns (r: Image)
      requires Valid()
      ensures fresh(r) && r.Valid()
      ensures r.width == width && r.height == height && r.rows == rows
    {
      r := new Image(width, height, rows);
    }
  }
}

/** Pixels of an RGB raster and the per-pixel effects built on them. */
module Colors {

  /** An RGB pixel. Channels are JavaScript numbers, modelled as exact reals:
      the effects below produce values such as (r + g + b) / 3 that are not
      integers, and nothing clamps a channel to [0, 255]. */
  datatype Color = Color(r: real, g: real, b: real)

  const Black := Color(0.0, 0.0, 0.0)
  const White := Color(255.0, 255.0, 255.0)

  /** Largest channel spread a pixel may have and still count as grayish. */
  const GrayTolerance: real := 85.0

  function Max3(a: real, b: real, c: real): (m: real)
    ensures m >= a && m >= b && m >= c
    ensures m == a || m == b || m == c
  {
    if a >= b && a >= c then a else if b >= c then b else c
  }

  function Min3(a: real, b: real, c: real): (m: real)
    ensures m <= a && m <= b && m <= c
    ensures m == a || m == b || m == c
  {
    if a <= b && a <= c then a else if b <= c then b else c
  }

  function Distance(a: real, b: real): (d: real)
  {
    if a >= b then a - b else b - a
  }

  /** A pixel is grayish when its largest and smallest channels differ by at
      most 85; equivalently, when every two channels are within 85 of each other. */
  function IsGrayish(p: Color): (grayish: bool)
    ensures grayish <==>
      Distance(p.r, p.g) <= GrayTolerance &&
      Distance(p.g, p.b) <= GrayTolerance &&
      Distance(p.r, p.b) <= GrayTolerance
  {
    Max3(p.r, p.g, p.b) - Min3(p.r, p.g, p.b) <= GrayTolerance
  }

  /** Rounds a real down to the nearest integer, as Math.floor does. */
  function FloorOf(v: real): (f: real)
    ensures f == f.Floor as real
    ensures f <= v < f + 1.0
  {
    v.Floor as real
  }

  /** The dimming applied by dimCenter: each channel becomes floor(channel * 0.8). */
  function Dim(p: Color): (q: Color)
    ensures q.r == q.r.Floor as real && q.r <= p.r * 0.8 < q.r + 1.0
    ensures q.g == q.g.Floor as real && q.g <= p.g * 0.8 < q.g + 1.0
    ensures q.b == q.b.Floor as real && q.b <= p.b * 0.8 < q.b + 1.0
  {
    Color(FloorOf(p.r * 0.8), FloorOf(p.g * 0.8), FloorOf(p.b * 0.8))
  }

  /** The gray pixel whose three channels are the mean of p's channels. */
  function Averaged(p: Color): (q: Color)
    ensures q.r == q.g == q.b
    ensures q.r + q.g + q.b == p.r + p.g + p.b
    ensures Min3(p.r, p.g, p.b) <= q.r <= Max3(p.r, p.g, p.b)
  {
    var average := (p.r + p.g + p.b) / 3.0;
    Color(average, average, average)
  }

  /** The pixel function of makeGrayish: a pixel that is not grayish is
      replaced by its average, a grayish one is returned as it is. */
  function Desaturated(p: Color): (q: Color)
    ensures IsGrayish(q)
    ensures IsGrayish(p) ==> q == p
    ensures !IsGrayish(p) ==> q.r == q.g == q.b
    ensures q.r + q.g + q.b == p.r + p.g + p.b
  {
    if !IsGrayish(p) then Averaged(p) else p
  }

  /** Dimming never brightens a channel, and keeps a non-negative channel
      non-negative. */
  lemma DimDarkens(p: Color)
    requires p.r >= 0.0 && p.g >= 0.0 && p.b >= 0.0
    ensures 0.0 <= Dim(p).r <= p.r && 0.0 <= Dim(p).g <= p.g && 0.0 <= Dim(p).b <= p.b
  {
  }

  /** Dimming white gives [204, 204, 204]. */
  lemma DimWhite()
    ensures Dim(White) == Color(204.0, 204.0, 204.0)
  {
  }

  /** The grayish and non-grayish examples the test suite names. */
  lemma GrayishExamples()
    ensures IsGrayish(Color(127.0, 127.0, 127.0))
    ensures IsGrayish(Black) && IsGrayish(White)
    ensures !IsGrayish(Color(255.0, 0.0, 0.0))
    ensures !IsGrayish(Color(0.0, 255.0, 0.0))
    ensures !IsGrayish(Color(0.0, 0.0, 255.0))
    ensures !IsGrayish(Color(255.0, 255.0, 0.0))
    ensures !IsGrayish(Color(255.0, 0.0, 255.0))
    ensures !IsGrayish(Color(0.0, 255.0, 255.0))
  {
  }

  /** Desaturating twice is the same as desaturating once. */
  lemma DesaturatedIdempotent(p: Color)
    ensures Desaturated(Desaturated(p)) == Desaturated(p)
  {
  }

  /** Desaturation keeps every channel of a pixel inside any range that
      holds all of the original channels (for example [0, 255]). */
  lemma DesaturatedInRange(p: Color, lo: real, hi: real)
    requires lo <= p.r <= hi && lo <= p.g <= hi && lo <= p.b <= hi
    ensures var q := Desaturated(p); lo <= q.r <= hi && lo <= q.g <= hi && lo <= q.b <= hi
  {
  }
}

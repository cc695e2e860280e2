/** Pixels, colour boxes and raster images, in OpenCV's BGR channel order. */
module Images {

  /** One channel of an 8-bit image (numpy uint8). */
  type Channel = c: int | 0 <= c <= 255

  /** A pixel: blue, green and red channel, in the order OpenCV stores them. */
  datatype Color = Color(b: Channel, g: Channel, r: Channel)

  /** The highlight colour written over every matched pixel. */
  const White: Color := Color(255, 255, 255)

  /** Componentwise order: no channel of `a` exceeds the same channel of `c`. */
  predicate Below(a: Color, c: Color)
  {
    a.b <= c.b && a.g <= c.g && a.r <= c.r
  }

  /** An inclusive per-channel colour box, the two bounds handed to cv2.inRange. */
  datatype ColorRange = ColorRange(lo: Color, hi: Color)

  /** cv2.inRange on one pixel: every channel lies in its closed interval. */
  predicate InRange(c: Color, range: ColorRange)
  {
    Below(range.lo, c) && Below(c, range.hi)
  }

  function MinChannel(a: Channel, c: Channel): Channel
  {
    if a <= c then a else c
  }

  function MaxChannel(a: Channel, c: Channel): Channel
  {
    if a <= c then c else a
  }

  /** Elementwise minimum of two pixels: their greatest lower bound. */
  function Meet(a: Color, c: Color): (m: Color)
    ensures Below(m, a) && Below(m, c)
    ensures forall d :: Below(d, a) && Below(d, c) ==> Below(d, m)
    ensures (m.b == a.b || m.b == c.b) && (m.g == a.g || m.g == c.g) && (m.r == a.r || m.r == c.r)
  {
    Color(MinChannel(a.b, c.b), MinChannel(a.g, c.g), MinChannel(a.r, c.r))
  }

  /** Elementwise maximum of two pixels: their least upper bound. */
  function Join(a: Color, c: Color): (m: Color)
    ensures Below(a, m) && Below(c, m)
    ensures forall d :: Below(a, d) && Below(c, d) ==> Below(m, d)
    ensures (m.b == a.b || m.b == c.b) && (m.g == a.g || m.g == c.g) && (m.r == a.r || m.r == c.r)
  {
    Color(MaxChannel(a.b, c.b), MaxChannel(a.g, c.g), MaxChannel(a.r, c.r))
  }

  /** A raster as rows of pixels, indexed `img[y][x]` like a numpy array. */
  type Image = seq<seq<Color>>

  /** Two rasters (of any cell type) with the same number of rows and the same row lengths. */
  predicate SameShape<A, B>(a: seq<seq<A>>, c: seq<seq<B>>)
  {
    |a| == |c| && forall y :: 0 <= y < |a| ==> |a[y]| == |c[y]|
  }

  /** The coordinate (x, y) addresses a pixel of `img`. */
  predicate InImage<A>(img: seq<seq<A>>, x: int, y: int)
  {
    0 <= y < |img| && 0 <= x < |img[y]|
  }
}

/** Pixel samples, the two kinds of grid the handler holds, and the numeric
    conversions that happen when a value is written into an 8-bit grid. */
module Pixels {
  import opened Wrappers

  /** A grid as numpy holds it: three-dimensional (height x width x BGR) as decoded,
      or two-dimensional (height x width) after grayscale reduction. */
  datatype Image = Colour(bgr: seq<seq<seq<int>>>) | Gray(plane: seq<seq<int>>)

  predicate IsByte(v: int) { 0 <= v < 256 }

  /** Every channel of the pixel is an 8-bit sample. */
  predicate AllBytes(p: seq<int>) { forall c | 0 <= c < |p| :: IsByte(p[c]) }

  /** `img` has shape (h, w, 3) or (h, w) and holds only 8-bit samples. */
  ghost predicate Shaped(img: Image, h: nat, w: nat) {
    match img
    case Colour(c) =>
      |c| == h &&
      forall i | 0 <= i < h :: |c[i]| == w && forall j | 0 <= j < w :: |c[i][j]| == 3 && AllBytes(c[i][j])
    case Gray(g) =>
      |g| == h &&
      forall i | 0 <= i < h :: |g[i]| == w && AllBytes(g[i])
  }

  /** `int(img[x][y][z])`: a two-dimensional grid has no third index, so this raises. */
  function Sample3(img: Image, x: nat, y: nat, z: nat): (r: Option<int>)
    ensures img.Gray? ==> r.None?
    ensures r.Some? <==> img.Colour? && x < |img.bgr| && y < |img.bgr[x]| && z < |img.bgr[x][y]|
    ensures r.Some? ==> r.value == img.bgr[x][y][z]
  {
    match img
    case Gray(_) => None
    case Colour(c) =>
      if x < |c| && y < |c[x]| && z < |c[x][y]| then Some(c[x][y][z]) else None
  }

  /** `int(img[x][y])`: a colour pixel is a row of three samples, which `int` refuses. */
  function Sample2(img: Image, x: nat, y: nat): (r: Option<int>)
    ensures img.Colour? ==> r.None?
    ensures r.Some? <==> img.Gray? && x < |img.plane| && y < |img.plane[x]|
    ensures r.Some? ==> r.value == img.plane[x][y]
  {
    match img
    case Colour(_) => None
    case Gray(g) => if x < |g| && y < |g[x]| then Some(g[x][y]) else None
  }

  /** Writing an integer into a uint8 cell keeps it modulo 256. */
  function Store(v: int): (r: int)
    ensures IsByte(r)
    ensures IsByte(v) ==> r == v
    ensures (v - r) % 256 == 0
  {
    v % 256
  }

  function Abs(n: int): nat { if n < 0 then -n else n }

  /** Python's true division `n / d` followed by the float-to-integer cast of the
      store, which truncates toward zero. */
  function TruncDiv(n: int, d: int): (q: int)
    requires d != 0
    ensures 0 <= n && 0 < d ==> q == n / d
    ensures Abs(q) == Abs(n) / Abs(d)
    ensures q != 0 ==> (q < 0 <==> (n < 0) != (d < 0))
  {
    var m := Abs(n) / Abs(d);
    QuotientNonNeg(Abs(n), Abs(d));
    if (n < 0) == (d < 0) then m else -m
  }

  lemma QuotientNonNeg(a: nat, b: nat)
    requires b > 0
    ensures a / b >= 0
  {
  }

  /** `np.clip(v, 0, 255)`. */
  function Clip(v: int): (r: int)
    ensures IsByte(r)
    ensures IsByte(v) ==> r == v
  {
    if v < 0 then 0 else if v > 255 then 255 else v
  }

  /** Luminance of a BGR pixel with weights 0.07, 0.72 and 0.21, taken as exact
      rationals, clipped and truncated into a uint8 cell. */
  function Luma(b: int, g: int, r: int): (y: int)
    ensures IsByte(y)
  {
    Clip((7 * b + 72 * g + 21 * r) / 100)
  }

  function Min3(a: int, b: int, c: int): int { if a <= b && a <= c then a else if b <= c then b else c }
  function Max3(a: int, b: int, c: int): int { if a >= b && a >= c then a else if b >= c then b else c }

  /** The weights sum to one, so the luminance of an 8-bit pixel is a weighted
      average of its channels: it never needs clipping, lies between the darkest
      and the brightest channel, and a neutral pixel keeps its level. */
  lemma LumaIsWeightedAverage(b: int, g: int, r: int)
    requires IsByte(b) && IsByte(g) && IsByte(r)
    ensures Luma(b, g, r) == (7 * b + 72 * g + 21 * r) / 100
    ensures Min3(b, g, r) <= Luma(b, g, r) <= Max3(b, g, r)
    ensures b == g == r ==> Luma(b, g, r) == b
  {
    var m, n := Min3(b, g, r), Max3(b, g, r);
    var s := 7 * b + 72 * g + 21 * r;
    assert 100 * m <= s <= 100 * n;
    assert m <= s / 100 <= n;
  }

  /** `np.zeros((h, w), np.uint8)`. */
  function ZeroPlane(h: nat, w: nat): seq<seq<int>> {
    seq(h, _ => seq(w, _ => 0))
  }

  /** The grayscale closure's reading of one image at `(x, y)`: the luminance of a colour
      pixel, or `None` when `img[x, y, 0]` raises because the grid is two-dimensional. */
  function GrayCell(img: Image, x: nat, y: nat): (r: Option<int>)
    ensures img.Gray? ==> r.None?
    ensures r.Some? <==> img.Colour? && x < |img.bgr| && y < |img.bgr[x]| && 3 <= |img.bgr[x][y]|
    ensures r.Some? ==> IsByte(r.value)
  {
    match img
    case Gray(_) => None
    case Colour(c) =>
      if x < |c| && y < |c[x]| && 3 <= |c[x][y]| then Some(Luma(c[x][y][0], c[x][y][1], c[x][y][2])) else None
  }

  /** The grayscale buffer that reduction of `img` fills: the luminance of every colour
      pixel, or zeros when every reading raised. */
  function GrayPlane(img: Image, h: nat, w: nat): (g: seq<seq<int>>)
    requires Shaped(img, h, w)
    ensures Shaped(Gray(g), h, w)
  {
    match img
    case Colour(c) =>
      seq(h, i requires 0 <= i < h => seq(w, j requires 0 <= j < w => Luma(c[i][j][0], c[i][j][1], c[i][j][2])))
    case Gray(_) => ZeroPlane(h, w)
  }

  /** The grayscale closure reads, at an in-range cell, exactly what the buffer holds. */
  lemma GrayPlaneAt(img: Image, h: nat, w: nat, x: nat, y: nat)
    requires Shaped(img, h, w) && x < h && y < w
    ensures GrayCell(img, x, y) == if img.Colour? then Some(GrayPlane(img, h, w)[x][y]) else None
    ensures img.Gray? ==> GrayPlane(img, h, w)[x][y] == 0
  {
  }

  /** On an image of the handler's shape, numpy's two readings succeed exactly on their own
      kind of grid, and what they read is a byte. */
  lemma SamplesByKind(img: Image, h: nat, w: nat, x: nat, y: nat, z: nat)
    requires Shaped(img, h, w) && x < h && y < w && z < 3
    ensures Sample3(img, x, y, z).Some? <==> img.Colour?
    ensures Sample2(img, x, y).Some? <==> img.Gray?
    ensures GrayCell(img, x, y).Some? <==> img.Colour?
    ensures Sample3(img, x, y, z).Some? ==> IsByte(Sample3(img, x, y, z).value)
    ensures Sample2(img, x, y).Some? ==> IsByte(Sample2(img, x, y).value)
  {
    if img.Colour? {
      assert AllBytes(img.bgr[x][y]);
    }
  }
}

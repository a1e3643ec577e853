/** The per-cell computation of the generic square-mask convolution. */
module Convolution {
  import opened Wrappers
  import opened Pixels

  /** Mask column `c` of a mask with side `k` samples image row `x + c - floor(k/2)`. */
  function SampleRow(x: int, c: int, k: nat): int { x + (c - k / 2) }

  /** Mask line `l` of a mask with side `k` samples image column `y + floor(k/2) - l`. */
  function SampleCol(y: int, l: int, k: nat): int { y + (k / 2 - l) }

  /** Every image column the mask's lines sample around column `y` lies inside `[0, w)`. */
  predicate LinesInside(y: int, k: nat, w: nat) {
    forall l | 0 <= l < k :: 0 <= SampleCol(y, l, k) < w
  }

  /** Every position the mask samples around `(x, y)` lies inside an h x w image. */
  predicate WindowInside(x: int, y: int, k: nat, h: nat, w: nat) {
    (forall c | 0 <= c < k :: 0 <= SampleRow(x, c, k) < h) && LinesInside(y, k, w)
  }

  /** Every line of the mask has an entry for every column index below the mask's length. */
  predicate MaskCovers(mask: seq<seq<int>>) {
    forall l | 0 <= l < |mask| :: |mask[l]| >= |mask|
  }

  /** One product of the accumulation; the guard only keeps the function total, as the
      convolution reads a tap only after its position and mask entry were checked. */
  function Tap(img: seq<seq<seq<int>>>, mask: seq<seq<int>>, x: int, y: int, z: nat, c: nat, l: nat): int {
    var i, j := SampleRow(x, c, |mask|), SampleCol(y, l, |mask|);
    if 0 <= i < |img| && 0 <= j < |img[i]| && z < |img[i][j]| && l < |mask| && c < |mask[l]|
    then img[i][j][z] * mask[l][c]
    else 0
  }

  /** The taps of mask column `c`, lines `0 .. n-1`. */
  function LineSum(img: seq<seq<seq<int>>>, mask: seq<seq<int>>, x: int, y: int, z: nat, c: nat, n: nat): int {
    if n == 0 then 0 else LineSum(img, mask, x, y, z, c, n - 1) + Tap(img, mask, x, y, z, c, n - 1)
  }

  /** The taps of mask columns `0 .. n-1`, every line each. */
  function WindowSum(img: seq<seq<seq<int>>>, mask: seq<seq<int>>, x: int, y: int, z: nat, n: nat): int {
    if n == 0 then 0 else WindowSum(img, mask, x, y, z, n - 1) + LineSum(img, mask, x, y, z, n - 1, |mask|)
  }

  /** The value the convolution closure stores at `(x, y, z)`, or `None` when it raises:
      an empty mask divides by zero, a sampled position outside the image raises
      `ValueError`, a two-dimensional grid has no channel index, and a short mask line
      has no entry for a column. The sum is divided by the mask's area, not by its weight. */
  function ConvCell(img: Image, h: nat, w: nat, mask: seq<seq<int>>, x: int, y: int, z: nat): (r: Option<int>)
    requires Shaped(img, h, w)
    ensures r.Some? <==> |mask| > 0 && WindowInside(x, y, |mask|, h, w) && img.Colour? && MaskCovers(mask)
    ensures r.Some? ==> IsByte(r.value)
  {
    var k := |mask|;
    if k == 0 then None
    else if !WindowInside(x, y, k, h, w) then None
    else if !img.Colour? then None
    else if !MaskCovers(mask) then None
    else Some(Store(TruncDiv(WindowSum(img.bgr, mask, x, y, z, k), k * k)))
  }

  /** The cells the convolution can write: those at least `floor(k/2)` from the top and right
      of the window's reach. For an even side the window is lopsided: one more row above
      the cell than below it, and one more column after it than before it. */
  predicate Interior(x: int, y: int, k: nat, h: nat, w: nat) {
    k / 2 <= x && x + (k - 1 - k / 2) < h && k - 1 - k / 2 <= y && y + k / 2 < w
  }

  lemma WindowInsideIffInterior(x: int, y: int, k: nat, h: nat, w: nat)
    requires k > 0
    ensures WindowInside(x, y, k, h, w) <==> Interior(x, y, k, h, w)
  {
    if WindowInside(x, y, k, h, w) {
      assert 0 <= SampleRow(x, 0, k) && SampleRow(x, k - 1, k) < h;
      assert SampleCol(y, 0, k) < w && 0 <= SampleCol(y, k - 1, k);
    }
  }

  /** A cell is written exactly when the mask is non-empty and square enough, the image
      is a colour grid and the cell is interior; otherwise it keeps its value. */
  lemma ConvolutionWritesIff(img: Image, h: nat, w: nat, mask: seq<seq<int>>, x: int, y: int, z: nat)
    requires Shaped(img, h, w)
    ensures ConvCell(img, h, w, mask, x, y, z).Some? <==>
              |mask| > 0 && img.Colour? && MaskCovers(mask) && Interior(x, y, |mask|, h, w)
  {
    if |mask| > 0 {
      WindowInsideIffInterior(x, y, |mask|, h, w);
    }
  }

  lemma {:induction false} LineSumOfOnes(img: seq<seq<seq<int>>>, mask: seq<seq<int>>, x: int, y: int, z: nat, c: nat, n: nat, v: int, h: nat, w: nat)
    requires Shaped(Colour(img), h, w) && z < 3
    requires WindowInside(x, y, |mask|, h, w) && c < |mask| && n <= |mask|
    requires forall l | 0 <= l < |mask| :: |mask[l]| == |mask| && forall c' | 0 <= c' < |mask| :: mask[l][c'] == 1
    requires forall c', l | 0 <= c' < |mask| && 0 <= l < |mask| ::
      img[SampleRow(x, c', |mask|)][SampleCol(y, l, |mask|)][z] == v
    ensures LineSum(img, mask, x, y, z, c, n) == n * v
  {
    if n > 0 {
      LineSumOfOnes(img, mask, x, y, z, c, n - 1, v, h, w);
      var i, j := SampleRow(x, c, |mask|), SampleCol(y, n - 1, |mask|);
      assert 0 <= i < h && 0 <= j < w;
      assert img[i][j][z] == v by { assert c < |mask| && n - 1 < |mask|; }
      assert mask[n - 1][c] == 1;
      assert Tap(img, mask, x, y, z, c, n - 1) == v;
      AddOneMore(n, v);
    }
  }

  lemma {:induction false} WindowSumOfOnes(img: seq<seq<seq<int>>>, mask: seq<seq<int>>, x: int, y: int, z: nat, n: nat, v: int, h: nat, w: nat)
    requires Shaped(Colour(img), h, w) && z < 3
    requires WindowInside(x, y, |mask|, h, w) && n <= |mask|
    requires forall l | 0 <= l < |mask| :: |mask[l]| == |mask| && forall c' | 0 <= c' < |mask| :: mask[l][c'] == 1
    requires forall c', l | 0 <= c' < |mask| && 0 <= l < |mask| ::
      img[SampleRow(x, c', |mask|)][SampleCol(y, l, |mask|)][z] == v
    ensures WindowSum(img, mask, x, y, z, n) == n * (|mask| * v)
  {
    if n > 0 {
      WindowSumOfOnes(img, mask, x, y, z, n - 1, v, h, w);
      LineSumOfOnes(img, mask, x, y, z, n - 1, |mask|, v, h, w);
      AddOneMore(n, |mask| * v);
    }
  }

  /** A box mask of ones reproduces `v` exactly at an interior cell whose window holds `v`
      in channel `z`, whatever the mask's side and whatever lies outside the window. */
  lemma BoxMaskKeepsUniformLevel(img: seq<seq<seq<int>>>, mask: seq<seq<int>>, x: int, y: int, z: nat, v: int, h: nat, w: nat)
    requires Shaped(Colour(img), h, w) && z < 3 && IsByte(v)
    requires |mask| > 0 && Interior(x, y, |mask|, h, w)
    requires forall l | 0 <= l < |mask| :: |mask[l]| == |mask| && forall c' | 0 <= c' < |mask| :: mask[l][c'] == 1
    requires forall i, j | x - |mask| / 2 <= i <= x + (|mask| - 1 - |mask| / 2) &&
                           y - (|mask| - 1 - |mask| / 2) <= j <= y + |mask| / 2 :: img[i][j][z] == v
    ensures ConvCell(Colour(img), h, w, mask, x, y, z) == Some(v)
  {
    var k := |mask|;
    WindowInsideIffInterior(x, y, k, h, w);
    forall c, l | 0 <= c < k && 0 <= l < k ensures img[SampleRow(x, c, k)][SampleCol(y, l, k)][z] == v {
      var i, j := SampleRow(x, c, k), SampleCol(y, l, k);
      assert x - k / 2 <= i <= x + (k - 1 - k / 2) && y - (k - 1 - k / 2) <= j <= y + k / 2;
    }
    WindowSumOfOnes(img, mask, x, y, z, k, v, h, w);
    BoxQuotient(k, v);
  }

  /** The window sum of a k x k box of level `v`, divided by the mask's area and stored, is `v`. */
  lemma BoxQuotient(k: nat, v: int)
    requires k > 0 && IsByte(v)
    ensures Store(TruncDiv(k * (k * v), k * k)) == v
  {
    MulAtLeast(k, k);
    var a := k * k;
    assert k * (k * v) == a * v;
    MulNonNeg(a, v);
    ExactQuotient(a, v);
  }

  lemma MulNonNeg(a: int, b: int)
    requires 0 <= a && 0 <= b
    ensures 0 <= a * b
  {
  }

  lemma ExactQuotient(a: int, v: int)
    requires a > 0
    ensures (a * v) / a == v
  {
    var n := a * v;
    var q, r := n / a, n % a;
    assert n == a * q + r && 0 <= r < a;
    var d := v - q;
    assert a * d == r by { assert a * v - a * q == a * (v - q); }
    if d >= 1 { MulAtLeast(a, d); }
    if d <= -1 { MulAtLeast(a, -d); }
  }

  lemma AddOneMore(n: int, a: int)
    ensures (n - 1) * a + a == n * a
  {
  }

  lemma MulAtLeast(a: int, d: int)
    requires a > 0 && d >= 1
    ensures a * d >= a
  {
    assert a * d == a * (d - 1) + a;
    assert a * (d - 1) >= 0;
  }
}

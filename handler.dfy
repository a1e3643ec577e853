/** The image handler: two input grids and a result grid updated cell by cell. */
module Handler {
  import opened Wrappers
  import opened Pixels
  import opened Convolution
  import opened Cells
  import opened Traversal

  class ImageHandler {
    /** `image_1.shape[0]` and `image_1.shape[1]`; grayscale reduction keeps them. */
    const h: nat
    const w: nat
    var image1: Image
    var image2: Image
    /** The uint8 result grid, height x width x BGR, written in place. */
    const result: array3<int>

    ghost predicate Valid()
      reads this, result
    {
      && result.Length0 == h && result.Length1 == w && result.Length2 == 3
      && Shaped(image1, h, w) && Shaped(image2, h, w)
      && forall i, j, c | 0 <= i < h && 0 <= j < w && 0 <= c < 3 :: IsByte(result[i, j, c])
    }

    /** The three channels of result pixel `(i, j)`. */
    function Pixel(i: nat, j: nat): (p: seq<int>)
      reads result
      requires i < result.Length0 && j < result.Length1 && result.Length2 == 3
      ensures |p| == 3 && forall c | 0 <= c < 3 :: p[c] == result[i, j, c]
    {
      [result[i, j, 0], result[i, j, 1], result[i, j, 2]]
    }

    /** Two decoded colour images of one shape; the result starts as a copy of the first. */
    constructor (height: nat, width: nat, first: seq<seq<seq<int>>>, second: seq<seq<seq<int>>>)
      requires Shaped(Colour(first), height, width) && Shaped(Colour(second), height, width)
      ensures Valid() && fresh(result)
      ensures h == height && w == width && image1 == Colour(first) && image2 == Colour(second)
      ensures forall i, j, c | 0 <= i < h && 0 <= j < w && 0 <= c < 3 :: result[i, j, c] == first[i][j][c]
    {
      h, w := height, width;
      image1, image2 := Colour(first), Colour(second);
      result := new int[height, width, 3]((i, j, c) requires 0 <= i < height && 0 <= j < width && 0 <= c < 3 =>
        assert AllBytes(first[i][j]); first[i][j][c]);
    }

    /** The convolution closure for `(x, y, z)`: it accumulates the taps column by column,
        raising as soon as a sampled row or column leaves the image, then divides by the
        mask's area. */
    method ConvolveCell(mask: seq<seq<int>>, x: nat, y: nat, z: nat) returns (r: Option<int>)
      requires Shaped(image1, h, w) && x < h && y < w && z < 3
      ensures r == ConvCell(image1, h, w, mask, x, y, z)
    {
      var k := |mask|;
      var temp := 0;
      var c := 0;
      while c < k
        invariant 0 <= c <= k
        invariant forall c' | 0 <= c' < c :: 0 <= SampleRow(x, c', k) < h
        invariant c > 0 ==> image1.Colour? && LinesInside(y, k, w) && forall l | 0 <= l < k :: |mask[l]| >= c
        invariant image1.Colour? ==> temp == WindowSum(image1.bgr, mask, x, y, z, c)
      {
        var xPos := x + (c - k / 2);
        if xPos < 0 || xPos > h - 1 {
          assert !WindowInside(x, y, k, h, w) by { assert !(0 <= SampleRow(x, c, k) < h); }
          return None;
        }
        var column := AccumulateColumn(mask, x, y, z, c);
        if column.None? {
          assert !WindowInside(x, y, k, h, w) || image1.Gray? || !MaskCovers(mask);
          return None;
        }
        temp := temp + column.value;
        c := c + 1;
      }
      if k == 0 {
        // `temp / (mask_size * mask_size)` divides by zero
        return None;
      }
      assert WindowInside(x, y, k, h, w) && MaskCovers(mask) && image1.Colour?;
      MulAtLeast(k, k);
      r := Some(Store(TruncDiv(temp, k * k)));
    }

    /** The inner loop of the convolution closure: the taps of mask column `c`, line by
        line, or `None` when a sampled column leaves the image, the grid has no channel
        index, or a mask line has no entry for column `c`. */
    method AccumulateColumn(mask: seq<seq<int>>, x: nat, y: nat, z: nat, c: nat) returns (r: Option<int>)
      requires Shaped(image1, h, w) && z < 3 && c < |mask| && 0 <= SampleRow(x, c, |mask|) < h
      ensures r.Some? <==>
        image1.Colour? && LinesInside(y, |mask|, w) && forall l | 0 <= l < |mask| :: |mask[l]| > c
      ensures r.Some? ==> r.value == LineSum(image1.bgr, mask, x, y, z, c, |mask|)
    {
      var k := |mask|;
      var xPos := x + (c - k / 2);
      var temp := 0;
      var l := 0;
      while l < k
        invariant 0 <= l <= k
        invariant forall l' | 0 <= l' < l :: 0 <= SampleCol(y, l', k) < w
        invariant l > 0 ==> image1.Colour?
        invariant forall l' | 0 <= l' < l :: |mask[l']| > c
        invariant image1.Colour? ==> temp == LineSum(image1.bgr, mask, x, y, z, c, l)
      {
        var yPos := y + (k / 2 - l);
        if yPos < 0 || yPos > w - 1 {
          assert !(0 <= SampleCol(y, l, k) < w);
          return None;
        }
        // `image_1[x_pos][y_pos][z]` has no channel index on a two-dimensional grid
        if image1.Gray? {
          return None;
        }
        // `mask[mask_line][mask_column]` raises on a short mask line
        if c >= |mask[l]| {
          return None;
        }
        assert AllBytes(image1.bgr[xPos][yPos]);
        temp := temp + image1.bgr[xPos][yPos][z] * mask[l][c];
        l := l + 1;
      }
      r := Some(temp);
    }

    /** One call `calculation(x, y, z)` of the driver, with the exception swallowed. */
    method Calculate(op: Calculation, x: nat, y: nat, z: nat)
      requires Valid() && x < h && y < w && z < 3
      modifies result
      ensures Valid()
      ensures Pixel(x, y) == Visit(op, image1, image2, h, w, x, y, z, old(Pixel(x, y)))
      ensures forall i, j, c | 0 <= i < h && 0 <= j < w && 0 <= c < 3 && (i != x || j != y) ::
        result[i, j, c] == old(result[i, j, c])
    {
      var p := Pixel(x, y);
      assert AllBytes(p);
      var next: Option<seq<int>>;
      if op.Convolve? {
        var v := ConvolveCell(op.mask, x, y, z);
        next := Put(v, p, z);
      } else {
        next := Step(op, image1, image2, h, w, x, y, z, p);
      }
      if next.Some? {
        result[x, y, 0], result[x, y, 1], result[x, y, 2] := next.value[0], next.value[1], next.value[2];
      }
    }

    /** The innermost loop of `iterate`: the three channel visits of pixel `(x, y)`. */
    method VisitPixel(op: Calculation, x: nat, y: nat) returns (ghost visits: seq<Coord>)
      requires Valid() && x < h && y < w
      modifies result
      ensures Valid()
      ensures visits == PixelVisits(x, y)
      ensures Pixel(x, y) == PixelAfter(op, image1, image2, h, w, x, y, old(Pixel(x, y)))
      ensures forall i, j, c | 0 <= i < h && 0 <= j < w && 0 <= c < 3 && (i != x || j != y) ::
        result[i, j, c] == old(result[i, j, c])
    {
      visits := [];
      var z := 0;
      while z < 3
        invariant 0 <= z <= 3
        invariant Valid()
        invariant visits == PixelVisits(x, y)[..z]
        invariant Pixel(x, y) == Visits(op, image1, image2, h, w, x, y, z, old(Pixel(x, y)))
        invariant forall i, j, c | 0 <= i < h && 0 <= j < w && 0 <= c < 3 && (i != x || j != y) ::
          result[i, j, c] == old(result[i, j, c])
      {
        Calculate(op, x, y, z);
        visits := visits + [Coord(x, y, z)];
        z := z + 1;
      }
    }

    /** `iterate(calculation)`: every `(x, y, z)` with `x < h`, `y < w`, `z < 3`, in
        row-major order; a cell whose closure raises is skipped. Each result pixel ends
        as its three visits leave it. */
    method Iterate(op: Calculation) returns (ghost visits: seq<Coord>)
      requires Valid()
      modifies result
      ensures Valid()
      ensures visits == GridVisits(h, w)
      ensures forall i, j, c | 0 <= i < h && 0 <= j < w && 0 <= c < 3 ::
        result[i, j, c] == PixelAfter(op, image1, image2, h, w, i, j, old(Pixel(i, j)))[c]
    {
      visits := [];
      var x := 0;
      while x < h
        invariant 0 <= x <= h
        invariant Valid()
        invariant visits == GridVisits(x, w)
        invariant forall i, j, c | 0 <= i < h && 0 <= j < w && 0 <= c < 3 ::
          result[i, j, c] == (if i < x then PixelAfter(op, image1, image2, h, w, i, j, old(Pixel(i, j))) else old(Pixel(i, j)))[c]
      {
        var rowVisits := VisitRow(op, x);
        visits := visits + rowVisits;
        x := x + 1;
      }
    }

    /** The column loop of the driver for row `x`: every pixel of that row ends as its three
        channel visits leave it, and every other row is unchanged. */
    method VisitRow(op: Calculation, x: nat) returns (ghost visits: seq<Coord>)
      requires Valid() && x < h
      modifies result
      ensures Valid()
      ensures visits == RowVisits(x, w)
      ensures forall i, j, c | 0 <= i < h && 0 <= j < w && 0 <= c < 3 ::
        result[i, j, c] == (if i == x then PixelAfter(op, image1, image2, h, w, i, j, old(Pixel(i, j))) else old(Pixel(i, j)))[c]
    {
      visits := [];
      var y := 0;
      while y < w
        invariant 0 <= y <= w
        invariant Valid()
        invariant visits == RowVisits(x, y)
        invariant forall i, j, c | 0 <= i < h && 0 <= j < w && 0 <= c < 3 ::
          result[i, j, c] ==
            (if i == x && j < y then PixelAfter(op, image1, image2, h, w, i, j, old(Pixel(i, j))) else old(Pixel(i, j)))[c]
      {
        var pixelVisits := VisitPixel(op, x, y);
        visits := visits + pixelVisits;
        y := y + 1;
      }
    }

    /** `apply_gray_scale`: fills two zeroed grayscale buffers through the driver's index
        space, then replaces both images with them. The closure reads `image_1` first, so a
        first image that is already two-dimensional raises before anything is written. */
    method ApplyGrayScale()
      requires Valid()
      modifies this
      ensures Valid()
      ensures image1 == Gray(GrayPlane(old(image1), h, w))
      ensures image2 == Gray(if old(image1).Colour? then GrayPlane(old(image2), h, w) else ZeroPlane(h, w))
    {
      var gray1 := new int[h, w]((i, j) => 0);
      var gray2 := new int[h, w]((i, j) => 0);
      var first, second := image1, image2;
      ghost var want1 := GrayPlane(first, h, w);
      ghost var want2 := if first.Colour? then GrayPlane(second, h, w) else ZeroPlane(h, w);
      var x := 0;
      while x < h
        invariant 0 <= x <= h
        invariant forall i, j | 0 <= i < h && 0 <= j < w ::
          gray1[i, j] == (if i < x then want1[i][j] else 0) && gray2[i, j] == (if i < x then want2[i][j] else 0)
      {
        var y := 0;
        while y < w
          invariant 0 <= y <= w
          invariant forall i, j | 0 <= i < h && 0 <= j < w ::
            var reached := i < x || (i == x && j < y);
            gray1[i, j] == (if reached then want1[i][j] else 0) && gray2[i, j] == (if reached then want2[i][j] else 0)
        {
          ReducePixel(first, second, gray1, gray2, x, y);
          GrayPlaneAt(first, h, w, x, y);
          GrayPlaneAt(second, h, w, x, y);
          y := y + 1;
        }
        x := x + 1;
      }
      image1 := Gray(PlaneOf(gray1));
      image2 := Gray(PlaneOf(gray2));
      PlaneOfFilled(gray1, want1);
      PlaneOfFilled(gray2, want2);
    }

    /** `arithmetic(operation)`: `+ - * /` run their closure over the grid; any other
        operation leaves the result as it was. */
    method Arithmetic(operation: string)
      requires Valid()
      modifies result
      ensures Valid()
      ensures ArithmeticOf(operation).None? ==>
        forall i, j, c | 0 <= i < h && 0 <= j < w && 0 <= c < 3 :: result[i, j, c] == old(result[i, j, c])
      ensures ArithmeticOf(operation).Some? ==>
        forall i, j, c | 0 <= i < h && 0 <= j < w && 0 <= c < 3 ::
          result[i, j, c] == PixelAfter(ArithmeticOf(operation).value, image1, image2, h, w, i, j, old(Pixel(i, j)))[c]
    {
      if operation == "+" {
        var _ := Iterate(Sum);
      } else if operation == "-" {
        var _ := Iterate(Subtraction);
      } else if operation == "*" {
        var _ := Iterate(Multiplication);
      } else if operation == "/" {
        var _ := Iterate(Division);
      }
    }

    /** `isolate(color)`: `red`, `green` and `blue` run their closure over the grid; any
        other colour leaves the result as it was. */
    method Isolate(color: string)
      requires Valid()
      modifies result
      ensures Valid()
      ensures IsolateOf(color).None? ==>
        forall i, j, c | 0 <= i < h && 0 <= j < w && 0 <= c < 3 :: result[i, j, c] == old(result[i, j, c])
      ensures IsolateOf(color).Some? ==>
        forall i, j, c | 0 <= i < h && 0 <= j < w && 0 <= c < 3 ::
          result[i, j, c] == PixelAfter(IsolateOf(color).value, image1, image2, h, w, i, j, old(Pixel(i, j)))[c]
    {
      if color == "red" {
        var _ := Iterate(IsolateRed);
      } else if color == "green" {
        var _ := Iterate(IsolateGreen);
      } else if color == "blue" {
        var _ := Iterate(IsolateBlue);
      }
    }

    /** `arithmetic_average`: grayscale reduction, then the mean of the two grey levels in
        every channel of every pixel. */
    method ArithmeticAverage()
      requires Valid()
      modifies this, result
      ensures Valid()
      ensures image1 == Gray(GrayPlane(old(image1), h, w))
      ensures image2 == Gray(if old(image1).Colour? then GrayPlane(old(image2), h, w) else ZeroPlane(h, w))
      ensures forall i, j, c | 0 <= i < h && 0 <= j < w && 0 <= c < 3 ::
        result[i, j, c] == PixelAfter(Average, image1, image2, h, w, i, j, old(Pixel(i, j)))[c]
    {
      ApplyGrayScale();
      var _ := Iterate(Average);
    }

    /** `arithmetic_weighted_average(weight_1=7, weight_2=3)`: grayscale reduction, then
        `(g1 * weight1 + g2 * weight2) / 2` in every channel of every pixel. */
    method ArithmeticWeightedAverage(weight1: int := 7, weight2: int := 3)
      requires Valid()
      modifies this, result
      ensures Valid()
      ensures image1 == Gray(GrayPlane(old(image1), h, w))
      ensures image2 == Gray(if old(image1).Colour? then GrayPlane(old(image2), h, w) else ZeroPlane(h, w))
      ensures forall i, j, c | 0 <= i < h && 0 <= j < w && 0 <= c < 3 ::
        result[i, j, c] == PixelAfter(WeightedAverage(weight1, weight2), image1, image2, h, w, i, j, old(Pixel(i, j)))[c]
    {
      ApplyGrayScale();
      var _ := Iterate(WeightedAverage(weight1, weight2));
    }

    /** `thresholding(L=127)`: grayscale reduction, then 255 or 0 in every channel of every
        pixel according to the first image's grey level. */
    method Thresholding(level: int := 127)
      requires Valid()
      modifies this, result
      ensures Valid()
      ensures image1 == Gray(GrayPlane(old(image1), h, w))
      ensures image2 == Gray(if old(image1).Colour? then GrayPlane(old(image2), h, w) else ZeroPlane(h, w))
      ensures forall i, j, c | 0 <= i < h && 0 <= j < w && 0 <= c < 3 ::
        result[i, j, c] == PixelAfter(Threshold(level), image1, image2, h, w, i, j, old(Pixel(i, j)))[c]
    {
      ApplyGrayScale();
      var _ := Iterate(Threshold(level));
    }

    /** `convolution(mask)`: the generic square-mask convolution of the first image, written
        into the result cell by cell; the images are left alone. */
    method Convolution(mask: seq<seq<int>>)
      requires Valid()
      modifies result
      ensures Valid()
      ensures image1 == old(image1) && image2 == old(image2)
      ensures forall i, j, c | 0 <= i < h && 0 <= j < w && 0 <= c < 3 ::
        result[i, j, c] == PixelAfter(Convolve(mask), image1, image2, h, w, i, j, old(Pixel(i, j)))[c]
    {
      var _ := Iterate(Convolve(mask));
    }
  }

  /** The channel loop of the grayscale closure at `(x, y)`: each of the three calls reads
      `image_1` first, so the second buffer is written only when the first reading succeeds. */
  method ReducePixel(first: Image, second: Image, gray1: array2<int>, gray2: array2<int>, x: nat, y: nat)
    requires gray1 != gray2
    requires x < gray1.Length0 && y < gray1.Length1 && x < gray2.Length0 && y < gray2.Length1
    modifies gray1, gray2
    ensures gray1[x, y] == (if GrayCell(first, x, y).Some? then GrayCell(first, x, y).value else old(gray1[x, y]))
    ensures gray2[x, y] ==
      (if GrayCell(first, x, y).Some? && GrayCell(second, x, y).Some? then GrayCell(second, x, y).value else old(gray2[x, y]))
    ensures forall i, j | 0 <= i < gray1.Length0 && 0 <= j < gray1.Length1 && (i != x || j != y) :: gray1[i, j] == old(gray1[i, j])
    ensures forall i, j | 0 <= i < gray2.Length0 && 0 <= j < gray2.Length1 && (i != x || j != y) :: gray2[i, j] == old(gray2[i, j])
  {
    var z := 0;
    while z < 3
      invariant 0 <= z <= 3
      invariant gray1[x, y] == (if z > 0 && GrayCell(first, x, y).Some? then GrayCell(first, x, y).value else old(gray1[x, y]))
      invariant gray2[x, y] ==
        (if z > 0 && GrayCell(first, x, y).Some? && GrayCell(second, x, y).Some? then GrayCell(second, x, y).value else old(gray2[x, y]))
      invariant forall i, j | 0 <= i < gray1.Length0 && 0 <= j < gray1.Length1 && (i != x || j != y) :: gray1[i, j] == old(gray1[i, j])
      invariant forall i, j | 0 <= i < gray2.Length0 && 0 <= j < gray2.Length1 && (i != x || j != y) :: gray2[i, j] == old(gray2[i, j])
    {
      var v1 := GrayCell(first, x, y);
      if v1.Some? {
        gray1[x, y] := v1.value;
        var v2 := GrayCell(second, x, y);
        if v2.Some? {
          gray2[x, y] := v2.value;
        }
      }
      z := z + 1;
    }
  }

  /** The contents of a two-dimensional buffer, row by row. */
  function PlaneOf(g: array2<int>): (s: seq<seq<int>>)
    reads g
  {
    seq(g.Length0, i requires 0 <= i < g.Length0 reads g => seq(g.Length1, j requires 0 <= j < g.Length1 reads g => g[i, j]))
  }

  lemma PlaneOfFilled(g: array2<int>, want: seq<seq<int>>)
    requires |want| == g.Length0 && forall i | 0 <= i < |want| :: |want[i]| == g.Length1
    requires forall i, j | 0 <= i < g.Length0 && 0 <= j < g.Length1 :: g[i, j] == want[i][j]
    ensures PlaneOf(g) == want
  {
    var s := PlaneOf(g);
    forall i | 0 <= i < |want| ensures s[i] == want[i] {
      assert |s[i]| == |want[i]|;
    }
  }
}

/** The closures the handler hands to its driver, as pure per-cell computations, and
    what three visits of one pixel (channels 0, 1, 2 in turn) leave in it. */
module Cells {
  import opened Wrappers
  import opened Pixels
  import opened Convolution

  /** The closures that write the result grid. */
  datatype Calculation =
    | Sum | Subtraction | Multiplication | Division
    | IsolateRed | IsolateGreen | IsolateBlue
    | Average
    | WeightedAverage(weight1: int, weight2: int)
    | Threshold(level: int)
    | Convolve(mask: seq<seq<int>>)

  /** `arithmetic(operation)` picks a closure for `+ - * /` and none for anything else. */
  function ArithmeticOf(operation: string): (r: Option<Calculation>)
    ensures r == Some(Sum) <==> operation == "+"
    ensures r == Some(Subtraction) <==> operation == "-"
    ensures r == Some(Multiplication) <==> operation == "*"
    ensures r == Some(Division) <==> operation == "/"
    ensures r.None? <==> operation !in {"+", "-", "*", "/"}
  {
    if operation == "+" then Some(Sum)
    else if operation == "-" then Some(Subtraction)
    else if operation == "*" then Some(Multiplication)
    else if operation == "/" then Some(Division)
    else None
  }

  /** `isolate(color)` picks a closure for `red`, `green` and `blue` and none otherwise. */
  function IsolateOf(color: string): (r: Option<Calculation>)
    ensures r == Some(IsolateRed) <==> color == "red"
    ensures r == Some(IsolateGreen) <==> color == "green"
    ensures r == Some(IsolateBlue) <==> color == "blue"
    ensures r.None? <==> color !in {"red", "green", "blue"}
  {
    if color == "red" then Some(IsolateRed)
    else if color == "green" then Some(IsolateGreen)
    else if color == "blue" then Some(IsolateBlue)
    else None
  }

  /** `(int(a) + int(b)) / 2`, stored. */
  function SumCell(i1: Image, i2: Image, x: nat, y: nat, z: nat): (r: Option<int>)
    ensures r.Some? <==> Sample3(i1, x, y, z).Some? && Sample3(i2, x, y, z).Some?
    ensures r.Some? ==> IsByte(r.value)
    ensures r.Some? && IsByte(Sample3(i1, x, y, z).value) && IsByte(Sample3(i2, x, y, z).value) ==>
      r.value == (Sample3(i1, x, y, z).value + Sample3(i2, x, y, z).value) / 2
  {
    match (Sample3(i1, x, y, z), Sample3(i2, x, y, z))
    case (Some(a), Some(b)) => Some(Store(TruncDiv(a + b, 2)))
    case _ => None
  }

  /** `int(a) - int(b)`, stored. */
  function SubtractionCell(i1: Image, i2: Image, x: nat, y: nat, z: nat): (r: Option<int>)
    ensures r.Some? <==> Sample3(i1, x, y, z).Some? && Sample3(i2, x, y, z).Some?
    ensures r.Some? ==> IsByte(r.value)
    ensures r.Some? ==> (Sample3(i1, x, y, z).value - Sample3(i2, x, y, z).value - r.value) % 256 == 0
  {
    match (Sample3(i1, x, y, z), Sample3(i2, x, y, z))
    case (Some(a), Some(b)) => Some(Store(a - b))
    case _ => None
  }

  /** `int(a) * int(b)`, stored. */
  function MultiplicationCell(i1: Image, i2: Image, x: nat, y: nat, z: nat): (r: Option<int>)
    ensures r.Some? <==> Sample3(i1, x, y, z).Some? && Sample3(i2, x, y, z).Some?
    ensures r.Some? ==> IsByte(r.value)
    ensures r.Some? ==> (Sample3(i1, x, y, z).value * Sample3(i2, x, y, z).value - r.value) % 256 == 0
  {
    match (Sample3(i1, x, y, z), Sample3(i2, x, y, z))
    case (Some(a), Some(b)) => Some(Store(a * b))
    case _ => None
  }

  /** `int(a) / int(b)`, stored; a zero divisor raises `ZeroDivisionError`. */
  function DivisionCell(i1: Image, i2: Image, x: nat, y: nat, z: nat): (r: Option<int>)
    ensures r.Some? <==>
      Sample3(i1, x, y, z).Some? && Sample3(i2, x, y, z).Some? && Sample3(i2, x, y, z).value != 0
    ensures r.Some? ==> IsByte(r.value)
  {
    match (Sample3(i1, x, y, z), Sample3(i2, x, y, z))
    case (Some(a), Some(b)) => if b == 0 then None else Some(Store(TruncDiv(a, b)))
    case _ => None
  }

  /** `(int(g1) * w1 + int(g2) * w2) / 2` on the two grayscale grids, stored. */
  function WeightedCell(i1: Image, i2: Image, x: nat, y: nat, w1: int, w2: int): (r: Option<int>)
    ensures r.Some? <==> Sample2(i1, x, y).Some? && Sample2(i2, x, y).Some?
    ensures r.Some? ==> IsByte(r.value)
  {
    match (Sample2(i1, x, y), Sample2(i2, x, y))
    case (Some(g1), Some(g2)) => Some(Store(TruncDiv(g1 * w1 + g2 * w2, 2)))
    case _ => None
  }

  /** `255 if int(g1) > level else 0` on the first grayscale grid. */
  function ThresholdCell(i1: Image, x: nat, y: nat, level: int): (r: Option<int>)
    ensures r.Some? <==> Sample2(i1, x, y).Some?
    ensures r.Some? ==> (r.value == 255 <==> Sample2(i1, x, y).value > level)
    ensures r.Some? ==> r.value == 0 || r.value == 255
  {
    match Sample2(i1, x, y)
    case Some(g) => Some(if g > level then 255 else 0)
    case None => None
  }

  /** A closure that writes channel `z` only. */
  function Put(v: Option<int>, p: seq<int>, z: nat): (r: Option<seq<int>>)
    requires z < |p|
  {
    match v
    case Some(s) => Some(p[z := s])
    case None => None
  }

  /** A closure that assigns one value to the whole pixel, `result[x][y] = v`. */
  function Fill(v: Option<int>): Option<seq<int>> {
    match v
    case Some(s) => Some([s, s, s])
    case None => None
  }

  /** The pixel the closure leaves when run at channel `z` on pixel `p`, or `None` if it raises. */
  function Step(op: Calculation, i1: Image, i2: Image, h: nat, w: nat, x: nat, y: nat, z: nat, p: seq<int>): (r: Option<seq<int>>)
    requires Shaped(i1, h, w) && |p| == 3 && z < 3
    ensures r.Some? ==> |r.value| == 3 && (AllBytes(p) ==> AllBytes(r.value))
    ensures Channelwise(op) ==> (r.Some? <==> ChannelCell(op, i1, i2, h, w, x, y, z).Some?)
    ensures Channelwise(op) && r.Some? ==> forall c | 0 <= c < 3 && c != z :: r.value[c] == p[c]
    ensures WholePixel(op) && r.Some? ==> r.value[0] == r.value[1] == r.value[2]
  {
    match op
    case Sum => Put(SumCell(i1, i2, x, y, z), p, z)
    case Subtraction => Put(SubtractionCell(i1, i2, x, y, z), p, z)
    case Multiplication => Put(MultiplicationCell(i1, i2, x, y, z), p, z)
    case Division => Put(DivisionCell(i1, i2, x, y, z), p, z)
    case IsolateRed => Some([0, 0, p[2]])
    case IsolateGreen => Some([0, p[1], 0])
    case IsolateBlue => Some([p[0], 0, 0])
    case Average => Fill(WeightedCell(i1, i2, x, y, 1, 1))
    case WeightedAverage(w1, w2) => Fill(WeightedCell(i1, i2, x, y, w1, w2))
    case Threshold(level) => Fill(ThresholdCell(i1, x, y, level))
    case Convolve(mask) => Put(ConvCell(i1, h, w, mask, x, y, z), p, z)
  }

  /** One visit of the driver: a closure that raises is skipped and the pixel stays as it was. */
  function Visit(op: Calculation, i1: Image, i2: Image, h: nat, w: nat, x: nat, y: nat, z: nat, p: seq<int>): (r: seq<int>)
    requires Shaped(i1, h, w) && |p| == 3 && z < 3
    ensures |r| == 3 && (AllBytes(p) ==> AllBytes(r))
    ensures Step(op, i1, i2, h, w, x, y, z, p).None? ==> r == p
    ensures Step(op, i1, i2, h, w, x, y, z, p).Some? ==> r == Step(op, i1, i2, h, w, x, y, z, p).value
  {
    match Step(op, i1, i2, h, w, x, y, z, p)
    case Some(q) => q
    case None => p
  }

  /** The first `n` visits of pixel `(x, y)`, channels `0 .. n-1` in order. */
  function Visits(op: Calculation, i1: Image, i2: Image, h: nat, w: nat, x: nat, y: nat, n: nat, p: seq<int>): (r: seq<int>)
    requires Shaped(i1, h, w) && |p| == 3 && n <= 3
    ensures |r| == 3 && (AllBytes(p) ==> AllBytes(r))
  {
    if n == 0 then p else Visit(op, i1, i2, h, w, x, y, n - 1, Visits(op, i1, i2, h, w, x, y, n - 1, p))
  }

  /** What the driver leaves in pixel `(x, y)` that held `p`. */
  function PixelAfter(op: Calculation, i1: Image, i2: Image, h: nat, w: nat, x: nat, y: nat, p: seq<int>): (r: seq<int>)
    requires Shaped(i1, h, w) && |p| == 3
    ensures |r| == 3 && (AllBytes(p) ==> AllBytes(r))
  {
    Visits(op, i1, i2, h, w, x, y, 3, p)
  }

  /** The closures that write only the channel they are visited for. */
  predicate Channelwise(op: Calculation) {
    op.Sum? || op.Subtraction? || op.Multiplication? || op.Division? || op.Convolve?
  }

  /** The value a channelwise closure stores at channel `z`, or `None` when it raises. */
  function ChannelCell(op: Calculation, i1: Image, i2: Image, h: nat, w: nat, x: nat, y: nat, z: nat): Option<int>
    requires Shaped(i1, h, w) && Channelwise(op)
  {
    match op
    case Sum => SumCell(i1, i2, x, y, z)
    case Subtraction => SubtractionCell(i1, i2, x, y, z)
    case Multiplication => MultiplicationCell(i1, i2, x, y, z)
    case Division => DivisionCell(i1, i2, x, y, z)
    case Convolve(mask) => ConvCell(i1, h, w, mask, x, y, z)
  }

  /** Channels are independent under a channelwise closure: each channel receives its
      own value when its computation succeeds and keeps its old value when it raises,
      whatever happens to the other two channels of the pixel. */
  lemma ChannelsIndependent(op: Calculation, i1: Image, i2: Image, h: nat, w: nat, x: nat, y: nat, p: seq<int>)
    requires Shaped(i1, h, w) && |p| == 3 && Channelwise(op)
    ensures forall c | 0 <= c < 3 ::
      PixelAfter(op, i1, i2, h, w, x, y, p)[c] ==
        match ChannelCell(op, i1, i2, h, w, x, y, c) case Some(v) => v case None => p[c]
  {
    var p1 := Visits(op, i1, i2, h, w, x, y, 1, p);
    var p2 := Visits(op, i1, i2, h, w, x, y, 2, p);
    var p3 := Visits(op, i1, i2, h, w, x, y, 3, p);
    assert Visits(op, i1, i2, h, w, x, y, 0, p) == p;
    assert p1 == Visit(op, i1, i2, h, w, x, y, 0, p);
    assert p2 == Visit(op, i1, i2, h, w, x, y, 1, p1);
    assert p3 == Visit(op, i1, i2, h, w, x, y, 2, p2);
    ChannelVisit(op, i1, i2, h, w, x, y, 0, p);
    ChannelVisit(op, i1, i2, h, w, x, y, 1, p1);
    ChannelVisit(op, i1, i2, h, w, x, y, 2, p2);
  }

  /** One visit of a channelwise closure touches channel `z` only. */
  lemma ChannelVisit(op: Calculation, i1: Image, i2: Image, h: nat, w: nat, x: nat, y: nat, z: nat, q: seq<int>)
    requires Shaped(i1, h, w) && |q| == 3 && z < 3 && Channelwise(op)
    ensures Visit(op, i1, i2, h, w, x, y, z, q) ==
      match ChannelCell(op, i1, i2, h, w, x, y, z) case Some(v) => q[z := v] case None => q
  {
  }

  /** Closures that assign one value to all three channels of the pixel. */
  predicate WholePixel(op: Calculation) {
    op.Average? || op.WeightedAverage? || op.Threshold?
  }

  function PixelCell(op: Calculation, i1: Image, i2: Image, x: nat, y: nat): Option<int>
    requires WholePixel(op)
  {
    match op
    case Average => WeightedCell(i1, i2, x, y, 1, 1)
    case WeightedAverage(w1, w2) => WeightedCell(i1, i2, x, y, w1, w2)
    case Threshold(level) => ThresholdCell(i1, x, y, level)
  }

  /** A whole-pixel closure ignores the channel it is visited for, so the three visits
      write the same grey level three times or, when it raises, leave the pixel alone. */
  lemma WholePixelWritesGrey(op: Calculation, i1: Image, i2: Image, h: nat, w: nat, x: nat, y: nat, p: seq<int>)
    requires Shaped(i1, h, w) && |p| == 3 && WholePixel(op)
    ensures PixelAfter(op, i1, i2, h, w, x, y, p) ==
      match PixelCell(op, i1, i2, x, y) case Some(v) => [v, v, v] case None => p
  {
    var p1 := Visits(op, i1, i2, h, w, x, y, 1, p);
    var p2 := Visits(op, i1, i2, h, w, x, y, 2, p);
    assert Visits(op, i1, i2, h, w, x, y, 0, p) == p;
    assert p1 == Visit(op, i1, i2, h, w, x, y, 0, p);
    assert p2 == Visit(op, i1, i2, h, w, x, y, 1, p1);
  }

  /** `arithmetic("+")` stores the truncated mean of the two samples in each channel, so
      exchanging the images does not change the result. */
  lemma SumIsMeanAndSymmetric(i1: Image, i2: Image, h: nat, w: nat, x: nat, y: nat, p: seq<int>)
    requires Shaped(i1, h, w) && Shaped(i2, h, w) && i1.Colour? && i2.Colour? && x < h && y < w && |p| == 3
    ensures forall c | 0 <= c < 3 ::
      PixelAfter(Sum, i1, i2, h, w, x, y, p)[c] == (i1.bgr[x][y][c] + i2.bgr[x][y][c]) / 2
    ensures PixelAfter(Sum, i1, i2, h, w, x, y, p) == PixelAfter(Sum, i2, i1, h, w, x, y, p)
  {
    ChannelsIndependent(Sum, i1, i2, h, w, x, y, p);
    ChannelsIndependent(Sum, i2, i1, h, w, x, y, p);
    assert AllBytes(i1.bgr[x][y]) && AllBytes(i2.bgr[x][y]);
  }

  /** `arithmetic("-")` of an image with itself writes 0 into every channel. */
  lemma SubtractionOfSelfIsZero(img: Image, h: nat, w: nat, x: nat, y: nat, p: seq<int>)
    requires Shaped(img, h, w) && img.Colour? && x < h && y < w && |p| == 3
    ensures PixelAfter(Subtraction, img, img, h, w, x, y, p) == [0, 0, 0]
  {
    ChannelsIndependent(Subtraction, img, img, h, w, x, y, p);
  }

  /** `arithmetic("*")` stores the product modulo 256, which is the product itself
      whenever it fits in a byte. */
  lemma MultiplicationStoresProduct(i1: Image, i2: Image, h: nat, w: nat, x: nat, y: nat, p: seq<int>)
    requires Shaped(i1, h, w) && Shaped(i2, h, w) && i1.Colour? && i2.Colour? && x < h && y < w && |p| == 3
    ensures forall c | 0 <= c < 3 ::
      PixelAfter(Multiplication, i1, i2, h, w, x, y, p)[c] == (i1.bgr[x][y][c] * i2.bgr[x][y][c]) % 256
  {
    ChannelsIndependent(Multiplication, i1, i2, h, w, x, y, p);
  }

  /** `arithmetic("-")`: every channel receives the difference, wrapped into a byte. */
  lemma SubtractionStoresDifference(i1: Image, i2: Image, h: nat, w: nat, x: nat, y: nat, p: seq<int>)
    requires Shaped(i1, h, w) && Shaped(i2, h, w) && i1.Colour? && i2.Colour? && x < h && y < w && |p| == 3
    ensures forall c | 0 <= c < 3 ::
      PixelAfter(Subtraction, i1, i2, h, w, x, y, p)[c] == (i1.bgr[x][y][c] - i2.bgr[x][y][c]) % 256
  {
    ChannelsIndependent(Subtraction, i1, i2, h, w, x, y, p);
  }

  /** `arithmetic("/")`: a channel whose divisor is 0 raises and keeps its previous value;
      every other channel receives the truncated quotient. */
  lemma DivisionSkipsZeroDivisors(i1: Image, i2: Image, h: nat, w: nat, x: nat, y: nat, p: seq<int>)
    requires Shaped(i1, h, w) && Shaped(i2, h, w) && i1.Colour? && i2.Colour? && x < h && y < w && |p| == 3
    ensures forall c | 0 <= c < 3 ::
      PixelAfter(Division, i1, i2, h, w, x, y, p)[c] ==
        if i2.bgr[x][y][c] == 0 then p[c] else i1.bgr[x][y][c] / i2.bgr[x][y][c]
  {
    ChannelsIndependent(Division, i1, i2, h, w, x, y, p);
    assert AllBytes(i1.bgr[x][y]) && AllBytes(i2.bgr[x][y]);
    forall c | 0 <= c < 3 && i2.bgr[x][y][c] != 0
      ensures IsByte(i1.bgr[x][y][c] / i2.bgr[x][y][c])
    {
      var a, b := i1.bgr[x][y][c], i2.bgr[x][y][c];
      assert a / b <= a by { DivAtMost(a, b); }
    }
  }

  lemma DivAtMost(a: int, b: int)
    requires 0 <= a && 1 <= b
    ensures 0 <= a / b <= a
  {
    assert a == b * (a / b) + a % b;
  }

  /** Colour isolation keeps one channel (channel order is BGR, so red is channel 2),
      zeroes the other two, and applying it a second time changes nothing. */
  lemma IsolationKeepsOneChannel(i1: Image, i2: Image, h: nat, w: nat, x: nat, y: nat, p: seq<int>)
    requires Shaped(i1, h, w) && |p| == 3
    ensures PixelAfter(IsolateRed, i1, i2, h, w, x, y, p) == [0, 0, p[2]]
    ensures PixelAfter(IsolateGreen, i1, i2, h, w, x, y, p) == [0, p[1], 0]
    ensures PixelAfter(IsolateBlue, i1, i2, h, w, x, y, p) == [p[0], 0, 0]
  {
    forall op | op in [IsolateRed, IsolateGreen, IsolateBlue]
      ensures PixelAfter(op, i1, i2, h, w, x, y, p) == Step(op, i1, i2, h, w, x, y, 0, p).value
    {
      var p1 := Visits(op, i1, i2, h, w, x, y, 1, p);
      var p2 := Visits(op, i1, i2, h, w, x, y, 2, p);
      assert Visits(op, i1, i2, h, w, x, y, 0, p) == p;
      assert p1 == Visit(op, i1, i2, h, w, x, y, 0, p);
      assert p2 == Visit(op, i1, i2, h, w, x, y, 1, p1);
    }
  }

  lemma IsolationIdempotent(op: Calculation, i1: Image, i2: Image, h: nat, w: nat, x: nat, y: nat, p: seq<int>)
    requires Shaped(i1, h, w) && |p| == 3 && (op.IsolateRed? || op.IsolateGreen? || op.IsolateBlue?)
    ensures PixelAfter(op, i1, i2, h, w, x, y, PixelAfter(op, i1, i2, h, w, x, y, p)) == PixelAfter(op, i1, i2, h, w, x, y, p)
  {
    IsolationKeepsOneChannel(i1, i2, h, w, x, y, p);
    IsolationKeepsOneChannel(i1, i2, h, w, x, y, PixelAfter(op, i1, i2, h, w, x, y, p));
  }

  /** On two grayscale grids the (weighted) average writes
      `(g1 * w1 + g2 * w2) / 2`, truncated and stored, to all three channels; with
      non-negative weights the truncation is the floor. The plain average is the
      case `w1 = w2 = 1`, which always fits in a byte. */
  lemma WeightedAverageOnGray(i1: Image, i2: Image, h: nat, w: nat, x: nat, y: nat, w1: int, w2: int, p: seq<int>)
    requires Shaped(i1, h, w) && Shaped(i2, h, w) && i1.Gray? && i2.Gray? && x < h && y < w && |p| == 3
    requires 0 <= w1 && 0 <= w2
    ensures
      var v := (i1.plane[x][y] * w1 + i2.plane[x][y] * w2) / 2 % 256;
      PixelAfter(WeightedAverage(w1, w2), i1, i2, h, w, x, y, p) == [v, v, v]
    ensures
      var m := (i1.plane[x][y] + i2.plane[x][y]) / 2;
      IsByte(m) && PixelAfter(Average, i1, i2, h, w, x, y, p) == [m, m, m]
  {
    WholePixelWritesGrey(WeightedAverage(w1, w2), i1, i2, h, w, x, y, p);
    WholePixelWritesGrey(Average, i1, i2, h, w, x, y, p);
    assert AllBytes(i1.plane[x]) && AllBytes(i2.plane[x]);
    var g1, g2 := i1.plane[x][y], i2.plane[x][y];
    MulNonNeg(g1, w1);
    MulNonNeg(g2, w2);
    var s := g1 * w1 + g2 * w2;
    assert TruncDiv(s, 2) == s / 2;
    assert TruncDiv(g1 + g2, 2) == (g1 + g2) / 2;
  }

  /** With weights of any sign, the weighted sum is halved toward zero before it wraps:
      a negative sum such as `-3` gives `-1`, stored as 255. */
  lemma WeightedAverageTruncates(i1: Image, i2: Image, h: nat, w: nat, x: nat, y: nat, w1: int, w2: int, p: seq<int>)
    requires Shaped(i1, h, w) && Shaped(i2, h, w) && i1.Gray? && i2.Gray? && x < h && y < w && |p| == 3
    ensures
      var s := i1.plane[x][y] * w1 + i2.plane[x][y] * w2;
      var v := (if s >= 0 then s / 2 else -((-s) / 2)) % 256;
      PixelAfter(WeightedAverage(w1, w2), i1, i2, h, w, x, y, p) == [v, v, v]
  {
    WholePixelWritesGrey(WeightedAverage(w1, w2), i1, i2, h, w, x, y, p);
    var s := i1.plane[x][y] * w1 + i2.plane[x][y] * w2;
    var t := TruncDiv(s, 2);
    if s < 0 {
      assert t <= 0 && Abs(t) == (-s) / 2;
    }
  }

  /** Thresholding writes 255 to all three channels when the first grayscale sample is
      strictly above the level and 0 otherwise. */
  lemma ThresholdIsBinary(i1: Image, i2: Image, h: nat, w: nat, x: nat, y: nat, level: int, p: seq<int>)
    requires Shaped(i1, h, w) && i1.Gray? && x < h && y < w && |p| == 3
    ensures PixelAfter(Threshold(level), i1, i2, h, w, x, y, p) ==
      if i1.plane[x][y] > level then [255, 255, 255] else [0, 0, 0]
  {
    WholePixelWritesGrey(Threshold(level), i1, i2, h, w, x, y, p);
  }

  /** The averaging and thresholding closures read `int(image[x][y])`, which raises on a
      colour grid: run before grayscale reduction they leave every pixel as it was. */
  lemma WholePixelSkipsColour(op: Calculation, i1: Image, i2: Image, h: nat, w: nat, x: nat, y: nat, p: seq<int>)
    requires Shaped(i1, h, w) && |p| == 3 && WholePixel(op) && i1.Colour?
    ensures PixelAfter(op, i1, i2, h, w, x, y, p) == p
  {
    WholePixelWritesGrey(op, i1, i2, h, w, x, y, p);
  }

  /** Convolution writes each channel independently: a channel whose window leaves the
      image keeps its value, one whose window is inside receives the normalised sum. */
  lemma ConvolutionPerChannel(mask: seq<seq<int>>, i1: Image, i2: Image, h: nat, w: nat, x: nat, y: nat, p: seq<int>)
    requires Shaped(i1, h, w) && |p| == 3
    ensures forall c | 0 <= c < 3 ::
      PixelAfter(Convolve(mask), i1, i2, h, w, x, y, p)[c] ==
        if |mask| > 0 && i1.Colour? && MaskCovers(mask) && Interior(x, y, |mask|, h, w)
        then Store(TruncDiv(WindowSum(i1.bgr, mask, x, y, c, |mask|), |mask| * |mask|))
        else p[c]
  {
    ChannelsIndependent(Convolve(mask), i1, i2, h, w, x, y, p);
    forall c | 0 <= c < 3 {
      ConvolutionWritesIff(i1, h, w, mask, x, y, c);
    }
  }

  /** After grayscale reduction of two colour images, the average writes the mean of the
      two pixels' luminances to all three channels. */
  lemma AverageOfReducedColour(i1: Image, i2: Image, h: nat, w: nat, x: nat, y: nat, p: seq<int>)
    requires Shaped(i1, h, w) && Shaped(i2, h, w) && i1.Colour? && i2.Colour? && x < h && y < w && |p| == 3
    ensures
      var a, b := i1.bgr[x][y], i2.bgr[x][y];
      var m := (Luma(a[0], a[1], a[2]) + Luma(b[0], b[1], b[2])) / 2;
      PixelAfter(Average, Gray(GrayPlane(i1, h, w)), Gray(GrayPlane(i2, h, w)), h, w, x, y, p) == [m, m, m]
  {
    var g1, g2 := GrayPlane(i1, h, w), GrayPlane(i2, h, w);
    WeightedAverageOnGray(Gray(g1), Gray(g2), h, w, x, y, 1, 1, p);
    var a, b := i1.bgr[x][y], i2.bgr[x][y];
    assert g1[x][y] == Luma(a[0], a[1], a[2]) && g2[x][y] == Luma(b[0], b[1], b[2]);
  }

  /** After grayscale reduction of a colour image, thresholding writes white exactly where
      the luminance is strictly above the level. */
  lemma ThresholdOfReducedColour(i1: Image, i2: Image, h: nat, w: nat, x: nat, y: nat, level: int, p: seq<int>)
    requires Shaped(i1, h, w) && i1.Colour? && x < h && y < w && |p| == 3
    ensures
      var a := i1.bgr[x][y];
      PixelAfter(Threshold(level), Gray(GrayPlane(i1, h, w)), i2, h, w, x, y, p) ==
        if Luma(a[0], a[1], a[2]) > level then [255, 255, 255] else [0, 0, 0]
  {
    ThresholdIsBinary(Gray(GrayPlane(i1, h, w)), i2, h, w, x, y, level, p);
  }

  /** Grayscale reduction of grids that are already two-dimensional raises at every cell,
      so a second reduction (for instance thresholding after averaging) replaces both
      images with zeros, and averaging or thresholding at a non-negative level then
      writes black everywhere. */
  lemma SecondReductionBlanks(i1: Image, i2: Image, h: nat, w: nat, x: nat, y: nat, level: int, p: seq<int>)
    requires Shaped(i1, h, w) && i1.Gray? && x < h && y < w && |p| == 3 && level >= 0
    ensures GrayPlane(i1, h, w) == ZeroPlane(h, w)
    ensures PixelAfter(Threshold(level), Gray(ZeroPlane(h, w)), Gray(ZeroPlane(h, w)), h, w, x, y, p) == [0, 0, 0]
    ensures PixelAfter(Average, Gray(ZeroPlane(h, w)), Gray(ZeroPlane(h, w)), h, w, x, y, p) == [0, 0, 0]
  {
    var z := Gray(ZeroPlane(h, w));
    assert z.plane[x][y] == 0;
    ThresholdIsBinary(z, z, h, w, x, y, level, p);
    WeightedAverageOnGray(z, z, h, w, x, y, 1, 1, p);
  }

  /** Two colour pixels of constant levels 100 and 50: the sum writes their mean 75, the
      difference 50, the division 2, and the product 5000 is kept modulo 256, giving 136
      rather than a saturated 255. */
  lemma ConstantPixelsScenario(i1: Image, i2: Image, h: nat, w: nat, x: nat, y: nat, p: seq<int>)
    requires Shaped(i1, h, w) && Shaped(i2, h, w) && i1.Colour? && i2.Colour? && x < h && y < w && |p| == 3
    requires i1.bgr[x][y] == [100, 100, 100] && i2.bgr[x][y] == [50, 50, 50]
    ensures PixelAfter(Sum, i1, i2, h, w, x, y, p) == [75, 75, 75]
    ensures PixelAfter(Subtraction, i1, i2, h, w, x, y, p) == [50, 50, 50]
    ensures PixelAfter(Multiplication, i1, i2, h, w, x, y, p) == [136, 136, 136]
    ensures PixelAfter(Division, i1, i2, h, w, x, y, p) == [2, 2, 2]
  {
    SumIsMeanAndSymmetric(i1, i2, h, w, x, y, p);
    ChannelsIndependent(Subtraction, i1, i2, h, w, x, y, p);
    MultiplicationStoresProduct(i1, i2, h, w, x, y, p);
    DivisionSkipsZeroDivisors(i1, i2, h, w, x, y, p);
  }
}

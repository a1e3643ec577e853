/** The order in which the driver visits the cells of an h x w x 3 grid. */
module Traversal {

  /** One cell `(row, col, chan)` of the driver's index space. */
  datatype Coord = Coord(row: nat, col: nat, chan: nat)

  /** Lexicographic order on (row, column, channel): row-major order. */
  predicate Precedes(a: Coord, b: Coord) {
    a.row < b.row || (a.row == b.row && (a.col < b.col || (a.col == b.col && a.chan < b.chan)))
  }

  ghost predicate RowMajor(s: seq<Coord>) {
    forall i, j | 0 <= i < j < |s| :: Precedes(s[i], s[j])
  }

  /** The visits of the three channels of pixel `(x, y)`. */
  function PixelVisits(x: nat, y: nat): seq<Coord> {
    [Coord(x, y, 0), Coord(x, y, 1), Coord(x, y, 2)]
  }

  /** The visits of the first `n` pixels of row `x`. */
  function RowVisits(x: nat, n: nat): seq<Coord> {
    if n == 0 then [] else RowVisits(x, n - 1) + PixelVisits(x, n - 1)
  }

  /** The visits of the first `n` rows of a grid `w` pixels wide. */
  function GridVisits(n: nat, w: nat): seq<Coord> {
    if n == 0 then [] else GridVisits(n - 1, w) + RowVisits(n - 1, w)
  }

  lemma ConcatRowMajor(a: seq<Coord>, b: seq<Coord>)
    requires RowMajor(a) && RowMajor(b)
    requires forall i, j | 0 <= i < |a| && 0 <= j < |b| :: Precedes(a[i], b[j])
    ensures RowMajor(a + b)
  {
    var s := a + b;
    forall i, j | 0 <= i < j < |s| ensures Precedes(s[i], s[j]) {
      if j < |a| {
        assert s[i] == a[i] && s[j] == a[j];
      } else if i >= |a| {
        assert s[i] == b[i - |a|] && s[j] == b[j - |a|];
      } else {
        assert s[i] == a[i] && s[j] == b[j - |a|];
      }
    }
  }

  /** Row `x`'s first `n` pixels give `3 * n` visits, all in row `x` and before column `n`. */
  lemma {:induction false} RowVisitsWithin(x: nat, n: nat)
    ensures |RowVisits(x, n)| == 3 * n
    ensures forall i | 0 <= i < |RowVisits(x, n)| ::
      RowVisits(x, n)[i].row == x && RowVisits(x, n)[i].col < n && RowVisits(x, n)[i].chan < 3
  {
    if n > 0 {
      RowVisitsWithin(x, n - 1);
      var a: seq<Coord>, b: seq<Coord> := RowVisits(x, n - 1), PixelVisits(x, n - 1);
      forall i | 0 <= i < |a + b| ensures (a + b)[i].row == x && (a + b)[i].col < n && (a + b)[i].chan < 3 {
        if i < |a| {
          assert (a + b)[i] == a[i];
        } else {
          assert (a + b)[i] == b[i - |a|];
        }
      }
    }
  }

  /** Every channel of the first `n` pixels of row `x` is visited. */
  lemma {:induction false} RowVisitsComplete(x: nat, n: nat)
    ensures forall v: Coord | v.row == x && v.col < n && v.chan < 3 :: v in RowVisits(x, n)
  {
    if n > 0 {
      RowVisitsComplete(x, n - 1);
      var a: seq<Coord>, b: seq<Coord> := RowVisits(x, n - 1), PixelVisits(x, n - 1);
      forall v: Coord | v.row == x && v.col < n && v.chan < 3 ensures v in a + b {
        if v.col < n - 1 {
          assert v in a;
        } else {
          assert v == b[v.chan];
        }
      }
    }
  }

  lemma {:induction false} RowVisitsOrder(x: nat, n: nat)
    ensures RowMajor(RowVisits(x, n))
  {
    if n > 0 {
      RowVisitsOrder(x, n - 1);
      RowVisitsWithin(x, n - 1);
      var a: seq<Coord>, b: seq<Coord> := RowVisits(x, n - 1), PixelVisits(x, n - 1);
      forall i, j | 0 <= i < |a| && 0 <= j < |b| ensures Precedes(a[i], b[j]) {
        assert a[i].col < n - 1 && b[j].col == n - 1;
      }
      ConcatRowMajor(a, b);
    }
  }

  /** The first `h` rows' visits all lie inside the h x w x 3 grid. */
  lemma {:induction false} GridVisitsWithin(h: nat, w: nat)
    ensures forall i | 0 <= i < |GridVisits(h, w)| ::
      GridVisits(h, w)[i].row < h && GridVisits(h, w)[i].col < w && GridVisits(h, w)[i].chan < 3
  {
    if h > 0 {
      GridVisitsWithin(h - 1, w);
      RowVisitsWithin(h - 1, w);
      var a: seq<Coord>, b: seq<Coord> := GridVisits(h - 1, w), RowVisits(h - 1, w);
      forall i | 0 <= i < |a + b| ensures (a + b)[i].row < h && (a + b)[i].col < w && (a + b)[i].chan < 3 {
        if i < |a| {
          assert (a + b)[i] == a[i];
        } else {
          assert (a + b)[i] == b[i - |a|];
        }
      }
    }
  }

  /** Every cell of the h x w x 3 grid is visited. */
  lemma {:induction false} GridVisitsComplete(h: nat, w: nat)
    ensures forall v: Coord | v.row < h && v.col < w && v.chan < 3 :: v in GridVisits(h, w)
  {
    if h > 0 {
      GridVisitsComplete(h - 1, w);
      RowVisitsComplete(h - 1, w);
      var a: seq<Coord>, b: seq<Coord> := GridVisits(h - 1, w), RowVisits(h - 1, w);
      forall v: Coord | v.row < h && v.col < w && v.chan < 3 ensures v in a + b {
        if v.row < h - 1 {
          assert v in a;
        } else {
          assert v in b;
        }
      }
    }
  }

  lemma {:induction false} GridVisitsOrder(h: nat, w: nat)
    ensures RowMajor(GridVisits(h, w))
  {
    if h > 0 {
      GridVisitsOrder(h - 1, w);
      GridVisitsWithin(h - 1, w);
      RowVisitsOrder(h - 1, w);
      RowVisitsWithin(h - 1, w);
      var a: seq<Coord>, b: seq<Coord> := GridVisits(h - 1, w), RowVisits(h - 1, w);
      forall i, j | 0 <= i < |a| && 0 <= j < |b| ensures Precedes(a[i], b[j]) {
        assert a[i].row < h - 1 && b[j].row == h - 1;
      }
      ConcatRowMajor(a, b);
    }
  }

  /** The driver visits every (row, column, channel) of an h x w x 3 grid and nothing
      else, without repeats, in row-major order with the channel varying fastest. */
  lemma GridVisitsEnumerate(h: nat, w: nat)
    ensures RowMajor(GridVisits(h, w))
    ensures forall i, j | 0 <= i < j < |GridVisits(h, w)| :: GridVisits(h, w)[i] != GridVisits(h, w)[j]
    ensures forall v :: v in GridVisits(h, w) <==> v.row < h && v.col < w && v.chan < 3
  {
    GridVisitsOrder(h, w);
    GridVisitsWithin(h, w);
    GridVisitsComplete(h, w);
    var s := GridVisits(h, w);
    forall i, j | 0 <= i < j < |s| ensures s[i] != s[j] {
      assert Precedes(s[i], s[j]);
    }
    forall v: Coord | v in s ensures v.row < h && v.col < w && v.chan < 3 {
      var i :| 0 <= i < |s| && s[i] == v;
    }
  }

  /** There are h * w * 3 visits: each cell of the grid is visited exactly once. */
  lemma {:induction false} GridVisitsCount(h: nat, w: nat)
    ensures |GridVisits(h, w)| == h * w * 3
  {
    if h > 0 {
      GridVisitsCount(h - 1, w);
      RowVisitsWithin(h - 1, w);
      CountStep(h, w);
    }
  }

  lemma CountStep(h: nat, w: nat)
    requires h > 0
    ensures (h - 1) * w * 3 + 3 * w == h * w * 3
  {
    assert (h - 1) * w == h * w - w;
  }
}

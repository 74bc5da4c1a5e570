/**
  Mean-shift filtering of `dominant-colors.cpp`. Every pixel is a point of five coordinates:
  its row and column and its three CIELab channels. The filter moves each pixel's point to the
  mean of the points of a spatial window around the pixel whose colour lies within `hr` of the
  current point, at most five times, and stops earlier once a move is small in colour or in
  space.

  `sqrtf` is not expressible over the reals. Each comparison of a square root against a bound
  is written as the equivalent comparison of the squared distance: for `d >= 0`,
  `sqrt(d) < h` exactly when `h > 0` and `d < h * h`, and `sqrt(d) > t` exactly when `t < 0` or
  `d > t * t`.
 */
module MeanShift {
  import opened Numeric
  import opened Grids

  /** `MS_MAX_NUM_CONVERGENCE_STEPS`, `MS_MEAN_SHIFT_TOL_COLOR`, `MS_MEAN_SHIFT_TOL_SPATIAL`. */
  const MaxSteps: nat := 5
  const TolColor: real := 0.3
  const TolSpatial: real := 0.3

  /** A CIELab colour as the three float channels of the image. */
  datatype Lab = Lab(l: real, a: real, b: real)

  /** `Point5D`: `x` is the row, `y` the column. */
  datatype Point5 = Point5(x: real, y: real, l: real, a: real, b: real)

  const Origin := Point5(0.0, 0.0, 0.0, 0.0, 0.0)

  function Sq(t: real): real { t * t }

  function ColorOf(p: Point5): Lab { Lab(p.l, p.a, p.b) }

  /** CIE76 on the image's channels, `L` scaled by 100 and `a`, `b` by 127, squared. */
  function LabDist2(p: Lab, q: Lab): real
  {
    Sq(p.l * 100.0 - q.l * 100.0) + Sq(p.a * 127.0 - q.a * 127.0) + Sq(p.b * 127.0 - q.b * 127.0)
  }

  /** The square of `MSPoint5DColorDistance`, which reads only the colour of the two points. */
  function ColorDist2(p: Point5, q: Point5): real
  {
    LabDist2(ColorOf(p), ColorOf(q))
  }

  /** The square of `MSPoint5DSpatialDistance`. */
  function SpatialDist2(p: Point5, q: Point5): real
  {
    Sq(p.x - q.x) + Sq(p.y - q.y)
  }

  /** `sqrt(d2) < h`, for `d2 >= 0`. */
  predicate RootBelow(d2: real, h: real) { h > 0.0 && d2 < h * h }

  /** `sqrt(d2) > t`, for `d2 >= 0`. */
  predicate RootAbove(d2: real, t: real) { t < 0.0 || d2 > t * t }

  /** The search window of a pixel: rows `[top, bottom)`, columns `[left, right)`. */
  datatype Window = Window(top: int, bottom: int, left: int, right: int)

  predicate InImage(w: Window, rows: nat, cols: nat)
  {
    0 <= w.top && w.bottom <= rows && 0 <= w.left && w.right <= cols
  }

  /** The window of pixel `(i, j)`. The bandwidth `hs` is a float, so `j - hs` and the others
      are floats, and the assignment to `int` truncates them. */
  function FilterWindow(i: int, j: int, rows: nat, cols: nat, hs: real): (w: Window)
    ensures InImage(w, rows, cols)
  {
    Window(if i as real - hs > 0.0 then Trunc(i as real - hs) else 0,
           if i as real + hs < rows as real then Trunc(i as real + hs) else rows,
           if j as real - hs > 0.0 then Trunc(j as real - hs) else 0,
           if j as real + hs < cols as real then Trunc(j as real + hs) else cols)
  }

  /** For a whole bandwidth `k` the window is rows `[max(i - k, 0), min(i + k, rows))` and
      columns `[max(j - k, 0), min(j + k, cols))`; for `k >= 1` it holds the pixel itself. */
  lemma WindowOfWholeBandwidth(i: nat, j: nat, rows: nat, cols: nat, k: nat)
    ensures FilterWindow(i, j, rows, cols, k as real) ==
      Window(IntMax(i - k, 0), IntMin(i + k, rows), IntMax(j - k, 0), IntMin(j + k, cols))
    ensures k >= 1 && i < rows && j < cols ==>
      var w := FilterWindow(i, j, rows, cols, k as real);
      w.top <= i < w.bottom && w.left <= j < w.right
  {
    var hs := k as real;
    FloorOf(i as real - hs, i - k);
    FloorOf(i as real + hs, i + k);
    FloorOf(j as real - hs, j - k);
    FloorOf(j as real + hs, j + k);
  }

  /** Running sum and count of the points accepted in a window. */
  datatype Acc = Acc(sum: Point5, n: nat)

  function Add5(p: Point5, q: Point5): Point5
  {
    Point5(p.x + q.x, p.y + q.y, p.l + q.l, p.a + q.a, p.b + q.b)
  }

  /** The point of pixel `(hx, hy)`. */
  function PointAt(img: Grid<Lab>, hx: nat, hy: nat): Point5
    requires hx < |img| && hy < |img[hx]|
  {
    Point5(hx as real, hy as real, img[hx][hy].l, img[hx][hy].a, img[hx][hy].b)
  }

  /** Whether a point of the window is taken: its colour is within `hr` of the current point. */
  predicate Accepted(p: Point5, cur: Point5, hr: real)
  {
    RootBelow(ColorDist2(p, cur), hr)
  }

  /** `n` copies of `v` added up: `n v`, written as a repeated addition so that the bounds on
      the sums of the window stay linear. */
  function Scaled(n: nat, v: real): real
  {
    if n == 0 then 0.0 else Scaled(n - 1, v) + v
  }

  /** The repeated addition is the product. */
  lemma {:induction false} ScaledIsProduct(n: nat, v: real)
    ensures Scaled(n, v) == n as real * v
  {
    if n > 0 {
      ScaledIsProduct(n - 1, v);
    }
  }

  /** A sum of `n` values, each in `[lo, hi]`, lies in `[n lo, n hi]`. */
  predicate Between(n: nat, sum: real, lo: real, hi: real)
  {
    Scaled(n, lo) <= sum <= Scaled(n, hi)
  }

  lemma BetweenStep(n: nat, sum: real, lo: real, hi: real, v: real)
    requires Between(n, sum, lo, hi) && lo <= v <= hi
    ensures Between(n + 1, sum + v, lo, hi)
  {
  }

  /** `n1` values and `n2` more. */
  lemma {:induction false} ScaledAdd(n1: nat, n2: nat, v: real)
    ensures Scaled(n1 + n2, v) == Scaled(n1, v) + Scaled(n2, v)
    decreases n2
  {
    if n2 > 0 {
      ScaledAdd(n1, n2 - 1, v);
    }
  }

  lemma BetweenMerge(n1: nat, s1: real, n2: nat, s2: real, lo: real, hi: real)
    requires Between(n1, s1, lo, hi) && Between(n2, s2, lo, hi)
    ensures Between(n1 + n2, s1 + s2, lo, hi)
  {
    ScaledAdd(n1, n2, lo);
    ScaledAdd(n1, n2, hi);
  }

  /** Repeated addition is monotonic in the value added. */
  lemma {:induction false} ScaledMono(n: nat, u: real, v: real)
    requires u <= v
    ensures Scaled(n, u) <= Scaled(n, v)
  {
    if n > 0 {
      ScaledMono(n - 1, u, v);
    }
  }

  /** A row's sum of `n` copies of one row index `v` in `[lo, hi]`. */
  lemma BetweenConstant(n: nat, sum: real, lo: real, hi: real, v: real)
    requires Between(n, sum, v, v) && lo <= v <= hi
    ensures Between(n, sum, lo, hi)
  {
    ScaledMono(n, lo, v);
    ScaledMono(n, v, hi);
  }

  /** The inner loop over columns `[left, hy)` of row `hx`. */
  function RowSum(img: Grid<Lab>, rows: nat, cols: nat, w: Window, cur: Point5, hr: real, hx: int, hy: int): (r: Acc)
    requires IsGrid(img, rows, cols) && InImage(w, rows, cols) && w.top <= hx < w.bottom && hy <= w.right
    ensures r.n <= IntMax(hy - w.left, 0)
    decreases hy - w.left
  {
    if hy <= w.left then Acc(Origin, 0)
    else
      var prior := RowSum(img, rows, cols, w, cur, hr, hx, hy - 1);
      var p := PointAt(img, hx, hy - 1);
      if Accepted(p, cur, hr) then Acc(Add5(prior.sum, p), prior.n + 1) else prior
  }

  /** The outer loop over rows `[top, hx)`. */
  function WinSum(img: Grid<Lab>, rows: nat, cols: nat, w: Window, cur: Point5, hr: real, hx: int): (r: Acc)
    requires IsGrid(img, rows, cols) && InImage(w, rows, cols) && hx <= w.bottom
    ensures r.n <= IntMax(hx - w.top, 0) * IntMax(w.right - w.left, 0)
    decreases hx - w.top
  {
    if hx <= w.top then Acc(Origin, 0)
    else
      var prior := WinSum(img, rows, cols, w, cur, hr, hx - 1);
      var row := RowSum(img, rows, cols, w, cur, hr, hx - 1, w.right);
      CountStep(prior.n, row.n, hx - 1 - w.top, IntMax(w.right - w.left, 0));
      Acc(Add5(prior.sum, row.sum), prior.n + row.n)
  }

  /** `k` full rows and one more row of at most `width` points make at most `k + 1` rows. */
  lemma CountStep(prior: nat, row: nat, k: nat, width: nat)
    requires prior <= k * width && row <= width
    ensures prior + row <= (k + 1) * width
  {
    assert (k + 1) * width == k * width + width;
  }

  /** Every point a row accepts has that row and a column of the window. */
  lemma {:induction false} RowSumBounds(img: Grid<Lab>, rows: nat, cols: nat, w: Window, cur: Point5, hr: real, hx: int, hy: int)
    requires IsGrid(img, rows, cols) && InImage(w, rows, cols) && w.top <= hx < w.bottom && hy <= w.right
    ensures var r := RowSum(img, rows, cols, w, cur, hr, hx, hy);
      Between(r.n, r.sum.x, hx as real, hx as real) && Between(r.n, r.sum.y, w.left as real, (w.right - 1) as real)
    decreases hy - w.left
  {
    if hy > w.left {
      var prior := RowSum(img, rows, cols, w, cur, hr, hx, hy - 1);
      RowSumBounds(img, rows, cols, w, cur, hr, hx, hy - 1);
      var p := PointAt(img, hx, hy - 1);
      if Accepted(p, cur, hr) {
        var r := Acc(Add5(prior.sum, p), prior.n + 1);
        assert RowSum(img, rows, cols, w, cur, hr, hx, hy) == r;
        BetweenStep(prior.n, prior.sum.y, w.left as real, (w.right - 1) as real, p.y);
        BetweenStep(prior.n, prior.sum.x, hx as real, hx as real, p.x);
      } else {
        assert RowSum(img, rows, cols, w, cur, hr, hx, hy) == prior;
      }
    }
  }

  /** The accepted points all lie in the window, so the sums of their coordinates lie between
      `n` times the window's first and last row and column. */
  lemma {:induction false} WinSumBounds(img: Grid<Lab>, rows: nat, cols: nat, w: Window, cur: Point5, hr: real, hx: int)
    requires IsGrid(img, rows, cols) && InImage(w, rows, cols) && hx <= w.bottom
    ensures var r := WinSum(img, rows, cols, w, cur, hr, hx);
      Between(r.n, r.sum.x, w.top as real, (w.bottom - 1) as real)
      && Between(r.n, r.sum.y, w.left as real, (w.right - 1) as real)
    decreases hx - w.top
  {
    if hx > w.top {
      var prior := WinSum(img, rows, cols, w, cur, hr, hx - 1);
      var row := RowSum(img, rows, cols, w, cur, hr, hx - 1, w.right);
      WinSumUnfold(img, rows, cols, w, cur, hr, hx);
      WinSumBounds(img, rows, cols, w, cur, hr, hx - 1);
      RowSumBounds(img, rows, cols, w, cur, hr, hx - 1, w.right);
      MergeRow(prior, row, w, hx - 1);
    }
  }

  /** One more row of the window: its count and its sum add to those of the rows before. */
  lemma WinSumUnfold(img: Grid<Lab>, rows: nat, cols: nat, w: Window, cur: Point5, hr: real, hx: int)
    requires IsGrid(img, rows, cols) && InImage(w, rows, cols) && w.top < hx <= w.bottom
    ensures WinSum(img, rows, cols, w, cur, hr, hx).n
      == WinSum(img, rows, cols, w, cur, hr, hx - 1).n + RowSum(img, rows, cols, w, cur, hr, hx - 1, w.right).n
    ensures WinSum(img, rows, cols, w, cur, hr, hx).sum
      == Add5(WinSum(img, rows, cols, w, cur, hr, hx - 1).sum, RowSum(img, rows, cols, w, cur, hr, hx - 1, w.right).sum)
  {
  }

  /** Adding the accepted points of a row of the window keeps the sums in their bounds. */
  lemma MergeRow(prior: Acc, row: Acc, w: Window, hx: int)
    requires w.top <= hx < w.bottom
    requires Between(prior.n, prior.sum.x, w.top as real, (w.bottom - 1) as real)
    requires Between(prior.n, prior.sum.y, w.left as real, (w.right - 1) as real)
    requires Between(row.n, row.sum.x, hx as real, hx as real)
    requires Between(row.n, row.sum.y, w.left as real, (w.right - 1) as real)
    ensures Between(prior.n + row.n, Add5(prior.sum, row.sum).x, w.top as real, (w.bottom - 1) as real)
    ensures Between(prior.n + row.n, Add5(prior.sum, row.sum).y, w.left as real, (w.right - 1) as real)
  {
    BetweenConstant(row.n, row.sum.x, w.top as real, (w.bottom - 1) as real, hx as real);
    BetweenMerge(prior.n, prior.sum.x, row.n, row.sum.x, w.top as real, (w.bottom - 1) as real);
    BetweenMerge(prior.n, prior.sum.y, row.n, row.sum.y, w.left as real, (w.right - 1) as real);
  }

  function Scale5(p: Point5, k: real): Point5
  {
    Point5(p.x * k, p.y * k, p.l * k, p.a * k, p.b * k)
  }

  /** One pass of the `do` body: the mean of the accepted points of the window, or NaN (`None`)
      when there is none, as `PtSum` (all zero) scaled by `1.0 / 0` is. */
  function ShiftStep(img: Grid<Lab>, rows: nat, cols: nat, w: Window, cur: Point5, hr: real): Option<Point5>
    requires IsGrid(img, rows, cols) && InImage(w, rows, cols)
  {
    var acc := WinSum(img, rows, cols, w, cur, hr, w.bottom);
    if acc.n == 0 then None else Some(Scale5(acc.sum, 1.0 / acc.n as real))
  }

  /** The spatial part of `p` lies in the window. */
  predicate InWindow(p: Point5, w: Window)
  {
    w.top as real <= p.x <= (w.bottom - 1) as real && w.left as real <= p.y <= (w.right - 1) as real
  }

  lemma BetweenMean(n: nat, sum: real, lo: real, hi: real)
    requires n > 0 && Between(n, sum, lo, hi)
    ensures lo <= sum * (1.0 / n as real) <= hi
  {
    ScaledIsProduct(n, lo);
    ScaledIsProduct(n, hi);
    ReciprocalMul(sum, n as real);
    QuotientBetween(sum, n as real, lo, hi, sum * (1.0 / n as real));
  }

  /** Dividing by `k` through its reciprocal and multiplying back gives the value again. */
  lemma ReciprocalMul(sum: real, k: real)
    requires k > 0.0
    ensures (sum * (1.0 / k)) * k == sum
  {
  }

  /** A quotient of a value between `k lo` and `k hi` by `k > 0` lies between `lo` and `hi`. */
  lemma QuotientBetween(sum: real, k: real, lo: real, hi: real, q: real)
    requires k > 0.0 && q * k == sum && k * lo <= sum <= k * hi
    ensures lo <= q <= hi
  {
    assert lo * k <= q * k;
    MulCancelLe(lo, q, k);
    assert q * k <= hi * k;
    MulCancelLe(q, hi, k);
  }

  /** A step that finds points moves the point into the window. */
  lemma ShiftStepInWindow(img: Grid<Lab>, rows: nat, cols: nat, w: Window, cur: Point5, hr: real)
    requires IsGrid(img, rows, cols) && InImage(w, rows, cols)
    ensures var next := ShiftStep(img, rows, cols, w, cur, hr);
      next.Some? ==> InWindow(next.value, w)
  {
    var acc := WinSum(img, rows, cols, w, cur, hr, w.bottom);
    if acc.n > 0 {
      WinSumBounds(img, rows, cols, w, cur, hr, w.bottom);
      MeanInWindow(acc, w);
    }
  }

  /** The mean of points of the window lies in the window. */
  lemma MeanInWindow(acc: Acc, w: Window)
    requires acc.n > 0
    requires Between(acc.n, acc.sum.x, w.top as real, (w.bottom - 1) as real)
    requires Between(acc.n, acc.sum.y, w.left as real, (w.right - 1) as real)
    ensures InWindow(Scale5(acc.sum, 1.0 / acc.n as real), w)
  {
    BetweenMean(acc.n, acc.sum.x, w.top as real, (w.bottom - 1) as real);
    BetweenMean(acc.n, acc.sum.y, w.left as real, (w.right - 1) as real);
  }

  /** The `while` condition: both moves still larger than their tolerances. NaN compares false,
      so a NaN point never continues. */
  predicate Continue(cur: Point5, prev: Point5)
  {
    RootAbove(ColorDist2(cur, prev), TolColor) && RootAbove(SpatialDist2(cur, prev), TolSpatial)
  }

  /** The outcome of the `do`-`while` loop: the final point (`None` for NaN), the point before
      the last step, and the number of steps done. */
  datatype Run = Run(cur: Option<Point5>, prev: Point5, steps: nat)

  /** The `do`-`while` loop from `cur` after `steps` steps, as a recursion: it always runs once
      more, and stops after `MaxSteps` steps, on NaN, or once a move is small. */
  function Iterate(img: Grid<Lab>, rows: nat, cols: nat, w: Window, hr: real, cur: Point5, steps: nat): (r: Run)
    requires IsGrid(img, rows, cols) && InImage(w, rows, cols) && steps < MaxSteps
    ensures steps < r.steps <= MaxSteps
    ensures r.cur.Some? && r.steps < MaxSteps ==> !Continue(r.cur.value, r.prev)
    ensures r.steps > steps + 1 ==>
      ShiftStep(img, rows, cols, w, cur, hr).Some? && Continue(ShiftStep(img, rows, cols, w, cur, hr).value, cur)
    decreases MaxSteps - steps
  {
    var next := ShiftStep(img, rows, cols, w, cur, hr);
    if next.Some? && Continue(next.value, cur) && steps + 1 < MaxSteps then
      Iterate(img, rows, cols, w, hr, next.value, steps + 1)
    else
      Run(next, cur, steps + 1)
  }

  /** The points the `do` body visits from `cur`, without the `while` test: `k` steps of the
      mean shift, NaN (`None`) once a step has no point to average. */
  function Path(img: Grid<Lab>, rows: nat, cols: nat, w: Window, hr: real, cur: Point5, k: nat): Option<Point5>
    requires IsGrid(img, rows, cols) && InImage(w, rows, cols)
    decreases k
  {
    if k == 0 then Some(cur)
    else match ShiftStep(img, rows, cols, w, cur, hr)
      case None => None
      case Some(next) => Path(img, rows, cols, w, hr, next, k - 1)
  }

  /** After step `k` of the path the loop's test held: both points are defined and the move
      exceeds both tolerances. */
  predicate WentOn(img: Grid<Lab>, rows: nat, cols: nat, w: Window, hr: real, cur: Point5, k: nat)
    requires IsGrid(img, rows, cols) && InImage(w, rows, cols) && k >= 1
  {
    Path(img, rows, cols, w, hr, cur, k).Some? && Path(img, rows, cols, w, hr, cur, k - 1).Some?
    && Continue(Path(img, rows, cols, w, hr, cur, k).value, Path(img, rows, cols, w, hr, cur, k - 1).value)
  }

  /** The loop runs along `Path`, and goes on after a step exactly when that step moved the
      point more than both tolerances and fewer than `MaxSteps` steps are done: every step
      after which it went on satisfied `Continue`, and the step it stopped at, before the cap,
      is NaN or fails `Continue`. */
  lemma {:induction false} IterateTrace(img: Grid<Lab>, rows: nat, cols: nat, w: Window, hr: real, cur: Point5, steps: nat)
    requires IsGrid(img, rows, cols) && InImage(w, rows, cols) && steps < MaxSteps
    ensures var r := Iterate(img, rows, cols, w, hr, cur, steps);
      var m := r.steps - steps;
      1 <= m && r.cur == Path(img, rows, cols, w, hr, cur, m) && Path(img, rows, cols, w, hr, cur, m - 1) == Some(r.prev)
      && (forall k | 1 <= k < m :: WentOn(img, rows, cols, w, hr, cur, k))
      && (r.steps < MaxSteps ==> r.cur.None? || !Continue(r.cur.value, r.prev))
    decreases MaxSteps - steps
  {
    var r := Iterate(img, rows, cols, w, hr, cur, steps);
    var next := ShiftStep(img, rows, cols, w, cur, hr);
    if next.Some? && Continue(next.value, cur) && steps + 1 < MaxSteps {
      var n := next.value;
      IterateTrace(img, rows, cols, w, hr, n, steps + 1);
      var m := r.steps - steps;
      forall k | 1 <= k <= m
        ensures Path(img, rows, cols, w, hr, cur, k) == Path(img, rows, cols, w, hr, n, k - 1)
      {
      }
      assert Path(img, rows, cols, w, hr, cur, 1) == Some(n);
      assert Path(img, rows, cols, w, hr, cur, 0) == Some(cur);
    } else {
      assert r == Run(next, cur, steps + 1);
      assert Path(img, rows, cols, w, hr, cur, 1) == next;
    }
  }

  /** Wherever the iteration ends, a defined point lies in the window of its pixel. */
  lemma {:induction false} IterateInWindow(img: Grid<Lab>, rows: nat, cols: nat, w: Window, hr: real, cur: Point5, steps: nat)
    requires IsGrid(img, rows, cols) && InImage(w, rows, cols) && steps < MaxSteps
    ensures var r := Iterate(img, rows, cols, w, hr, cur, steps);
      r.cur.Some? ==> InWindow(r.cur.value, w)
    decreases MaxSteps - steps
  {
    var next := ShiftStep(img, rows, cols, w, cur, hr);
    ShiftStepInWindow(img, rows, cols, w, cur, hr);
    if next.Some? && Continue(next.value, cur) && steps + 1 < MaxSteps {
      IterateInWindow(img, rows, cols, w, hr, next.value, steps + 1);
    }
  }

  /** What filtering does to pixel `(i, j)`, starting from its own point. */
  function Filtered(img: Grid<Lab>, rows: nat, cols: nat, hs: real, hr: real, i: nat, j: nat): Run
    requires IsGrid(img, rows, cols) && i < rows && j < cols
  {
    Iterate(img, rows, cols, FilterWindow(i, j, rows, cols, hs), hr, PointAt(img, i, j), 0)
  }

  /** The `do`-`while` loop for one pixel. */
  method FilterPixel(img: Grid<Lab>, rows: nat, cols: nat, hs: real, hr: real, i: nat, j: nat) returns (run: Run)
    requires IsGrid(img, rows, cols) && i < rows && j < cols
    ensures run == Filtered(img, rows, cols, hs, hr, i, j)
    ensures 1 <= run.steps <= MaxSteps
  {
    var w := FilterWindow(i, j, rows, cols, hs);
    var cur := PointAt(img, i, j);
    var step := 0;
    while true
      invariant step < MaxSteps
      invariant Iterate(img, rows, cols, w, hr, cur, step) == Filtered(img, rows, cols, hs, hr, i, j)
      decreases MaxSteps - step
    {
      var prev := cur;
      var next := ShiftStep(img, rows, cols, w, cur, hr);
      step := step + 1;
      if next.None? || !Continue(next.value, prev) || step >= MaxSteps {
        return Run(next, prev, step);
      }
      cur := next.value;
    }
  }

  /** The colour written back: `cv::Vec3f(PtCur.l, PtCur.a, PtCur.b)`, NaN staying NaN. */
  function LabOf(p: Option<Point5>): Option<Lab>
  {
    if p.None? then None else Some(Lab(p.value.l, p.value.a, p.value.b))
  }

  /** `MeanShiftFilteringCIELab`: every pixel is filtered from the original channels (they
      are split off before the loop), and its colour replaced by where its point ended. */
  method MeanShiftFilteringCIELab(img: Grid<Lab>, rows: nat, cols: nat, hs: real, hr: real)
    returns (out: Grid<Option<Lab>>)
    requires IsGrid(img, rows, cols)
    ensures IsGrid(out, rows, cols)
    ensures forall i, j | 0 <= i < rows && 0 <= j < cols ::
      out[i][j] == LabOf(Filtered(img, rows, cols, hs, hr, i, j).cur)
  {
    out := [];
    var i := 0;
    while i < rows
      invariant 0 <= i <= rows && |out| == i
      invariant forall y | 0 <= y < i :: FilteredRow(img, rows, cols, hs, hr, y, out[y])
    {
      var line := FilterRow(img, rows, cols, hs, hr, i);
      out := out + [line];
      i := i + 1;
    }
  }

  /** Row `i` of the filtered image. */
  ghost predicate FilteredRow(img: Grid<Lab>, rows: nat, cols: nat, hs: real, hr: real, i: nat, line: seq<Option<Lab>>)
    requires IsGrid(img, rows, cols) && i < rows
  {
    |line| == cols && forall x | 0 <= x < cols :: line[x] == LabOf(Filtered(img, rows, cols, hs, hr, i, x).cur)
  }

  /** The inner loop of `MeanShiftFilteringCIELab`: the pixels of row `i`, left to right. */
  method FilterRow(img: Grid<Lab>, rows: nat, cols: nat, hs: real, hr: real, i: nat) returns (line: seq<Option<Lab>>)
    requires IsGrid(img, rows, cols) && i < rows
    ensures FilteredRow(img, rows, cols, hs, hr, i, line)
  {
    line := [];
    var j := 0;
    while j < cols
      invariant 0 <= j <= cols && |line| == j
      invariant forall x | 0 <= x < j :: line[x] == LabOf(Filtered(img, rows, cols, hs, hr, i, x).cur)
    {
      var run := FilterPixel(img, rows, cols, hs, hr, i, j);
      line := line + [LabOf(run.cur)];
      j := j + 1;
    }
  }

  /** The filter performs between one and five steps per pixel, goes on after a step only when
      that move exceeded both tolerances, stops before the fifth only on NaN or when the last
      move is small in colour or in space, and a defined result lies in the pixel's window. */
  lemma FilteredPixel(img: Grid<Lab>, rows: nat, cols: nat, hs: real, hr: real, i: nat, j: nat)
    requires IsGrid(img, rows, cols) && i < rows && j < cols
    ensures var r := Filtered(img, rows, cols, hs, hr, i, j);
      1 <= r.steps <= MaxSteps
      && (r.cur.Some? && r.steps < MaxSteps ==> !Continue(r.cur.value, r.prev))
      && (r.cur.Some? ==> InWindow(r.cur.value, FilterWindow(i, j, rows, cols, hs)))
    ensures var r := Filtered(img, rows, cols, hs, hr, i, j);
      forall k | 1 <= k < r.steps :: WentOn(img, rows, cols, FilterWindow(i, j, rows, cols, hs), hr, PointAt(img, i, j), k)
  {
    IterateInWindow(img, rows, cols, FilterWindow(i, j, rows, cols, hs), hr, PointAt(img, i, j), 0);
    IterateTrace(img, rows, cols, FilterWindow(i, j, rows, cols, hs), hr, PointAt(img, i, j), 0);
  }

  /** With a colour bandwidth `hr <= 0` no point is ever within it, so every pixel becomes NaN
      after one step. */
  lemma NonPositiveBandwidth(img: Grid<Lab>, rows: nat, cols: nat, hs: real, hr: real, i: nat, j: nat)
    requires IsGrid(img, rows, cols) && i < rows && j < cols && hr <= 0.0
    ensures Filtered(img, rows, cols, hs, hr, i, j) == Run(None, PointAt(img, i, j), 1)
  {
    var w := FilterWindow(i, j, rows, cols, hs);
    NothingAccepted(img, rows, cols, w, PointAt(img, i, j), hr, w.bottom);
  }

  lemma {:induction false} NothingAccepted(img: Grid<Lab>, rows: nat, cols: nat, w: Window, cur: Point5, hr: real, hx: int)
    requires IsGrid(img, rows, cols) && InImage(w, rows, cols) && hx <= w.bottom && hr <= 0.0
    ensures WinSum(img, rows, cols, w, cur, hr, hx).n == 0
    decreases hx - w.top
  {
    if hx > w.top {
      NothingAccepted(img, rows, cols, w, cur, hr, hx - 1);
      NoneInRow(img, rows, cols, w, cur, hr, hx - 1, w.right);
    }
  }

  lemma {:induction false} NoneInRow(img: Grid<Lab>, rows: nat, cols: nat, w: Window, cur: Point5, hr: real, hx: int, hy: int)
    requires IsGrid(img, rows, cols) && InImage(w, rows, cols) && w.top <= hx < w.bottom && hy <= w.right && hr <= 0.0
    ensures RowSum(img, rows, cols, w, cur, hr, hx, hy).n == 0
    decreases hy - w.left
  {
    if hy > w.left {
      NoneInRow(img, rows, cols, w, cur, hr, hx, hy - 1);
    }
  }
}

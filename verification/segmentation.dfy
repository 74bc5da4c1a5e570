/**
  Mean-shift segmentation of `dominant-colors.cpp`: a raster scan that starts a new region at
  every pixel not yet labelled and grows it with a stack over the eight neighbours, taking every
  unlabelled neighbour whose colour lies within `hr` of the seed's. Each region is painted with
  the mean colour of its pixels.

  The model proves what the stack algorithm computes: a region is an 8-connected chain of
  pixels starting at its seed, every pixel of it was unlabelled and close to the seed, and every
  unlabelled pixel close to the seed and next to the region is in it; the regions partition the
  image, and each is painted with its mean colour.
 */
module Segmentation {
  import opened Numeric
  import opened Grids
  import opened MeanShift

  /** A pixel position: `x` is the row and `y` the column, as in `Point5D`. */
  datatype Cell = Cell(x: int, y: int)

  predicate InGrid(c: Cell, rows: nat, cols: nat)
  {
    0 <= c.x < rows && 0 <= c.y < cols
  }

  predicate InBounds<T>(g: Grid<T>, c: Cell)
  {
    0 <= c.x < |g| && 0 <= c.y < |g[c.x]|
  }

  function At<T>(g: Grid<T>, c: Cell): T
    requires InBounds(g, c)
  {
    g[c.x][c.y]
  }

  /** `dxdy`: the eight neighbour offsets, in the order the region growing tries them. */
  const Offsets: seq<Cell> :=
    [Cell(-1, -1), Cell(-1, 0), Cell(-1, 1), Cell(0, -1), Cell(0, 1), Cell(1, -1), Cell(1, 0), Cell(1, 1)]

  function Shift(c: Cell, o: Cell): Cell
  {
    Cell(c.x + o.x, c.y + o.y)
  }

  /** 8-connectivity: two distinct cells at most one row and one column apart. */
  predicate Adjacent(c: Cell, d: Cell)
  {
    c != d && -1 <= d.x - c.x <= 1 && -1 <= d.y - c.y <= 1
  }

  /** The position in `Offsets` of the step from `c` to its neighbour `d`. */
  function NeighbourIndex(c: Cell, d: Cell): (o: nat)
    requires Adjacent(c, d)
    ensures o < 8 && Shift(c, Offsets[o]) == d
  {
    var k := (d.x - c.x + 1) * 3 + (d.y - c.y + 1);
    if k < 4 then k else k - 1
  }

  /** Every offset leads to a neighbour, and every neighbour is reached by one of them. */
  lemma OffsetsAreNeighbours(c: Cell, d: Cell)
    ensures Adjacent(c, d) <==> exists o :: 0 <= o < 8 && d == Shift(c, Offsets[o])
  {
    if Adjacent(c, d) {
      var o := NeighbourIndex(c, d);
    }
    if exists o :: 0 <= o < 8 && d == Shift(c, Offsets[o]) {
      var o :| 0 <= o < 8 && d == Shift(c, Offsets[o]);
      OffsetAdjacent(c, o);
    }
  }

  lemma OffsetAdjacent(c: Cell, o: nat)
    requires o < 8
    ensures Adjacent(c, Shift(c, Offsets[o]))
  {
  }

  /** Raster order: earlier row, or same row and earlier column. */
  predicate Before(c: Cell, d: Cell)
  {
    c.x < d.x || (c.x == d.x && c.y < d.y)
  }

  /** The image, its size and the colour bandwidth `hr`. */
  datatype Ctx = Ctx(img: Grid<Lab>, rows: nat, cols: nat, hr: real)

  predicate ValidCtx(x: Ctx)
  {
    IsGrid(x.img, x.rows, x.cols)
  }

  /** `PtCur.MSPoint5DColorDistance(P) < hr`: the colour of `d` lies within `hr` of the seed's. */
  predicate CloseTo(x: Ctx, seed: Cell, d: Cell)
    requires InBounds(x.img, seed) && InBounds(x.img, d)
  {
    RootBelow(LabDist2(At(x.img, seed), At(x.img, d)), x.hr)
  }

  /** `Labels[c.x][c.y] = v`. */
  function Mark(g: Grid<int>, c: Cell, v: int): (r: Grid<int>)
    requires InBounds(g, c)
    ensures |r| == |g| && forall i | 0 <= i < |g| :: |r[i]| == |g[i]|
    ensures forall d: Cell | InBounds(g, d) :: At(r, d) == if d == c then v else At(g, d)
  {
    g[c.x := g[c.x][c.y := v]]
  }

  /** The number of unlabelled (negative) entries. */
  function RowUnlabeled(s: seq<int>): nat
  {
    if |s| == 0 then 0 else (if s[0] < 0 then 1 else 0) + RowUnlabeled(s[1..])
  }

  function Unlabeled(g: Grid<int>): nat
  {
    if |g| == 0 then 0 else RowUnlabeled(g[0]) + Unlabeled(g[1..])
  }

  lemma {:induction false} RowUnlabeledUpdate(s: seq<int>, y: nat, v: int)
    requires y < |s| && s[y] < 0 && v >= 0
    ensures RowUnlabeled(s[y := v]) + 1 == RowUnlabeled(s)
  {
    if y == 0 {
      assert s[y := v][1..] == s[1..];
    } else {
      assert s[y := v][1..] == s[1..][y - 1 := v];
      RowUnlabeledUpdate(s[1..], y - 1, v);
    }
  }

  lemma {:induction false} GridUnlabeledUpdate(g: Grid<int>, x: nat, row: seq<int>)
    requires x < |g| && RowUnlabeled(row) + 1 == RowUnlabeled(g[x])
    ensures Unlabeled(g[x := row]) + 1 == Unlabeled(g)
  {
    if x == 0 {
      assert g[x := row][1..] == g[1..];
    } else {
      assert g[x := row][1..] == g[1..][x - 1 := row];
      GridUnlabeledUpdate(g[1..], x - 1, row);
    }
  }

  /** Labelling one unlabelled pixel leaves one fewer. */
  lemma UnlabeledMark(g: Grid<int>, c: Cell, v: int)
    requires InBounds(g, c) && At(g, c) < 0 && v >= 0
    ensures Unlabeled(Mark(g, c, v)) + 1 == Unlabeled(g)
  {
    RowUnlabeledUpdate(g[c.x], c.y, v);
    GridUnlabeledUpdate(g, c.x, g[c.x][c.y := v]);
  }

  function AddLab(p: Lab, q: Lab): Lab
  {
    Lab(p.l + q.l, p.a + q.a, p.b + q.b)
  }

  ghost predicate AllInBounds<T>(g: Grid<T>, cells: seq<Cell>)
  {
    forall k | 0 <= k < |cells| :: InBounds(g, cells[k])
  }

  /** The channel sums of the colours of `cells`, the running `Mode` totals. */
  function SumColours(img: Grid<Lab>, cells: seq<Cell>): Lab
    requires AllInBounds(img, cells)
  {
    if |cells| == 0 then Lab(0.0, 0.0, 0.0)
    else AddLab(SumColours(img, cells[..|cells| - 1]), At(img, cells[|cells| - 1]))
  }

  /** The mean colour of a non-empty list of pixels. */
  function MeanColour(img: Grid<Lab>, cells: seq<Cell>): Lab
    requires AllInBounds(img, cells) && |cells| > 0
  {
    var s := SumColours(img, cells);
    var n := |cells| as real;
    Lab(s.l / n, s.a / n, s.b / n)
  }

  /** A region whose pixels all have one colour has that colour as its mean. */
  lemma {:induction false} UniformMean(img: Grid<Lab>, cells: seq<Cell>, v: Lab)
    requires AllInBounds(img, cells) && |cells| > 0
    requires forall k | 0 <= k < |cells| :: At(img, cells[k]) == v
    ensures MeanColour(img, cells) == v
  {
    UniformSum(img, cells, v);
    var n := |cells| as real;
    var s := SumColours(img, cells);
    DivUnique(s.l, n, v.l);
    DivUnique(s.a, n, v.a);
    DivUnique(s.b, n, v.b);
  }

  lemma {:induction false} UniformSum(img: Grid<Lab>, cells: seq<Cell>, v: Lab)
    requires AllInBounds(img, cells)
    requires forall k | 0 <= k < |cells| :: At(img, cells[k]) == v
    ensures var s := SumColours(img, cells); var n := |cells| as real;
      s.l == v.l * n && s.a == v.a * n && s.b == v.b * n
  {
    if |cells| > 0 {
      UniformSum(img, cells[..|cells| - 1], v);
    }
  }

  predicate Distinct<T(==)>(s: seq<T>)
  {
    forall i, j | 0 <= i < j < |s| :: s[i] != s[j]
  }

  /** Every cell after the first is next to an earlier one: the order in which the stack
      reaches them. */
  ghost predicate Chained(s: seq<Cell>)
  {
    forall k | 0 < k < |s| :: exists m :: 0 <= m < k && Adjacent(s[m], s[k])
  }

  /** What the region growing needs before it starts: the seed is unlabelled and every label
      already given is smaller than the new one. */
  ghost predicate Setup(x: Ctx, labels0: Grid<int>, seed: Cell, tag: int)
  {
    ValidCtx(x) && IsGrid(labels0, x.rows, x.cols) && InGrid(seed, x.rows, x.cols) && tag >= 0
    && At(labels0, seed) < 0
    && forall c | InGrid(c, x.rows, x.cols) :: At(labels0, c) < tag
  }

  /** The region `members` grown from `seed` so far: it starts at the seed, it is a chain of
      distinct pixels that were unlabelled and whose colour is close to the seed's, and exactly
      its pixels have changed, to `tag`. */
  ghost predicate Grown(x: Ctx, labels0: Grid<int>, labels: Grid<int>, seed: Cell, tag: int, members: seq<Cell>)
    requires Setup(x, labels0, seed, tag)
  {
    IsGrid(labels, x.rows, x.cols)
    && |members| > 0 && members[0] == seed
    && (forall k | 0 <= k < |members| :: InGrid(members[k], x.rows, x.cols) && At(labels0, members[k]) < 0)
    && (forall k | 0 < k < |members| :: CloseTo(x, seed, members[k]))
    && Chained(members)
    && Distinct(members)
    && (forall c | InGrid(c, x.rows, x.cols) :: At(labels, c) == if c in members then tag else At(labels0, c))
  }

  /** The region is closed: every unlabelled pixel next to it and close to the seed is in it. */
  ghost predicate Closed(x: Ctx, labels0: Grid<int>, seed: Cell, members: seq<Cell>)
    requires ValidCtx(x) && IsGrid(labels0, x.rows, x.cols) && InGrid(seed, x.rows, x.cols)
  {
    forall k, d | 0 <= k < |members| && InGrid(d, x.rows, x.cols) && Adjacent(members[k], d) ::
      At(labels0, d) < 0 && CloseTo(x, seed, d) ==> d in members
  }

  /** The first `n` neighbours of `c` are labelled or too far in colour from the seed. */
  ghost predicate ExpandedUpTo(x: Ctx, labels: Grid<int>, seed: Cell, c: Cell, n: nat)
    requires ValidCtx(x) && IsGrid(labels, x.rows, x.cols) && InGrid(seed, x.rows, x.cols) && n <= 8
  {
    forall o | 0 <= o < n :: var d := Shift(c, Offsets[o]);
      InGrid(d, x.rows, x.cols) ==> At(labels, d) >= 0 || !CloseTo(x, seed, d)
  }

  /** Labelling more pixels keeps a pixel expanded. */
  lemma ExpandedKept(x: Ctx, labels: Grid<int>, labels': Grid<int>, seed: Cell, c: Cell, n: nat)
    requires ValidCtx(x) && IsGrid(labels, x.rows, x.cols) && IsGrid(labels', x.rows, x.cols)
    requires InGrid(seed, x.rows, x.cols) && n <= 8
    requires forall d | InGrid(d, x.rows, x.cols) :: At(labels, d) >= 0 ==> At(labels', d) >= 0
    requires ExpandedUpTo(x, labels, seed, c, n)
    ensures ExpandedUpTo(x, labels', seed, c, n)
  {
  }

  /** Pushing an unlabelled neighbour of the region that is close to the seed grows it. */
  lemma PushKeeps(x: Ctx, labels0: Grid<int>, labels: Grid<int>, seed: Cell, tag: int, members: seq<Cell>, pt: Cell, d: Cell)
    requires Setup(x, labels0, seed, tag) && Grown(x, labels0, labels, seed, tag, members)
    requires pt in members && InGrid(d, x.rows, x.cols) && Adjacent(pt, d)
    requires At(labels, d) < 0 && CloseTo(x, seed, d)
    ensures Grown(x, labels0, Mark(labels, d, tag), seed, tag, members + [d])
  {
    var m' := members + [d];
    var labels' := Mark(labels, d, tag);
    assert d !in members;
    PushChained(members, pt, d);
    PushDistinct(members, d);
    forall k | 0 <= k < |m'|
      ensures InGrid(m'[k], x.rows, x.cols) && At(labels0, m'[k]) < 0
    {
      if k == |members| {
        assert At(labels0, d) < 0;
      }
    }
    forall c | InGrid(c, x.rows, x.cols)
      ensures At(labels', c) == if c in m' then tag else At(labels0, c)
    {
      assert c in m' <==> c in members || c == d;
    }
  }

  /** A cell next to a member extends the chain. */
  lemma PushChained(members: seq<Cell>, pt: Cell, d: Cell)
    requires Chained(members) && pt in members && Adjacent(pt, d)
    ensures Chained(members + [d])
  {
    var m' := members + [d];
    var i :| 0 <= i < |members| && members[i] == pt;
    assert Adjacent(m'[i], m'[|members|]);
    forall k | 0 < k < |m'|
      ensures exists m :: 0 <= m < k && Adjacent(m'[m], m'[k])
    {
      if k < |members| {
        var m :| 0 <= m < k && Adjacent(members[m], members[k]);
        assert Adjacent(m'[m], m'[k]);
      }
    }
  }

  /** A new cell keeps the members distinct. */
  lemma PushDistinct(members: seq<Cell>, d: Cell)
    requires Distinct(members) && d !in members
    ensures Distinct(members + [d])
  {
  }

  /** The state of the `for (k < 8)` loop on `pt` after `o` neighbours. */
  ghost predicate Expanding(x: Ctx, labels0: Grid<int>, seed: Cell, tag: int, labelsIn: Grid<int>, membersIn: seq<Cell>,
                            pt: Cell, labels: Grid<int>, added: seq<Cell>, sum: Lab, o: nat)
    requires Setup(x, labels0, seed, tag) && IsGrid(labelsIn, x.rows, x.cols)
  {
    o <= 8 && Grown(x, labels0, labels, seed, tag, membersIn + added)
    && Unlabeled(labels) + |added| == Unlabeled(labelsIn)
    && ExpandedUpTo(x, labels, seed, pt, o)
    && (forall c | InGrid(c, x.rows, x.cols) :: At(labelsIn, c) >= 0 ==> At(labels, c) >= 0)
    && sum == SumColours(x.img, membersIn + added)
  }

  /** The neighbour `d` is labelled and pushed. */
  lemma PushStep(x: Ctx, labels0: Grid<int>, seed: Cell, tag: int, labelsIn: Grid<int>, membersIn: seq<Cell>,
                 pt: Cell, labels: Grid<int>, added: seq<Cell>, sum: Lab, o: nat, d: Cell)
    requires Setup(x, labels0, seed, tag) && IsGrid(labelsIn, x.rows, x.cols)
    requires Expanding(x, labels0, seed, tag, labelsIn, membersIn, pt, labels, added, sum, o)
    requires o < 8 && pt in membersIn && d == Shift(pt, Offsets[o])
    requires InGrid(d, x.rows, x.cols) && At(labels, d) < 0 && CloseTo(x, seed, d)
    ensures Expanding(x, labels0, seed, tag, labelsIn, membersIn, pt, Mark(labels, d, tag), added + [d],
                      AddLab(sum, At(x.img, d)), o + 1)
  {
    var m := membersIn + added;
    OffsetAdjacent(pt, o);
    PushKeeps(x, labels0, labels, seed, tag, m, pt, d);
    UnlabeledMark(labels, d, tag);
    var labels' := Mark(labels, d, tag);
    ExpandedKept(x, labels, labels', seed, pt, o);
    assert m + [d] == membersIn + (added + [d]);
    assert (m + [d])[..|m|] == m;
  }

  /** The neighbour `d` is outside the image, labelled, or too far in colour. */
  lemma SkipStep(x: Ctx, labels0: Grid<int>, seed: Cell, tag: int, labelsIn: Grid<int>, membersIn: seq<Cell>,
                 pt: Cell, labels: Grid<int>, added: seq<Cell>, sum: Lab, o: nat, d: Cell)
    requires Setup(x, labels0, seed, tag) && IsGrid(labelsIn, x.rows, x.cols)
    requires Expanding(x, labels0, seed, tag, labelsIn, membersIn, pt, labels, added, sum, o)
    requires o < 8 && d == Shift(pt, Offsets[o])
    requires !(InGrid(d, x.rows, x.cols) && At(labels, d) < 0 && CloseTo(x, seed, d))
    ensures Expanding(x, labels0, seed, tag, labelsIn, membersIn, pt, labels, added, sum, o + 1)
  {
  }

  /** One pass of the `for (k < 8)` loop on the popped pixel `pt`: the neighbours it labels and
      pushes (`added`), with the sum of the region's colours kept up to date. */
  method ExpandCell(x: Ctx, labels0: Grid<int>, seed: Cell, tag: int, labelsIn: Grid<int>, membersIn: seq<Cell>, sumIn: Lab, pt: Cell)
    returns (labels: Grid<int>, added: seq<Cell>, sum: Lab)
    requires Setup(x, labels0, seed, tag) && Grown(x, labels0, labelsIn, seed, tag, membersIn)
    requires pt in membersIn
    requires sumIn == SumColours(x.img, membersIn)
    ensures Grown(x, labels0, labels, seed, tag, membersIn + added)
    ensures Unlabeled(labels) + |added| == Unlabeled(labelsIn)
    ensures ExpandedUpTo(x, labels, seed, pt, 8)
    ensures forall c | InGrid(c, x.rows, x.cols) :: At(labelsIn, c) >= 0 ==> At(labels, c) >= 0
    ensures sum == SumColours(x.img, membersIn + added)
  {
    labels, added, sum := labelsIn, [], sumIn;
    assert membersIn + added == membersIn;
    var o := 0;
    while o < 8
      invariant Expanding(x, labels0, seed, tag, labelsIn, membersIn, pt, labels, added, sum, o)
    {
      var d := Shift(pt, Offsets[o]);
      if 0 <= d.x < x.rows && 0 <= d.y < x.cols && labels[d.x][d.y] < 0 && CloseTo(x, seed, d) {
        PushStep(x, labels0, seed, tag, labelsIn, membersIn, pt, labels, added, sum, o, d);
        labels, added, sum := Mark(labels, d, tag), added + [d], AddLab(sum, At(x.img, d));
      } else {
        SkipStep(x, labels0, seed, tag, labelsIn, membersIn, pt, labels, added, sum, o, d);
      }
      o := o + 1;
    }
  }

  /** The `while (!NeighbourPoints.empty())` loop for one seed: the region's pixels in the
      order they were pushed, how many there are (`MemberModeCount`) and the sum of their
      colours (`Mode` before the division). */
  method GrowRegion(x: Ctx, labels0: Grid<int>, seed: Cell, tag: int)
    returns (labels: Grid<int>, members: seq<Cell>, count: nat, sum: Lab)
    requires Setup(x, labels0, seed, tag)
    ensures Grown(x, labels0, labels, seed, tag, members)
    ensures Closed(x, labels0, seed, members)
    ensures count == |members|
    ensures sum == SumColours(x.img, members)
  {
    labels := Mark(labels0, seed, tag);
    members := [seed];
    sum := At(x.img, seed);
    count := 0;
    var stack := [seed];
    while |stack| > 0
      invariant Growing(x, labels0, seed, tag, labels, members, stack, count, sum)
      decreases Unlabeled(labels), |stack|
    {
      var pt := stack[|stack| - 1];
      var rest := stack[..|stack| - 1];
      var labels', added, sum' := ExpandCell(x, labels0, seed, tag, labels, members, sum, pt);
      StackStep(x, labels0, seed, tag, labels, members, stack, count, sum, labels', added, sum');
      labels, members, stack, count, sum := labels', members + added, rest + added, count + |added|, sum';
    }
    count := count + 1;
    RegionClosed(x, labels0, labels, seed, tag, members);
  }

  /** The state of the stack loop: the region grown so far, `count` one below its size, the
      running colour sum, a stack of members, and every member off the stack expanded. */
  ghost predicate Growing(x: Ctx, labels0: Grid<int>, seed: Cell, tag: int,
                          labels: Grid<int>, members: seq<Cell>, stack: seq<Cell>, count: int, sum: Lab)
    requires Setup(x, labels0, seed, tag)
  {
    Grown(x, labels0, labels, seed, tag, members)
    && count + 1 == |members|
    && sum == SumColours(x.img, members)
    && (forall c | c in stack :: c in members)
    && (forall k | 0 <= k < |members| :: members[k] in stack || ExpandedUpTo(x, labels, seed, members[k], 8))
  }

  /** One pass of the stack loop: popping `pt` and expanding it keeps the loop state. */
  lemma StackStep(x: Ctx, labels0: Grid<int>, seed: Cell, tag: int,
                  labels: Grid<int>, members: seq<Cell>, stack: seq<Cell>, count: int, sum: Lab,
                  labels': Grid<int>, added: seq<Cell>, sum': Lab)
    requires Setup(x, labels0, seed, tag) && |stack| > 0
    requires Growing(x, labels0, seed, tag, labels, members, stack, count, sum)
    requires Grown(x, labels0, labels', seed, tag, members + added)
    requires ExpandedUpTo(x, labels', seed, stack[|stack| - 1], 8)
    requires forall c | InGrid(c, x.rows, x.cols) :: At(labels, c) >= 0 ==> At(labels', c) >= 0
    requires sum' == SumColours(x.img, members + added)
    ensures Growing(x, labels0, seed, tag, labels', members + added, stack[..|stack| - 1] + added, count + |added|, sum')
  {
    var pt := stack[|stack| - 1];
    var rest := stack[..|stack| - 1];
    assert stack == rest + [pt];
    var m' := members + added;
    forall k | 0 <= k < |members| && members[k] !in rest + added
      ensures ExpandedUpTo(x, labels', seed, members[k], 8)
    {
      if members[k] != pt {
        ExpandedKept(x, labels, labels', seed, members[k], 8);
      }
    }
    forall k | 0 <= k < |m'|
      ensures m'[k] in rest + added || ExpandedUpTo(x, labels', seed, m'[k], 8)
    {
      if k >= |members| {
        assert m'[k] == added[k - |members|];
      } else {
        assert m'[k] == members[k];
      }
    }
  }

  /** Once every pixel of the region is expanded, the region is closed. */
  lemma RegionClosed(x: Ctx, labels0: Grid<int>, labels: Grid<int>, seed: Cell, tag: int, members: seq<Cell>)
    requires Setup(x, labels0, seed, tag) && Grown(x, labels0, labels, seed, tag, members)
    requires forall k | 0 <= k < |members| :: ExpandedUpTo(x, labels, seed, members[k], 8)
    ensures Closed(x, labels0, seed, members)
  {
    forall k, d | 0 <= k < |members| && InGrid(d, x.rows, x.cols) && Adjacent(members[k], d)
      ensures At(labels0, d) < 0 && CloseTo(x, seed, d) ==> d in members
    {
      var o := NeighbourIndex(members[k], d);
      assert ExpandedUpTo(x, labels, seed, members[k], 8);
    }
  }

  /** A region as recorded: a non-empty chain of distinct pixels of the image, starting at its
      seed, every later pixel close in colour to the seed. */
  ghost predicate RegionShape(x: Ctx, r: seq<Cell>)
    requires ValidCtx(x)
  {
    |r| > 0 && (forall m | 0 <= m < |r| :: InGrid(r[m], x.rows, x.cols))
    && (forall m | 0 < m < |r| :: CloseTo(x, r[0], r[m]))
    && Chained(r) && Distinct(r)
  }

  /** The labels, regions (`Labels`, by region) and modes (`Mode`) after some seeds:
      - every region has its shape and its mean colour as mode;
      - labels are `-1` or a region number, and a labelled pixel is in its region;
      - every pixel of region `k` is labelled `k`;
      - a pixel next to region `k` and close in colour to its seed is labelled `k` or less;
      - every pixel before the seed of region `k` in raster order is labelled less than `k`. */
  ghost predicate Segmented(x: Ctx, labels: Grid<int>, regions: seq<seq<Cell>>, modes: seq<Lab>)
    requires ValidCtx(x)
  {
    IsGrid(labels, x.rows, x.cols) && |modes| == |regions|
    && (forall k | 0 <= k < |regions| :: RegionShape(x, regions[k])) && Moded(x, regions, modes)
    && (forall c | InGrid(c, x.rows, x.cols) :: -1 <= At(labels, c) < |regions|)
    && (forall c | InGrid(c, x.rows, x.cols) && At(labels, c) >= 0 :: c in regions[At(labels, c)])
    && (forall k, m | 0 <= k < |regions| && 0 <= m < |regions[k]| :: At(labels, regions[k][m]) == k)
    && (forall k, m, d | 0 <= k < |regions| && 0 <= m < |regions[k]| && InGrid(d, x.rows, x.cols)
          && Adjacent(regions[k][m], d) && CloseTo(x, regions[k][0], d) :: 0 <= At(labels, d) <= k)
    && (forall k, c | 0 <= k < |regions| && InGrid(c, x.rows, x.cols) && Before(c, regions[k][0]) ::
          0 <= At(labels, c) < k)
  }

  /** The hypotheses under which a grown region is added. */
  ghost predicate Adding(x: Ctx, labels: Grid<int>, regions: seq<seq<Cell>>, modes: seq<Lab>,
                         labels': Grid<int>, seed: Cell, members: seq<Cell>)
  {
    ValidCtx(x) && Segmented(x, labels, regions, modes)
    && Setup(x, labels, seed, |regions|)
    && (forall c | InGrid(c, x.rows, x.cols) && Before(c, seed) :: At(labels, c) >= 0)
    && Grown(x, labels, labels', seed, |regions|, members)
    && Closed(x, labels, seed, members)
  }

  /** Starting a region at an unlabelled pixel meets the needs of the region growing. */
  lemma SetupFrom(x: Ctx, labels: Grid<int>, regions: seq<seq<Cell>>, modes: seq<Lab>, seed: Cell)
    requires ValidCtx(x) && Segmented(x, labels, regions, modes)
    requires InGrid(seed, x.rows, x.cols) && At(labels, seed) < 0
    ensures Setup(x, labels, seed, |regions|)
  {
  }

  lemma AddShape(x: Ctx, labels: Grid<int>, regions: seq<seq<Cell>>, modes: seq<Lab>,
                 labels': Grid<int>, seed: Cell, members: seq<Cell>)
    requires Adding(x, labels, regions, modes, labels', seed, members)
    ensures forall k | 0 <= k < |regions| + 1 :: RegionShape(x, (regions + [members])[k])
    ensures Moded(x, regions + [members], modes + [MeanColour(x.img, members)])
  {
    assert RegionShape(x, members);
    var regions', modes' := regions + [members], modes + [MeanColour(x.img, members)];
    forall k | 0 <= k < |regions'|
      ensures |regions'[k]| > 0 && AllInBounds(x.img, regions'[k]) && modes'[k] == MeanColour(x.img, regions'[k])
    {
      if k < |regions| {
        assert regions'[k] == regions[k] && modes'[k] == modes[k];
      }
    }
  }

  lemma AddLabels(x: Ctx, labels: Grid<int>, regions: seq<seq<Cell>>, modes: seq<Lab>,
                  labels': Grid<int>, seed: Cell, members: seq<Cell>)
    requires Adding(x, labels, regions, modes, labels', seed, members)
    ensures forall c | InGrid(c, x.rows, x.cols) :: -1 <= At(labels', c) < |regions| + 1
    ensures forall c | InGrid(c, x.rows, x.cols) && At(labels', c) >= 0 :: c in (regions + [members])[At(labels', c)]
    ensures forall c | InGrid(c, x.rows, x.cols) && At(labels, c) >= 0 :: At(labels', c) == At(labels, c)
  {
    var r' := regions + [members];
    forall c | InGrid(c, x.rows, x.cols) && At(labels', c) >= 0
      ensures c in r'[At(labels', c)]
    {
      if c !in members {
        assert At(labels', c) == At(labels, c);
      }
    }
  }

  lemma AddMembers(x: Ctx, labels: Grid<int>, regions: seq<seq<Cell>>, modes: seq<Lab>,
                   labels': Grid<int>, seed: Cell, members: seq<Cell>)
    requires Adding(x, labels, regions, modes, labels', seed, members)
    ensures forall k, m | 0 <= k < |regions| + 1 && 0 <= m < |(regions + [members])[k]| ::
      At(labels', (regions + [members])[k][m]) == k
  {
    AddLabels(x, labels, regions, modes, labels', seed, members);
    var r' := regions + [members];
    forall k, m | 0 <= k < |r'| && 0 <= m < |r'[k]|
      ensures At(labels', r'[k][m]) == k
    {
      if k < |regions| {
        assert InGrid(regions[k][m], x.rows, x.cols);
        assert At(labels, regions[k][m]) == k;
      } else {
        assert members[m] in members;
      }
    }
  }

  lemma AddClosure(x: Ctx, labels: Grid<int>, regions: seq<seq<Cell>>, modes: seq<Lab>,
                   labels': Grid<int>, seed: Cell, members: seq<Cell>)
    requires Adding(x, labels, regions, modes, labels', seed, members)
    ensures forall k, m, d | 0 <= k < |regions| + 1 && 0 <= m < |(regions + [members])[k]| && InGrid(d, x.rows, x.cols)
          && Adjacent((regions + [members])[k][m], d) && CloseTo(x, (regions + [members])[k][0], d) ::
          0 <= At(labels', d) <= k
  {
    AddLabels(x, labels, regions, modes, labels', seed, members);
    var r' := regions + [members];
    forall k, m, d | 0 <= k < |r'| && 0 <= m < |r'[k]| && InGrid(d, x.rows, x.cols)
          && Adjacent(r'[k][m], d) && CloseTo(x, r'[k][0], d)
      ensures 0 <= At(labels', d) <= k
    {
      if k < |regions| {
        assert InGrid(regions[k][m], x.rows, x.cols);
        assert 0 <= At(labels, d) <= k;
      } else if At(labels, d) < 0 {
        assert d in members;
      }
    }
  }

  lemma AddSeeds(x: Ctx, labels: Grid<int>, regions: seq<seq<Cell>>, modes: seq<Lab>,
                 labels': Grid<int>, seed: Cell, members: seq<Cell>)
    requires Adding(x, labels, regions, modes, labels', seed, members)
    ensures forall k, c | 0 <= k < |regions| + 1 && InGrid(c, x.rows, x.cols) && Before(c, (regions + [members])[k][0]) ::
          0 <= At(labels', c) < k
  {
    AddLabels(x, labels, regions, modes, labels', seed, members);
  }

  /** Adding the region grown from the next unlabelled pixel keeps the segmentation, and
      changes no label already given. */
  lemma AddRegion(x: Ctx, labels: Grid<int>, regions: seq<seq<Cell>>, modes: seq<Lab>,
                  labels': Grid<int>, seed: Cell, members: seq<Cell>)
    requires Adding(x, labels, regions, modes, labels', seed, members)
    ensures Segmented(x, labels', regions + [members], modes + [MeanColour(x.img, members)])
    ensures forall c | InGrid(c, x.rows, x.cols) && At(labels, c) >= 0 :: At(labels', c) == At(labels, c)
    ensures At(labels', seed) == |regions|
  {
    AddShape(x, labels, regions, modes, labels', seed, members);
    AddLabels(x, labels, regions, modes, labels', seed, members);
    AddMembers(x, labels, regions, modes, labels', seed, members);
    AddClosure(x, labels, regions, modes, labels', seed, members);
    AddSeeds(x, labels, regions, modes, labels', seed, members);
  }

  /** The final loop: each pixel takes the mode of its region. */
  function Paint(labels: Grid<int>, modes: seq<Lab>, rows: nat, cols: nat): (out: Grid<Lab>)
    requires IsGrid(labels, rows, cols)
    requires forall c | InGrid(c, rows, cols) :: 0 <= At(labels, c) < |modes|
    ensures IsGrid(out, rows, cols)
    ensures forall c | InGrid(c, rows, cols) :: At(out, c) == modes[At(labels, c)]
  {
    seq(rows, i requires 0 <= i < rows =>
      seq(cols, j requires 0 <= j < cols =>
        assert InGrid(Cell(i, j), rows, cols); modes[At(labels, Cell(i, j))]))
  }

  /** The body of the raster loop at pixel `seed`: if it is unlabelled, grow a new region from
      it and record its mode, `Mode / MemberModeCount`. */
  method Visit(x: Ctx, labels: Grid<int>, regions: seq<seq<Cell>>, modes: seq<Lab>, counts: seq<nat>, seed: Cell)
    returns (labels': Grid<int>, regions': seq<seq<Cell>>, modes': seq<Lab>, counts': seq<nat>)
    requires ValidCtx(x) && Segmented(x, labels, regions, modes) && InGrid(seed, x.rows, x.cols)
    requires forall c | InGrid(c, x.rows, x.cols) && Before(c, seed) :: At(labels, c) >= 0
    requires Counted(regions, counts)
    ensures Segmented(x, labels', regions', modes')
    ensures Counted(regions', counts')
    ensures forall c | InGrid(c, x.rows, x.cols) && At(labels, c) >= 0 :: At(labels', c) >= 0
    ensures At(labels', seed) >= 0
  {
    if labels[seed.x][seed.y] < 0 {
      SetupFrom(x, labels, regions, modes, seed);
      var members, count, sum;
      labels', members, count, sum := GrowRegion(x, labels, seed, |regions|);
      var n := count as real;
      var mode := Lab(sum.l / n, sum.a / n, sum.b / n);
      AddRegion(x, labels, regions, modes, labels', seed, members);
      regions', modes', counts' := regions + [members], modes + [mode], counts + [count];
    } else {
      labels', regions', modes', counts' := labels, regions, modes, counts;
    }
  }

  /** `MemberModeCount`: the size of each region. */
  predicate Counted(regions: seq<seq<Cell>>, counts: seq<nat>)
  {
    |counts| == |regions| && forall k | 0 <= k < |regions| :: counts[k] == |regions[k]|
  }

  /** `MeanShiftSegmentationCIELab`: the labels, the regions in seed order with their pixels
      in the order they were pushed, the modes, and the painted image. */
  method MeanShiftSegmentationCIELab(x: Ctx)
    returns (out: Grid<Lab>, labels: Grid<int>, regions: seq<seq<Cell>>, modes: seq<Lab>, counts: seq<nat>)
    requires ValidCtx(x)
    ensures Segmented(x, labels, regions, modes)
    ensures Counted(regions, counts)
    ensures forall c | InGrid(c, x.rows, x.cols) :: At(labels, c) >= 0
    ensures IsGrid(out, x.rows, x.cols)
    ensures forall c | InGrid(c, x.rows, x.cols) :: At(out, c) == MeanColour(x.img, regions[At(labels, c)])
  {
    labels := Fill(x.rows, x.cols, -1);
    regions, modes, counts := [], [], [];
    Unsegmented(x, labels);
    var i := 0;
    while i < x.rows
      invariant 0 <= i <= x.rows
      invariant Segmented(x, labels, regions, modes) && Counted(regions, counts)
      invariant forall c | InGrid(c, x.rows, x.cols) && Before(c, Cell(i, 0)) :: At(labels, c) >= 0
    {
      var j := 0;
      while j < x.cols
        invariant 0 <= j <= x.cols
        invariant Segmented(x, labels, regions, modes) && Counted(regions, counts)
        invariant forall c | InGrid(c, x.rows, x.cols) && Before(c, Cell(i, j)) :: At(labels, c) >= 0
      {
        var labels' := labels;
        labels, regions, modes, counts := Visit(x, labels, regions, modes, counts, Cell(i, j));
        RasterStep(x.rows, x.cols, labels', labels, Cell(i, j), Cell(i, j + 1));
        j := j + 1;
      }
      RasterStep(x.rows, x.cols, labels, labels, Cell(i, j), Cell(i + 1, 0));
      i := i + 1;
    }
    RasterDone(x, labels, regions, modes, i);
    out := Paint(labels, modes, x.rows, x.cols);
    ModedOf(x, labels, regions, modes);
    Painted(x, labels, regions, modes, out);
  }

  /** No pixel labelled and no region yet. */
  lemma Unsegmented(x: Ctx, labels: Grid<int>)
    requires ValidCtx(x) && labels == Fill(x.rows, x.cols, -1)
    ensures Segmented(x, labels, [], [])
  {
  }

  /** Moving on in raster order: pixels before `next` are those before `cur` and possibly `cur`,
      and the labels of all of them are kept. */
  lemma RasterStep(rows: nat, cols: nat, labels: Grid<int>, labels': Grid<int>, cur: Cell, next: Cell)
    requires IsGrid(labels, rows, cols) && IsGrid(labels', rows, cols)
    requires forall c | InGrid(c, rows, cols) && Before(c, cur) :: At(labels, c) >= 0
    requires forall c | InGrid(c, rows, cols) && At(labels, c) >= 0 :: At(labels', c) >= 0
    requires InGrid(cur, rows, cols) ==> At(labels', cur) >= 0
    requires (next.x == cur.x && next.y == cur.y + 1) || (next.x == cur.x + 1 && next.y == 0 && cur.y == cols)
    ensures forall c | InGrid(c, rows, cols) && Before(c, next) :: At(labels', c) >= 0
  {
  }

  lemma RasterDone(x: Ctx, labels: Grid<int>, regions: seq<seq<Cell>>, modes: seq<Lab>, i: nat)
    requires ValidCtx(x) && Segmented(x, labels, regions, modes) && i == x.rows
    requires forall c | InGrid(c, x.rows, x.cols) && Before(c, Cell(i, 0)) :: At(labels, c) >= 0
    ensures forall c | InGrid(c, x.rows, x.cols) :: 0 <= At(labels, c) < |modes|
  {
  }

  /** Every region is a non-empty run of image pixels with its mean colour as mode. */
  ghost predicate Moded(x: Ctx, regions: seq<seq<Cell>>, modes: seq<Lab>)
  {
    |modes| == |regions|
    && forall k | 0 <= k < |regions| ::
         |regions[k]| > 0 && AllInBounds(x.img, regions[k]) && modes[k] == MeanColour(x.img, regions[k])
  }

  lemma ModedOf(x: Ctx, labels: Grid<int>, regions: seq<seq<Cell>>, modes: seq<Lab>)
    requires ValidCtx(x) && Segmented(x, labels, regions, modes)
    ensures Moded(x, regions, modes)
  {
    forall k | 0 <= k < |regions|
      ensures |regions[k]| > 0 && AllInBounds(x.img, regions[k]) && modes[k] == MeanColour(x.img, regions[k])
    {
      assert RegionShape(x, regions[k]);
    }
  }

  lemma Painted(x: Ctx, labels: Grid<int>, regions: seq<seq<Cell>>, modes: seq<Lab>, out: Grid<Lab>)
    requires IsGrid(labels, x.rows, x.cols) && Moded(x, regions, modes)
    requires forall c | InGrid(c, x.rows, x.cols) :: 0 <= At(labels, c) < |modes|
    requires IsGrid(out, x.rows, x.cols) && forall c | InGrid(c, x.rows, x.cols) :: At(out, c) == modes[At(labels, c)]
    ensures forall c | InGrid(c, x.rows, x.cols) :: At(out, c) == MeanColour(x.img, regions[At(labels, c)])
  {
  }

  /** At the end every pixel lies in exactly one region, the one its label names. */
  lemma Partition(x: Ctx, labels: Grid<int>, regions: seq<seq<Cell>>, modes: seq<Lab>, c: Cell, k: nat)
    requires ValidCtx(x) && Segmented(x, labels, regions, modes)
    requires forall d | InGrid(d, x.rows, x.cols) :: At(labels, d) >= 0
    requires InGrid(c, x.rows, x.cols) && k < |regions|
    ensures c in regions[k] <==> At(labels, c) == k
  {
    if c in regions[k] {
      var m :| 0 <= m < |regions[k]| && regions[k][m] == c;
    }
  }

  /** Region numbers follow raster order: the seed of a later region comes after the seed of an
      earlier one. */
  lemma SeedsInRasterOrder(x: Ctx, labels: Grid<int>, regions: seq<seq<Cell>>, modes: seq<Lab>, j: nat, k: nat)
    requires ValidCtx(x) && Segmented(x, labels, regions, modes)
    requires j < k < |regions|
    ensures Before(regions[j][0], regions[k][0])
  {
    var sj, sk := regions[j][0], regions[k][0];
    assert InGrid(sj, x.rows, x.cols) && InGrid(sk, x.rows, x.cols);
    assert At(labels, sj) == j && At(labels, sk) == k;
    if !Before(sj, sk) {
      assert sj != sk;
      assert Before(sk, sj);
    }
  }
}

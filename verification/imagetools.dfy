/**
  The pixel-grid utilities of `mat-image-tools.cpp` that are plain logic: counting distinct
  colours through a 24-bit key, overlaying an image on another with black as transparent,
  shifting a frame, the anaglyph tints, the flat and linear gray gradients, and the guard of
  the dilation and erosion wrappers.
 */
module ImageTools {
  import opened Numeric
  import opened Grids

  /** A `cv::Mat`: its size, its OpenCV type code and its pixels. */
  datatype Mat<T> = Mat(rows: nat, cols: nat, typ: int, data: Grid<T>)

  predicate WellFormed<T>(m: Mat<T>)
  {
    IsGrid(m.data, m.rows, m.cols)
  }

  /** A `cv::Vec4b`. */
  datatype Pixel4 = Pixel4(c0: byte, c1: byte, c2: byte, c3: byte)

  // ---------------------------------------------------------------------------------------
  // Dilation and erosion

  /** The two operations the wrappers hand to OpenCV. */
  datatype Morphology = Dilate | Erode

  /** Side of the square structuring element built for a size: none for a size of zero or
      less, otherwise the odd side `2 size + 1`, centred on its anchor, from which the size is
      read back as the half-width. */
  function ElementSide(size: int): (r: Option<nat>)
    ensures r.None? <==> size <= 0
    ensures r.Some? ==> r.value % 2 == 1 && r.value >= 3 && (r.value - 1) / 2 == size
  {
    if size <= 0 then None else Some(2 * size + 1)
  }

  /** `DilatePixels` and `ErodePixels`: the same guard around OpenCV's `dilate` or `erode`,
      passed in as `apply`. The source comes back unchanged exactly when no element is built. */
  function MorphPixels<T>(op: Morphology, source: Grid<T>, size: int,
                          apply: (Morphology, Grid<T>, nat) -> Grid<T>): (r: Grid<T>)
    ensures size <= 0 ==> r == source
    ensures size > 0 ==> exists k: nat :: k % 2 == 1 && (k - 1) / 2 == size && r == apply(op, source, k)
  {
    match ElementSide(size)
    case None => source
    case Some(k) => apply(op, source, k)
  }

  // ---------------------------------------------------------------------------------------
  // Frame shifting

  /** `shift_direction`. */
  datatype Direction = ShiftUp | ShiftRight | ShiftDown | ShiftLeft

  /** The extent along which `dir` shifts: rows for up and down, columns otherwise. */
  function Extent(dir: Direction, rows: nat, cols: nat): nat
  {
    if dir == ShiftUp || dir == ShiftDown then rows else cols
  }

  /** Pixel `(y, x)` of the shifted frame: the source pixel `n` rows or columns away, or the
      zero of `Mat::zeros` where the copied rectangle does not reach. */
  function ShiftedPixel<T>(src: Grid<T>, rows: nat, cols: nat, n: nat, dir: Direction, zero: T, y: nat, x: nat): T
    requires IsGrid(src, rows, cols) && y < rows && x < cols
  {
    match dir
    case ShiftUp => if y + n < rows then src[y + n][x] else zero
    case ShiftRight => if x >= n then src[y][x - n] else zero
    case ShiftDown => if y >= n then src[y - n][x] else zero
    case ShiftLeft => if x + n < cols then src[y][x + n] else zero
  }

  /** `ShiftFrame`: a zero image of the same size, then one rectangle copied. A shift that is
      negative or larger than the image makes an invalid rectangle, which OpenCV rejects with an
      exception: `None`. */
  function ShiftFrame<T>(src: Grid<T>, rows: nat, cols: nat, n: int, dir: Direction, zero: T): (r: Option<Grid<T>>)
    requires IsGrid(src, rows, cols)
    ensures r.None? <==> n < 0 || n > Extent(dir, rows, cols)
    ensures r.Some? ==> IsGrid(r.value, rows, cols)
    ensures r.Some? && dir == ShiftUp ==> forall y, x | 0 <= y < rows && 0 <= x < cols ::
      r.value[y][x] == if y < rows - n then src[y + n][x] else zero
    ensures r.Some? && dir == ShiftDown ==> forall y, x | 0 <= y < rows && 0 <= x < cols ::
      r.value[y][x] == if y >= n then src[y - n][x] else zero
    ensures r.Some? && dir == ShiftLeft ==> forall y, x | 0 <= y < rows && 0 <= x < cols ::
      r.value[y][x] == if x < cols - n then src[y][x + n] else zero
    ensures r.Some? && dir == ShiftRight ==> forall y, x | 0 <= y < rows && 0 <= x < cols ::
      r.value[y][x] == if x >= n then src[y][x - n] else zero
  {
    if n < 0 || n > Extent(dir, rows, cols) then None
    else Some(seq(rows, y requires 0 <= y < rows =>
                seq(cols, x requires 0 <= x < cols => ShiftedPixel(src, rows, cols, n, dir, zero, y, x))))
  }

  /** Shifting up by `n` and then down by `n` gives back every row from the `n`-th on and blanks
      the first `n`: the two shifts undo each other on what both keep. */
  lemma ShiftUpThenDown<T>(src: Grid<T>, rows: nat, cols: nat, n: nat, zero: T)
    requires IsGrid(src, rows, cols) && n <= rows
    ensures var up := ShiftFrame(src, rows, cols, n, ShiftUp, zero).value;
      var back := ShiftFrame(up, rows, cols, n, ShiftDown, zero).value;
      forall y, x | 0 <= y < rows && 0 <= x < cols :: back[y][x] == if y >= n then src[y][x] else zero
  {
    var up := ShiftFrame(src, rows, cols, n, ShiftUp, zero).value;
    var back := ShiftFrame(up, rows, cols, n, ShiftDown, zero).value;
    forall y, x | 0 <= y < rows && 0 <= x < cols
      ensures back[y][x] == if y >= n then src[y][x] else zero
    {
      if y >= n {
        assert back[y][x] == up[y - n][x];
      }
    }
  }

  /** Shifting right by `n` and then left by `n` gives back every column but the last `n`. */
  lemma ShiftRightThenLeft<T>(src: Grid<T>, rows: nat, cols: nat, n: nat, zero: T)
    requires IsGrid(src, rows, cols) && n <= cols
    ensures var right := ShiftFrame(src, rows, cols, n, ShiftRight, zero).value;
      var back := ShiftFrame(right, rows, cols, n, ShiftLeft, zero).value;
      forall y, x | 0 <= y < rows && 0 <= x < cols :: back[y][x] == if x < cols - n then src[y][x] else zero
  {
    var right := ShiftFrame(src, rows, cols, n, ShiftRight, zero).value;
    var back := ShiftFrame(right, rows, cols, n, ShiftLeft, zero).value;
    forall y, x | 0 <= y < rows && 0 <= x < cols
      ensures back[y][x] == if x < cols - n then src[y][x] else zero
    {
      if x < cols - n {
        assert back[y][x] == right[y][x + n];
      }
    }
  }

  /** A shift by zero copies the image, whatever the direction. */
  lemma ShiftByZero<T>(src: Grid<T>, rows: nat, cols: nat, dir: Direction, zero: T)
    requires IsGrid(src, rows, cols)
    ensures ShiftFrame(src, rows, cols, 0, dir, zero) == Some(src)
  {
    var r := ShiftFrame(src, rows, cols, 0, dir, zero).value;
    forall y | 0 <= y < rows
      ensures r[y] == src[y]
    {
      forall x | 0 <= x < cols
        ensures r[y][x] == src[y][x]
      {
        assert r[y][x] == ShiftedPixel(src, rows, cols, 0, dir, zero, y, x);
      }
    }
    assert |r| == |src|;
    assert r == src;
  }

  // ---------------------------------------------------------------------------------------
  // Overlay with black as transparent

  /** The guard of `CopyNonZero` as written: the images are refused only when they differ in
      size AND in type. */
  predicate RefusedAsWritten<T>(s1: Mat<T>, s2: Mat<T>)
  {
    (s1.rows != s2.rows || s1.cols != s2.cols) && s1.typ != s2.typ
  }

  /** The guard its comment asks for: images of the same size and type only. */
  predicate Refused<T>(s1: Mat<T>, s2: Mat<T>)
  {
    s1.rows != s2.rows || s1.cols != s2.cols || s1.typ != s2.typ
  }

  /** The loop writes `result(y, x)` for a non-transparent pixel `(y, x)` of the first image,
      with `result` of the second image's size: every such write must land inside. */
  predicate WritesInside<T(==)>(s1: Mat<T>, s2: Mat<T>, zero: T)
    requires WellFormed(s1)
  {
    forall y, x | 0 <= y < s1.rows && 0 <= x < s1.cols && s1.data[y][x] != zero :: y < s2.rows && x < s2.cols
  }

  /** Counterexample: two images of one type and different sizes pass the guard as written, and
      the loop then writes outside the result. */
  lemma GuardLetsDifferentSizesThrough()
    ensures var s1 := Mat(2, 2, 16, Fill(2, 2, Pixel(1, 1, 1)));
      var s2 := Mat(1, 1, 16, Fill(1, 1, Pixel(0, 0, 0)));
      WellFormed(s1) && !RefusedAsWritten(s1, s2) && !WritesInside(s1, s2, Pixel(0, 0, 0))
  {
    var s1 := Mat(2, 2, 16, Fill(2, 2, Pixel(1, 1, 1)));
    assert s1.data[1][1] != Pixel(0, 0, 0);
  }

  /** With the corrected guard, every write of the loop lands inside the result. */
  lemma CorrectedGuardWritesInside<T>(s1: Mat<T>, s2: Mat<T>, zero: T)
    requires WellFormed(s1) && !Refused(s1, s2)
    ensures WritesInside(s1, s2, zero)
  {
  }

  /** The pixel an overlay keeps: the first image's unless it is the transparent zero. */
  function Over<T(==)>(top: T, below: T, zero: T): T
  {
    if top != zero then top else below
  }

  /** Pixel `(y, x)` of the second image once the first has been written over it: the first
      image reaches only the pixels it covers. */
  function Merged<T(==)>(s1: Mat<T>, s2: Mat<T>, zero: T, y: nat, x: nat): T
    requires WellFormed(s1) && WellFormed(s2) && y < s2.rows && x < s2.cols
  {
    if y < s1.rows && x < s1.cols then Over(s1.data[y][x], s2.data[y][x], zero) else s2.data[y][x]
  }

  /** The state of the merge loop: the columns before `x`, and the first `y` rows of column
      `x`, are merged; the rest is still the second image. */
  predicate MergedUpTo<T(==)>(s1: Mat<T>, s2: Mat<T>, zero: T, result: Grid<T>, x: nat, y: nat)
    requires WellFormed(s1) && WellFormed(s2)
  {
    IsGrid(result, s2.rows, s2.cols)
    && forall v, c | 0 <= v < s2.rows && 0 <= c < s2.cols ::
      result[v][c] == if c < x || (c == x && v < y) then Merged(s1, s2, zero, v, c) else s2.data[v][c]
  }

  /** One column of the merge loop: the inner `for y` over the first image's rows. */
  method MergeColumn<T(==)>(s1: Mat<T>, s2: Mat<T>, zero: T, start: Grid<T>, x: nat) returns (result: Grid<T>)
    requires WellFormed(s1) && WellFormed(s2) && WritesInside(s1, s2, zero) && x < s1.cols
    requires MergedUpTo(s1, s2, zero, start, x, 0)
    ensures MergedUpTo(s1, s2, zero, result, x + 1, 0)
  {
    result := start;
    var y := 0;
    while y < s1.rows
      invariant 0 <= y <= s1.rows
      invariant MergedUpTo(s1, s2, zero, result, x, y)
    {
      var pixel := s1.data[y][x];
      if pixel != zero {
        result := result[y := result[y][x := pixel]];
      }
      y := y + 1;
    }
  }

  /** The merge loop shared by `CopyNonZero` and `CopyNonZeroAlpha`: a copy of the second
      image, then every non-transparent pixel of the first written at its own position. Every
      such write must land inside the copy. */
  method MergeLoop<T(==)>(s1: Mat<T>, s2: Mat<T>, zero: T) returns (result: Grid<T>)
    requires WellFormed(s1) && WellFormed(s2) && WritesInside(s1, s2, zero)
    ensures IsGrid(result, s2.rows, s2.cols)
    ensures forall y, x | 0 <= y < s2.rows && 0 <= x < s2.cols ::
      result[y][x] == if y < s1.rows && x < s1.cols && s1.data[y][x] != zero then s1.data[y][x] else s2.data[y][x]
  {
    result := s2.data;
    var x := 0;
    while x < s1.cols
      invariant 0 <= x <= s1.cols
      invariant MergedUpTo(s1, s2, zero, result, x, 0)
    {
      result := MergeColumn(s1, s2, zero, result, x);
      x := x + 1;
    }
  }

  /** The merge with the guard as written: `None` only when the images differ in both size and
      type; otherwise the first image over the part of the second it covers. A first image
      that reaches past the second with a non-transparent pixel makes the source write outside
      the result, which the precondition excludes. */
  method OverlayAsWritten<T(==)>(s1: Mat<T>, s2: Mat<T>, zero: T) returns (r: Option<Grid<T>>)
    requires WellFormed(s1) && WellFormed(s2)
    requires RefusedAsWritten(s1, s2) || WritesInside(s1, s2, zero)
    ensures r.None? <==> RefusedAsWritten(s1, s2)
    ensures r.Some? ==> IsGrid(r.value, s2.rows, s2.cols)
    ensures r.Some? ==> forall y, x | 0 <= y < s2.rows && 0 <= x < s2.cols ::
      r.value[y][x] == if y < s1.rows && x < s1.cols then Over(s1.data[y][x], s2.data[y][x], zero) else s2.data[y][x]
  {
    if RefusedAsWritten(s1, s2) {
      return None;
    }
    var result := MergeLoop(s1, s2, zero);
    return Some(result);
  }

  /** The merge with the corrected guard: `None` for images of different size or type, else
      the second image with every non-transparent pixel of the first written over it. */
  method Overlay<T(==)>(s1: Mat<T>, s2: Mat<T>, zero: T) returns (r: Option<Grid<T>>)
    requires WellFormed(s1) && WellFormed(s2)
    ensures r.None? <==> Refused(s1, s2)
    ensures r.Some? ==> IsGrid(r.value, s2.rows, s2.cols)
    ensures r.Some? ==> forall y, x | 0 <= y < s2.rows && 0 <= x < s2.cols ::
      r.value[y][x] == Over(s1.data[y][x], s2.data[y][x], zero)
  {
    if Refused(s1, s2) {
      return None;
    }
    var result := MergeLoop(s1, s2, zero);
    return Some(result);
  }

  /** The two guards agree on images of the same size and type; the corrected guard refuses
      everything the written one refuses, and on what it lets through no write leaves the
      result and the merged pixel is the plain overlay. */
  lemma GuardsAgree<T>(s1: Mat<T>, s2: Mat<T>, zero: T)
    requires WellFormed(s1) && WellFormed(s2)
    ensures RefusedAsWritten(s1, s2) ==> Refused(s1, s2)
    ensures !Refused(s1, s2) ==> !RefusedAsWritten(s1, s2) && WritesInside(s1, s2, zero)
    ensures !Refused(s1, s2) ==> forall y, x | 0 <= y < s2.rows && 0 <= x < s2.cols ::
      Merged(s1, s2, zero, y, x) == Over(s1.data[y][x], s2.data[y][x], zero)
  {
    if !Refused(s1, s2) {
      CorrectedGuardWritesInside(s1, s2, zero);
    }
  }

  /** A smaller first image of the same type passes the written guard and is laid over the top
      left corner of the second, where the corrected guard refuses it. */
  lemma SmallerImagePassesAsWritten()
    ensures var s1 := Mat(1, 1, 16, Fill(1, 1, Pixel(9, 9, 9)));
      var s2 := Mat(2, 2, 16, Fill(2, 2, Pixel(0, 0, 0)));
      WellFormed(s1) && WellFormed(s2) && !RefusedAsWritten(s1, s2) && Refused(s1, s2)
      && WritesInside(s1, s2, Pixel(0, 0, 0)) && Merged(s1, s2, Pixel(0, 0, 0), 0, 0) == Pixel(9, 9, 9)
  {
    var s1 := Mat(1, 1, 16, Fill(1, 1, Pixel(9, 9, 9)));
    var s2 := Mat(2, 2, 16, Fill(2, 2, Pixel(0, 0, 0)));
    assert s1.data[0][0] == Pixel(9, 9, 9);
    assert s2.data[0][0] == Pixel(0, 0, 0);
  }

  /** `CopyNonZero` on `Vec3b` images, black `(0, 0, 0)` being transparent, with the guard as
      written. */
  method CopyNonZero(s1: Mat<Pixel>, s2: Mat<Pixel>) returns (r: Option<Grid<Pixel>>)
    requires WellFormed(s1) && WellFormed(s2)
    requires RefusedAsWritten(s1, s2) || WritesInside(s1, s2, Pixel(0, 0, 0))
    ensures r.None? <==> (s1.rows != s2.rows || s1.cols != s2.cols) && s1.typ != s2.typ
    ensures r.Some? ==> IsGrid(r.value, s2.rows, s2.cols) && forall y, x | 0 <= y < s2.rows && 0 <= x < s2.cols ::
      r.value[y][x] == (if y < s1.rows && x < s1.cols && s1.data[y][x] != Pixel(0, 0, 0) then s1.data[y][x] else s2.data[y][x])
  {
    r := OverlayAsWritten(s1, s2, Pixel(0, 0, 0));
  }

  /** `CopyNonZeroAlpha` on `Vec4b` images, `(0, 0, 0, 0)` being transparent, with the same
      guard as written. */
  method CopyNonZeroAlpha(s1: Mat<Pixel4>, s2: Mat<Pixel4>) returns (r: Option<Grid<Pixel4>>)
    requires WellFormed(s1) && WellFormed(s2)
    requires RefusedAsWritten(s1, s2) || WritesInside(s1, s2, Pixel4(0, 0, 0, 0))
    ensures r.None? <==> (s1.rows != s2.rows || s1.cols != s2.cols) && s1.typ != s2.typ
    ensures r.Some? ==> IsGrid(r.value, s2.rows, s2.cols) && forall y, x | 0 <= y < s2.rows && 0 <= x < s2.cols ::
      r.value[y][x] == (if y < s1.rows && x < s1.cols && s1.data[y][x] != Pixel4(0, 0, 0, 0) then s1.data[y][x] else s2.data[y][x])
  {
    r := OverlayAsWritten(s1, s2, Pixel4(0, 0, 0, 0));
  }

  // ---------------------------------------------------------------------------------------
  // Anaglyph tints

  /** `anaglyphTint`; every other value falls to the `default` branch with `tint_color`. */
  const TintColor := 0
  const TintGray := 1
  const TintTrue := 2
  const TintHalf := 3
  const TintOptimized := 4
  const TintDubois := 5

  /** `round(wr * R + wg * G + wb * B)` of one output channel. */
  function Mix(wr: real, wg: real, wb: real, r: byte, g: byte, b: byte): int
  {
    Round(wr * r as real + wg * g as real + wb * b as real)
  }

  /** The three `round`ed channels `(R, G, B)` of a tint, before clamping. */
  function TintRaw(tint: int, p: Pixel): (int, int, int)
  {
    var r, g, b := p.c2, p.c1, p.c0;
    if tint == TintGray then
      (Mix(0.299, 0.587, 0.114, r, g, b), Mix(0.299, 0.587, 0.114, r, g, b), Mix(0.299, 0.587, 0.114, r, g, b))
    else if tint == TintTrue then
      (Mix(0.299, 0.587, 0.114, r, g, b), Mix(0.0, 0.0, 0.0, r, g, b), Mix(0.299, 0.587, 0.114, r, g, b))
    else if tint == TintHalf then
      (Mix(0.299, 0.587, 0.114, r, g, b), Mix(0.0, 1.0, 0.0, r, g, b), Mix(0.0, 0.0, 1.0, r, g, b))
    else if tint == TintOptimized then
      (Mix(0.0, 0.7, 0.3, r, g, b), Mix(0.0, 1.0, 0.0, r, g, b), Mix(0.0, 0.0, 1.0, r, g, b))
    else if tint == TintDubois then
      (Mix(0.4045, 0.4346, 0.1609, r, g, b), Mix(0.3298, 0.6849, -0.0146, r, g, b), Mix(-0.1162, -0.1902, 1.3099, r, g, b))
    else
      (Mix(1.0, 0.0, 0.0, r, g, b), Mix(0.0, 1.0, 0.0, r, g, b), Mix(0.0, 0.0, 1.0, r, g, b))
  }

  /** One pixel of `AnaglyphTint`: the tint, each channel clamped into `[0, 255]`, stored as
      `Vec3b(B, G, R)`. */
  function TintPixel(tint: int, p: Pixel): (q: Pixel)
    ensures var raw := TintRaw(tint, p);
      q.c2 == ClampByte(raw.0) && q.c1 == ClampByte(raw.1) && q.c0 == ClampByte(raw.2)
  {
    var raw := TintRaw(tint, p);
    Pixel(ClampByte(raw.2), ClampByte(raw.1), ClampByte(raw.0))
  }

  /** `AnaglyphTint` over a whole image. */
  function AnaglyphTint(tint: int, src: Grid<Pixel>, rows: nat, cols: nat): (r: Grid<Pixel>)
    requires IsGrid(src, rows, cols)
    ensures IsGrid(r, rows, cols)
    ensures forall y, x | 0 <= y < rows && 0 <= x < cols :: r[y][x] == TintPixel(tint, src[y][x])
  {
    seq(rows, y requires 0 <= y < rows => seq(cols, x requires 0 <= x < cols => TintPixel(tint, src[y][x])))
  }

  /** A channel that is a whole number needs no rounding. */
  lemma RoundOfInt(k: int)
    ensures Round(k as real) == k
  {
    if k >= 0 {
      FloorOf(k as real + 0.5, k);
    } else {
      FloorOf(-(k as real) + 0.5, -k);
    }
  }

  /** `tint_color`, and every unknown tint, give the image back unchanged. */
  lemma TintColorIdentity(tint: int, p: Pixel)
    requires tint !in {TintGray, TintTrue, TintHalf, TintOptimized, TintDubois}
    ensures TintPixel(tint, p) == p
  {
    var r, g, b := p.c2 as real, p.c1 as real, p.c0 as real;
    assert 1.0 * r + 0.0 * g + 0.0 * b == r;
    assert 0.0 * r + 1.0 * g + 0.0 * b == g;
    assert 0.0 * r + 0.0 * g + 1.0 * b == b;
    RoundOfInt(p.c2 as int);
    RoundOfInt(p.c1 as int);
    RoundOfInt(p.c0 as int);
  }

  /** `tint_gray` gives three equal channels, and its weights add up to 1 so the gray lies in
      `[0, 255]` before the clamp. */
  lemma TintGrayIsGray(p: Pixel)
    ensures var q := TintPixel(TintGray, p); q.c0 == q.c1 == q.c2
    ensures 0 <= Mix(0.299, 0.587, 0.114, p.c2, p.c1, p.c0) <= 255
  {
    var v := 0.299 * p.c2 as real + 0.587 * p.c1 as real + 0.114 * p.c0 as real;
    assert 0.0 <= v <= 255.0;
  }

  /** The clamp is needed: Dubois' blue of pure red rounds to `-30` and is clamped to 0. */
  lemma DuboisClamps()
    ensures TintRaw(TintDubois, Pixel(0, 0, 255)).2 == -30
    ensures TintPixel(TintDubois, Pixel(0, 0, 255)).c0 == 0
  {
    var v := -0.1162 * 255.0 - 0.1902 * 0.0 + 1.3099 * 0.0;
    assert v == -29.631;
    FloorOf(29.631 + 0.5, 30);
  }

  // ---------------------------------------------------------------------------------------
  // Number of colours

  /** The key `(p[0] << 16) | (p[1] << 8) | p[2]` of a pixel. The three bytes occupy the
      disjoint bit ranges 16-23, 8-15 and 0-7 of the `int`, so the shifts are products by
      `65536` and `256` and the `|` is a sum. */
  function PackKey(p: Pixel): int
  {
    p.c0 as int * 65536 + p.c1 as int * 256 + p.c2 as int
  }

  /** The pixel a key stands for. */
  function UnpackKey(n: int): Pixel
    requires 0 <= n < 0x100_0000
  {
    Pixel((n / 65536) as byte, (n / 256 % 256) as byte, (n % 256) as byte)
  }

  /** Every key is a 24-bit number that gives its pixel back. */
  lemma UnpackPack(p: Pixel)
    ensures 0 <= PackKey(p) < 0x100_0000
    ensures UnpackKey(PackKey(p)) == p
  {
    var n := PackKey(p);
    var a, b, c := p.c0 as int, p.c1 as int, p.c2 as int;
    DivMod256(n, a * 256 + b, c);
    DivMod256(a * 256 + b, a, b);
    assert n / 65536 == a;
  }

  lemma DivMod256(n: int, q: int, r: int)
    requires 0 <= r < 256 && n == q * 256 + r
    ensures n / 256 == q && n % 256 == r
  {
  }

  /** So the key is injective. */
  lemma PackInjective(p: Pixel, q: Pixel)
    ensures PackKey(p) == PackKey(q) <==> p == q
  {
    UnpackPack(p);
    UnpackPack(q);
  }

  function Keys(s: seq<Pixel>): set<int>
  {
    set p | p in s :: PackKey(p)
  }

  function Colours(s: seq<Pixel>): set<Pixel>
  {
    set p | p in s
  }

  /** An injective key has as many values on a set as the set has elements. */
  lemma {:induction false} KeysOfSet(colours: set<Pixel>)
    ensures |set p | p in colours :: PackKey(p)| == |colours|
    decreases |colours|
  {
    if colours != {} {
      var c :| c in colours;
      var rest := colours - {c};
      KeysOfSet(rest);
      var keys := set p | p in colours :: PackKey(p);
      var restKeys := set p | p in rest :: PackKey(p);
      assert keys == restKeys + {PackKey(c)};
      if PackKey(c) in restKeys {
        var p :| p in rest && PackKey(p) == PackKey(c);
        PackInjective(p, c);
      }
    }
  }

  /** A sequence has at most as many distinct elements as it has elements. */
  lemma {:induction false} ColoursAtMost(s: seq<Pixel>)
    ensures |Colours(s)| <= |s|
  {
    if |s| > 0 {
      ColoursAtMost(s[1..]);
      assert Colours(s) == Colours(s[1..]) + {s[0]};
    }
  }

  /** `CountRGBUniqueValues`: the keys of all pixels, in the order `Mat_` iterates them,
      gathered in a set. Its size is the number of distinct colours of the image, between 1
      and the number of pixels when the image is not empty. */
  method CountRGBUniqueValues(image: Grid<Pixel>, rows: nat, cols: nat) returns (count: nat)
    requires IsGrid(image, rows, cols)
    ensures count == |Colours(Flatten(image))|
    ensures rows * cols > 0 ==> 1 <= count <= rows * cols
  {
    var pixels := Flatten(image);
    var unique: set<int> := {};
    var i := 0;
    while i < |pixels|
      invariant 0 <= i <= |pixels|
      invariant unique == Keys(pixels[..i])
    {
      assert pixels[..i + 1] == pixels[..i] + [pixels[i]];
      unique := unique + {PackKey(pixels[i])};
      i := i + 1;
    }
    assert pixels[..|pixels|] == pixels;
    assert unique == set p | p in Colours(pixels) :: PackKey(p);
    KeysOfSet(Colours(pixels));
    count := |unique|;
    FlattenLength(image, rows, cols);
    ColoursAtMost(pixels);
    if rows * cols > 0 {
      assert pixels[0] in Colours(pixels);
    }
  }

  // ---------------------------------------------------------------------------------------
  // Gray gradients

  /** `curveType`: `curve_linear` is 0, the ten shaped curves 1 to 10. */
  const CurveLinear := 0

  /** `GrayCurve(color, type, begin, range)`: the colour itself for `curve_linear`, for a zero
      range and for an unknown type; the shaped curves (cosine, sigmoid, powers, undulations)
      are transcendental and come in as `shape`. */
  function GrayCurve(color: int, curve: int, begin: int, range: int, shape: (int, int, int, int) -> real): (r: real)
    ensures range == 0 || curve == CurveLinear || curve < 0 || curve > 10 ==> r == color as real
  {
    if range == 0 then color as real
    else if curve == CurveLinear then color as real
    else if 1 <= curve <= 10 then shape(curve, color, begin, range)
    else color as real
  }

  /** `Rect`: left column `x`, top row `y`, `width` columns, `height` rows. */
  datatype Rect = Rect(x: int, y: int, width: int, height: int)

  predicate InRect(area: Rect, row: int, col: int)
  {
    area.y <= row < area.y + area.height && area.x <= col < area.x + area.width
  }

  /** The scanned area: the whole image when the default empty rectangle is given. */
  function ScanArea(area: Rect, rows: nat, cols: nat): Rect
  {
    if area == Rect(0, 0, 0, 0) then Rect(0, 0, cols, rows) else area
  }

  /** `gradient_flat`: `img.setTo(beginColor, msk)`, the colour saturated to a byte, on every
      pixel of the mask, whatever the area. */
  function GradientFlat(img: Grid<int>, msk: Grid<byte>, rows: nat, cols: nat, beginColor: int): (r: Grid<int>)
    requires IsGrid(img, rows, cols) && IsGrid(msk, rows, cols)
    ensures IsGrid(r, rows, cols)
    ensures forall y, x | 0 <= y < rows && 0 <= x < cols ::
      r[y][x] == if msk[y][x] != 0 then ClampByte(beginColor) as int else img[y][x]
  {
    seq(rows, y requires 0 <= y < rows => seq(cols, x requires 0 <= x < cols =>
      if msk[y][x] != 0 then ClampByte(beginColor) as int else img[y][x]))
  }

  /** The value `gradient_linear` writes for a pixel at "distance" `c` along the gradient, with
      `c1` and `c2` those of the begin and end points: the begin colour up to `c1`, the end
      colour from `c2`, and in between the interpolation, truncated to `int` as `GrayCurve`'s
      `const int &` parameter takes it, shaped, then rounded. */
  function LinearValue(c: int, c1: int, c2: int, beginColor: int, endColor: int, curve: int,
                       shape: (int, int, int, int) -> real): int
  {
    if c <= c1 then beginColor
    else if c >= c2 then endColor
    else
      var t := (beginColor * (c2 - c) + endColor * (c - c1)) as real / (c2 - c1) as real;
      Round(GrayCurve(Trunc(t), curve, beginColor, endColor - beginColor, shape))
  }

  /** `gradient_linear`: every pixel of the area whose mask is non-zero gets the value of its
      position along the vector from the begin point to the end point. */
  function GradientLinear(img: Grid<int>, msk: Grid<byte>, rows: nat, cols: nat, area: Rect,
                          begin: (int, int), end: (int, int), beginColor: int, endColor: int, curve: int,
                          shape: (int, int, int, int) -> real): (r: Grid<int>)
    requires IsGrid(img, rows, cols) && IsGrid(msk, rows, cols)
    ensures IsGrid(r, rows, cols)
  {
    var a, b := end.0 - begin.0, end.1 - begin.1;
    var c1, c2 := a * begin.0 + b * begin.1, a * end.0 + b * end.1;
    var scan := ScanArea(area, rows, cols);
    seq(rows, y requires 0 <= y < rows => seq(cols, x requires 0 <= x < cols =>
      if InRect(scan, y, x) && msk[y][x] != 0 then LinearValue(a * x + b * y, c1, c2, beginColor, endColor, curve, shape)
      else img[y][x]))
  }

  /** `gradient_linear` changes only the pixels inside the area whose mask is non-zero, and
      there writes the begin colour up to the begin point and the end colour from the end
      point on. */
  lemma GradientLinearWrites(img: Grid<int>, msk: Grid<byte>, rows: nat, cols: nat, area: Rect,
                             begin: (int, int), end: (int, int), beginColor: int, endColor: int, curve: int,
                             shape: (int, int, int, int) -> real, y: nat, x: nat)
    requires IsGrid(img, rows, cols) && IsGrid(msk, rows, cols) && y < rows && x < cols
    ensures var r := GradientLinear(img, msk, rows, cols, area, begin, end, beginColor, endColor, curve, shape);
      var a, b := end.0 - begin.0, end.1 - begin.1;
      var c := a * x + b * y;
      (!(InRect(ScanArea(area, rows, cols), y, x) && msk[y][x] != 0) ==> r[y][x] == img[y][x])
      && (InRect(ScanArea(area, rows, cols), y, x) && msk[y][x] != 0 && c <= a * begin.0 + b * begin.1 ==> r[y][x] == beginColor)
      && ((InRect(ScanArea(area, rows, cols), y, x) && msk[y][x] != 0 && a * begin.0 + b * begin.1 < c
           && c >= a * end.0 + b * end.1) ==> r[y][x] == endColor)
  {
  }

  /** Between the two points, the linear curve's value lies between the begin and end colours,
      so with byte colours every value written fits the 8-bit image. */
  lemma LinearValueBetween(c: int, c1: int, c2: int, beginColor: int, endColor: int, shape: (int, int, int, int) -> real)
    requires 0 <= beginColor <= 255 && 0 <= endColor <= 255
    ensures var v := LinearValue(c, c1, c2, beginColor, endColor, CurveLinear, shape);
      IntMin(beginColor, endColor) <= v <= IntMax(beginColor, endColor)
  {
    if c1 < c < c2 {
      var lo, hi := IntMin(beginColor, endColor), IntMax(beginColor, endColor);
      var d := c2 - c1;
      var num := beginColor * (c2 - c) + endColor * (c - c1);
      InterpolationBounds(beginColor, endColor, c2 - c, c - c1, lo, hi);
      var t := QuotientBetween(num as real, d as real, lo as real, hi as real + 1.0);
      assert num as real <= hi as real * d as real;
      QuotientAtMost(num as real, d as real, hi as real);
      FloorOf(t, Trunc(t));
      RoundOfInt(Trunc(t));
    }
  }

  /** `b (c2 - c) + e (c - c1)` lies between `lo (c2 - c1)` and `hi (c2 - c1)`. */
  lemma InterpolationBounds(b: int, e: int, u: int, v: int, lo: int, hi: int)
    requires u > 0 && v > 0 && lo <= b <= hi && lo <= e <= hi
    ensures lo * (u + v) <= b * u + e * v <= hi * (u + v)
  {
    assert lo * u <= b * u <= hi * u;
    assert lo * v <= e * v <= hi * v;
  }

  lemma QuotientAtMost(x: real, y: real, hi: real)
    requires y > 0.0 && x <= hi * y
    ensures x / y <= hi
  {
    var q := x / y;
    assert q * y == x;
    MulCancelLe(q, hi, y);
  }

  /** `GradientFillGray` for the flat and linear kinds (`gradient_flat` is 0,
      `gradient_linear` 1); any other unknown kind leaves the image as it is. */
  function GradientFillGray(kind: int, img: Grid<int>, msk: Grid<byte>, rows: nat, cols: nat, area: Rect,
                            begin: (int, int), end: (int, int), beginColor: int, endColor: int, curve: int,
                            shape: (int, int, int, int) -> real): (r: Grid<int>)
    requires IsGrid(img, rows, cols) && IsGrid(msk, rows, cols)
    requires kind != 2 && kind != 3
    ensures IsGrid(r, rows, cols)
    ensures kind != 0 && kind != 1 ==> r == img
  {
    if kind == 0 then GradientFlat(img, msk, rows, cols, beginColor)
    else if kind == 1 then GradientLinear(img, msk, rows, cols, area, begin, end, beginColor, endColor, curve, shape)
    else img
  }
}

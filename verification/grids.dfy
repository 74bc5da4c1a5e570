/**
  Images as immutable grids: `g[y][x]` is the pixel of row `y`, column `x`,
  the `cv::Mat::at(y, x)` of the original.
 */
module Grids {
  import opened Numeric

  type Grid<T> = seq<seq<T>>

  /** A `cv::Vec3b`: three 8-bit channels in the order the image stores them (BGR for the
      colour images of the program). */
  datatype Pixel = Pixel(c0: byte, c1: byte, c2: byte)

  /** `g` has exactly `rows` rows of `cols` pixels each. */
  predicate IsGrid<T>(g: Grid<T>, rows: nat, cols: nat)
  {
    |g| == rows && forall y :: 0 <= y < rows ==> |g[y]| == cols
  }

  /** A `rows` x `cols` image filled with `v`: `cv::Mat(rows, cols, type, cv::Scalar(v))`. */
  function Fill<T>(rows: nat, cols: nat, v: T): (g: Grid<T>)
    ensures IsGrid(g, rows, cols)
    ensures forall y, x :: 0 <= y < rows && 0 <= x < cols ==> g[y][x] == v
  {
    seq(rows, _ => seq(cols, _ => v))
  }

  /** Row-major flattening, the order in which `cv::Mat` iterators and `reshape(1, rows*cols)` visit pixels. */
  function Flatten<T>(g: Grid<T>): seq<T>
  {
    if |g| == 0 then [] else Flatten(g[..|g| - 1]) + g[|g| - 1]
  }

  lemma FlattenLength<T>(g: Grid<T>, rows: nat, cols: nat)
    requires IsGrid(g, rows, cols)
    ensures |Flatten(g)| == rows * cols
  {
    if rows > 0 {
      FlattenLength(g[..rows - 1], rows - 1, cols);
      assert (rows - 1) * cols + cols == rows * cols;
    }
  }

  /** Pixel `(y, x)` sits at position `y * cols + x` of the flattening. */
  lemma FlattenIndex<T>(g: Grid<T>, rows: nat, cols: nat, y: nat, x: nat)
    requires IsGrid(g, rows, cols)
    requires y < rows && x < cols
    ensures y * cols + x < |Flatten(g)|
    ensures Flatten(g)[y * cols + x] == g[y][x]
  {
    var init := g[..rows - 1];
    FlattenLength(g, rows, cols);
    FlattenLength(init, rows - 1, cols);
    assert Flatten(g) == Flatten(init) + g[rows - 1];
    if y < rows - 1 {
      FlattenIndex(init, rows - 1, cols, y, x);
    } else {
      assert y * cols == (rows - 1) * cols;
    }
  }

  /** Every pixel of a non-empty grid appears in its flattening, and nothing else does. */
  lemma FlattenMembers<T>(g: Grid<T>, rows: nat, cols: nat, v: T)
    requires IsGrid(g, rows, cols)
    ensures v in Flatten(g) <==> exists y, x :: 0 <= y < rows && 0 <= x < cols && g[y][x] == v
  {
    if rows > 0 {
      FlattenMembers(g[..rows - 1], rows - 1, cols, v);
      assert Flatten(g) == Flatten(g[..rows - 1]) + g[rows - 1];
      if v in g[rows - 1] {
        var x :| 0 <= x < cols && g[rows - 1][x] == v;
      }
    }
  }
}

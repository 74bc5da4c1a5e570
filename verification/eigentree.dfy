/**
  The eigenvector quantizer of `dominant-colors.cpp`: a binary tree of colour classes. Every
  pixel carries the id of a class; a leaf of the tree holds the mean and covariance of its class.
  Each round splits the leaf whose covariance has the largest top eigenvalue, sending each pixel
  of that class to the side given by its projection on the top eigenvector.

  The image is taken in row-major order, as a sequence of pixels with a parallel sequence of
  class ids: every loop of the algorithm treats one pixel at a time, so the grid shape plays no
  part. The eigen decomposition (`cv::eigen`) is foreign code and comes in as a parameter.
 */
module EigenTree {
  import opened Numeric

  /** A pixel or a mean: three floats, the CIELab channels. */
  datatype Vec3 = Vec3(x: real, y: real, z: real)

  /** A 3 x 3 matrix, by rows. */
  datatype Mat3 = Mat3(r0: Vec3, r1: Vec3, r2: Vec3)

  const Zero := Vec3(0.0, 0.0, 0.0)
  const ZeroMat := Mat3(Zero, Zero, Zero)

  function Add(a: Vec3, b: Vec3): Vec3 { Vec3(a.x + b.x, a.y + b.y, a.z + b.z) }
  function Scale(a: Vec3, k: real): Vec3 { Vec3(a.x * k, a.y * k, a.z * k) }
  function Dot(a: Vec3, b: Vec3): real { a.x * b.x + a.y * b.y + a.z * b.z }

  /** `a * b.t()` */
  function Outer(a: Vec3, b: Vec3): Mat3 { Mat3(Scale(b, a.x), Scale(b, a.y), Scale(b, a.z)) }
  function MatAdd(a: Mat3, b: Mat3): Mat3 { Mat3(Add(a.r0, b.r0), Add(a.r1, b.r1), Add(a.r2, b.r2)) }
  function MatScale(a: Mat3, k: real): Mat3 { Mat3(Scale(a.r0, k), Scale(a.r1, k), Scale(a.r2, k)) }
  function MatSub(a: Mat3, b: Mat3): Mat3 { MatAdd(a, MatScale(b, -1.0)) }

  /** What `cv::eigen` reports first: the largest eigenvalue and its eigenvector. */
  datatype Eigen = Eigen(value: real, vector: Vec3)

  /** Mean and covariance of one class. `NoPixels` stands for the NaN mean and covariance that
      the division by a pixel count of zero leaves behind. */
  datatype Stats = Stats(mean: Vec3, cov: Mat3) | NoPixels

  /** The tree node: a class id, the statistics of the class, and two branches, `Nil` being
      the null pointer. */
  datatype Tree = Nil | Node(id: nat, stats: Stats, left: Tree, right: Tree)

  /** Number of pixels whose class is `id`. */
  function Count(labels: seq<nat>, id: nat): nat
  {
    if |labels| == 0 then 0
    else (if labels[0] == id then 1 else 0) + Count(labels[1..], id)
  }

  /** Sum of the pixels of class `id`. */
  function ClassSum(pixels: seq<Vec3>, labels: seq<nat>, id: nat): Vec3
    requires |pixels| == |labels|
  {
    if |labels| == 0 then Zero
    else Add(if labels[0] == id then pixels[0] else Zero, ClassSum(pixels[1..], labels[1..], id))
  }

  /** Sum of `p * p.t()` over the pixels of class `id`. */
  function ClassOuterSum(pixels: seq<Vec3>, labels: seq<nat>, id: nat): Mat3
    requires |pixels| == |labels|
  {
    if |labels| == 0 then ZeroMat
    else MatAdd(if labels[0] == id then Outer(pixels[0], pixels[0]) else ZeroMat,
                ClassOuterSum(pixels[1..], labels[1..], id))
  }

  /** `GetClassMeanCov`: the covariance is the sum of outer products less the outer product of
      the sum over the count, and the mean the sum over the count. */
  function ClassStats(pixels: seq<Vec3>, labels: seq<nat>, id: nat): (r: Stats)
    requires |pixels| == |labels|
    ensures r.NoPixels? <==> Count(labels, id) == 0
    ensures r.Stats? ==> Scale(r.mean, Count(labels, id) as real) == ClassSum(pixels, labels, id)
  {
    var n := Count(labels, id);
    if n == 0 then NoPixels
    else
      var sum := ClassSum(pixels, labels, id);
      var k := 1.0 / (n as real);
      ScaleBack(sum, n as real);
      Stats(Scale(sum, k), MatSub(ClassOuterSum(pixels, labels, id), MatScale(Outer(sum, sum), k)))
  }

  lemma ScaleBack(s: Vec3, n: real)
    requires n > 0.0
    ensures Scale(Scale(s, 1.0 / n), n) == s
  {
    var k := 1.0 / n;
    assert k * n == 1.0;
    assert s.x * k * n == s.x * (k * n);
    assert s.y * k * n == s.y * (k * n);
    assert s.z * k * n == s.z * (k * n);
  }

  /** A class that has a pixel has a count of at least one. */
  lemma CountPositive(labels: seq<nat>, i: nat)
    requires i < |labels|
    ensures Count(labels, labels[i]) > 0
  {
    if i > 0 {
      CountPositive(labels[1..], i - 1);
    }
  }

  /** The statistics of a class depend only on which pixels carry its id. */
  lemma {:induction false} SameClassStats(pixels: seq<Vec3>, a: seq<nat>, b: seq<nat>, id: nat)
    requires |pixels| == |a| == |b|
    requires forall i | 0 <= i < |a| :: (a[i] == id) == (b[i] == id)
    ensures ClassStats(pixels, a, id) == ClassStats(pixels, b, id)
  {
    SameClassSums(pixels, a, b, id);
  }

  lemma {:induction false} SameClassSums(pixels: seq<Vec3>, a: seq<nat>, b: seq<nat>, id: nat)
    requires |pixels| == |a| == |b|
    requires forall i | 0 <= i < |a| :: (a[i] == id) == (b[i] == id)
    ensures Count(a, id) == Count(b, id)
    ensures ClassSum(pixels, a, id) == ClassSum(pixels, b, id)
    ensures ClassOuterSum(pixels, a, id) == ClassOuterSum(pixels, b, id)
  {
    if |a| > 0 {
      assert (a[0] == id) == (b[0] == id);
      SameClassSums(pixels[1..], a[1..], b[1..], id);
    }
  }

  // ---------------------------------------------------------------- tree shape

  function Size(t: Tree): nat
  {
    if t.Nil? then 0 else 1 + Size(t.left) + Size(t.right)
  }

  /** A node that `GetLeaves` descends into: both branches present. */
  predicate IsSplit(t: Tree)
  {
    t.Node? && t.left.Node? && t.right.Node?
  }

  function QueueSize(q: seq<Tree>): nat
  {
    if |q| == 0 then 0 else Size(q[0]) + QueueSize(q[1..])
  }

  lemma {:induction false} QueueSizeAppend(a: seq<Tree>, b: seq<Tree>)
    ensures QueueSize(a + b) == QueueSize(a) + QueueSize(b)
  {
    if |a| == 0 {
      assert a + b == b;
    } else {
      assert (a + b)[0] == a[0] && (a + b)[1..] == a[1..] + b;
      QueueSizeAppend(a[1..], b);
    }
  }

  lemma QueueSizePair(l: Tree, r: Tree)
    ensures QueueSize([l, r]) == Size(l) + Size(r)
  {
    assert [r][1..] == [];
    assert QueueSize([r]) == Size(r);
    assert [l, r][1..] == [r];
  }

  predicate AllNodes(q: seq<Tree>)
  {
    forall i | 0 <= i < |q| :: q[i].Node?
  }

  /** The queue loop of `GetLeaves`: pop the front; push both branches of a split node,
      otherwise emit the node. */
  function Bfs(queue: seq<Tree>): (r: seq<Tree>)
    requires AllNodes(queue)
    ensures forall i | 0 <= i < |r| :: r[i].Node? && !IsSplit(r[i])
    decreases QueueSize(queue)
  {
    if |queue| == 0 then []
    else
      var cur := queue[0];
      if IsSplit(cur) then
        QueueSizeAppend(queue[1..], [cur.left, cur.right]);
        QueueSizePair(cur.left, cur.right);
        Bfs(queue[1..] + [cur.left, cur.right])
      else
        [cur] + Bfs(queue[1..])
  }

  /** `GetLeaves`: the nodes without both branches, in breadth-first order. */
  function GetLeaves(root: Tree): seq<Tree>
    requires root.Node?
  {
    Bfs([root])
  }

  /** The leaves again, depth first: the reference the breadth-first list is compared with. */
  function LeafList(t: Tree): (r: seq<Tree>)
    requires t.Node?
    ensures |r| >= 1
    ensures forall i | 0 <= i < |r| :: r[i].Node? && !IsSplit(r[i])
  {
    if IsSplit(t) then LeafList(t.left) + LeafList(t.right) else [t]
  }

  function Bag(q: seq<Tree>): multiset<Tree>
    requires AllNodes(q)
  {
    if |q| == 0 then multiset{} else multiset(LeafList(q[0])) + Bag(q[1..])
  }

  lemma {:induction false} BagAppend(a: seq<Tree>, b: seq<Tree>)
    requires AllNodes(a) && AllNodes(b)
    ensures AllNodes(a + b) && Bag(a + b) == Bag(a) + Bag(b)
  {
    if |a| == 0 {
      assert a + b == b;
    } else {
      assert (a + b)[0] == a[0] && (a + b)[1..] == a[1..] + b;
      BagAppend(a[1..], b);
    }
  }

  lemma BagPair(l: Tree, r: Tree)
    requires l.Node? && r.Node?
    ensures Bag([l, r]) == multiset(LeafList(l)) + multiset(LeafList(r))
  {
    assert [r][1..] == [];
    assert Bag([r]) == multiset(LeafList(r));
    assert [l, r][1..] == [r];
  }

  lemma {:induction false} BfsBag(q: seq<Tree>)
    requires AllNodes(q)
    ensures multiset(Bfs(q)) == Bag(q)
    decreases QueueSize(q)
  {
    if |q| > 0 {
      var cur, rest := q[0], q[1..];
      if IsSplit(cur) {
        var next := rest + [cur.left, cur.right];
        QueueSizeAppend(rest, [cur.left, cur.right]);
        QueueSizePair(cur.left, cur.right);
        BagAppend(rest, [cur.left, cur.right]);
        BagPair(cur.left, cur.right);
        BfsBag(next);
        assert Bfs(q) == Bfs(next);
        assert multiset(LeafList(cur)) == multiset(LeafList(cur.left)) + multiset(LeafList(cur.right));
      } else {
        BfsBag(rest);
        assert Bfs(q) == [cur] + Bfs(rest);
        assert LeafList(cur) == [cur];
      }
    }
  }

  /** Breadth first or depth first, the same leaves come out, each once. */
  lemma LeavesAreLeafList(root: Tree)
    requires root.Node?
    ensures multiset(GetLeaves(root)) == multiset(LeafList(root))
  {
    BfsBag([root]);
  }

  // ---------------------------------------------------------------- class ids

  function Ids(t: Tree): set<nat>
  {
    if t.Nil? then {} else {t.id} + Ids(t.left) + Ids(t.right)
  }

  /** Every class id names one node. */
  predicate Distinct(t: Tree)
  {
    t.Node? ==>
      Distinct(t.left) && Distinct(t.right) && t.id !in Ids(t.left) && t.id !in Ids(t.right)
      && Ids(t.left) * Ids(t.right) == {}
  }

  function LeafIds(t: Tree): set<nat>
    requires t.Node?
  {
    set x | x in LeafList(t) && x.Node? :: x.id
  }

  /** Every node has both branches or neither: `PartitionClass` always adds them in pairs. */
  predicate Full(t: Tree)
  {
    t.Node? ==> (t.left.Nil? <==> t.right.Nil?) && Full(t.left) && Full(t.right)
  }

  lemma {:induction false} LeafListInTree(t: Tree, x: Tree)
    requires t.Node? && x in LeafList(t)
    ensures x.Node? && x.id in Ids(t) && !IsSplit(x)
    ensures Full(t) ==> x.left.Nil? && x.right.Nil?
  {
    if IsSplit(t) {
      if x in LeafList(t.left) { LeafListInTree(t.left, x); } else { LeafListInTree(t.right, x); }
    }
  }

  /** The largest class id in the tree, 0 for an empty one. */
  function MaxId(t: Tree): (r: nat)
    ensures forall i | i in Ids(t) :: i <= r
    ensures t.Node? ==> r in Ids(t)
  {
    if t.Nil? then 0
    else
      var a, b := MaxId(t.left), MaxId(t.right);
      var m := if a < b then b else a;
      if m < t.id then t.id else m
  }

  /** `GetNextClassId`: one more than the largest id; so `nextid` and `nextid + 1` are both new. */
  function GetNextClassId(root: Tree): (r: nat)
    ensures r >= 1 && r !in Ids(root) && r + 1 !in Ids(root)
    ensures forall i | i in Ids(root) :: i < r
    ensures root.Node? ==> r - 1 in Ids(root)
  {
    MaxId(root) + 1
  }

  // ---------------------------------------------------------------- the split

  /** The side of the split: the pixel's projection on the top eigenvector against the
      mean's. Against a NaN mean the comparison is false, so the pixel goes right. */
  predicate GoesLeft(s: Stats, eig: Mat3 -> Eigen, p: Vec3)
  {
    s.Stats? && Dot(eig(s.cov).vector, p) <= Dot(eig(s.cov).vector, s.mean)
  }

  /** The class map after `PartitionClass`. */
  function PartitionLabels(pixels: seq<Vec3>, labels: seq<nat>, node: Tree, nextid: nat, eig: Mat3 -> Eigen): (r: seq<nat>)
    requires |pixels| == |labels| && node.Node?
    ensures |r| == |labels|
    ensures forall i | 0 <= i < |r| :: r[i] == if labels[i] != node.id then labels[i]
                                                 else if GoesLeft(node.stats, eig, pixels[i]) then nextid
                                                 else nextid + 1
  {
    if |labels| == 0 then []
    else
      var head := if labels[0] != node.id then labels[0]
                  else if GoesLeft(node.stats, eig, pixels[0]) then nextid else nextid + 1;
      [head] + PartitionLabels(pixels[1..], labels[1..], node, nextid, eig)
  }

  /** No pixel is lost or gained by a split: the two new classes share out the old one, which
      is left empty, and every other class keeps its pixels. */
  lemma {:induction false} PartitionCounts(pixels: seq<Vec3>, labels: seq<nat>, node: Tree, nextid: nat, eig: Mat3 -> Eigen, other: nat)
    requires |pixels| == |labels| && node.Node?
    requires node.id != nextid && node.id != nextid + 1
    requires Count(labels, nextid) == 0 && Count(labels, nextid + 1) == 0
    requires other != node.id && other != nextid && other != nextid + 1
    ensures var r := PartitionLabels(pixels, labels, node, nextid, eig);
      Count(r, nextid) + Count(r, nextid + 1) == Count(labels, node.id)
      && Count(r, node.id) == 0
      && Count(r, other) == Count(labels, other)
  {
    if |labels| > 0 {
      PartitionCounts(pixels[1..], labels[1..], node, nextid, eig, other);
      var r := PartitionLabels(pixels, labels, node, nextid, eig);
      assert r[1..] == PartitionLabels(pixels[1..], labels[1..], node, nextid, eig);
    }
  }

  /** The tree half of `PartitionClass`: the node with id `id` gets the two new branches. */
  function Graft(t: Tree, id: nat, l: Tree, r: Tree): Tree
  {
    if t.Nil? then Nil
    else if t.id == id then Node(t.id, t.stats, l, r)
    else Node(t.id, t.stats, Graft(t.left, id, l, r), Graft(t.right, id, l, r))
  }

  lemma {:induction false} GraftAbsent(t: Tree, id: nat, l: Tree, r: Tree)
    requires id !in Ids(t)
    ensures Graft(t, id, l, r) == t
  {
    if t.Node? {
      GraftAbsent(t.left, id, l, r);
      GraftAbsent(t.right, id, l, r);
    }
  }

  /** What `Graft` promises when two fresh leaves go under the leaf `target` of `t`. */
  ghost predicate Grafted(t: Tree, target: Tree, l: Tree, r: Tree, g: Tree)
    requires t.Node? && target.Node? && l.Node? && r.Node?
  {
    g.Node? && Distinct(g) && Full(g) && Ids(g) == Ids(t) + {l.id, r.id}
    && |LeafList(g)| == |LeafList(t)| + 1
    && forall x :: x in LeafList(g) <==> x == l || x == r || (x in LeafList(t) && x.Node? && x.id != target.id)
  }

  predicate GraftArgs(t: Tree, target: Tree, l: Tree, r: Tree)
  {
    t.Node? && Distinct(t) && Full(t) && target in LeafList(t)
    && target.Node? && l.Node? && r.Node? && l.left.Nil? && l.right.Nil? && r.left.Nil? && r.right.Nil?
    && l.id !in Ids(t) && r.id !in Ids(t) && l.id != r.id
  }

  /** Grafting two fresh leaves under a leaf adds one leaf: the old one gives way to the two
      new ones, every other leaf stays, and the ids stay distinct. */
  lemma {:induction false} GraftLeaves(t: Tree, target: Tree, l: Tree, r: Tree)
    requires GraftArgs(t, target, l, r)
    ensures Grafted(t, target, l, r, Graft(t, target.id, l, r))
    decreases t, 1
  {
    LeafListInTree(t, target);
    if t.id == target.id {
      GraftHere(t, target, l, r);
    } else if target in LeafList(t.left) {
      GraftLeft(t, target, l, r);
    } else {
      GraftRight(t, target, l, r);
    }
  }

  lemma GraftHere(t: Tree, target: Tree, l: Tree, r: Tree)
    requires GraftArgs(t, target, l, r) && t.id == target.id
    ensures Grafted(t, target, l, r, Graft(t, target.id, l, r))
  {
    if IsSplit(t) {
      if target in LeafList(t.left) { LeafListInTree(t.left, target); }
      else { LeafListInTree(t.right, target); }
      assert false;
    }
    assert LeafList(t) == [t];
    var g := Graft(t, target.id, l, r);
    assert LeafList(l) == [l] && LeafList(r) == [r];
    assert LeafList(g) == [l, r];
  }

  lemma {:induction false} GraftLeft(t: Tree, target: Tree, l: Tree, r: Tree)
    requires GraftArgs(t, target, l, r) && t.id != target.id && target in LeafList(t.left)
    ensures Grafted(t, target, l, r, Graft(t, target.id, l, r))
    decreases t, 0
  {
    LeafListInTree(t, target);
    assert IsSplit(t);
    LeafListInTree(t.left, target);
    GraftAbsent(t.right, target.id, l, r);
    GraftLeaves(t.left, target, l, r);
    forall x | x in LeafList(t.right) ensures x.Node? && x.id != target.id {
      LeafListInTree(t.right, x);
    }
  }

  lemma {:induction false} GraftRight(t: Tree, target: Tree, l: Tree, r: Tree)
    requires GraftArgs(t, target, l, r) && t.id != target.id && target !in LeafList(t.left)
    ensures Grafted(t, target, l, r, Graft(t, target.id, l, r))
    decreases t, 0
  {
    LeafListInTree(t, target);
    assert IsSplit(t);
    LeafListInTree(t.right, target);
    GraftAbsent(t.left, target.id, l, r);
    GraftLeaves(t.right, target, l, r);
    forall x | x in LeafList(t.left) ensures x.Node? && x.id != target.id {
      LeafListInTree(t.left, x);
    }
  }

  // ---------------------------------------------------------------- choosing the leaf

  /** The top eigenvalue of a class; NaN (`None`) for a class without pixels. */
  function EigenValue(s: Stats, eig: Mat3 -> Eigen): Option<real>
  {
    if s.Stats? then Some(eig(s.cov).value) else None
  }

  /** The scan of `GetMaxEigenValueNode` from position `i`, with the best position so far and
      its value: a strictly larger value takes over, a NaN never does. */
  function Scan(vals: seq<Option<real>>, i: nat, best: Option<nat>, mx: real): Option<nat>
    requires i <= |vals|
    decreases |vals| - i
  {
    if i == |vals| then best
    else if vals[i].Some? && vals[i].value > mx then Scan(vals, i + 1, Some(i), vals[i].value)
    else Scan(vals, i + 1, best, mx)
  }

  /** The first position holding the largest value, provided that value exceeds `lo`. */
  predicate IsFirstMax(vals: seq<Option<real>>, k: nat, lo: real)
  {
    k < |vals| && vals[k].Some? && vals[k].value > lo
    && (forall j | 0 <= j < |vals| && vals[j].Some? :: vals[j].value <= vals[k].value)
    && (forall j | 0 <= j < k && vals[j].Some? :: vals[j].value < vals[k].value)
  }

  predicate NoneAbove(vals: seq<Option<real>>, n: nat, lo: real)
    requires n <= |vals|
  {
    forall j | 0 <= j < n && vals[j].Some? :: vals[j].value <= lo
  }

  lemma {:induction false} ScanIsFirstMax(vals: seq<Option<real>>, i: nat, best: Option<nat>, mx: real, lo: real)
    requires i <= |vals|
    requires best.None? ==> mx == lo && NoneAbove(vals, i, lo)
    requires best.Some? ==>
      (best.value < i && vals[best.value].Some? && vals[best.value].value == mx && mx > lo
       && (forall j | 0 <= j < i && vals[j].Some? :: vals[j].value <= mx)
       && (forall j | 0 <= j < best.value && vals[j].Some? :: vals[j].value < mx))
    ensures var r := Scan(vals, i, best, mx);
      (r.None? ==> NoneAbove(vals, |vals|, lo)) && (r.Some? ==> IsFirstMax(vals, r.value, lo))
    decreases |vals| - i
  {
    if i < |vals| {
      if vals[i].Some? && vals[i].value > mx {
        ScanIsFirstMax(vals, i + 1, Some(i), vals[i].value, lo);
      } else {
        ScanIsFirstMax(vals, i + 1, best, mx, lo);
      }
    }
  }

  /** The scan started as the source starts it, at `-1` with no candidate. */
  function MaxAbove(vals: seq<Option<real>>, lo: real): (r: Option<nat>)
    ensures r.None? ==> NoneAbove(vals, |vals|, lo)
    ensures r.Some? ==> IsFirstMax(vals, r.value, lo)
  {
    ScanIsFirstMax(vals, 0, None, lo, lo);
    Scan(vals, 0, None, lo)
  }

  function Values(leaves: seq<Tree>, eig: Mat3 -> Eigen): (r: seq<Option<real>>)
    requires AllNodes(leaves)
    ensures |r| == |leaves|
    ensures forall i | 0 <= i < |r| :: r[i] == EigenValue(leaves[i].stats, eig)
  {
    seq(|leaves|, i requires 0 <= i < |leaves| => EigenValue(leaves[i].stats, eig))
  }

  /** `GetMaxEigenValueNode`: a root without branches is returned as it is; otherwise the first
      leaf, breadth first, whose top eigenvalue is largest and above `-1`, and the root when
      no leaf has one. */
  function GetMaxEigenValueNode(root: Tree, eig: Mat3 -> Eigen): (r: Tree)
    requires root.Node?
    ensures r.Node?
    ensures root.left.Nil? && root.right.Nil? ==> r == root
    ensures !(root.left.Nil? && root.right.Nil?) ==>
      (NoneAbove(Values(GetLeaves(root), eig), |GetLeaves(root)|, -1.0) && r == root)
      || (exists k | 0 <= k < |GetLeaves(root)| ::
            r == GetLeaves(root)[k] && IsFirstMax(Values(GetLeaves(root), eig), k, -1.0))
  {
    if root.left.Nil? && root.right.Nil? then root
    else
      var leaves := GetLeaves(root);
      match MaxAbove(Values(leaves, eig), -1.0)
      case Some(k) => leaves[k]
      case None => root
  }

  /** When some leaf has an eigenvalue above `-1`, the chosen node is a leaf with the largest
      one, and no leaf before it in breadth-first order has that value. */
  lemma MaxEigenNodeIsLeaf(root: Tree, eig: Mat3 -> Eigen, k: nat)
    requires root.Node? && k < |GetLeaves(root)|
    requires EigenValue(GetLeaves(root)[k].stats, eig).Some?
    requires EigenValue(GetLeaves(root)[k].stats, eig).value > -1.0
    ensures GetMaxEigenValueNode(root, eig) in GetLeaves(root)
    ensures GetMaxEigenValueNode(root, eig) in LeafList(root)
    ensures EigenValue(GetMaxEigenValueNode(root, eig).stats, eig).Some?
    ensures EigenValue(GetMaxEigenValueNode(root, eig).stats, eig).value >= EigenValue(GetLeaves(root)[k].stats, eig).value
  {
    var leaves := GetLeaves(root);
    LeavesAreLeafList(root);
    if root.left.Nil? && root.right.Nil? {
      assert leaves == [root];
    } else {
      var vals := Values(leaves, eig);
      var m := MaxAbove(vals, -1.0);
      assert vals[k].Some? && vals[k].value > -1.0;
      assert m.Some?;
      assert leaves[m.value] in multiset(LeafList(root));
    }
  }

  // ---------------------------------------------------------------- output

  /** The mean of a class as `cv::Vec3f`; `None` for the NaN mean of an empty class. */
  function MeanOf(s: Stats): Option<Vec3>
  {
    if s.Stats? then Some(s.mean) else None
  }

  /** `GetDominantColors`: one mean per leaf, in the order of `GetLeaves`. */
  function GetDominantColors(root: Tree): (r: seq<Option<Vec3>>)
    requires root.Node?
    ensures |r| == |GetLeaves(root)|
    ensures forall i | 0 <= i < |r| :: r[i] == MeanOf(GetLeaves(root)[i].stats)
  {
    var leaves := GetLeaves(root);
    seq(|leaves|, i requires 0 <= i < |leaves| => MeanOf(leaves[i].stats))
  }

  /** One pixel of `GetQuantizedImage`: the leaves are tried in order and the last one whose
      id is the pixel's class wins; with none the pixel keeps the zero it was created with. */
  function QuantizedPixel(leaves: seq<Tree>, cls: nat): Option<Vec3>
    requires AllNodes(leaves)
  {
    if |leaves| == 0 then Some(Zero)
    else if leaves[|leaves| - 1].id == cls then MeanOf(leaves[|leaves| - 1].stats)
    else QuantizedPixel(leaves[..|leaves| - 1], cls)
  }

  /** The pixel gets the mean of the one leaf whose id is its class, and zero when there is
      none. */
  lemma {:induction false} QuantizedPixelIsLeafMean(leaves: seq<Tree>, cls: nat)
    requires AllNodes(leaves)
    requires forall i, j | 0 <= i < |leaves| && 0 <= j < |leaves| && leaves[i].id == leaves[j].id :: leaves[i] == leaves[j]
    ensures forall k | 0 <= k < |leaves| && leaves[k].id == cls :: QuantizedPixel(leaves, cls) == MeanOf(leaves[k].stats)
    ensures (forall k | 0 <= k < |leaves| :: leaves[k].id != cls) ==> QuantizedPixel(leaves, cls) == Some(Zero)
  {
    if |leaves| > 0 {
      QuantizedPixelIsLeafMean(leaves[..|leaves| - 1], cls);
    }
  }

  /** `GetQuantizedImage` */
  function GetQuantizedImage(labels: seq<nat>, root: Tree): (r: seq<Option<Vec3>>)
    requires root.Node?
    ensures |r| == |labels|
    ensures forall i | 0 <= i < |r| :: r[i] == QuantizedPixel(GetLeaves(root), labels[i])
  {
    var leaves := GetLeaves(root);
    seq(|labels|, i requires 0 <= i < |labels| => QuantizedPixel(leaves, labels[i]))
  }

  /** Two leaves with the same id are the same leaf. */
  lemma {:induction false} LeafById(t: Tree, x: Tree, y: Tree)
    requires t.Node? && Distinct(t) && x in LeafList(t) && y in LeafList(t)
    requires x.Node? && y.Node? && x.id == y.id
    ensures x == y
  {
    if IsSplit(t) {
      var inLeft, yLeft := x in LeafList(t.left), y in LeafList(t.left);
      if inLeft { LeafListInTree(t.left, x); } else { LeafListInTree(t.right, x); }
      if yLeft { LeafListInTree(t.left, y); } else { LeafListInTree(t.right, y); }
      if inLeft && yLeft {
        LeafById(t.left, x, y);
      } else if !inLeft && !yLeft {
        LeafById(t.right, x, y);
      }
    }
  }

  // ---------------------------------------------------------------- the main loop

  /** The state of the loop of `DominantColorsEigenCIELab`: the tree and the class map. */
  datatype EigenState = EigenState(root: Tree, labels: seq<nat>)

  /** The start: a single class with id 1 that holds every pixel. */
  function Start(pixels: seq<Vec3>): (s: EigenState)
    ensures s.root.Node? && |s.labels| == |pixels|
  {
    var labels := seq(|pixels|, _ => 1);
    EigenState(Node(1, ClassStats(pixels, labels, 1), Nil, Nil), labels)
  }

  /** A non-empty image, and top eigenvalues above the `-1` the scan starts from, as those of a
      covariance (which is positive semi-definite) are. */
  ghost predicate Good(pixels: seq<Vec3>, eig: Mat3 -> Eigen)
  {
    |pixels| > 0 && forall m: Mat3 :: eig(m).value > -1.0
  }

  /** What every round keeps: ids distinct, branches in pairs, every pixel in the class of a
      leaf, and every leaf holding the statistics of its class. */
  ghost predicate Inv(pixels: seq<Vec3>, s: EigenState)
  {
    s.root.Node? && Distinct(s.root) && Full(s.root) && |s.labels| == |pixels|
    && (forall i | 0 <= i < |pixels| :: s.labels[i] in LeafIds(s.root))
    && (forall x | x in LeafList(s.root) :: x.Node? && x.stats == ClassStats(pixels, s.labels, x.id))
  }

  lemma StartInv(pixels: seq<Vec3>)
    ensures Inv(pixels, Start(pixels)) && |LeafList(Start(pixels).root)| == 1
  {
    var s := Start(pixels);
    assert LeafList(s.root) == [s.root];
    assert LeafIds(s.root) == {1};
  }

  /** Each round splits a leaf: given the leaf the round chooses, the next id, the new class
      map and the two new leaves, the invariant holds again and there is one leaf more. */
  lemma RoundInv(pixels: seq<Vec3>, s: EigenState, eig: Mat3 -> Eigen, target: Tree, nextid: nat, labels: seq<nat>, l: Tree, r: Tree)
    requires Good(pixels, eig) && Inv(pixels, s)
    requires target == GetMaxEigenValueNode(s.root, eig) && nextid == GetNextClassId(s.root)
    requires labels == PartitionLabels(pixels, s.labels, target, nextid, eig)
    requires l == Node(nextid, ClassStats(pixels, labels, nextid), Nil, Nil)
    requires r == Node(nextid + 1, ClassStats(pixels, labels, nextid + 1), Nil, Nil)
    ensures Inv(pixels, EigenState(Graft(s.root, target.id, l, r), labels))
    ensures |LeafList(Graft(s.root, target.id, l, r))| == |LeafList(s.root)| + 1
  {
    var chosen := ChosenLeaf(pixels, s, eig);
    GraftFresh(s.root, target, l, r);
    var g := Graft(s.root, target.id, l, r);
    LabelsInLeaves(pixels, s, target, labels, l, r, g);
    LeafStatsKept(pixels, s, target, labels, l, r, g);
  }

  /** The two leaves a round adds carry the next two ids, so grafting them is allowed. */
  lemma GraftFresh(root: Tree, target: Tree, l: Tree, r: Tree)
    requires root.Node? && Distinct(root) && Full(root) && target in LeafList(root)
    requires l.Node? && r.Node? && l.left.Nil? && l.right.Nil? && r.left.Nil? && r.right.Nil?
    requires l.id == GetNextClassId(root) && r.id == l.id + 1
    ensures target.Node? && Grafted(root, target, l, r, Graft(root, target.id, l, r))
  {
    LeafListInTree(root, target);
    GraftLeaves(root, target, l, r);
  }

  /** After the round every pixel is still in the class of a leaf: the pixels of the split
      leaf went to one of the two new leaves, the others kept a leaf that is still there. */
  lemma LabelsInLeaves(pixels: seq<Vec3>, s: EigenState, target: Tree, labels: seq<nat>, l: Tree, r: Tree, g: Tree)
    requires Inv(pixels, s) && target.Node? && l.Node? && r.Node? && Grafted(s.root, target, l, r, g)
    requires |labels| == |pixels|
    requires forall i | 0 <= i < |pixels| :: s.labels[i] != target.id ==> labels[i] == s.labels[i]
    requires forall i | 0 <= i < |pixels| :: s.labels[i] == target.id ==> labels[i] == l.id || labels[i] == r.id
    ensures forall i | 0 <= i < |pixels| :: labels[i] in LeafIds(g)
  {
    forall i | 0 <= i < |pixels| ensures labels[i] in LeafIds(g) {
      if s.labels[i] == target.id {
        assert l in LeafList(g) && r in LeafList(g);
      } else {
        var y :| y in LeafList(s.root) && y.Node? && y.id == s.labels[i];
        assert y in LeafList(g);
      }
    }
  }

  /** After the round every leaf holds the statistics of its class: the two new leaves by
      construction, the others because their classes did not change. */
  lemma LeafStatsKept(pixels: seq<Vec3>, s: EigenState, target: Tree, labels: seq<nat>, l: Tree, r: Tree, g: Tree)
    requires Inv(pixels, s) && target.Node? && l.Node? && r.Node? && Grafted(s.root, target, l, r, g)
    requires l.id !in Ids(s.root) && r.id !in Ids(s.root) && |labels| == |pixels|
    requires l.stats == ClassStats(pixels, labels, l.id) && r.stats == ClassStats(pixels, labels, r.id)
    requires forall i | 0 <= i < |pixels| :: s.labels[i] != target.id ==> labels[i] == s.labels[i]
    requires forall i | 0 <= i < |pixels| :: s.labels[i] == target.id ==> labels[i] == l.id || labels[i] == r.id
    ensures forall y | y in LeafList(g) :: y.Node? && y.stats == ClassStats(pixels, labels, y.id)
  {
    forall y | y in LeafList(g) ensures y.Node? && y.stats == ClassStats(pixels, labels, y.id) {
      if y != l && y != r {
        LeafListInTree(s.root, y);
        SameClassStats(pixels, s.labels, labels, y.id);
      }
    }
  }

  /** Under `Good`, the node the round splits is a leaf: the class of the first pixel is
      a leaf with pixels, whose eigenvalue is above `-1`. */
  lemma ChosenLeaf(pixels: seq<Vec3>, s: EigenState, eig: Mat3 -> Eigen) returns (target: Tree)
    requires Good(pixels, eig) && Inv(pixels, s)
    ensures target == GetMaxEigenValueNode(s.root, eig) && target in LeafList(s.root)
  {
    var root := s.root;
    var c := s.labels[0];
    var x :| x in LeafList(root) && x.Node? && x.id == c;
    CountPositive(s.labels, 0);
    assert x.stats.Stats?;
    assert EigenValue(x.stats, eig).value == eig(x.stats.cov).value;
    LeavesAreLeafList(root);
    assert x in multiset(GetLeaves(root));
    var k :| 0 <= k < |GetLeaves(root)| && GetLeaves(root)[k] == x;
    MaxEigenNodeIsLeaf(root, eig, k);
    target := GetMaxEigenValueNode(root, eig);
  }

  /** Under the invariant, each pixel of the quantized image is the mean of its class. */
  lemma QuantizedIsClassMean(pixels: seq<Vec3>, s: EigenState, i: nat)
    requires Inv(pixels, s) && i < |pixels|
    ensures QuantizedPixel(GetLeaves(s.root), s.labels[i]) == MeanOf(ClassStats(pixels, s.labels, s.labels[i]))
    ensures QuantizedPixel(GetLeaves(s.root), s.labels[i]).Some?
  {
    var root, c := s.root, s.labels[i];
    var leaves := GetLeaves(root);
    LeavesAreLeafList(root);
    forall a, b | 0 <= a < |leaves| && 0 <= b < |leaves| && leaves[a].id == leaves[b].id
      ensures leaves[a] == leaves[b]
    {
      assert leaves[a] in multiset(LeafList(root)) && leaves[b] in multiset(LeafList(root));
      LeafById(root, leaves[a], leaves[b]);
    }
    var x :| x in LeafList(root) && x.Node? && x.id == c;
    assert x in multiset(leaves);
    var k :| 0 <= k < |leaves| && leaves[k] == x;
    QuantizedPixelIsLeafMean(leaves, c);
    CountPositive(s.labels, i);
  }

  /** `DominantColorsEigenCIELab`: `nb_colors - 1` rounds, then the leaf means and the
      quantized image. For a non-empty image the tree ends with `max(nb_colors, 1)` leaves and
      every pixel is replaced by the mean of its class. */
  method DominantColorsEigenCIELab(pixels: seq<Vec3>, nbColors: int, eig: Mat3 -> Eigen)
    returns (colors: seq<Option<Vec3>>, quantized: seq<Option<Vec3>>, s: EigenState)
    ensures s.root.Node? && |s.labels| == |pixels| && |quantized| == |pixels|
    ensures colors == GetDominantColors(s.root) && quantized == GetQuantizedImage(s.labels, s.root)
    ensures Good(pixels, eig) ==> |colors| == IntMax(nbColors, 1)
    ensures Good(pixels, eig) ==> forall i | 0 <= i < |pixels| ::
      quantized[i].Some? && quantized[i] == MeanOf(ClassStats(pixels, s.labels, s.labels[i]))
  {
    s := Start(pixels);
    StartInv(pixels);
    var i := 0;
    while i < nbColors - 1
      invariant 0 <= i <= IntMax(nbColors - 1, 0)
      invariant s.root.Node? && |s.labels| == |pixels|
      invariant Good(pixels, eig) ==> Inv(pixels, s) && |LeafList(s.root)| == i + 1
    {
      var target := GetMaxEigenValueNode(s.root, eig);
      var nextid := GetNextClassId(s.root);
      var labels := PartitionLabels(pixels, s.labels, target, nextid, eig);
      var l := Node(nextid, ClassStats(pixels, labels, nextid), Nil, Nil);
      var r := Node(nextid + 1, ClassStats(pixels, labels, nextid + 1), Nil, Nil);
      if Good(pixels, eig) {
        RoundInv(pixels, s, eig, target, nextid, labels, l, r);
      }
      s := EigenState(Graft(s.root, target.id, l, r), labels);
      i := i + 1;
    }
    colors := GetDominantColors(s.root);
    quantized := GetQuantizedImage(s.labels, s.root);
    if Good(pixels, eig) {
      LeavesAreLeafList(s.root);
      assert |multiset(GetLeaves(s.root))| == |multiset(LeafList(s.root))|;
      forall j | 0 <= j < |pixels|
        ensures quantized[j].Some? && quantized[j] == MeanOf(ClassStats(pixels, s.labels, s.labels[j]))
      {
        QuantizedIsClassMean(pixels, s, j);
      }
    }
  }
}

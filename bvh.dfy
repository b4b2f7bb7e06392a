/** The bounding-volume hierarchy of `src/acceleration_structures/bvh.cpp`.

    The primitive list (`HittableList::hittables`) is an array of primitives that
    construction reorders in place; each primitive is an opaque id with an optional
    box (a primitive whose `bounding_box` fails has no box).  The tree is a value:
    its nodes are written only while they are being constructed and never after. */
module Bvh {
  import opened Geometry

  /** An intersectable primitive: an opaque id and the box its `bounding_box` yields. */
  datatype Prim = Prim(id: nat, box: Option<AABB>)

  /** `Leaf(p)` is the tree leaf `p->get_bvh_tree()`; a `Node` has a `left` child that is
      always present, an optional `right` child and the cached `box`. */
  datatype Tree = Leaf(prim: Prim) | Node(left: Tree, right: Option<Tree>, box: AABB)

  /** The two conditions on which construction logs a diagnostic and calls `exit`. */
  datatype BuildError = EmptyRange | MissingBox

  datatype Result<T> = Ok(value: T) | Err(error: BuildError)

  // ---------------------------------------------------------------------------
  // Comparators and axis selection

  /** `bounding_box_compare(a, b, axis)`; `box_x_compare`, `box_y_compare` and
      `box_z_compare` are this with axis 0, 1 and 2.  It is false as soon as one of the
      two boxes is missing, and otherwise compares the minimum corners strictly. */
  predicate BoxLess(a: Prim, b: Prim, axis: Axis)
  {
    a.box.Some? && b.box.Some? && Coord(a.box.value.mn, axis) < Coord(b.box.value.mn, axis)
  }

  /** On boxed primitives the comparator is a strict weak order: irreflexive,
      asymmetric and transitive, and being incomparable (equal minima) is transitive
      too.  Without both boxes it is false. */
  lemma BoxLessStrictWeakOrder(a: Prim, b: Prim, c: Prim, axis: Axis)
    ensures BoxLess(a, b, axis) ==> a.box.Some? && b.box.Some? && !BoxLess(b, a, axis)
    ensures a.box.Some? && b.box.Some? && !BoxLess(a, b, axis) && !BoxLess(b, a, axis)
            ==> Coord(a.box.value.mn, axis) == Coord(b.box.value.mn, axis)
    ensures !BoxLess(a, a, axis)
    ensures BoxLess(a, b, axis) && BoxLess(b, c, axis) ==> BoxLess(a, c, axis)
    ensures a.box.Some? && b.box.Some? && c.box.Some?
            && !BoxLess(a, b, axis) && !BoxLess(b, a, axis) && !BoxLess(b, c, axis) && !BoxLess(c, b, axis)
            ==> !BoxLess(a, c, axis) && !BoxLess(c, a, axis)
  {
  }

  /** With a box missing it is not: a box-less primitive is incomparable with two
      primitives that are comparable with each other. */
  lemma BoxLessNotStrictWeakOrderWhenMissing(axis: Axis)
    ensures var lo := Prim(0, Some(ZeroBox));
            var hi := Prim(1, Some(AABB(Vec3(1.0, 1.0, 1.0), Vec3(1.0, 1.0, 1.0))));
            var none := Prim(2, None);
            BoxLess(lo, hi, axis) && !BoxLess(none, lo, axis) && !BoxLess(lo, none, axis)
            && !BoxLess(none, hi, axis) && !BoxLess(hi, none, axis)
  {
    var hi := AABB(Vec3(1.0, 1.0, 1.0), Vec3(1.0, 1.0, 1.0));
    assert Coord(ZeroBox.mn, axis) == 0.0 && Coord(hi.mn, axis) == 1.0;
  }

  /** The axis picked from the three split estimates: the one with the least estimate,
      the lowest-numbered one among equal estimates. */
  function ChooseAxis(estX: real, estY: real, estZ: real): (axis: Axis)
    ensures var est := [estX, estY, estZ];
            (forall b: Axis :: est[axis] <= est[b]) && (forall b: Axis :: b < axis ==> est[axis] < est[b])
  {
    if estX <= estY && estX <= estZ then 0
    else if estY <= estX && estY <= estZ then 1
    else 2
  }

  /** The order of the two children in the two-object case: `(left, right)`.  The pair
      is the two inputs, never strictly out of order on `axis`, and `q` comes first
      whenever `p` is not strictly smaller (equal minima, or a box missing). */
  function OrderPair(p: Prim, q: Prim, axis: Axis): (r: (Prim, Prim))
    ensures multiset{r.0, r.1} == multiset{p, q}
    ensures !BoxLess(r.1, r.0, axis)
    ensures !BoxLess(p, q, axis) ==> r == (q, p)
  {
    if BoxLess(p, q, axis) then (p, q) else (q, p)
  }

  // ---------------------------------------------------------------------------
  // Ranges of the primitive list

  predicate AllBoxed(s: seq<Prim>)
  {
    forall p :: p in s ==> p.box.Some?
  }

  /** Sorted by the comparator of `axis`: no later element is strictly smaller. */
  predicate SortedOn(s: seq<Prim>, axis: Axis)
  {
    forall i, j :: 0 <= i < j < |s| ==> !BoxLess(s[j], s[i], axis)
  }

  /** `x` and `y` agree outside the half-open index range `[from, to)`. */
  predicate SameOutside(x: seq<Prim>, y: seq<Prim>, from: nat, to: nat)
  {
    |x| == |y| && forall i :: 0 <= i < |x| && !(from <= i < to) ==> x[i] == y[i]
  }

  /** `y` is `x` with at most the range `[from, to)` reordered. */
  ghost predicate Reordered(x: seq<Prim>, y: seq<Prim>, from: nat, to: nat)
  {
    from <= to <= |x| && SameOutside(x, y, from, to) && multiset(y[from..to]) == multiset(x[from..to])
  }

  lemma ReorderedTrans(x: seq<Prim>, y: seq<Prim>, z: seq<Prim>, from: nat, to: nat)
    requires Reordered(x, y, from, to) && Reordered(y, z, from, to)
    ensures Reordered(x, z, from, to)
  {
  }

  lemma AllBoxedMultiset(s: seq<Prim>, t: seq<Prim>)
    requires multiset(s) == multiset(t)
    ensures AllBoxed(s) <==> AllBoxed(t)
  {
    forall p | p in s ensures p in t { assert p in multiset(s); }
    forall p | p in t ensures p in s { assert p in multiset(t); }
  }

  lemma AllBoxedSplit(s: seq<Prim>, k: nat)
    requires k <= |s|
    ensures AllBoxed(s) <==> AllBoxed(s[..k]) && AllBoxed(s[k..])
  {
    assert s == s[..k] + s[k..];
  }

  /** `HittableList::bounding_box(box, from, to)` over the range `s`: the union of the
      boxes, absent when the range is empty or one of its boxes is missing. */
  function RangeBox(s: seq<Prim>): (r: Option<AABB>)
    ensures r.Some? <==> s != [] && AllBoxed(s)
    ensures r.Some? ==> forall p :: p in s ==> Contains(r.value, p.box.value)
    ensures r.Some? ==> forall c: AABB :: (forall p :: p in s ==> Contains(c, p.box.value)) ==> Contains(c, r.value)
  {
    if s == [] || s[0].box.None? then None
    else if |s| == 1 then s[0].box
    else match RangeBox(s[1..])
         case None => None
         case Some(b) =>
           var r := Surround(s[0].box.value, b);
           assert forall p :: p in s[1..] ==> Contains(b, p.box.value);
           forall p | p in s ensures Contains(r, p.box.value) {
             if p != s[0] {
               assert p in s[1..];
               ContainsTransitive(r, b, p.box.value);
             }
           }
           forall c: AABB | forall p :: p in s ==> Contains(c, p.box.value)
             ensures Contains(c, r)
           {
             assert s[0] in s;
             assert forall p :: p in s[1..] ==> p in s;
           }
           Some(r)
  }

  /** The split estimate of a range in its current order: the `effective_size` of the
      boxes of its two count halves, summed; 0 for a range of at most one primitive. */
  function SplitEstimate(s: seq<Prim>, effSize: AABB -> real): real
  {
    if |s| <= 1 then 0.0
    else
      var half := |s| / 2;
      effSize(BoxOrZero(RangeBox(s[..half]))) + effSize(BoxOrZero(RangeBox(s[half..])))
  }

  function BoxOrZero(b: Option<AABB>): AABB
  {
    if b.Some? then b.value else ZeroBox
  }

  // ---------------------------------------------------------------------------
  // `std::sort` over a range

  /** Inserts `x` before the first element that is not strictly smaller than it. */
  function Insert(x: Prim, s: seq<Prim>, axis: Axis): (r: seq<Prim>)
    ensures multiset(r) == multiset{x} + multiset(s)
  {
    if s == [] || !BoxLess(s[0], x, axis) then [x] + s
    else
      assert s == [s[0]] + s[1..];
      [s[0]] + Insert(x, s[1..], axis)
  }

  function InsertionSort(s: seq<Prim>, axis: Axis): (r: seq<Prim>)
    ensures multiset(r) == multiset(s)
  {
    if s == [] then []
    else
      assert s == [s[0]] + s[1..];
      Insert(s[0], InsertionSort(s[1..], axis), axis)
  }

  lemma {:induction false} InsertSorted(x: Prim, s: seq<Prim>, axis: Axis)
    requires x.box.Some? && AllBoxed(s) && SortedOn(s, axis)
    ensures SortedOn(Insert(x, s, axis), axis)
  {
    if s == [] || !BoxLess(s[0], x, axis) {
      InsertFront(x, s, axis);
    } else {
      var t := s[1..];
      assert forall p :: p in t ==> p in s;
      InsertSorted(x, t, axis);
      InsertBehind(x, s, axis);
    }
  }

  /** `x`, no greater than the head of the sorted `s`, goes in front. */
  lemma InsertFront(x: Prim, s: seq<Prim>, axis: Axis)
    requires x.box.Some? && AllBoxed(s) && SortedOn(s, axis)
    requires s == [] || !BoxLess(s[0], x, axis)
    ensures SortedOn([x] + s, axis)
  {
    var r := [x] + s;
    forall i, j | 0 <= i < j < |r| ensures !BoxLess(r[j], r[i], axis) {
      if i == 0 {
        assert r[j] in s;
        if j > 1 { assert !BoxLess(s[j - 1], s[0], axis); }
      } else {
        assert r[i] == s[i - 1] && r[j] == s[j - 1];
      }
    }
  }

  /** The head of the sorted `s`, strictly smaller than `x`, stays in front of the
      sorted insertion of `x` into the rest. */
  lemma InsertBehind(x: Prim, s: seq<Prim>, axis: Axis)
    requires x.box.Some? && AllBoxed(s) && SortedOn(s, axis)
    requires s != [] && BoxLess(s[0], x, axis) && SortedOn(Insert(x, s[1..], axis), axis)
    ensures SortedOn([s[0]] + Insert(x, s[1..], axis), axis)
  {
    var t := s[1..];
    var u := Insert(x, t, axis);
    var r := [s[0]] + u;
    assert forall k :: 0 <= k < |t| ==> !BoxLess(t[k], s[0], axis) by {
      forall k | 0 <= k < |t| ensures !BoxLess(t[k], s[0], axis) {
        assert t[k] == s[k + 1];
      }
    }
    forall i, j | 0 <= i < j < |r| ensures !BoxLess(r[j], r[i], axis) {
      if i == 0 {
        assert r[j] in multiset(u);
        assert r[j] == x || r[j] in multiset(t);
      } else {
        assert r[i] == u[i - 1] && r[j] == u[j - 1];
      }
    }
  }

  lemma {:induction false} InsertionSortSorted(s: seq<Prim>, axis: Axis)
    requires AllBoxed(s)
    ensures SortedOn(InsertionSort(s, axis), axis)
  {
    if s != [] {
      assert forall p :: p in s[1..] ==> p in s;
      InsertionSortSorted(s[1..], axis);
      var t := InsertionSort(s[1..], axis);
      forall p | p in t ensures p.box.Some? {
        assert p in multiset(t);
        assert p in multiset(s[1..]);
      }
      InsertSorted(s[0], t, axis);
    }
  }

  /** `std::sort(begin + from, begin + to, comparator)`: some reordering of the range
      that leaves the rest of the list alone and, when the comparator is a strict weak
      order on the range (every box present), sorts it.  Which of the equally ranked
      orders the library picks is not promised, and neither is anything else. */
  method SortRange(a: array<Prim>, from: nat, to: nat, axis: Axis)
    requires from <= to <= a.Length
    modifies a
    ensures Reordered(old(a[..]), a[..], from, to)
    ensures AllBoxed(old(a[from..to])) ==> SortedOn(a[from..to], axis)
  {
    var s := InsertionSort(a[from..to], axis);
    if AllBoxed(a[from..to]) {
      InsertionSortSorted(a[from..to], axis);
    }
    assert |s| == to - from by {
      assert |multiset(s)| == |multiset(a[from..to])|;
    }
    forall k | from <= k < to {
      a[k] := s[k - from];
    }
    assert a[from..to] == s;
  }

  // ---------------------------------------------------------------------------
  // Construction

  /** `BVH_Node_by_axis_estimation(hitlist, from, to, axis)`: for a range of at most one
      primitive it touches nothing and returns 0; otherwise it sorts the range on `axis`
      and returns the split estimate of the sorted range. */
  method Estimate(a: array<Prim>, from: nat, to: nat, axis: Axis, effSize: AABB -> real)
    returns (est: real)
    requires from <= to <= a.Length
    modifies a
    ensures Reordered(old(a[..]), a[..], from, to)
    ensures to - from <= 1 ==> a[..] == old(a[..]) && est == 0.0
    ensures to - from > 1 && AllBoxed(old(a[from..to])) ==> SortedOn(a[from..to], axis)
    ensures est == SplitEstimate(a[from..to], effSize)
  {
    var cnt := to - from;
    if cnt <= 1 {
      return 0.0;
    }
    SortRange(a, from, to, axis);
    est := SplitEstimate(a[from..to], effSize);
  }

  /** The in-order list of the primitives at the leaves. */
  function Leaves(t: Tree): seq<Prim>
  {
    match t
    case Leaf(p) => [p]
    case Node(l, None, _) => Leaves(l)
    case Node(l, Some(r), _) => Leaves(l) + Leaves(r)
  }

  /** `bounding_box`: a node always yields its cached box; a leaf yields its
      primitive's box, which may be missing. */
  function BoundingBox(t: Tree): (r: Option<AABB>)
    ensures t.Node? ==> r == Some(t.box)
    ensures t.Leaf? ==> r == t.prim.box
  {
    match t
    case Leaf(p) => p.box
    case Node(_, _, b) => Some(b)
  }

  /** Every leaf has a box and every node caches the union of its children's boxes
      (the sole child's box when there is one child). */
  ghost predicate Valid(t: Tree)
    ensures Valid(t) ==> BoundingBox(t).Some?
  {
    match t
    case Leaf(p) => p.box.Some?
    case Node(l, None, b) => Valid(l) && BoundingBox(l) == Some(b)
    case Node(l, Some(r), b) =>
      Valid(l) && Valid(r) && b == Surround(BoundingBox(l).value, BoundingBox(r).value)
  }

  /** Every leaf of `l` is no greater than every leaf of `r` on `axis`. */
  ghost predicate Separated(l: Tree, r: Tree, axis: Axis)
  {
    forall x, y :: x in Leaves(l) && y in Leaves(r) ==> !BoxLess(y, x, axis)
  }

  /** The shape construction produces: one object gives a node with a single leaf; two
      give a node with two leaves in comparator order; more give a node whose two child
      nodes hold the first `n / 2` and the remaining objects, split along some axis. */
  ghost predicate Shaped(t: Tree)
  {
    match t
    case Leaf(_) => false
    case Node(l, None, _) => l.Leaf?
    case Node(l, Some(r), _) =>
      var n := |Leaves(l)| + |Leaves(r)|;
      |Leaves(l)| == n / 2 && (exists axis: Axis :: Separated(l, r, axis))
      && if n == 2 then l.Leaf? && r.Leaf?
         else l.Node? && r.Node? && Shaped(l) && Shaped(r)
  }

  /** Lines 84-97: the box of a new node from its children, absent when a present child
      fails to yield a box (the source then logs and exits). */
  function NodeBox(left: Tree, right: Option<Tree>): (r: Option<AABB>)
    ensures r.Some? <==> BoundingBox(left).Some? && (right.Some? ==> BoundingBox(right.value).Some?)
    ensures r.Some? ==> Contains(r.value, BoundingBox(left).value)
    ensures r.Some? && right.Some? ==> Contains(r.value, BoundingBox(right.value).value)
    ensures r.Some? && right.Some? ==>
              forall c: AABB :: Contains(c, BoundingBox(left).value) && Contains(c, BoundingBox(right.value).value)
                                ==> Contains(c, r.value)
    ensures r.Some? && right.None? ==> r == BoundingBox(left)
  {
    if BoundingBox(left).None? || (right.Some? && BoundingBox(right.value).None?) then None
    else if right.Some? then Some(Surround(BoundingBox(left).value, BoundingBox(right.value).value))
    else BoundingBox(left)
  }

  lemma SeparatedFromSorted(s: seq<Prim>, k: nat, l: Tree, r: Tree, axis: Axis)
    requires k <= |s| && SortedOn(s, axis)
    requires multiset(Leaves(l)) == multiset(s[..k]) && multiset(Leaves(r)) == multiset(s[k..])
    ensures Separated(l, r, axis)
  {
    forall x, y | x in Leaves(l) && y in Leaves(r) ensures !BoxLess(y, x, axis) {
      assert x in multiset(s[..k]);
      assert y in multiset(s[k..]);
      SortedHalves(s, k, x, y, axis);
    }
  }

  /** In a sorted sequence, nothing after position `k` is smaller than anything before. */
  lemma SortedHalves(s: seq<Prim>, k: nat, x: Prim, y: Prim, axis: Axis)
    requires k <= |s| && SortedOn(s, axis) && x in s[..k] && y in s[k..]
    ensures !BoxLess(y, x, axis)
  {
    var i :| 0 <= i < k && s[..k][i] == x;
    var j :| 0 <= j < |s| - k && s[k..][j] == y;
    assert s[i] == x && s[k + j] == y;
  }

  /** What a successful construction over the range `s` yields: a valid, shaped node
      whose leaves are exactly the primitives of `s`. */
  ghost predicate BuiltFrom(t: Tree, s: seq<Prim>)
  {
    t.Node? && Valid(t) && Shaped(t) && multiset(Leaves(t)) == multiset(s)
  }

  /** A node over more than two objects, in the order `s` the range has afterwards: the
      left child holds the first `|s| / 2` of them, the right child the rest, and no
      left primitive is greater than a right one on `axis`. */
  ghost predicate SplitAt(t: Tree, s: seq<Prim>, axis: Axis)
  {
    t.Node? && t.right.Some? && Separated(t.left, t.right.value, axis)
    && multiset(Leaves(t.left)) == multiset(s[..|s| / 2])
    && multiset(Leaves(t.right.value)) == multiset(s[|s| / 2..])
  }

  /** What construction over the range `s` (in its order before construction) yields:
      success exactly when every primitive of `s` has a box, `MissingBox` otherwise,
      and on success a node built from `s`. */
  ghost predicate Outcome(r: Result<Tree>, s: seq<Prim>)
  {
    (r.Ok? <==> AllBoxed(s)) && (r.Err? ==> r.error == MissingBox)
    && (r.Ok? ==> BuiltFrom(r.value, s))
  }

  lemma OutcomeMultiset(r: Result<Tree>, s: seq<Prim>, t: seq<Prim>)
    requires multiset(s) == multiset(t) && Outcome(r, s)
    ensures Outcome(r, t)
  {
    AllBoxedMultiset(s, t);
  }

  lemma OutcomeSame(r: Result<Tree>, s: seq<Prim>, t: seq<Prim>)
    requires s == t && Outcome(r, s)
    ensures Outcome(r, t)
  {
  }

  /** Lines 65-67 with 84-97: the node over a single object, whose only child is the
      object's leaf and whose box is that leaf's box. */
  function SingleNode(p: Prim): (r: Result<Tree>)
    ensures r.Ok? <==> p.box.Some?
    ensures Outcome(r, [p])
    ensures r.Ok? ==> r.value.left == Leaf(p) && r.value.right.None? && BoundingBox(r.value) == p.box
  {
    var left := Leaf(p);
    var box := NodeBox(left, None);
    if box.None? then Err(MissingBox) else Ok(Node(left, None, box.value))
  }

  /** Lines 68-75 with 84-97: the node over two objects `p`, `q` (in list order), with
      the leaves ordered by the comparator of `axis`. */
  function PairNode(p: Prim, q: Prim, axis: Axis): (r: Result<Tree>)
    ensures r.Ok? <==> p.box.Some? && q.box.Some?
    ensures Outcome(r, [p, q])
    ensures r.Ok? ==> r.value.right.Some? && Separated(r.value.left, r.value.right.value, axis)
    ensures r.Ok? ==> var (x, y) := OrderPair(p, q, axis);
                      r.value.left == Leaf(x) && r.value.right == Some(Leaf(y))
  {
    var (x, y) := OrderPair(p, q, axis);
    var left := Leaf(x);
    var right := Leaf(y);
    var box := NodeBox(left, Some(right));
    AllBoxedPair(p, q);
    if box.None? then Err(MissingBox)
    else
      PairBuilt(p, q, x, y, axis);
      Ok(Node(left, Some(right), box.value))
  }

  lemma AllBoxedPair(p: Prim, q: Prim)
    ensures AllBoxed([p, q]) <==> p.box.Some? && q.box.Some?
  {
    assert p in [p, q] && q in [p, q];
  }

  /** The node over two boxed objects in comparator order is built from them. */
  lemma PairBuilt(p: Prim, q: Prim, x: Prim, y: Prim, axis: Axis)
    requires (x, y) == OrderPair(p, q, axis) && x.box.Some? && y.box.Some?
    ensures var t := Node(Leaf(x), Some(Leaf(y)), Surround(x.box.value, y.box.value));
            BuiltFrom(t, [p, q]) && Separated(t.left, t.right.value, axis)
  {
    var t := Node(Leaf(x), Some(Leaf(y)), Surround(x.box.value, y.box.value));
    assert Leaves(t.left) == [x] && Leaves(t.right.value) == [y];
    assert Separated(t.left, t.right.value, axis);
    assert Shaped(t);
    assert multiset(Leaves(t)) == multiset([p, q]);
  }

  /** The shape of each case of construction over a range that held `before` and holds
      `after` once construction is done: one object gives a node whose only child is
      its leaf and whose box is its box; two give a node over their two leaves in
      comparator order on `axis`; more give a node split on `axis` at the count
      midpoint of the range as it is left. */
  ghost predicate CaseShape(r: Result<Tree>, before: seq<Prim>, after: seq<Prim>, axis: Axis)
  {
    (r.Ok? && |before| == 1 && before[0].box.Some? ==>
       r.value == Node(Leaf(before[0]), None, before[0].box.value))
    && (r.Ok? && |after| == 2 ==>
          var (x, y) := OrderPair(after[0], after[1], axis);
          r.value.Node? && r.value.left == Leaf(x) && r.value.right == Some(Leaf(y)))
    && (r.Ok? && |after| > 2 ==> SplitAt(r.value, after, axis))
  }

  lemma CaseShapeBefore(r: Result<Tree>, b1: seq<Prim>, b2: seq<Prim>, after: seq<Prim>, axis: Axis)
    requires |b1| == |b2| && (|b1| <= 1 ==> b1 == b2) && CaseShape(r, b1, after, axis)
    ensures CaseShape(r, b2, after, axis)
  {
  }

  /** The range constructor `BVH_Node(hitlist, from, to)`.  It errs with `EmptyRange`
      exactly on an empty range; otherwise its outcome is as `Outcome` says, each case
      has the shape `CaseShape` gives, and the list has only been reordered inside the
      range.  `axis` is the split axis chosen from the three estimates as `AxisChosen`
      says, over the list as each estimate left it (`sx`, `sy`, `sz`); a range of two
      objects is always split on x. */
  method Build(a: array<Prim>, from: nat, to: nat, effSize: AABB -> real)
    returns (r: Result<Tree>, ghost axis: Axis, ghost sx: seq<Prim>, ghost sy: seq<Prim>,
             ghost sz: seq<Prim>)
    requires from <= to <= a.Length
    modifies a
    ensures Reordered(old(a[..]), a[..], from, to)
    ensures AxisChosen(old(a[..]), sx, sy, sz, from, to, axis, effSize)
    ensures to - from == 2 ==> axis == 0
    ensures r == Err(EmptyRange) <==> from == to
    ensures from < to ==> Outcome(r, old(a[from..to]))
    ensures from < to ==> CaseShape(r, old(a[from..to]), a[from..to], axis)
    decreases (to as int) - from, 4
  {
    ghost var s0 := a[..];
    var ax;
    ax, sx, sy := SelectAxis(a, from, to, effSize);
    axis := ax;
    sz := a[..];
    if from == to {
      r := Err(EmptyRange);
    } else {
      AxisChosenFacts(s0, sx, sy, sz, from, to, axis, effSize);
      PairSplitsOnX(s0, sx, sy, sz, from, to, axis, effSize);
      r := BuildNonEmpty(a, from, to, ax, effSize);
      NonEmptyBuilt(s0, sz, a[..], from, to, axis, r);
    }
  }

  /** The outcome and shape over the range as the estimates left it carry over to the
      range as it was before them. */
  lemma NonEmptyBuilt(s0: seq<Prim>, sz: seq<Prim>, s3: seq<Prim>, from: nat, to: nat, axis: Axis,
                      r: Result<Tree>)
    requires from < to && Reordered(s0, sz, from, to) && (to - from <= 1 ==> sz == s0)
    requires Reordered(sz, s3, from, to)
    requires Outcome(r, sz[from..to]) && CaseShape(r, sz[from..to], s3[from..to], axis)
    ensures Reordered(s0, s3, from, to) && r != Err(EmptyRange)
    ensures Outcome(r, s0[from..to]) && CaseShape(r, s0[from..to], s3[from..to], axis)
  {
    ReorderedTrans(s0, sz, s3, from, to);
    OutcomeMultiset(r, sz[from..to], s0[from..to]);
    CaseShapeBefore(r, sz[from..to], s0[from..to], s3[from..to], axis);
  }

  /** What construction needs of the axis choice: the estimates only reordered the
      range and left a range of at most one object alone. */
  lemma AxisChosenFacts(s0: seq<Prim>, sx: seq<Prim>, sy: seq<Prim>, sz: seq<Prim>,
                        from: nat, to: nat, axis: Axis, effSize: AABB -> real)
    requires AxisChosen(s0, sx, sy, sz, from, to, axis, effSize)
    ensures Reordered(s0, sz, from, to) && (to - from <= 1 ==> sz == s0)
  {
    ReorderedTrans(s0, sx, sy, from, to);
    ReorderedTrans(s0, sy, sz, from, to);
  }

  /** Lines 58-97 once the axis is chosen, on a non-empty range. */
  method BuildNonEmpty(a: array<Prim>, from: nat, to: nat, axis: Axis, effSize: AABB -> real)
    returns (r: Result<Tree>)
    requires from < to <= a.Length
    modifies a
    ensures Reordered(old(a[..]), a[..], from, to)
    ensures Outcome(r, old(a[from..to]))
    ensures CaseShape(r, old(a[from..to]), a[from..to], axis)
    decreases (to as int) - from, 3
  {
    ghost var s1 := a[..];
    ghost var range0 := a[from..to];
    var cnt := to - from;
    if cnt == 1 {
      assert range0 == [a[from]];
      r := SingleNode(a[from]);
      OutcomeSame(r, [a[from]], range0);
    } else if cnt == 2 {
      assert range0 == [a[from], a[from + 1]];
      r := PairNode(a[from], a[from + 1], axis);
      OutcomeSame(r, [a[from], a[from + 1]], range0);
    } else {
      r := BuildSplit(a, from, to, axis, effSize);
    }
  }

  /** Lines 41-52, stated over the list `x` before the estimates, the list `sx` after
      the x estimate, `sy` after the y estimate and `sz` after the z estimate: each
      estimate only reorders the range, sorts it on its own axis when it has more than
      one object and all of them have boxes, and leaves a shorter range alone; the
      axis is the one whose estimate (the split estimate of the range in the order
      that estimate sorted it into) is least, ties going to x, then y. */
  ghost predicate AxisChosen(x: seq<Prim>, sx: seq<Prim>, sy: seq<Prim>, sz: seq<Prim>,
                             from: nat, to: nat, axis: Axis, effSize: AABB -> real)
  {
    Reordered(x, sx, from, to) && Reordered(sx, sy, from, to) && Reordered(sy, sz, from, to)
    && (to - from <= 1 ==> sx == x && sy == x && sz == x)
    && (to - from > 1 && AllBoxed(x[from..to]) ==> SortedOn(sx[from..to], 0))
    && (to - from > 1 && AllBoxed(sx[from..to]) ==> SortedOn(sy[from..to], 1))
    && (to - from > 1 && AllBoxed(sy[from..to]) ==> SortedOn(sz[from..to], 2))
    && axis == ChooseAxis(SplitEstimate(sx[from..to], effSize), SplitEstimate(sy[from..to], effSize),
                          SplitEstimate(sz[from..to], effSize))
  }

  /** The three estimates, each of which first sorts the range on its own axis, and
      the axis chosen from them.  The range is left in the order of the z estimate;
      `sx` and `sy` are the list after the x and the y estimate. */
  method SelectAxis(a: array<Prim>, from: nat, to: nat, effSize: AABB -> real)
    returns (axis: Axis, ghost sx: seq<Prim>, ghost sy: seq<Prim>)
    requires from <= to <= a.Length
    modifies a
    ensures Reordered(old(a[..]), a[..], from, to)
    ensures AxisChosen(old(a[..]), sx, sy, a[..], from, to, axis, effSize)
  {
    ghost var s0 := a[..];
    var ex := Estimate(a, from, to, 0, effSize);
    sx := a[..];
    var ey := Estimate(a, from, to, 1, effSize);
    sy := a[..];
    var ez := Estimate(a, from, to, 2, effSize);
    ReorderedTrans(s0, sx, sy, from, to);
    ReorderedTrans(s0, sy, a[..], from, to);
    axis := ChooseAxis(ex, ey, ez);
  }

  /** The split estimate of two objects: the effective sizes of their two boxes. */
  lemma PairEstimate(s: seq<Prim>, effSize: AABB -> real)
    requires |s| == 2
    ensures SplitEstimate(s, effSize) == effSize(BoxOrZero(s[0].box)) + effSize(BoxOrZero(s[1].box))
  {
    assert s[..1] == [s[0]] && s[1..] == [s[1]];
  }

  /** A sequence with the contents of `[p, q]` is `[p, q]` or `[q, p]`. */
  lemma PairOrders(p: Prim, q: Prim, t: seq<Prim>)
    requires multiset(t) == multiset([p, q])
    ensures t == [p, q] || t == [q, p]
  {
    assert |t| == 2 by {
      assert |multiset(t)| == |multiset([p, q])|;
    }
    assert t == [t[0], t[1]];
    assert multiset([p, q]) == multiset{p, q};
    assert t[0] in multiset(t) && t[1] in multiset(t);
    assert multiset{t[0], t[1]} == multiset{p, q};
  }

  /** Two orders of the same two objects have the same split estimate. */
  lemma PairEstimateSame(s: seq<Prim>, t: seq<Prim>, effSize: AABB -> real)
    requires |s| == 2 && multiset(s) == multiset(t)
    ensures SplitEstimate(s, effSize) == SplitEstimate(t, effSize)
  {
    assert s == [s[0], s[1]];
    PairOrders(s[0], s[1], t);
    PairEstimate(s, effSize);
    PairEstimate(t, effSize);
  }

  /** A two-object range is always split on x: its three estimates are sums of the same
      two effective sizes and hence equal, and ties go to x. */
  lemma PairSplitsOnX(x: seq<Prim>, sx: seq<Prim>, sy: seq<Prim>, sz: seq<Prim>,
                      from: nat, to: nat, axis: Axis, effSize: AABB -> real)
    requires AxisChosen(x, sx, sy, sz, from, to, axis, effSize)
    ensures to - from == 2 ==> axis == 0
  {
    if to - from == 2 {
      PairEstimateSame(sx[from..to], sy[from..to], effSize);
      PairEstimateSame(sx[from..to], sz[from..to], effSize);
    }
  }

  /** Reordering a sub-range `[lo, hi)` reorders the enclosing range `[from, to)` and
      leaves the rest of it as it was. */
  lemma ReorderInside(x: seq<Prim>, y: seq<Prim>, from: nat, lo: nat, hi: nat, to: nat)
    requires from <= lo <= hi <= to <= |x| && Reordered(x, y, lo, hi)
    ensures Reordered(x, y, from, to)
    ensures y[from..lo] == x[from..lo] && y[hi..to] == x[hi..to]
  {
    assert y[from..lo] == x[from..lo];
    assert y[hi..to] == x[hi..to];
    calc {
      multiset(y[from..to]);
      == { assert y[from..to] == y[from..lo] + y[lo..hi] + y[hi..to]; }
      multiset(y[from..lo]) + multiset(y[lo..hi]) + multiset(y[hi..to]);
      ==
      multiset(x[from..lo]) + multiset(x[lo..hi]) + multiset(x[hi..to]);
      == { assert x[from..to] == x[from..lo] + x[lo..hi] + x[hi..to]; }
      multiset(x[from..to]);
    }
  }

  /** The node over two built halves of a sorted range is built from the whole range,
      and its halves are separated on the sorting axis. */
  lemma SplitNodeBuilt(s: seq<Prim>, k: nat, l: Tree, rt: Tree, axis: Axis)
    requires |s| > 2 && k == |s| / 2 && SortedOn(s, axis)
    requires BuiltFrom(l, s[..k]) && BuiltFrom(rt, s[k..])
    ensures BuiltFrom(Node(l, Some(rt), Surround(BoundingBox(l).value, BoundingBox(rt).value)), s)
    ensures Separated(l, rt, axis)
  {
    SeparatedFromSorted(s, k, l, rt, axis);
    var t := Node(l, Some(rt), Surround(BoundingBox(l).value, BoundingBox(rt).value));
    assert s == s[..k] + s[k..];
    assert multiset(Leaves(t)) == multiset(s);
    assert |Leaves(l)| == k by {
      assert |multiset(Leaves(l))| == |multiset(s[..k])|;
    }
    assert |Leaves(rt)| == |s| - k by {
      assert |multiset(Leaves(rt))| == |multiset(s[k..])|;
    }
    ShapedSplit(l, rt, t.box, axis);
  }

  /** A node over two shaped child nodes holding the first half and the rest of more
      than two objects, separated on `axis`, is shaped. */
  lemma ShapedSplit(l: Tree, rt: Tree, box: AABB, axis: Axis)
    requires l.Node? && rt.Node? && Shaped(l) && Shaped(rt) && Separated(l, rt, axis)
    requires |Leaves(l)| == (|Leaves(l)| + |Leaves(rt)|) / 2 && |Leaves(l)| + |Leaves(rt)| > 2
    ensures Shaped(Node(l, Some(rt), box))
  {
  }

  lemma SplitAtHalves(t: Tree, x: seq<Prim>, from: nat, mid: nat, to: nat, axis: Axis)
    requires from <= mid <= to <= |x| && mid - from == (to - from) / 2
    requires t.Node? && t.right.Some? && Separated(t.left, t.right.value, axis)
    requires multiset(Leaves(t.left)) == multiset(x[from..mid])
    requires multiset(Leaves(t.right.value)) == multiset(x[mid..to])
    ensures SplitAt(t, x[from..to], axis)
  {
    var s := x[from..to];
    var k := |s| / 2;
    SliceHalves(x, from, mid, to);
    assert s[..k] == x[from..mid] && s[k..] == x[mid..to];
    assert multiset(Leaves(t.left)) == multiset(s[..k]);
    assert multiset(Leaves(t.right.value)) == multiset(s[k..]);
  }

  lemma SliceHalves(x: seq<Prim>, from: nat, mid: nat, to: nat)
    requires from <= mid <= to <= |x| && mid - from == (to - from) / 2
    ensures |x[from..to]| / 2 == mid - from
    ensures x[from..to][..mid - from] == x[from..mid] && x[from..to][mid - from..] == x[mid..to]
  {
  }

  /** Lines 76-97 for more than two objects: sort the range on the chosen axis, then
      build its two halves. */
  method BuildSplit(a: array<Prim>, from: nat, to: nat, axis: Axis, effSize: AABB -> real)
    returns (r: Result<Tree>)
    requires from + 2 < to <= a.Length
    modifies a
    ensures Reordered(old(a[..]), a[..], from, to)
    ensures Outcome(r, old(a[from..to]))
    ensures r.Ok? ==> SplitAt(r.value, a[from..to], axis)
    decreases (to as int) - from, 2
  {
    ghost var s0 := a[..];
    SortRange(a, from, to, axis);
    ghost var s1 := a[..];
    AllBoxedMultiset(s0[from..to], s1[from..to]);
    r := BuildHalves(a, from, to, axis, effSize);
    ReorderedTrans(s0, s1, a[..], from, to);
    OutcomeMultiset(r, s1[from..to], s0[from..to]);
  }

  /** After the left half of a split is built: the right half is untouched, and an
      error in the left half is the outcome of the whole range. */
  lemma LeftBuilt(s1: seq<Prim>, s2: seq<Prim>, from: nat, mid: nat, to: nat,
                  left: Result<Tree>)
    requires from < mid < to <= |s1| && Reordered(s1, s2, from, mid)
    requires Outcome(left, s1[from..mid])
    ensures Reordered(s1, s2, from, to)
    ensures s2[mid..to] == s1[from..to][mid - from..]
    ensures multiset(s2[from..mid]) == multiset(s1[from..to][..mid - from])
    ensures left.Err? ==> Outcome(left, s1[from..to])
    ensures left.Ok? ==> AllBoxed(s1[from..to][..mid - from])
                         && BuiltFrom(left.value, s1[from..to][..mid - from])
  {
    ReorderInside(s1, s2, from, from, mid, to);
    var sorted := s1[from..to];
    assert sorted[..mid - from] == s1[from..mid];
    assert sorted[mid - from..] == s1[mid..to];
    AllBoxedSplit(sorted, mid - from);
  }

  /** Lines 80-97: on a range in the order of `axis` (whenever every object of it has a
      box), build the left half `[from, mid)` with `mid = from + cnt / 2`, then the right
      half.  An error in the left half ends construction before the right half is
      built. */
  method BuildHalves(a: array<Prim>, from: nat, to: nat, axis: Axis, effSize: AABB -> real)
    returns (r: Result<Tree>)
    requires from + 2 < to <= a.Length
    requires AllBoxed(a[from..to]) ==> SortedOn(a[from..to], axis)
    modifies a
    ensures Reordered(old(a[..]), a[..], from, to)
    ensures Outcome(r, old(a[from..to]))
    ensures r.Ok? ==> SplitAt(r.value, a[from..to], axis)
    decreases (to as int) - from, 1
  {
    ghost var s1 := a[..];
    var cnt := to - from;
    var mid := from + cnt / 2;
    ghost var sorted := a[from..to];
    var left, _, _, _, _ := Build(a, from, mid, effSize);
    ghost var s2 := a[..];
    LeftBuilt(s1, s2, from, mid, to, left);
    if left.Err? {
      return left;
    }
    r := BuildRight(a, from, mid, to, axis, left.value, sorted, effSize);
    ghost var s3 := a[..];
    ReorderInside(s2, s3, from, mid, to, to);
    ReorderedTrans(s1, s2, s3, from, to);
  }

  /** The node over a built left half and a freshly built right half is built from the
      whole range and splits the range as it stands afterwards. */
  lemma CombineHalves(s2: seq<Prim>, s3: seq<Prim>, from: nat, mid: nat, to: nat,
                      axis: Axis, sorted: seq<Prim>, t: Tree)
    requires from + 2 < to <= |s2| && mid == from + (to - from) / 2 && |sorted| == to - from
    requires AllBoxed(sorted) ==> SortedOn(sorted, axis)
    requires AllBoxed(sorted[..mid - from])
    requires multiset(s2[from..mid]) == multiset(sorted[..mid - from])
    requires s2[mid..to] == sorted[mid - from..]
    requires Reordered(s2, s3, mid, to)
    requires t.Node? && t.right.Some?
    requires BuiltFrom(t.left, sorted[..mid - from])
    requires Outcome(Ok(t.right.value), s2[mid..to])
    requires t.box == Surround(BoundingBox(t.left).value, BoundingBox(t.right.value).value)
    ensures Outcome(Ok(t), sorted) && SplitAt(t, s3[from..to], axis)
  {
    var k := mid - from;
    AllBoxedSplit(sorted, k);
    assert |sorted| / 2 == k;
    OutcomeSame(Ok(t.right.value), s2[mid..to], sorted[k..]);
    SplitNodeBuilt(sorted, k, t.left, t.right.value, axis);
    ReorderInside(s2, s3, from, mid, to, to);
    SplitAtHalves(t, s3, from, mid, to, axis);
  }

  /** Lines 81-97 once the left half `l` is built: build the right half `[mid, to)` and
      the node over both halves, caching the union of their boxes. */
  method BuildRight(a: array<Prim>, from: nat, mid: nat, to: nat, axis: Axis, l: Tree,
                    ghost sorted: seq<Prim>, effSize: AABB -> real)
    returns (r: Result<Tree>)
    requires from + 2 < to <= a.Length && mid == from + (to - from) / 2
    requires |sorted| == to - from && (AllBoxed(sorted) ==> SortedOn(sorted, axis))
    requires AllBoxed(sorted[..mid - from])
    requires BuiltFrom(l, sorted[..mid - from])
    requires multiset(a[from..mid]) == multiset(sorted[..mid - from])
    requires a[mid..to] == sorted[mid - from..]
    modifies a
    ensures Reordered(old(a[..]), a[..], mid, to)
    ensures Outcome(r, sorted)
    ensures r.Ok? ==> SplitAt(r.value, a[from..to], axis)
    decreases (to as int) - from, 0
  {
    ghost var s2 := a[..];
    var right, _, _, _, _ := Build(a, mid, to, effSize);
    ghost var s3 := a[..];
    if right.Err? {
      AllBoxedSplit(sorted, mid - from);
      r := right;
    } else {
      var rt := right.value;
      var box := NodeBox(l, Some(rt));
      r := Ok(Node(l, Some(rt), box.value));
      CombineHalves(s2, s3, from, mid, to, axis, sorted, r.value);
    }
  }

  /** `BVH_Node(hitlist)`: the tree over the whole list. */
  method BuildAll(a: array<Prim>, effSize: AABB -> real) returns (r: Result<Tree>)
    modifies a
    ensures multiset(a[..]) == multiset(old(a[..]))
    ensures r == Err(EmptyRange) <==> a.Length == 0
    ensures a.Length > 0 ==> (r.Ok? <==> AllBoxed(old(a[..])))
    ensures r.Ok? ==> Valid(r.value) && Shaped(r.value) && multiset(Leaves(r.value)) == multiset(old(a[..]))
  {
    assert a[..] == a[0..a.Length];
    var res, _, _, _, _ := Build(a, 0, a.Length, effSize);
    r := res;
    assert a[..] == a[0..a.Length];
  }

  // ---------------------------------------------------------------------------
  // Containment

  /** Every primitive under a valid tree has a box inside the tree's box. */
  lemma {:induction false} Containment(t: Tree)
    requires Valid(t)
    ensures BoundingBox(t).Some?
    ensures forall p :: p in Leaves(t) ==> p.box.Some? && Contains(BoundingBox(t).value, p.box.value)
  {
    match t
    case Leaf(p) =>
    case Node(l, None, b) =>
      Containment(l);
    case Node(l, Some(r), b) =>
      Containment(l);
      Containment(r);
      var bl, br := BoundingBox(l).value, BoundingBox(r).value;
      forall p | p in Leaves(t) ensures p.box.Some? && Contains(b, p.box.value) {
        if p in Leaves(l) {
          ContainsTransitive(b, bl, p.box.value);
        } else {
          ContainsTransitive(b, br, p.box.value);
        }
      }
  }

  /** The containment invariant for a freshly built tree: every primitive of the range
      lies inside the box of the node built from it. */
  lemma BuiltTreeContainsRange(t: Tree, s: seq<Prim>)
    requires Valid(t) && multiset(Leaves(t)) == multiset(s)
    ensures BoundingBox(t).Some?
    ensures forall p :: p in s ==> p.box.Some? && Contains(BoundingBox(t).value, p.box.value)
  {
    Containment(t);
    forall p | p in s ensures p in Leaves(t) {
      assert p in multiset(s);
    }
  }

  // ---------------------------------------------------------------------------
  // Traversal

  /** `BVH_Node::hit`.  The hit record `rec` is threaded through: the right child sees
      the record as the left child left it.  `boxHit(box, ray)` is the slab test over the
      parametric interval `[0, VEC3D_INF)` and `leafHit` the hit of a leaf; both are
      outside this model.  The ray is a value: every child sees the ray the node got. */
  function Hit<Ray, Rec>(t: Tree, ray: Ray, rec: Rec,
                         boxHit: (AABB, Ray) -> bool,
                         leafHit: (Prim, Ray, Rec) -> (bool, Rec)): (bool, Rec)
  {
    match t
    case Leaf(p) => leafHit(p, ray, rec)
    case Node(l, right, b) =>
      if !boxHit(b, ray) then (false, rec)
      else
        var (leftHit, rec1) := Hit(l, ray, rec, boxHit, leafHit);
        var (rightHit, rec2) :=
          if right.Some? then Hit(right.value, ray, rec1, boxHit, leafHit) else (false, rec1);
        (leftHit || rightHit, rec2)
  }

  /** The exhaustive reference: test every primitive of `s` in order, threading the
      record, and report whether any test hit. */
  function Exhaustive<Ray, Rec>(s: seq<Prim>, ray: Ray, rec: Rec,
                                leafHit: (Prim, Ray, Rec) -> (bool, Rec)): (bool, Rec)
  {
    if s == [] then (false, rec)
    else
      var (h, rec1) := leafHit(s[0], ray, rec);
      var (h2, rec2) := Exhaustive(s[1..], ray, rec1, leafHit);
      (h || h2, rec2)
  }

  /** The geometric fact pruning relies on: a ray that misses a box over `[0, VEC3D_INF)`
      misses every primitive whose box lies inside it, and its test leaves the record. */
  ghost predicate Conservative<Ray, Rec(!new)>(ray: Ray, boxHit: (AABB, Ray) -> bool,
                                         leafHit: (Prim, Ray, Rec) -> (bool, Rec))
  {
    forall p: Prim, b: AABB, rec: Rec ::
      p.box.Some? && Contains(b, p.box.value) && !boxHit(b, ray)
      ==> leafHit(p, ray, rec) == (false, rec)
  }

  lemma {:induction false} ExhaustiveAppend<Ray, Rec>(s: seq<Prim>, t: seq<Prim>, ray: Ray, rec: Rec,
                                                     leafHit: (Prim, Ray, Rec) -> (bool, Rec))
    ensures var (h1, rec1) := Exhaustive(s, ray, rec, leafHit);
            var (h2, rec2) := Exhaustive(t, ray, rec1, leafHit);
            Exhaustive(s + t, ray, rec, leafHit) == (h1 || h2, rec2)
  {
    if s != [] {
      assert (s + t)[0] == s[0];
      assert (s + t)[1..] == s[1..] + t;
      var (h, rec1) := leafHit(s[0], ray, rec);
      ExhaustiveAppend(s[1..], t, ray, rec1, leafHit);
    } else {
      assert s + t == t;
    }
  }

  lemma {:induction false} ExhaustiveMisses<Ray, Rec(!new)>(s: seq<Prim>, b: AABB, ray: Ray, rec: Rec,
                                                     boxHit: (AABB, Ray) -> bool,
                                                     leafHit: (Prim, Ray, Rec) -> (bool, Rec))
    requires Conservative(ray, boxHit, leafHit) && !boxHit(b, ray)
    requires forall p :: p in s ==> p.box.Some? && Contains(b, p.box.value)
    ensures Exhaustive(s, ray, rec, leafHit) == (false, rec)
  {
    if s != [] {
      assert s[0] in s;
      assert leafHit(s[0], ray, rec) == (false, rec);
      assert forall p :: p in s[1..] ==> p in s;
      ExhaustiveMisses(s[1..], b, ray, rec, boxHit, leafHit);
    }
  }

  /** Traversal correctness: on a valid tree, pruning by node boxes changes nothing, so
      `hit` returns exactly what testing every primitive in leaf order returns, the
      final hit record included. */
  lemma {:induction false} HitMatchesExhaustive<Ray, Rec(!new)>(t: Tree, ray: Ray, rec: Rec,
                                                         boxHit: (AABB, Ray) -> bool,
                                                         leafHit: (Prim, Ray, Rec) -> (bool, Rec))
    requires Valid(t) && Conservative(ray, boxHit, leafHit)
    ensures Hit(t, ray, rec, boxHit, leafHit) == Exhaustive(Leaves(t), ray, rec, leafHit)
  {
    match t
    case Leaf(p) =>
      assert Leaves(t)[1..] == [];
    case Node(l, right, b) =>
      if !boxHit(b, ray) {
        Containment(t);
        ExhaustiveMisses(Leaves(t), b, ray, rec, boxHit, leafHit);
      } else {
        HitMatchesExhaustive(l, ray, rec, boxHit, leafHit);
        var (leftHit, rec1) := Hit(l, ray, rec, boxHit, leafHit);
        if right.Some? {
          HitMatchesExhaustive(right.value, ray, rec1, boxHit, leafHit);
          ExhaustiveAppend(Leaves(l), Leaves(right.value), ray, rec, leafHit);
        }
      }
  }

  // ---------------------------------------------------------------------------
  // Diagnostic dump

  /** The indentation printed for `depth`: two spaces per level, none for a depth
      below one. */
  function Indent(depth: int): (r: string)
    ensures |r| == if depth <= 0 then 0 else 2 * depth
    ensures forall i :: 0 <= i < |r| ==> r[i] == ' '
  {
    if depth <= 0 then "" else "  " + Indent(depth - 1)
  }

  /** `dump_bvh(depth)`: the text printed for `t`; `leafDump` is what a leaf prints. */
  function Dump(t: Tree, depth: int, leafDump: (Prim, int) -> string): string
  {
    match t
    case Leaf(p) => leafDump(p, depth)
    case Node(l, right, _) =>
      Indent(depth) + "node {\n"
      + Dump(l, depth + 1, leafDump)
      + (if right.Some? then Dump(right.value, depth + 1, leafDump) else "")
      + Indent(depth) + "} \n"
  }

  function Count(s: string, c: char): nat
  {
    if s == [] then 0 else (if s[0] == c then 1 else 0) + Count(s[1..], c)
  }

  function NodeCount(t: Tree): nat
  {
    match t
    case Leaf(_) => 0
    case Node(l, right, _) => 1 + NodeCount(l) + (if right.Some? then NodeCount(right.value) else 0)
  }

  lemma {:induction false} CountAppend(s: string, t: string, c: char)
    ensures Count(s + t, c) == Count(s, c) + Count(t, c)
  {
    if s != [] {
      assert (s + t)[0] == s[0];
      assert (s + t)[1..] == s[1..] + t;
      CountAppend(s[1..], t, c);
    } else {
      assert s + t == t;
    }
  }

  lemma {:induction false} CountIndent(depth: int, c: char)
    requires c != ' '
    ensures Count(Indent(depth), c) == 0
  {
    if depth > 0 {
      CountAppend("  ", Indent(depth - 1), c);
      CountIndent(depth - 1, c);
    }
  }

  /** The frame a node prints around its children's text holds one `{` and one `}`. */
  lemma {:induction false} FrameCount(depth: int, kids: string, c: char)
    requires c == '{' || c == '}'
    ensures Count(Indent(depth) + "node {\n" + kids + Indent(depth) + "} \n", c) == Count(kids, c) + 1
  {
    var open, close := Indent(depth) + "node {\n", Indent(depth) + "} \n";
    assert Indent(depth) + "node {\n" + kids + Indent(depth) + "} \n" == (open + kids) + close;
    CountAppend(open + kids, close, c);
    CountAppend(open, kids, c);
    CountIndent(depth, c);
    CountAppend(Indent(depth), "node {\n", c);
    CountAppend(Indent(depth), "} \n", c);
    assert Count("node {\n", c) == (if c == '{' then 1 else 0);
    assert Count("} \n", c) == (if c == '}' then 1 else 0);
  }

  /** A node's dump is its frame around the dumps of its children. */
  lemma DumpNode(t: Tree, depth: int, leafDump: (Prim, int) -> string)
    requires t.Node?
    ensures Dump(t, depth, leafDump)
            == Indent(depth) + "node {\n"
               + (Dump(t.left, depth + 1, leafDump)
                  + (if t.right.Some? then Dump(t.right.value, depth + 1, leafDump) else ""))
               + Indent(depth) + "} \n"
  {
  }

  /** A node's dump holds one brace of each kind more than its children's dumps. */
  lemma NodeBraceCount(t: Tree, depth: int, leafDump: (Prim, int) -> string, c: char)
    requires t.Node? && (c == '{' || c == '}')
    ensures Count(Dump(t, depth, leafDump), c)
            == Count(Dump(t.left, depth + 1, leafDump), c)
               + (if t.right.Some? then Count(Dump(t.right.value, depth + 1, leafDump), c) else 0)
               + 1
  {
    var dl := Dump(t.left, depth + 1, leafDump);
    var dr := if t.right.Some? then Dump(t.right.value, depth + 1, leafDump) else "";
    DumpNode(t, depth, leafDump);
    FrameCount(depth, dl + dr, c);
    CountAppend(dl, dr, c);
  }

  /** Each brace occurs once per node in the dump when leaves print none. */
  lemma {:induction false} DumpBraceCount(t: Tree, depth: int, leafDump: (Prim, int) -> string, c: char)
    requires c == '{' || c == '}'
    requires forall p, d :: Count(leafDump(p, d), c) == 0
    ensures Count(Dump(t, depth, leafDump), c) == NodeCount(t)
  {
    match t
    case Leaf(p) =>
      assert Count(leafDump(p, depth), c) == 0;
    case Node(l, right, _) =>
      DumpBraceCount(l, depth + 1, leafDump, c);
      if right.Some? { DumpBraceCount(right.value, depth + 1, leafDump, c); }
      NodeBraceCount(t, depth, leafDump, c);
  }

  /** The dump is a balanced nesting: when leaves print no braces, it holds one `{` and
      one `}` per node of the tree. */
  lemma DumpBalanced(t: Tree, depth: int, leafDump: (Prim, int) -> string)
    requires forall p, d :: Count(leafDump(p, d), '{') == 0 && Count(leafDump(p, d), '}') == 0
    ensures Count(Dump(t, depth, leafDump), '{') == NodeCount(t)
    ensures Count(Dump(t, depth, leafDump), '}') == NodeCount(t)
  {
    DumpBraceCount(t, depth, leafDump, '{');
    DumpBraceCount(t, depth, leafDump, '}');
  }
}

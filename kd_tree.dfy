/**
 * The crate's 2-d tree over UTM coordinates: the in-place median-of-three
 * partition, tree construction by alternating axes, and the k-nearest
 * neighbours query with its sorted result buffer.
 */
module KdTree {
  import opened Wrappers
  import opened Orderings
  import opened Numeric
  import opened Float64
  import opened Geo

  /** The two sequences agree everywhere outside the index range [lo, hi). */
  ghost predicate SameOutside<T>(s: seq<T>, t: seq<T>, lo: int, hi: int)
  {
    |s| == |t| && forall k :: 0 <= k < |s| && !(lo <= k < hi) ==> s[k] == t[k]
  }

  /** `slice.swap(i, j)` on a sub-slice [lo, hi) of the array. */
  method Swap<T>(a: array<T>, lo: int, hi: int, i: int, j: int)
    requires 0 <= lo <= i < hi <= a.Length && lo <= j < hi
    modifies a
    ensures a[i] == old(a[j]) && a[j] == old(a[i])
    ensures forall k :: 0 <= k < a.Length && k != i && k != j ==> a[k] == old(a[k])
    ensures multiset(a[lo..hi]) == multiset(old(a[lo..hi]))
  {
    ghost var before := a[lo..hi];
    a[i], a[j] := a[j], a[i];
    assert a[lo..hi] == before[i - lo := before[j - lo]][j - lo := before[i - lo]];
  }

  /** Every element of s[lo..hi) has a key below `pk`. */
  ghost predicate AllBelow<T>(s: seq<T>, lo: int, hi: int, key: T -> real, pk: real)
    requires 0 <= lo <= hi <= |s|
  {
    forall k :: lo <= k < hi ==> key(s[k]) < pk
  }

  /** Every element of s[lo..hi) has a key at least `pk`. */
  ghost predicate AllAtLeast<T>(s: seq<T>, lo: int, hi: int, key: T -> real, pk: real)
    requires 0 <= lo <= hi <= |s|
  {
    forall k :: lo <= k < hi ==> key(s[k]) >= pk
  }

  /**
   * The median-of-three step of `partition`, on a slice of at least three
   * elements: afterwards the first element is at most the last, which is at
   * most the middle one, so the last is a pivot with a sentinel on each side.
   */
  method MedianOfThree<T>(a: array<T>, lo: int, hi: int, key: T -> real)
    requires 0 <= lo && lo + 3 <= hi <= a.Length
    modifies a
    ensures SameOutside(a[..], old(a[..]), lo, hi)
    ensures multiset(a[lo..hi]) == multiset(old(a[lo..hi]))
    ensures key(a[lo]) <= key(a[hi - 1]) <= key(a[lo + (hi - lo) / 2])
  {
    var last := hi - 1;
    var mid := lo + (hi - lo) / 2;
    if key(a[mid]) < key(a[lo]) {
      Swap(a, lo, hi, mid, lo);
    }
    if key(a[last]) < key(a[lo]) {
      Swap(a, lo, hi, last, lo);
    }
    if key(a[mid]) < key(a[last]) {
      Swap(a, lo, hi, last, mid);
    }
  }

  /**
   * The inner `while` of `partition` that advances `i`: the first position
   * from `i` on whose key is not below the pivot key, found before the
   * sentinel `s`.
   */
  method ScanUp<T>(a: array<T>, lo: int, i: int, ghost s: int, key: T -> real, pk: real) returns (i': int)
    requires 0 <= lo <= i <= s < a.Length && key(a[s]) >= pk
    requires AllBelow(a[..], lo, i, key, pk)
    ensures i <= i' <= s && key(a[i']) >= pk
    ensures AllBelow(a[..], lo, i', key, pk)
  {
    i' := i;
    while key(a[i']) < pk
      invariant i <= i' <= s
      invariant AllBelow(a[..], lo, i', key, pk)
      decreases s - i'
    {
      i' := i' + 1;
    }
  }

  /**
   * The inner `loop` of `partition` that moves `j` down: the last position
   * below `j` whose key is not above the pivot key, found no lower than the
   * sentinel `s`.
   */
  method ScanDown<T>(a: array<T>, ghost s: int, j: int, key: T -> real, pk: real) returns (j': int)
    requires 0 <= s < j <= a.Length && key(a[s]) <= pk
    ensures s <= j' < j && key(a[j']) <= pk
    ensures forall k :: j' < k < j ==> key(a[k]) > pk
  {
    j' := j - 1;
    while key(a[j']) > pk
      invariant s <= j' < j
      invariant forall k :: j' < k < j ==> key(a[k]) > pk
      decreases j' - s
    {
      j' := j' - 1;
    }
  }

  /**
   * The Hoare loop of `partition` over the elements a[lo..hi-1) against the
   * pivot a[hi-1], which needs a sentinel on each side of it: `i` advances
   * over keys below the pivot, `j` retreats over keys above it, and the pair
   * found is swapped until the two meet. The result `i` splits the elements
   * into those below the pivot and those at least the pivot.
   */
  method HoareLoop<T>(a: array<T>, lo: int, hi: int, key: T -> real) returns (split: int)
    requires 0 <= lo && lo + 3 <= hi <= a.Length
    requires key(a[lo]) <= key(a[hi - 1]) <= key(a[lo + (hi - lo) / 2])
    modifies a
    ensures lo <= split <= hi - 1
    ensures SameOutside(a[..], old(a[..]), lo, hi - 1) && a[hi - 1] == old(a[hi - 1])
    ensures multiset(a[lo..hi]) == multiset(old(a[lo..hi]))
    ensures AllBelow(a[..], lo, split, key, key(a[hi - 1]))
    ensures AllAtLeast(a[..], split, hi - 1, key, key(a[hi - 1]))
  {
    var m := hi - 1;
    var pk := key(a[m]);
    var i, j := lo, m;
    ghost var si, sj := lo + (hi - lo) / 2, lo;
    while true
      invariant lo <= i <= si < m && si <= j && lo <= sj < j <= m && i <= sj
      invariant key(a[si]) >= pk && key(a[sj]) <= pk
      invariant SameOutside(a[..], old(a[..]), lo, m) && a[m] == old(a[m])
      invariant multiset(a[lo..hi]) == multiset(old(a[lo..hi]))
      invariant AllBelow(a[..], lo, i, key, pk)
      invariant AllAtLeast(a[..], j, m, key, pk)
      decreases j
    {
      i := ScanUp(a, lo, i, si, key, pk);
      ghost var j0 := j;
      j := ScanDown(a, sj, j, key, pk);
      if i >= j {
        AtLeastFromMeet(a[..], i, j, j0, m, key, pk);
        return i;
      }
      Swap(a, lo, hi, i, j);
      si, sj := j, i;
    }
  }

  /** Where the scans meet, everything from `i` to the pivot is at least the pivot key. */
  lemma AtLeastFromMeet<T>(s: seq<T>, i: int, j: int, j0: int, m: int, key: T -> real, pk: real)
    requires 0 <= j <= i <= j0 <= m <= |s| && i < m && key(s[i]) >= pk
    requires forall k :: j < k < j0 ==> key(s[k]) > pk
    requires AllAtLeast(s, j0, m, key, pk)
    ensures AllAtLeast(s, i, m, key, pk)
  {
  }

  /** The two keys of a two-element slice in order, as `partition` leaves them. */
  ghost predicate PairOrdered<T>(s: seq<T>, lo: int, key: T -> real, k0: real, k1: real)
    requires 0 <= lo && lo + 2 <= |s|
  {
    key(s[lo]) == (if k0 <= k1 then k0 else k1)
    && key(s[lo + 1]) == (if k0 <= k1 then k1 else k0)
  }

  /**
   * `partition` as written, on the slice a[lo..hi): an empty slice panics;
   * otherwise the pivot ends up last and the result `split` divides the
   * other elements into a[lo..split) and a[split..hi-1), the latter all at
   * least the pivot. The former are below the pivot except in the
   * two-element case, which puts the smaller element there even when the
   * two are equal.
   */
  method PartitionAsWritten<T>(a: array<T>, lo: int, hi: int, key: T -> real) returns (r: Result<int>)
    requires 0 <= lo <= hi <= a.Length
    modifies a
    ensures r.Err? <==> lo == hi
    ensures SameOutside(a[..], old(a[..]), lo, hi) && multiset(a[lo..hi]) == multiset(old(a[lo..hi]))
    ensures r.Ok? ==> lo <= r.value < hi && AllAtLeast(a[..], r.value, hi - 1, key, key(a[hi - 1]))
    ensures r.Ok? && hi - lo != 2 ==> AllBelow(a[..], lo, r.value, key, key(a[hi - 1]))
    ensures hi - lo == 2 ==> r == Ok(lo + 1) && PairOrdered(a[..], lo, key, old(key(a[lo])), old(key(a[lo + 1])))
  {
    if hi == lo {
      return Err("cannot partition arrays of size 0");
    } else if hi - lo == 1 {
      return Ok(lo);
    } else if hi - lo == 2 {
      if key(a[lo]) > key(a[lo + 1]) {
        Swap(a, lo, hi, lo, lo + 1);
      }
      return Ok(lo + 1);
    }
    MedianOfThree(a, lo, hi, key);
    var split := HoareLoop(a, lo, hi, key);
    return Ok(split);
  }

  /**
   * `partition` with the two-element case corrected so that a[lo..split)
   * holds only keys below the pivot: a smaller first element goes below the
   * pivot, an equal one goes with the elements at least the pivot.
   */
  method Partition<T>(a: array<T>, lo: int, hi: int, key: T -> real) returns (r: Result<int>)
    requires 0 <= lo <= hi <= a.Length
    modifies a
    ensures r.Err? <==> lo == hi
    ensures SameOutside(a[..], old(a[..]), lo, hi) && multiset(a[lo..hi]) == multiset(old(a[lo..hi]))
    ensures r.Ok? ==> lo <= r.value < hi && AllAtLeast(a[..], r.value, hi - 1, key, key(a[hi - 1]))
    ensures r.Ok? ==> AllBelow(a[..], lo, r.value, key, key(a[hi - 1]))
  {
    if hi == lo {
      return Err("cannot partition arrays of size 0");
    } else if hi - lo == 1 {
      return Ok(lo);
    } else if hi - lo == 2 {
      if key(a[lo]) > key(a[lo + 1]) {
        Swap(a, lo, hi, lo, lo + 1);
      }
      if key(a[lo]) < key(a[lo + 1]) {
        return Ok(lo + 1);
      }
      return Ok(lo);
    }
    MedianOfThree(a, lo, hi, key);
    var split := HoareLoop(a, lo, hi, key);
    return Ok(split);
  }

  function IntKey(x: int): real { x as real }

  /**
   * `quickcheck_partition_correctness` run with `partition` as written: an
   * empty input is discarded, and otherwise the run passes when every element
   * of the lower part is below the pivot and every element of the upper part
   * is at least the pivot. It fails exactly on two equal elements.
   */
  method PartitionTestAsWritten(data: seq<int>) returns (t: TestResult)
    ensures t == Discard <==> |data| == 0
    ensures t == Fail <==> |data| == 2 && data[0] == data[1]
  {
    if |data| < 1 {
      return Discard;
    }
    var a := new int[|data|](i requires 0 <= i < |data| => data[i]);
    assert a[..] == data;
    var r := PartitionAsWritten(a, 0, a.Length, IntKey);
    var split := r.value;
    var p := a.Length - 1;
    var leftCheck := forall k | 0 <= k < split :: a[k] < a[p];
    var rightCheck := forall k | split <= k < p :: a[k] >= a[p];
    t := if leftCheck && rightCheck then Pass else Fail;
  }

  /** The same test run with the corrected `partition`, which never fails. */
  method PartitionTest(data: seq<int>) returns (t: TestResult)
    ensures t == Discard <==> |data| == 0
    ensures t != Fail
  {
    if |data| < 1 {
      return Discard;
    }
    var a := new int[|data|](i requires 0 <= i < |data| => data[i]);
    var r := Partition(a, 0, a.Length, IntKey);
    var split := r.value;
    var p := a.Length - 1;
    var leftCheck := forall k | 0 <= k < split :: a[k] < a[p];
    var rightCheck := forall k | split <= k < p :: a[k] >= a[p];
    t := if leftCheck && rightCheck then Pass else Fail;
  }

  /** `Option<Box<TreeNode>>`: an empty subtree, or a node with its element and two subtrees. */
  datatype Tree<T> = Leaf | Node(data: T, left: Tree<T>, right: Tree<T>)

  /** The elements stored in a tree, with multiplicity. */
  ghost function Elems<T>(t: Tree<T>): multiset<T>
  {
    match t
    case Leaf => multiset{}
    case Node(d, l, r) => multiset{d} + Elems(l) + Elems(r)
  }

  /** The coordinate `coords_cmp` and `coords_lt` compare on: y when splitting on the y axis, x otherwise. */
  function AxisKey(c: Coords, yAxis: bool): real
  {
    if yAxis then c.y else c.x
  }

  /** `coords_cmp`: the comparison of two points on the axis; the key-based partition sorts by it. */
  function CoordsCmp(a: Coords, b: Coords, yAxis: bool): (o: Ordering)
  {
    CompareReal(AxisKey(a, yAxis), AxisKey(b, yAxis))
  }

  /** `coords_lt`: `a` lies strictly before `b` on the axis. */
  function CoordsLt(a: Coords, b: Coords, yAxis: bool): bool
  {
    AxisKey(a, yAxis) < AxisKey(b, yAxis)
  }

  /** `coords_lt` agrees with `coords_cmp`, which is antisymmetric and compares on one coordinate only. */
  lemma CoordsCmpLt(a: Coords, b: Coords, yAxis: bool)
    ensures CoordsLt(a, b, yAxis) <==> CoordsCmp(a, b, yAxis) == Less
    ensures CoordsCmp(a, b, yAxis) == Less <==> CoordsCmp(b, a, yAxis) == Greater
    ensures CoordsCmp(a, b, yAxis) == Equal <==> (if yAxis then a.y == b.y else a.x == b.x)
  {
  }

  /** Every element's coordinate on the axis is below `c`. */
  ghost predicate KeysBelow<T>(m: multiset<T>, yAxis: bool, pos: T -> Coords, c: real)
  {
    forall e | e in m :: AxisKey(pos(e), yAxis) < c
  }

  /** Every element's coordinate on the axis is at least `c`. */
  ghost predicate KeysAtLeast<T>(m: multiset<T>, yAxis: bool, pos: T -> Coords, c: real)
  {
    forall e | e in m :: AxisKey(pos(e), yAxis) >= c
  }

  /**
   * The 2-d tree order: at every node, the left subtree holds only elements
   * whose coordinate on the node's axis is below the node's, the right
   * subtree only elements at least the node's, and the axis alternates from
   * level to level.
   */
  ghost predicate KdOrdered<T>(t: Tree<T>, yAxis: bool, pos: T -> Coords)
  {
    match t
    case Leaf => true
    case Node(d, l, r) =>
      KeysBelow(Elems(l), yAxis, pos, AxisKey(pos(d), yAxis))
      && KeysAtLeast(Elems(r), yAxis, pos, AxisKey(pos(d), yAxis))
      && KdOrdered(l, !yAxis, pos) && KdOrdered(r, !yAxis, pos)
  }

  /** The multiset of a slice is the union of the multisets of its two parts. */
  lemma SplitMultiset<T>(s: seq<T>, lo: int, m: int, hi: int)
    requires 0 <= lo <= m <= hi <= |s|
    ensures multiset(s[lo..hi]) == multiset(s[lo..m]) + multiset(s[m..hi])
  {
    assert s[lo..hi] == s[lo..m] + s[m..hi];
  }

  /** Bounds on the axis coordinates of a slice's elements are bounds on its multiset. */
  lemma SliceKeys<T>(s: seq<T>, lo: int, hi: int, yAxis: bool, pos: T -> Coords, c: real)
    requires 0 <= lo <= hi <= |s|
    ensures (forall k :: lo <= k < hi ==> AxisKey(pos(s[k]), yAxis) < c) ==> KeysBelow(multiset(s[lo..hi]), yAxis, pos, c)
    ensures (forall k :: lo <= k < hi ==> AxisKey(pos(s[k]), yAxis) >= c) ==> KeysAtLeast(multiset(s[lo..hi]), yAxis, pos, c)
  {
    forall e | e in multiset(s[lo..hi])
      ensures exists k :: lo <= k < hi && s[k] == e
    {
      var k :| 0 <= k < hi - lo && s[lo..hi][k] == e;
      assert s[lo + k] == e;
    }
  }

  /** Two array states that agree outside [flo, fhi) have the same slice on a range disjoint from it. */
  lemma SameSlice<T>(s: seq<T>, t: seq<T>, lo: int, hi: int, flo: int, fhi: int)
    requires 0 <= lo <= hi <= |s| && SameOutside(s, t, flo, fhi) && (hi <= flo || fhi <= lo)
    ensures s[lo..hi] == t[lo..hi]
  {
  }

  /** Changes confined to a sub-range stay confined to the enclosing range. */
  lemma SameOutsideTrans<T>(s: seq<T>, t: seq<T>, u: seq<T>, lo: int, hi: int, lo2: int, hi2: int)
    requires lo <= lo2 <= hi2 <= hi && SameOutside(s, t, lo2, hi2) && SameOutside(t, u, lo, hi)
    ensures SameOutside(s, u, lo, hi)
  {
  }

  /** The multiset of a slice: its lower part, its upper part and its last element. */
  lemma SliceParts<T>(s: seq<T>, lo: int, split: int, hi: int)
    requires 0 <= lo <= split < hi <= |s|
    ensures multiset(s[lo..hi]) == multiset(s[lo..split]) + multiset(s[split..hi - 1]) + multiset{s[hi - 1]}
  {
    assert s[lo..hi] == s[lo..split] + s[split..hi - 1] + [s[hi - 1]];
  }

  /** A node over two ordered subtrees whose elements lie on the proper sides of it is ordered. */
  lemma NodeOrdered<T>(d: T, l: Tree<T>, r: Tree<T>, yAxis: bool, pos: T -> Coords, lower: multiset<T>, upper: multiset<T>)
    requires Elems(l) == lower && Elems(r) == upper
    requires KeysBelow(lower, yAxis, pos, AxisKey(pos(d), yAxis))
    requires KeysAtLeast(upper, yAxis, pos, AxisKey(pos(d), yAxis))
    requires KdOrdered(l, !yAxis, pos) && KdOrdered(r, !yAxis, pos)
    ensures KdOrdered(Node(d, l, r), yAxis, pos)
    ensures Elems(Node(d, l, r)) == multiset{d} + lower + upper
  {
  }

  /** A node without children is ordered on either axis and holds its one element. */
  lemma SingleNode<T>(d: T, yAxis: bool, pos: T -> Coords)
    ensures KdOrdered(Node(d, Leaf, Leaf), yAxis, pos)
    ensures Elems(Node(d, Leaf, Leaf)) == multiset{d}
  {
    NodeOrdered(d, Leaf, Leaf, yAxis, pos, multiset{}, multiset{});
  }

  /** The two-element case of `TreeNode::new`: the second element hangs left of the first when below it on the axis. */
  function PairNode<T>(parent: T, child: T, yAxis: bool, pos: T -> Coords): (t: Tree<T>)
    ensures Elems(t) == multiset{parent, child}
    ensures KdOrdered(t, yAxis, pos)
    ensures t.Node? && t.data == parent
    ensures CoordsLt(pos(child), pos(parent), yAxis) <==> t.left.Node?
  {
    var c := Node(child, Leaf, Leaf);
    SingleNode(child, !yAxis, pos);
    if CoordsLt(pos(child), pos(parent), yAxis) then
      NodeOrdered(parent, c, Leaf, yAxis, pos, multiset{child}, multiset{});
      Node(parent, c, Leaf)
    else
      NodeOrdered(parent, Leaf, c, yAxis, pos, multiset{}, multiset{child});
      Node(parent, Leaf, c)
  }

  /**
   * `TreeNode::new` on the slice a[lo..hi): no element gives no node, one
   * element a leaf node, two elements the node of `PairNode`, and more
   * elements the node of `SplitNode`. The slice is only reordered.
   */
  method NewNode<T>(a: array<T>, lo: int, hi: int, yAxis: bool, pos: T -> Coords) returns (t: Tree<T>)
    requires 0 <= lo <= hi <= a.Length
    modifies a
    ensures SameOutside(a[..], old(a[..]), lo, hi) && multiset(a[..][lo..hi]) == multiset(old(a[..])[lo..hi])
    ensures Elems(t) == multiset(old(a[..])[lo..hi])
    ensures KdOrdered(t, yAxis, pos)
    decreases hi - lo, 1
  {
    if hi == lo {
      return Leaf;
    } else if hi - lo == 1 {
      assert a[lo..hi] == [a[lo]];
      SingleNode(a[lo], yAxis, pos);
      return Node(a[lo], Leaf, Leaf);
    } else if hi - lo == 2 {
      assert a[lo..hi] == [a[lo], a[lo + 1]];
      return PairNode(a[lo], a[lo + 1], yAxis, pos);
    }
    t := SplitNode(a, lo, hi, yAxis, pos);
  }

  /**
   * The bookkeeping of `SplitNode`: after the partition (a0 to a1) and the
   * construction of the two subtrees (a1 to a2 to a3), the slice has only
   * been reordered and the node over the pivot and the two subtrees is an
   * ordered tree of the slice's elements.
   */
  lemma SplitAssembly<T>(a0: seq<T>, a1: seq<T>, a2: seq<T>, a3: seq<T>, lo: int, split: int, last: int, hi: int,
                         left: Tree<T>, right: Tree<T>, yAxis: bool, pos: T -> Coords)
    requires 0 <= lo <= split <= last && last + 1 == hi <= |a0|
    requires SameOutside(a1, a0, lo, hi) && multiset(a1[lo..hi]) == multiset(a0[lo..hi])
    requires KeysBelow(multiset(a1[lo..split]), yAxis, pos, AxisKey(pos(a1[last]), yAxis))
    requires KeysAtLeast(multiset(a1[split..last]), yAxis, pos, AxisKey(pos(a1[last]), yAxis))
    requires SameOutside(a2, a1, lo, split) && multiset(a2[lo..split]) == multiset(a1[lo..split])
    requires Elems(left) == multiset(a1[lo..split]) && KdOrdered(left, !yAxis, pos)
    requires SameOutside(a3, a2, split, last) && multiset(a3[split..last]) == multiset(a2[split..last])
    requires Elems(right) == multiset(a2[split..last]) && KdOrdered(right, !yAxis, pos)
    ensures SameOutside(a3, a0, lo, hi) && multiset(a3[lo..hi]) == multiset(a0[lo..hi])
    ensures Elems(Node(a1[last], left, right)) == multiset(a0[lo..hi])
    ensures KdOrdered(Node(a1[last], left, right), yAxis, pos)
  {
    SameSlice(a2, a1, split, last, lo, split);
    SameSlice(a3, a2, lo, split, split, last);
    assert a3[last] == a2[last] == a1[last];
    SameOutsideTrans(a2, a1, a0, lo, hi, lo, split);
    SameOutsideTrans(a3, a2, a0, lo, hi, split, last);
    SliceParts(a1, lo, split, hi);
    SliceParts(a3, lo, split, hi);
    NodeOrdered(a1[last], left, right, yAxis, pos, multiset(a1[lo..split]), multiset(a1[split..last]));
  }

  /**
   * `partition` with `coords_cmp` on the axis as the comparison, on a slice
   * of three or more elements, with its bounds stated on the multisets of
   * the two parts.
   */
  method PartitionOnAxis<T>(a: array<T>, lo: int, hi: int, yAxis: bool, pos: T -> Coords) returns (split: int)
    requires 0 <= lo && lo + 3 <= hi <= a.Length
    modifies a
    ensures lo <= split < hi
    ensures SameOutside(a[..], old(a[..]), lo, hi) && multiset(a[..][lo..hi]) == multiset(old(a[..])[lo..hi])
    ensures KeysBelow(multiset(a[..][lo..split]), yAxis, pos, AxisKey(pos(a[hi - 1]), yAxis))
    ensures KeysAtLeast(multiset(a[..][split..hi - 1]), yAxis, pos, AxisKey(pos(a[hi - 1]), yAxis))
  {
    // With three or more elements the two-element case of `partition` is not reached.
    var r := PartitionAsWritten(a, lo, hi, (e: T) => AxisKey(pos(e), yAxis));
    split := r.value;
    SliceKeys(a[..], lo, split, yAxis, pos, AxisKey(pos(a[hi - 1]), yAxis));
    SliceKeys(a[..], split, hi - 1, yAxis, pos, AxisKey(pos(a[hi - 1]), yAxis));
  }

  /**
   * The case of three or more elements of `TreeNode::new`: the slice is
   * partitioned around the median of three, which becomes the node, and
   * the lower and upper parts become its subtrees on the other axis.
   */
  method SplitNode<T>(a: array<T>, lo: int, hi: int, yAxis: bool, pos: T -> Coords) returns (t: Tree<T>)
    requires 0 <= lo && lo + 3 <= hi <= a.Length
    modifies a
    ensures SameOutside(a[..], old(a[..]), lo, hi) && multiset(a[..][lo..hi]) == multiset(old(a[..])[lo..hi])
    ensures Elems(t) == multiset(old(a[..])[lo..hi])
    ensures KdOrdered(t, yAxis, pos)
    decreases hi - lo, 0
  {
    ghost var a0 := a[..];
    var split := PartitionOnAxis(a, lo, hi, yAxis, pos);
    ghost var a1 := a[..];
    var pivot := a[hi - 1];
    var last := hi - 1;
    var left := NewNode(a, lo, split, !yAxis, pos);
    ghost var a2 := a[..];
    var right := NewNode(a, split, last, !yAxis, pos);
    SplitAssembly(a0, a1, a2, a[..], lo, split, last, hi, left, right, yAxis, pos);
    t := Node(pivot, left, right);
  }

  /** `UTMTree`: the root of the tree, split on x. */
  datatype UTMTree<T> = UTMTree(root: Tree<T>)

  /** `UTMTree::new`: a tree over references to all the data elements, split on x at the root. */
  method NewTree<T>(data: seq<T>, pos: T -> Coords) returns (tree: UTMTree<T>)
    ensures Elems(tree.root) == multiset(data)
    ensures KdOrdered(tree.root, false, pos)
  {
    var refs := new T[|data|](i requires 0 <= i < |data| => data[i]);
    assert refs[0..refs.Length] == data;
    var root := NewNode(refs, 0, refs.Length, false, pos);
    tree := UTMTree(root);
  }

  /**
   * A slot of the `best` buffer: `(None, INFINITY)` is a vacant slot and
   * `(Some(e), d)` the element `e` found at squared distance `d`.
   */
  datatype Slot<T> = Vacant | Found(item: T, dist: real)

  /** `x.1 <= d` for a finite `d`: a vacant slot's infinite distance never is. */
  predicate AtMost<T>(x: Slot<T>, d: real)
  {
    x.Found? && x.dist <= d
  }

  /** The buffer holds its found elements in ascending order of distance, vacant slots last. */
  ghost predicate Sorted<T>(b: seq<Slot<T>>)
  {
    forall i, j :: 0 <= i < j < |b| && b[j].Found? ==> b[i].Found? && b[i].dist <= b[j].dist
  }

  /**
   * The index that `binary_search_by` returns as its `Err` for the
   * comparison of `nearest_neighbors`, which answers `Less` for a slot at
   * distance at most `d` and `Greater` otherwise (never `Equal`): the end of
   * the leading run of slots at most `d`.
   */
  function FirstAbove<T>(b: seq<Slot<T>>, d: real): (idx: nat)
    ensures idx <= |b|
    ensures forall i :: 0 <= i < idx ==> AtMost(b[i], d)
    ensures idx < |b| ==> !AtMost(b[idx], d)
  {
    if |b| == 0 || !AtMost(b[0], d) then 0 else 1 + FirstAbove(b[1..], d)
  }

  /** On a sorted buffer that index is the partition point: no slot from it on is at most `d`. */
  lemma FirstAboveSorted<T>(b: seq<Slot<T>>, d: real)
    requires Sorted(b)
    ensures forall i :: FirstAbove(b, d) <= i < |b| ==> !AtMost(b[i], d)
  {
  }

  /** The buffer after the swap loop has carried `x` in at `idx`: later slots move one place on and the last drops out. */
  function Inserted<T>(b: seq<Slot<T>>, x: Slot<T>, idx: nat): seq<Slot<T>>
    requires idx < |b|
  {
    b[..idx] + [x] + b[idx..|b| - 1]
  }

  /**
   * The swap loop of `nearest_neighbors`: `x` is swapped through the slots
   * from `idx` to the end, so each of them takes the previous slot's entry.
   */
  method InsertAt<T>(best: array<Slot<T>>, idx: int, x: Slot<T>)
    requires 0 <= idx < best.Length
    modifies best
    ensures best[..] == Inserted(old(best[..]), x, idx)
  {
    ghost var b := best[..];
    var t := x;
    for k := idx to best.Length
      invariant forall m :: 0 <= m < idx ==> best[m] == b[m]
      invariant forall m :: idx <= m < k ==> best[m] == (if m == idx then x else b[m - 1])
      invariant forall m :: k <= m < best.Length ==> best[m] == b[m]
      invariant t == (if k == idx then x else b[k - 1])
    {
      t, best[k] := best[k], t;
    }
    assert best[..] == Inserted(b, x, idx);
  }

  /**
   * The upwards step of `nearest_neighbors` for an element `e` at squared
   * distance `d`: `e` goes in after every slot at distance at most `d`, and
   * is left out when there is no slot after them.
   */
  function Offer<T>(b: seq<Slot<T>>, e: T, d: real): seq<Slot<T>>
  {
    var idx := FirstAbove(b, d);
    if idx < |b| then Inserted(b, Found(e, d), idx) else b
  }

  /**
   * The buffer accounts for `e` at distance `d`: `e` is listed at that
   * distance, or the buffer's last slot, and so every slot of a sorted
   * buffer, holds an element no farther than `d`.
   */
  ghost predicate Holds<T>(b: seq<Slot<T>>, e: T, d: real)
  {
    (exists i :: 0 <= i < |b| && b[i] == Found(e, d)) || (|b| > 0 && AtMost(b[|b| - 1], d))
  }

  /** Every element the buffer accounted for before, it accounts for after. */
  ghost predicate Extends<T(!new)>(b0: seq<Slot<T>>, b1: seq<Slot<T>>)
  {
    forall e, d :: Holds(b0, e, d) ==> Holds(b1, e, d)
  }

  /** Every element of `m` nearer to `q` than the limit is accounted for in the buffer. */
  ghost predicate Covers<T>(b: seq<Slot<T>>, m: multiset<T>, q: Coords, pos: T -> Coords, lim: F64)
  {
    forall e | e in m && Below(SquaredDist(pos(e), q), lim) :: Holds(b, e, SquaredDist(pos(e), q))
  }

  /** Every found element comes from `s`, with its squared distance to `q`, which is below the limit. */
  ghost predicate Sound<T>(b: seq<Slot<T>>, s: multiset<T>, q: Coords, pos: T -> Coords, lim: F64)
  {
    forall i :: 0 <= i < |b| && b[i].Found? ==>
      b[i].item in s && b[i].dist == SquaredDist(pos(b[i].item), q) && Below(b[i].dist, lim)
  }

  /** The elements held by the found slots, with multiplicity. */
  ghost function FoundItems<T>(b: seq<Slot<T>>): multiset<T>
  {
    if |b| == 0 then multiset{} else (if b[0].Found? then multiset{b[0].item} else multiset{}) + FoundItems(b[1..])
  }

  lemma {:induction false} FoundItemsAppend<T>(a: seq<Slot<T>>, b: seq<Slot<T>>)
    ensures FoundItems(a + b) == FoundItems(a) + FoundItems(b)
    decreases |a|
  {
    if |a| > 0 {
      assert (a + b)[0] == a[0] && (a + b)[1..] == a[1..] + b;
      FoundItemsAppend(a[1..], b);
    } else {
      assert a + b == b;
    }
  }

  /** The step adds at most the offered element: an entry that drops off the end leaves with it. */
  lemma OfferItems<T>(b: seq<Slot<T>>, e: T, d: real)
    ensures FoundItems(Offer(b, e, d)) <= FoundItems(b) + multiset{e}
  {
    var idx := FirstAbove(b, d);
    if idx < |b| {
      var n := |b|;
      assert b == b[..idx] + b[idx..n - 1] + [b[n - 1]];
      FoundItemsAppend(b[..idx] + b[idx..n - 1], [b[n - 1]]);
      FoundItemsAppend(b[..idx], b[idx..n - 1]);
      FoundItemsAppend(b[..idx] + [Found(e, d)], b[idx..n - 1]);
      FoundItemsAppend(b[..idx], [Found(e, d)]);
      assert FoundItems([Found(e, d)]) == multiset{e};
    }
  }

  /** Insertion keeps the buffer sorted, after the slots at distance at most `d` and before the others. */
  lemma OfferSorted<T>(b: seq<Slot<T>>, e: T, d: real)
    requires Sorted(b)
    ensures Sorted(Offer(b, e, d))
    ensures |Offer(b, e, d)| == |b|
  {
    var idx := FirstAbove(b, d);
    FirstAboveSorted(b, d);
    if idx < |b| {
      var r := Inserted(b, Found(e, d), idx);
      forall i, j | 0 <= i < j < |r| && r[j].Found?
        ensures r[i].Found? && r[i].dist <= r[j].dist
      {
        if j < idx {
          assert r[i] == b[i] && r[j] == b[j];
        } else if j == idx {
          assert r[i] == b[i];
        } else if i == idx {
          assert r[j] == b[j - 1];
          assert !AtMost(b[j - 1], d);
        } else if i < idx {
          assert r[i] == b[i] && r[j] == b[j - 1];
        } else {
          assert r[i] == b[i - 1] && r[j] == b[j - 1];
        }
      }
    }
  }

  /** After the step, the offered element is accounted for: listed, or the buffer is full of nearer ones. */
  lemma OfferHolds<T>(b: seq<Slot<T>>, e: T, d: real)
    requires |b| > 0 && Sorted(b)
    ensures Holds(Offer(b, e, d), e, d)
  {
    var idx := FirstAbove(b, d);
    if idx < |b| {
      assert Offer(b, e, d)[idx] == Found(e, d);
    } else {
      assert AtMost(b[|b| - 1], d);
    }
  }

  /**
   * The step never loses an element accounted for: a listed element that
   * drops off the end was the farthest, so the new last slot is no farther.
   */
  lemma OfferExtends<T(!new)>(b: seq<Slot<T>>, e: T, d: real)
    requires Sorted(b)
    ensures Extends(b, Offer(b, e, d))
  {
    var idx := FirstAbove(b, d);
    FirstAboveSorted(b, d);
    if idx < |b| {
      var r := Inserted(b, Found(e, d), idx);
      var n := |b|;
      forall e2, d2 | Holds(b, e2, d2)
        ensures Holds(r, e2, d2)
      {
        if exists i :: 0 <= i < n && b[i] == Found(e2, d2) {
          var i :| 0 <= i < n && b[i] == Found(e2, d2);
          if i < idx {
            assert r[i] == b[i];
          } else if i < n - 1 {
            assert r[i + 1] == b[i];
          } else {
            LastNoFarther(b, e, d, idx);
          }
        } else {
          LastNoFarther(b, e, d, idx);
        }
      }
    }
  }

  /** When the step inserts, the new last slot is found and no farther than the old last slot. */
  lemma LastNoFarther<T>(b: seq<Slot<T>>, e: T, d: real, idx: nat)
    requires Sorted(b) && idx == FirstAbove(b, d) && idx < |b| && b[|b| - 1].Found?
    ensures var r := Inserted(b, Found(e, d), idx); r[|r| - 1].Found? && r[|r| - 1].dist <= b[|b| - 1].dist
  {
    var n := |b|;
    var r := Inserted(b, Found(e, d), idx);
    if idx == n - 1 {
      assert r[n - 1] == Found(e, d);
      assert !AtMost(b[n - 1], d);
    } else {
      assert r[n - 1] == b[n - 2];
    }
  }

  /** The step keeps the buffer sound when the offered element is from `s`, at its distance, below the limit. */
  lemma OfferSound<T>(b: seq<Slot<T>>, e: T, d: real, s: multiset<T>, q: Coords, pos: T -> Coords, lim: F64)
    requires Sound(b, s, q, pos, lim)
    requires e in s && d == SquaredDist(pos(e), q) && Below(d, lim)
    ensures Sound(Offer(b, e, d), s, q, pos, lim)
  {
    var idx := FirstAbove(b, d);
    if idx < |b| {
      var r := Inserted(b, Found(e, d), idx);
      forall i | 0 <= i < |r| && r[i].Found?
        ensures r[i].item in s && r[i].dist == SquaredDist(pos(r[i].item), q) && Below(r[i].dist, lim)
      {
        if i < idx {
          assert r[i] == b[i];
        } else if i > idx {
          assert r[i] == b[i - 1];
        }
      }
    }
  }

  /**
   * A point `p` on the other side of the splitting coordinate `c` from the
   * query `q` is at least the squared axis separation of `q` and `c` away.
   */
  lemma AxisSeparation(p: Coords, q: Coords, c: Coords, yAxis: bool)
    requires var qa, ca, pa := AxisKey(q, yAxis), AxisKey(c, yAxis), AxisKey(p, yAxis);
      (qa < ca <= pa) || (pa < ca <= qa)
    ensures SquaredDist(p, q) >= (AxisKey(q, yAxis) - AxisKey(c, yAxis)) * (AxisKey(q, yAxis) - AxisKey(c, yAxis))
  {
    var qa, ca, pa := AxisKey(q, yAxis), AxisKey(c, yAxis), AxisKey(p, yAxis);
    SquareMonotone(Abs(qa - ca), Abs(qa - pa));
    assert Abs(qa - ca) * Abs(qa - ca) == (qa - ca) * (qa - ca);
    assert Abs(qa - pa) * Abs(qa - pa) == (pa - qa) * (pa - qa);
    var ox, oy := p.x - q.x, p.y - q.y;
    SquareSign(ox, ox * ox);
    SquareSign(oy, oy * oy);
  }

  /** Every element of `m` is at least `sep` away from `q`. */
  ghost predicate AllAtLeastFrom<T>(m: multiset<T>, q: Coords, pos: T -> Coords, sep: real)
  {
    forall e | e in m :: SquaredDist(pos(e), q) >= sep
  }

  /** The subtree on the far side of a node from the query lies at least the axis separation away. */
  lemma FarSide<T>(m: multiset<T>, q: Coords, c: Coords, yAxis: bool, pos: T -> Coords, left: bool, sep: real)
    requires left == (AxisKey(q, yAxis) < AxisKey(c, yAxis))
    requires sep == (AxisKey(q, yAxis) - AxisKey(c, yAxis)) * (AxisKey(q, yAxis) - AxisKey(c, yAxis))
    requires left ==> KeysAtLeast(m, yAxis, pos, AxisKey(c, yAxis))
    requires !left ==> KeysBelow(m, yAxis, pos, AxisKey(c, yAxis))
    ensures AllAtLeastFrom(m, q, pos, sep)
  {
    forall e | e in m
      ensures SquaredDist(pos(e), q) >= sep
    {
      AxisSeparation(pos(e), q, c, yAxis);
    }
  }

  /**
   * The pruning of `nearest_neighbors`: when the separation is not below
   * the limit, or the buffer's last slot is found nearer than it, the far
   * subtree holds nothing the buffer does not already account for.
   */
  lemma Pruned<T>(b: seq<Slot<T>>, last: Slot<T>, m: multiset<T>, q: Coords, pos: T -> Coords, lim: F64, sep: real)
    requires |b| > 0 && last == b[|b| - 1] && AllAtLeastFrom(m, q, pos, sep)
    requires !(Below(sep, lim) && (last.Vacant? || sep <= last.dist))
    ensures Covers(b, m, q, pos, lim)
  {
    forall e | e in m && Below(SquaredDist(pos(e), q), lim)
      ensures Holds(b, e, SquaredDist(pos(e), q))
    {
      var d := SquaredDist(pos(e), q);
      assert d >= sep;
      if !Below(sep, lim) {
        assert false;
      }
      assert AtMost(b[|b| - 1], d);
    }
  }

  /** `Covers` survives a step that extends the buffer. */
  lemma CoversExtends<T(!new)>(b0: seq<Slot<T>>, b1: seq<Slot<T>>, m: multiset<T>, q: Coords, pos: T -> Coords, lim: F64)
    requires Covers(b0, m, q, pos, lim) && Extends(b0, b1)
    ensures Covers(b1, m, q, pos, lim)
  {
  }

  /** Extending is transitive. */
  lemma ExtendsTrans<T(!new)>(b0: seq<Slot<T>>, b1: seq<Slot<T>>, b2: seq<Slot<T>>)
    requires Extends(b0, b1) && Extends(b1, b2)
    ensures Extends(b0, b2)
  {
  }

  /** The buffer covers a node's elements when it covers its element and both subtrees. */
  lemma CoversNode<T>(b: seq<Slot<T>>, t: Tree<T>, q: Coords, pos: T -> Coords, lim: F64)
    requires t.Node?
    requires Covers(b, multiset{t.data}, q, pos, lim)
    requires Covers(b, Elems(t.left), q, pos, lim) && Covers(b, Elems(t.right), q, pos, lim)
    ensures Covers(b, Elems(t), q, pos, lim)
  {
  }

  /**
   * `TreeNode::nearest_neighbors` at the node `t` on axis `yAxis` with the
   * squared limit `lim`: descend on the query's side, offer the node's own
   * element when it is below the limit, then visit the far side unless it
   * is pruned. The buffer stays sorted and sound, loses nothing it
   * accounted for, and afterwards accounts for every element of the subtree
   * below the limit.
   */
  method Query<T(!new)>(t: Tree<T>, q: Coords, best: array<Slot<T>>, yAxis: bool, lim: F64, pos: T -> Coords, ghost s: multiset<T>)
    requires t.Node? && KdOrdered(t, yAxis, pos) && Elems(t) <= s
    requires best.Length > 0 && Sorted(best[..]) && Sound(best[..], s, q, pos, lim)
    modifies best
    ensures Sorted(best[..]) && Sound(best[..], s, q, pos, lim)
    ensures Extends(old(best[..]), best[..])
    ensures Covers(best[..], Elems(t), q, pos, lim)
    ensures FoundItems(best[..]) <= FoundItems(old(best[..])) + Elems(t)
    decreases t, 1
  {
    ghost var b0 := best[..];
    var c := pos(t.data);
    var left := CoordsLt(q, c, yAxis);
    ChildFacts(t, yAxis, pos, s);
    var near := if left then t.left else t.right;
    var far := if left then t.right else t.left;
    Descend(near, q, best, !yAxis, lim, pos, s);
    ghost var b1 := best[..];
    var d := SquaredDist(c, q);
    Consider(best, t.data, d, s, q, pos, lim);
    ghost var b2 := best[..];
    VisitFar(t, far, left, q, best, yAxis, lim, pos, s);
    QueryAssembly(b0, b1, b2, best[..], t, near, far, left, d, q, pos, lim);
    ItemsAssembly(FoundItems(b0), FoundItems(b1), FoundItems(b2), FoundItems(best[..]), t, near, far, left);
  }

  /** The found elements after the three parts of `Query` come from the buffer before it and the node's elements. */
  lemma ItemsAssembly<T>(m0: multiset<T>, m1: multiset<T>, m2: multiset<T>, m3: multiset<T>, t: Tree<T>,
                         near: Tree<T>, far: Tree<T>, left: bool)
    requires t.Node? && near == (if left then t.left else t.right) && far == (if left then t.right else t.left)
    requires m1 <= m0 + Elems(near) && m2 <= m1 + multiset{t.data} && m3 <= m2 + Elems(far)
    ensures m3 <= m0 + Elems(t)
  {
    assert Elems(t) == multiset{t.data} + Elems(near) + Elems(far);
  }

  /** The recursion into a child of `nearest_neighbors`, when the child exists. */
  method Descend<T(!new)>(child: Tree<T>, q: Coords, best: array<Slot<T>>, yAxis: bool, lim: F64, pos: T -> Coords, ghost s: multiset<T>)
    requires KdOrdered(child, yAxis, pos) && Elems(child) <= s
    requires best.Length > 0 && Sorted(best[..]) && Sound(best[..], s, q, pos, lim)
    modifies best
    ensures Sorted(best[..]) && Sound(best[..], s, q, pos, lim)
    ensures Extends(old(best[..]), best[..])
    ensures Covers(best[..], Elems(child), q, pos, lim)
    ensures FoundItems(best[..]) <= FoundItems(old(best[..])) + Elems(child)
    decreases child, 2
  {
    if child.Node? {
      Query(child, q, best, yAxis, lim, pos, s);
    }
  }

  /** The children of an ordered node are ordered on the other axis, and its elements are among those of `s`. */
  lemma ChildFacts<T>(t: Tree<T>, yAxis: bool, pos: T -> Coords, s: multiset<T>)
    requires t.Node? && KdOrdered(t, yAxis, pos) && Elems(t) <= s
    ensures KdOrdered(t.left, !yAxis, pos) && KdOrdered(t.right, !yAxis, pos)
    ensures Elems(t.left) <= s && Elems(t.right) <= s && t.data in s
  {
  }

  /**
   * The upwards step of `TreeNode::nearest_neighbors`: an element at squared
   * distance `d` below the limit is inserted at the index the binary search
   * finds, when that index is within the buffer.
   */
  method Consider<T(!new)>(best: array<Slot<T>>, e: T, d: real, ghost s: multiset<T>, q: Coords, pos: T -> Coords, lim: F64)
    requires best.Length > 0 && Sorted(best[..]) && Sound(best[..], s, q, pos, lim)
    requires e in s && d == SquaredDist(pos(e), q)
    modifies best
    ensures best[..] == if Below(d, lim) then Offer(old(best[..]), e, d) else old(best[..])
    ensures Sorted(best[..]) && Sound(best[..], s, q, pos, lim)
    ensures Extends(old(best[..]), best[..])
    ensures Below(d, lim) ==> Holds(best[..], e, d)
    ensures FoundItems(best[..]) <= FoundItems(old(best[..])) + multiset{e}
  {
    ghost var b := best[..];
    if Below(d, lim) {
      var idx := FirstAbove(best[..], d);
      if idx < best.Length {
        InsertAt(best, idx, Found(e, d));
      }
      OfferSorted(b, e, d);
      OfferHolds(b, e, d);
      OfferExtends(b, e, d);
      OfferSound(b, e, d, s, q, pos, lim);
      OfferItems(b, e, d);
    }
  }

  /**
   * The last part of `TreeNode::nearest_neighbors`: the far subtree is
   * visited only when it exists, its squared separation from the query is
   * below the limit and the buffer's last slot is not nearer than that.
   */
  method VisitFar<T(!new)>(t: Tree<T>, far: Tree<T>, left: bool, q: Coords, best: array<Slot<T>>, yAxis: bool, lim: F64,
                           pos: T -> Coords, ghost s: multiset<T>)
    requires t.Node? && KdOrdered(t, yAxis, pos) && Elems(t) <= s
    requires left == CoordsLt(q, pos(t.data), yAxis)
    requires far == if left then t.right else t.left
    requires best.Length > 0 && Sorted(best[..]) && Sound(best[..], s, q, pos, lim)
    modifies best
    ensures Sorted(best[..]) && Sound(best[..], s, q, pos, lim)
    ensures Extends(old(best[..]), best[..])
    ensures Covers(best[..], Elems(far), q, pos, lim)
    ensures FoundItems(best[..]) <= FoundItems(old(best[..])) + Elems(far)
    decreases t, 0
  {
    ghost var b := best[..];
    if far.Node? {
      var c := pos(t.data);
      var sep := (AxisKey(q, yAxis) - AxisKey(c, yAxis)) * (AxisKey(q, yAxis) - AxisKey(c, yAxis));
      var last := best[best.Length - 1];
      if Below(sep, lim) && (last.Vacant? || sep <= last.dist) {
        Query(far, q, best, !yAxis, lim, pos, s);
      } else {
        FarSide(Elems(far), q, c, yAxis, pos, left, sep);
        Pruned(b, last, Elems(far), q, pos, lim, sep);
      }
    }
  }

  /** The bookkeeping of `Query`: the three parts of the node's elements are covered at the end. */
  lemma QueryAssembly<T(!new)>(b0: seq<Slot<T>>, b1: seq<Slot<T>>, b2: seq<Slot<T>>, b3: seq<Slot<T>>, t: Tree<T>,
                               near: Tree<T>, far: Tree<T>, left: bool, d: real, q: Coords, pos: T -> Coords, lim: F64)
    requires t.Node? && near == (if left then t.left else t.right) && far == (if left then t.right else t.left)
    requires d == SquaredDist(pos(t.data), q)
    requires Extends(b0, b1) && Extends(b1, b2) && Extends(b2, b3)
    requires Covers(b1, Elems(near), q, pos, lim)
    requires Below(d, lim) ==> Holds(b2, t.data, d)
    requires Covers(b3, Elems(far), q, pos, lim)
    ensures Extends(b0, b3)
    ensures Covers(b3, Elems(t), q, pos, lim)
  {
    ExtendsTrans(b0, b1, b2);
    ExtendsTrans(b0, b2, b3);
    ExtendsTrans(b1, b2, b3);
    CoversExtends(b1, b3, Elems(near), q, pos, lim);
    CoversNode(b3, t, q, pos, lim);
  }

  /**
   * `UTMTree::nearest_neighbors`: every slot of `out` is reset to vacant;
   * an empty buffer or an empty tree is left so, and otherwise the root is
   * queried with the squared limit. The buffer ends sorted, holds only tree
   * elements at their squared distances below the squared limit, and
   * accounts for every tree element below it.
   */
  method NearestNeighbors<T(!new,==)>(tree: UTMTree<T>, q: Coords, out: array<Slot<T>>, maxDist: F64, pos: T -> Coords)
    requires KdOrdered(tree.root, false, pos)
    modifies out
    ensures Sorted(out[..]) && Sound(out[..], Elems(tree.root), q, pos, Square(maxDist))
    ensures out.Length > 0 ==> Covers(out[..], Elems(tree.root), q, pos, Square(maxDist))
    ensures FoundItems(out[..]) <= Elems(tree.root)
    ensures tree.root.Leaf? ==> forall i :: 0 <= i < out.Length ==> out[i].Vacant?
  {
    for i := 0 to out.Length
      invariant forall j :: 0 <= j < i ==> out[j].Vacant?
    {
      out[i] := Vacant;
    }
    VacantBuffer(out[..], Elems(tree.root), q, pos, Square(maxDist));
    if out.Length == 0 {
      return;
    }
    if tree.root.Node? {
      Query(tree.root, q, out, false, Square(maxDist), pos, Elems(tree.root));
    }
  }

  /** A buffer of vacant slots is sorted, sound, and covers a tree with no elements. */
  lemma VacantBuffer<T>(b: seq<Slot<T>>, s: multiset<T>, q: Coords, pos: T -> Coords, lim: F64)
    requires forall i :: 0 <= i < |b| ==> b[i].Vacant?
    ensures Sorted(b) && Sound(b, s, q, pos, lim)
    ensures s == multiset{} ==> Covers(b, s, q, pos, lim)
    ensures FoundItems(b) == multiset{}
  {
    VacantItems(b);
  }

  lemma {:induction false} VacantItems<T>(b: seq<Slot<T>>)
    requires forall i :: 0 <= i < |b| ==> b[i].Vacant?
    ensures FoundItems(b) == multiset{}
  {
    if |b| > 0 {
      VacantItems(b[1..]);
    }
  }

  /** `retain(|nn| nn.0.is_some())`: the found slots, in order. */
  function Retained<T>(b: seq<Slot<T>>): (r: seq<Slot<T>>)
    ensures |r| <= |b|
    ensures forall i :: 0 <= i < |r| ==> r[i].Found?
  {
    if |b| == 0 then [] else (if b[0].Found? then [b[0]] else []) + Retained(b[1..])
  }

  /** In a sorted buffer the found slots come first, so retaining them keeps a prefix and drops only vacant slots. */
  lemma {:induction false} RetainedPrefix<T>(b: seq<Slot<T>>)
    requires Sorted(b)
    ensures Retained(b) == b[..|Retained(b)|]
    ensures forall i :: |Retained(b)| <= i < |b| ==> b[i].Vacant?
  {
    if |b| > 0 {
      var t := b[1..];
      assert Sorted(t) by {
        forall i, j | 0 <= i < j < |t| && t[j].Found?
          ensures t[i].Found? && t[i].dist <= t[j].dist
        {
          assert t[i] == b[i + 1] && t[j] == b[j + 1];
        }
      }
      RetainedPrefix(t);
      if b[0].Vacant? {
        if |Retained(t)| > 0 {
          assert t[0] == b[1];
        }
        assert Retained(b) == Retained(t) == [];
        forall i | 0 <= i < |b|
          ensures b[i].Vacant?
        {
          if i > 0 {
            assert b[i] == t[i - 1];
          }
        }
      } else {
        assert Retained(b) == [b[0]] + Retained(t);
        forall i | |Retained(b)| <= i < |b|
          ensures b[i].Vacant?
        {
          assert b[i] == t[i - 1];
        }
      }
    }
  }

  /**
   * `UTMTree::collect_nearest`: a fresh buffer of `k` vacant slots is
   * filled by `NearestNeighbors` and its found slots retained. The result
   * has at most `k` entries, all found, in ascending order of distance, each
   * a tree element at its squared distance below the squared limit; every
   * tree element below the limit is listed, unless `k` entries no farther
   * than it are.
   */
  method CollectNearest<T(!new,==)>(tree: UTMTree<T>, q: Coords, k: nat, maxDist: F64, pos: T -> Coords) returns (res: seq<Slot<T>>)
    requires KdOrdered(tree.root, false, pos)
    ensures |res| <= k && Sorted(res) && forall i :: 0 <= i < |res| ==> res[i].Found?
    ensures Sound(res, Elems(tree.root), q, pos, Square(maxDist))
    ensures FoundItems(res) <= Elems(tree.root)
    ensures forall e | k > 0 && e in Elems(tree.root) && Below(SquaredDist(pos(e), q), Square(maxDist)) ::
      (exists i :: 0 <= i < |res| && res[i] == Found(e, SquaredDist(pos(e), q)))
      || (|res| == k && AtMost(res[k - 1], SquaredDist(pos(e), q)))
  {
    var out := new Slot<T>[k](_ => Vacant);
    NearestNeighbors(tree, q, out, maxDist, pos);
    res := Retained(out[..]);
    RetainedPrefix(out[..]);
    RetainedItems(out[..], res);
    CollectedCovers(out[..], res, Elems(tree.root), q, pos, Square(maxDist));
  }

  /** Retaining drops only vacant slots, so it keeps the found elements. */
  lemma RetainedItems<T>(b: seq<Slot<T>>, res: seq<Slot<T>>)
    requires |res| <= |b| && res == b[..|res|] && forall i :: |res| <= i < |b| ==> b[i].Vacant?
    ensures FoundItems(res) == FoundItems(b)
  {
    assert b == res + b[|res|..];
    FoundItemsAppend(res, b[|res|..]);
    VacantItems(b[|res|..]);
  }

  /** The retained prefix of a sorted, sound buffer that covers `m` lists each element of `m` below the limit, or is full of nearer ones. */
  lemma CollectedCovers<T>(b: seq<Slot<T>>, res: seq<Slot<T>>, m: multiset<T>, q: Coords, pos: T -> Coords, lim: F64)
    requires |res| <= |b| && res == b[..|res|] && forall i :: |res| <= i < |b| ==> b[i].Vacant?
    requires |b| > 0 ==> Covers(b, m, q, pos, lim)
    ensures forall e | |b| > 0 && e in m && Below(SquaredDist(pos(e), q), lim) ::
      (exists i :: 0 <= i < |res| && res[i] == Found(e, SquaredDist(pos(e), q)))
      || (|res| == |b| && AtMost(res[|b| - 1], SquaredDist(pos(e), q)))
  {
    forall e | |b| > 0 && e in m && Below(SquaredDist(pos(e), q), lim)
      ensures (exists i :: 0 <= i < |res| && res[i] == Found(e, SquaredDist(pos(e), q)))
        || (|res| == |b| && AtMost(res[|b| - 1], SquaredDist(pos(e), q)))
    {
      var d := SquaredDist(pos(e), q);
      assert Holds(b, e, d);
      if exists i :: 0 <= i < |b| && b[i] == Found(e, d) {
        var i :| 0 <= i < |b| && b[i] == Found(e, d);
        assert i < |res| && res[i] == b[i];
      } else {
        var n := |b|;
        assert AtMost(b[n - 1], d);
        assert n - 1 < |res|;
        assert res[n - 1] == b[n - 1];
      }
    }
  }
}

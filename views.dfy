/**
 The n-dimensional array abstraction that the apply engine works over.

 An array of shape `shape` stores `Product(shape)` elements at flat,
 row-major positions `0 .. Product(shape)`. A view is a rectangular box of
 multi-indices inside that shape: a start offset and an extent per axis.
 Iterating a view visits its elements in row-major order of the box, which
 is the order of the flat positions given by `Positions`.
 */
module Views {

  /** Element count of an array or view with the given per-axis extents. */
  function Product(extents: seq<nat>): nat
  {
    if |extents| == 0 then 1 else extents[0] * Product(extents[1..])
  }

  /** A rectangular window of an array: per-axis start offset and extent. */
  datatype View = View(offset: seq<nat>, extent: seq<nat>)
  {
    /** Offset and extent have the same rank. */
    predicate WellFormed()
    {
      |offset| == |extent|
    }

    /** Number of elements of the view (ndarray's `len()`). */
    function Len(): nat
    {
      Product(extent)
    }

    /** The view with its outermost axis dropped. */
    function Tail(): View
      requires WellFormed() && |extent| > 0
    {
      View(offset[1..], extent[1..])
    }
  }

  /** The view has the rank of the array. */
  predicate Ranked(shape: seq<nat>, v: View)
  {
    |v.offset| == |shape| && |v.extent| == |shape|
  }

  /** The view lies inside an array of the given shape. */
  predicate Within(shape: seq<nat>, v: View)
  {
    Ranked(shape, v) &&
    forall k :: 0 <= k < |shape| ==> v.offset[k] + v.extent[k] <= shape[k]
  }

  /** The view of the whole array (ndarray's `view_mut()`). */
  function Whole(shape: seq<nat>): (v: View)
    ensures Within(shape, v) && v.Len() == Product(shape)
  {
    View(seq(|shape|, k => 0), shape)
  }

  /** The sequence `0, 1, .., n - 1`. */
  function Range(n: nat): seq<nat>
  {
    seq(n, i => i)
  }

  /** Strictly increasing sequence: in particular, no position occurs twice. */
  predicate Increasing(s: seq<nat>)
  {
    forall i, j :: 0 <= i < j < |s| ==> s[i] < s[j]
  }

  /** No element of `x` occurs in `y`. */
  predicate Disjoint(x: seq<nat>, y: seq<nat>)
  {
    forall p :: p in x ==> p !in y
  }

  function Shift(d: nat, s: seq<nat>): seq<nat>
  {
    seq(|s|, k requires 0 <= k < |s| => d + s[k])
  }

  /** `count` consecutive rows starting at row `start`, each row being the
      positions `inner` displaced by the row's start address. */
  function Rows(stride: nat, start: nat, count: nat, inner: seq<nat>): seq<nat>
    decreases count
  {
    if count == 0 then []
    else Shift(start * stride, inner) + Rows(stride, start + 1, count - 1, inner)
  }

  /** Flat storage positions of the elements of `v`, in the view's
      iteration order (row-major over the box). */
  function Positions(shape: seq<nat>, v: View): (ps: seq<nat>)
    requires Ranked(shape, v)
    ensures |ps| == v.Len()
    decreases |shape|
  {
    if |shape| == 0 then [0]
    else
      var inner := Positions(shape[1..], v.Tail());
      RowsLength(Product(shape[1..]), v.offset[0], v.extent[0], inner);
      Rows(Product(shape[1..]), v.offset[0], v.extent[0], inner)
  }

  lemma {:induction false} RowsLength(stride: nat, start: nat, count: nat, inner: seq<nat>)
    ensures |Rows(stride, start, count, inner)| == count * |inner|
    decreases count
  {
    if count > 0 {
      RowsLength(stride, start + 1, count - 1, inner);
      MulSucc(count - 1, |inner|);
    }
  }

  /** Row-major flat address of a multi-index in an array of the given shape. */
  function Address(shape: seq<nat>, index: seq<nat>): nat
    requires |index| == |shape|
  {
    if |shape| == 0 then 0
    else index[0] * Product(shape[1..]) + Address(shape[1..], index[1..])
  }

  /** The multi-index lies in the box of `v`. */
  predicate InBox(v: View, index: seq<nat>)
    requires v.WellFormed()
  {
    |index| == |v.extent| &&
    forall k :: 0 <= k < |index| ==> v.offset[k] <= index[k] < v.offset[k] + v.extent[k]
  }

  /** The two views that `split_at(axis, index)` cuts `v` into. */
  function SplitAt(v: View, axis: nat, index: nat): (halves: (View, View))
    requires v.WellFormed() && axis < |v.extent| && index <= v.extent[axis]
    ensures halves.0.WellFormed() && halves.1.WellFormed()
    ensures |halves.0.extent| == |halves.1.extent| == |v.extent|
    // only the split axis changes, in both halves
    ensures forall k :: 0 <= k < |v.extent| && k != axis ==>
              halves.0.extent[k] == v.extent[k] && halves.1.extent[k] == v.extent[k] &&
              halves.0.offset[k] == v.offset[k] && halves.1.offset[k] == v.offset[k]
    // the lower half is the first `index` rows, the upper half the rest
    ensures halves.0.offset[axis] == v.offset[axis] && halves.0.extent[axis] == index
    ensures halves.1.offset[axis] == v.offset[axis] + index
    ensures halves.0.extent[axis] + halves.1.extent[axis] == v.extent[axis]
  {
    (View(v.offset, v.extent[axis := index]),
     View(v.offset[axis := v.offset[axis] + index], v.extent[axis := v.extent[axis] - index]))
  }

  // ---------------------------------------------------------------------
  // Products

  lemma {:induction false} ProductConcat(x: seq<nat>, y: seq<nat>)
    ensures Product(x + y) == Product(x) * Product(y)
  {
    if |x| == 0 {
      assert x + y == y;
    } else {
      assert (x + y)[1..] == x[1..] + y;
      ProductConcat(x[1..], y);
      assert Product(x + y) == x[0] * (Product(x[1..]) * Product(y));
    }
  }

  /** The element count factors around any one axis. */
  lemma ProductAround(e: seq<nat>, a: nat, x: nat)
    requires a < |e|
    ensures Product(e[a := x]) == Product(e[..a]) * x * Product(e[a + 1..])
    ensures Product(e) == Product(e[..a]) * e[a] * Product(e[a + 1..])
  {
    assert e[a := x] == e[..a] + ([x] + e[a + 1..]);
    assert e == e[..a] + ([e[a]] + e[a + 1..]);
    assert ([x] + e[a + 1..])[1..] == e[a + 1..];
    assert ([e[a]] + e[a + 1..])[1..] == e[a + 1..];
    ProductConcat(e[..a], [x] + e[a + 1..]);
    ProductConcat(e[..a], [e[a]] + e[a + 1..]);
  }

  /** A non-empty view has no axis of extent 0. */
  lemma {:induction false} ProductPositive(e: seq<nat>)
    ensures Product(e) > 0 ==> forall j :: 0 <= j < |e| ==> e[j] > 0
  {
    if |e| > 0 && Product(e) > 0 {
      ProductPositive(e[1..]);
      assert e[0] > 0 && Product(e[1..]) > 0;
      forall j | 0 <= j < |e| ensures e[j] > 0 {
        if j > 0 { assert e[j] == e[1..][j - 1]; }
      }
    }
  }

  /** A view none of whose extents exceeds 1 has at most one element. */
  lemma {:induction false} ProductAtMostOne(e: seq<nat>)
    ensures (forall j :: 0 <= j < |e| ==> e[j] <= 1) ==> Product(e) <= 1
  {
    if |e| > 0 && forall j :: 0 <= j < |e| ==> e[j] <= 1 {
      assert forall j :: 0 <= j < |e[1..]| ==> e[1..][j] == e[j + 1];
      ProductAtMostOne(e[1..]);
      assert e[0] <= 1 && Product(e[1..]) <= 1;
    }
  }

  // ---------------------------------------------------------------------
  // Sequences of positions

  lemma IncreasingConcat(x: seq<nat>, y: seq<nat>, m: nat)
    requires Increasing(x) && Increasing(y)
    requires forall k :: 0 <= k < |x| ==> x[k] < m
    requires forall k :: 0 <= k < |y| ==> m <= y[k]
    ensures Increasing(x + y)
  {
  }

  lemma IncreasingConcatDisjoint(x: seq<nat>, y: seq<nat>)
    requires Increasing(x + y)
    ensures Disjoint(x, y) && Disjoint(y, x)
  {
    forall i, j | 0 <= i < |x| && 0 <= j < |y| ensures x[i] != y[j] {
      assert (x + y)[i] == x[i] && (x + y)[|x| + j] == y[j];
    }
  }

  /** In a strictly increasing sequence, positions at least as far apart as
      their indices. */
  lemma {:induction false} IncreasingGap(s: seq<nat>, i: nat, j: nat)
    requires Increasing(s) && i <= j < |s|
    ensures s[j] >= s[i] + (j - i)
    decreases j - i
  {
    if i < j {
      IncreasingGap(s, i, j - 1);
    }
  }

  /** The only strictly increasing sequence of `n` positions below `n` is
      `0, 1, .., n - 1`. */
  lemma IncreasingBelowIsRange(s: seq<nat>, n: nat)
    requires |s| == n && Increasing(s)
    requires forall k :: 0 <= k < n ==> s[k] < n
    ensures s == Range(n)
  {
    forall k | 0 <= k < n ensures s[k] == k {
      IncreasingGap(s, 0, k);
      IncreasingGap(s, k, n - 1);
    }
  }

  lemma ShiftConcat(d: nat, x: seq<nat>, y: seq<nat>)
    ensures Shift(d, x + y) == Shift(d, x) + Shift(d, y)
  {
  }

  /** Rows `start .. start + c1 + c2` are rows `start .. start + c1`
      followed by rows `start + c1 .. start + c1 + c2`. */
  lemma {:induction false} RowsSplit(stride: nat, start: nat, c1: nat, c2: nat, inner: seq<nat>)
    ensures Rows(stride, start, c1 + c2, inner) ==
            Rows(stride, start, c1, inner) + Rows(stride, start + c1, c2, inner)
    decreases c1
  {
    if c1 > 0 {
      RowsSplit(stride, start + 1, c1 - 1, c2, inner);
      assert start + 1 + (c1 - 1) == start + c1;
    }
  }

  lemma MulSucc(a: nat, b: nat)
    ensures (a + 1) * b == a * b + b
  {
  }

  lemma MulMono(a: nat, c: nat, b: nat)
    requires a <= c
    ensures a * b <= c * b
  {
  }

  lemma {:induction false} RowsInOrder(stride: nat, start: nat, count: nat, inner: seq<nat>)
    requires Increasing(inner)
    requires forall k :: 0 <= k < |inner| ==> inner[k] < stride
    ensures |Rows(stride, start, count, inner)| == count * |inner|
    ensures Increasing(Rows(stride, start, count, inner))
    ensures forall k :: 0 <= k < |Rows(stride, start, count, inner)| ==>
              start * stride <= Rows(stride, start, count, inner)[k] < (start + count) * stride
    decreases count
  {
    if count > 0 {
      var rows := Rows(stride, start, count, inner);
      var head := Shift(start * stride, inner);
      var rest := Rows(stride, start + 1, count - 1, inner);
      assert rows == head + rest;
      RowsInOrder(stride, start + 1, count - 1, inner);
      var lo, mid, hi := start * stride, (start + 1) * stride, (start + count) * stride;
      MulSucc(start, stride);
      MulMono(start + 1, start + count, stride);
      MulSucc(count - 1, |inner|);
      assert start + 1 + (count - 1) == start + count;
      assert forall k :: 0 <= k < |head| ==> lo <= head[k] < mid;
      assert forall k :: 0 <= k < |rest| ==> mid <= rest[k] < hi;
      IncreasingConcat(head, rest, mid);
      forall k | 0 <= k < |rows| ensures lo <= rows[k] < hi {
        if k < |head| { assert rows[k] == head[k]; } else { assert rows[k] == rest[k - |head|]; }
      }
    }
  }

  /** A view inside the array has `Len()` positions, all inside the array,
      visited in strictly increasing address order: every element of the
      view is visited exactly once. */
  lemma {:induction false} PositionsInOrder(shape: seq<nat>, v: View)
    requires Within(shape, v)
    ensures |Positions(shape, v)| == v.Len()
    ensures Increasing(Positions(shape, v))
    ensures forall k :: 0 <= k < |Positions(shape, v)| ==> Positions(shape, v)[k] < Product(shape)
    decreases |shape|
  {
    if |shape| > 0 {
      var t, vt := shape[1..], v.Tail();
      assert Within(t, vt) by {
        forall k | 0 <= k < |t| ensures vt.offset[k] + vt.extent[k] <= t[k] {
          assert vt.offset[k] == v.offset[k + 1] && vt.extent[k] == v.extent[k + 1] && t[k] == shape[k + 1];
        }
      }
      PositionsInOrder(t, vt);
      var stride := Product(t);
      RowsInOrder(stride, v.offset[0], v.extent[0], Positions(t, vt));
      MulMono(v.offset[0] + v.extent[0], shape[0], stride);
    }
  }

  lemma {:induction false} RowsMember(stride: nat, start: nat, count: nat, inner: seq<nat>, r: nat, x: nat)
    requires r < count && x in inner
    ensures (start + r) * stride + x in Rows(stride, start, count, inner)
    decreases r
  {
    var head := Shift(start * stride, inner);
    assert Rows(stride, start, count, inner) == head + Rows(stride, start + 1, count - 1, inner);
    if r == 0 {
      var q :| 0 <= q < |inner| && inner[q] == x;
      assert head[q] == start * stride + x;
    } else {
      RowsMember(stride, start + 1, count - 1, inner, r - 1, x);
      assert start + 1 + (r - 1) == start + r;
    }
  }

  lemma {:induction false} RowsMemberInverse(stride: nat, start: nat, count: nat, inner: seq<nat>, p: nat)
    returns (r: nat, x: nat)
    requires p in Rows(stride, start, count, inner)
    ensures r < count && x in inner && p == (start + r) * stride + x
    decreases count
  {
    var head := Shift(start * stride, inner);
    var rest := Rows(stride, start + 1, count - 1, inner);
    assert Rows(stride, start, count, inner) == head + rest;
    if p in head {
      var q :| 0 <= q < |head| && head[q] == p;
      r, x := 0, inner[q];
    } else {
      var r', x' := RowsMemberInverse(stride, start + 1, count - 1, inner, p);
      r, x := r' + 1, x';
      assert start + 1 + r' == start + r;
    }
  }

  /** Every multi-index in the box of `v` has its address among the
      positions the view's iteration visits. */
  lemma {:induction false} BoxAddressVisited(shape: seq<nat>, v: View, index: seq<nat>)
    requires Ranked(shape, v) && InBox(v, index)
    ensures Address(shape, index) in Positions(shape, v)
    decreases |shape|
  {
    if |shape| > 0 {
      var t, vt := shape[1..], v.Tail();
      assert InBox(vt, index[1..]) by {
        forall k | 0 <= k < |index[1..]|
          ensures vt.offset[k] <= index[1..][k] < vt.offset[k] + vt.extent[k]
        {
          assert index[1..][k] == index[k + 1];
        }
      }
      BoxAddressVisited(t, vt, index[1..]);
      RowsMember(Product(t), v.offset[0], v.extent[0], Positions(t, vt),
                 index[0] - v.offset[0], Address(t, index[1..]));
    }
  }

  /** Every position the view's iteration visits is the address of a
      multi-index in the box of `v`. */
  lemma {:induction false} VisitedIsBoxAddress(shape: seq<nat>, v: View, p: nat)
    returns (index: seq<nat>)
    requires Ranked(shape, v) && p in Positions(shape, v)
    ensures InBox(v, index) && Address(shape, index) == p
    decreases |shape|
  {
    if |shape| == 0 {
      index := [];
    } else {
      var t, vt := shape[1..], v.Tail();
      var r, x := RowsMemberInverse(Product(t), v.offset[0], v.extent[0], Positions(t, vt), p);
      var rest := VisitedIsBoxAddress(t, vt, x);
      index := [v.offset[0] + r] + rest;
      assert index[1..] == rest;
      assert forall k :: 1 <= k < |index| ==> index[k] == rest[k - 1];
    }
  }

  /** Iterating the whole array visits the positions `0 .. n` in order. */
  lemma WholeInAddressOrder(shape: seq<nat>)
    ensures Positions(shape, Whole(shape)) == Range(Product(shape))
  {
    PositionsInOrder(shape, Whole(shape));
    IncreasingBelowIsRange(Positions(shape, Whole(shape)), Product(shape));
  }

  /** When every axis before `axis` has extent 1, cutting `v` along `axis`
      cuts its iteration order in two: the lower half's positions followed by
      the upper half's are exactly the positions of `v`, in order. */
  lemma {:induction false} SplitInOrder(shape: seq<nat>, v: View, axis: nat, index: nat)
    requires Ranked(shape, v) && axis < |shape| && index <= v.extent[axis]
    requires forall j :: 0 <= j < axis ==> v.extent[j] == 1
    ensures Ranked(shape, SplitAt(v, axis, index).0) && Ranked(shape, SplitAt(v, axis, index).1)
    ensures Positions(shape, SplitAt(v, axis, index).0) + Positions(shape, SplitAt(v, axis, index).1)
            == Positions(shape, v)
    decreases axis
  {
    var (lo, hi) := SplitAt(v, axis, index);
    var t := shape[1..];
    var stride := Product(t);
    if axis == 0 {
      assert lo.Tail() == v.Tail() && hi.Tail() == v.Tail();
      RowsSplit(stride, v.offset[0], index, v.extent[0] - index, Positions(t, v.Tail()));
    } else {
      var (tlo, thi) := SplitAt(v.Tail(), axis - 1, index);
      assert lo.Tail() == tlo && hi.Tail() == thi;
      SplitInOrder(t, v.Tail(), axis - 1, index);
      var d := v.offset[0] * stride;
      ShiftConcat(d, Positions(t, tlo), Positions(t, thi));
      assert Positions(shape, v) == Shift(d, Positions(t, v.Tail())) + [];
      assert Positions(shape, lo) == Shift(d, Positions(t, tlo)) + [];
      assert Positions(shape, hi) == Shift(d, Positions(t, thi)) + [];
    }
  }

  /** A split of a view inside the array gives two views inside the array. */
  lemma SplitWithin(shape: seq<nat>, v: View, axis: nat, index: nat)
    requires Within(shape, v) && axis < |shape| && index <= v.extent[axis]
    ensures Within(shape, SplitAt(v, axis, index).0) && Within(shape, SplitAt(v, axis, index).1)
  {
  }
}

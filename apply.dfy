/**
 The divide-and-conquer apply engine: map a function over every element of
 an n-dimensional array, in place.

 `Apply` routes once per call. Without the thread-safety capabilities it
 runs the sequential loop over the whole array. With them it runs
 `ApplyHelper`, which cuts a view larger than `SPLIT_SIZE` in two along the
 first axis of extent greater than 1, at the midpoint of that axis, and
 recurses on both halves; a view of at most `SPLIT_SIZE` elements is run by
 the sequential loop.

 Each `rayon::join` is modelled as running the two disjoint halves of a
 split one after the other, in the order a scheduler parameter `upperFirst` picks for each split view.

 Each engine method returns, as ghost out-parameters, two observations of
 what it did: `log`, the storage positions in the order the element
 function was applied to them, and `leaves`, the views that the sequential
 loop ran over (`SequentialApply` returns `log` only).
 */
module ParallelApply {
  import opened Views

  /** Views with more elements than this are split. */
  const SPLIT_SIZE: nat := 10000

  /** The capabilities that select the specialised implementation: the
      element function may be shared between workers (`F: Sync`) and the
      elements may be handed to other workers (`A: Send`). */
  datatype Capability = Capability(functionIsSync: bool, elementIsSend: bool)

  predicate Parallelisable(c: Capability)
  {
    c.functionIsSync && c.elementIsSend
  }

  /** The reference result: the element-wise map of `f` over storage `s`. */
  function MapElements<T>(f: T -> T, s: seq<T>): seq<T>
  {
    seq(|s|, i requires 0 <= i < |s| => f(s[i]))
  }

  // ---------------------------------------------------------------------
  // Axis selection and midpoint split

  /** The first axis at or after `from` whose extent exceeds 1, or 0 when
      there is none. */
  function SplitAxisFrom(extent: seq<nat>, from: nat): (axis: nat)
    ensures (from <= axis < |extent| && extent[axis] > 1 &&
             forall j :: from <= j < axis ==> extent[j] <= 1)
         || (axis == 0 && forall j :: from <= j < |extent| ==> extent[j] <= 1)
    decreases |extent| - from
  {
    if from >= |extent| then 0
    else if extent[from] > 1 then from
    else SplitAxisFrom(extent, from + 1)
  }

  /** The axis `apply_helper` splits: the first one of extent greater than
      1, falling back to axis 0 when every extent is at most 1. */
  function SplitAxis(extent: seq<nat>): (axis: nat)
    ensures (exists j :: 0 <= j < |extent| && extent[j] > 1) ==>
              axis < |extent| && extent[axis] > 1 && forall j :: 0 <= j < axis ==> extent[j] <= 1
    ensures (forall j :: 0 <= j < |extent| ==> extent[j] <= 1) ==> axis == 0
  {
    SplitAxisFrom(extent, 0)
  }

  /** The search loop of `apply_helper` over the shape's axes. */
  method FindSplitAxis(extent: seq<nat>) returns (axis: nat)
    ensures axis == SplitAxis(extent)
  {
    axis := 0;
    var i := 0;
    while i < |extent|
      invariant 0 <= i <= |extent|
      invariant axis == 0
      invariant SplitAxisFrom(extent, i) == SplitAxis(extent)
    {
      if extent[i] > 1 {
        axis := i;
        break;
      }
      i := i + 1;
    }
  }

  /** A view above the threshold has an axis of extent greater than 1, so
      the fallback axis 0 is never used on an unsplittable axis; every axis
      before the chosen one has extent exactly 1. */
  lemma LargeViewHasSplitAxis(v: View)
    requires v.WellFormed() && v.Len() > SPLIT_SIZE
    ensures SplitAxis(v.extent) < |v.extent|
    ensures v.extent[SplitAxis(v.extent)] > 1
    ensures forall j :: 0 <= j < SplitAxis(v.extent) ==> v.extent[j] == 1
  {
    ProductAtMostOne(v.extent);
    ProductPositive(v.extent);
  }

  /** Cutting `axis` at `extent / 2`: the two extents sum to the original
      and differ by at most one, both halves are non-empty when the extent
      exceeds 1, the element counts add up, and each half of a non-empty
      view split on an axis of extent greater than 1 is strictly smaller. */
  lemma MidpointSplit(v: View, axis: nat)
    requires v.WellFormed() && axis < |v.extent|
    ensures var e := v.extent[axis];
            var (lo, hi) := SplitAt(v, axis, e / 2);
            && lo.extent[axis] + hi.extent[axis] == e
            && lo.extent[axis] <= hi.extent[axis] <= lo.extent[axis] + 1
            && (e > 1 ==> lo.extent[axis] >= 1 && hi.extent[axis] >= 1)
            && lo.Len() + hi.Len() == v.Len()
            && (e > 1 && v.Len() > 0 ==> lo.Len() < v.Len() && hi.Len() < v.Len())
  {
    var e := v.extent[axis];
    var (lo, hi) := SplitAt(v, axis, e / 2);
    var pre, post := Product(v.extent[..axis]), Product(v.extent[axis + 1..]);
    ProductAround(v.extent, axis, e / 2);
    ProductAround(v.extent, axis, e - e / 2);
    assert lo.extent == v.extent[axis := e / 2];
    assert hi.extent == v.extent[axis := e - e / 2];
    Regroup(pre, e / 2, post);
    Regroup(pre, e - e / 2, post);
    Regroup(pre, e, post);
    var m := pre * post;
    SumTimes(e / 2, e - e / 2, m);
    if e > 1 && v.Len() > 0 {
      FewerTimes(e / 2, e, m);
      FewerTimes(e - e / 2, e, m);
    }
  }

  lemma Regroup(p: nat, k: nat, q: nat)
    ensures p * k * q == k * (p * q)
  {
  }

  lemma SumTimes(x: nat, y: nat, m: nat)
    ensures x * m + y * m == (x + y) * m
  {
  }

  lemma FewerTimes(x: nat, y: nat, m: nat)
    requires x < y && y * m > 0
    ensures x * m < y * m
  {
  }

  // ---------------------------------------------------------------------
  // The recursion, as a specification

  /** The views on which `apply_helper`'s recursion runs the sequential
      loop, lowest half first. */
  function LeafViews(v: View): (leaves: seq<View>)
    requires v.WellFormed()
    ensures |leaves| >= 1
    // a view is left whole exactly when it is at or below the threshold
    ensures leaves == [v] <==> v.Len() <= SPLIT_SIZE
    ensures forall k :: 0 <= k < |leaves| ==>
              leaves[k].WellFormed() && |leaves[k].extent| == |v.extent| &&
              leaves[k].Len() <= SPLIT_SIZE
    decreases v.Len()
  {
    if v.Len() > SPLIT_SIZE then
      LargeViewHasSplitAxis(v);
      var axis := SplitAxis(v.extent);
      MidpointSplit(v, axis);
      var (lo, hi) := SplitAt(v, axis, v.extent[axis] / 2);
      LeafViews(lo) + LeafViews(hi)
    else
      [v]
  }

  /** The positions of a sequence of views, one view after the other. */
  function LeafPositions(shape: seq<nat>, leaves: seq<View>): seq<nat>
    requires forall k :: 0 <= k < |leaves| ==> Ranked(shape, leaves[k])
  {
    if |leaves| == 0 then []
    else Positions(shape, leaves[0]) + LeafPositions(shape, leaves[1..])
  }

  /** No two of the views share a storage position. */
  predicate PairwiseDisjoint(shape: seq<nat>, leaves: seq<View>)
    requires forall k :: 0 <= k < |leaves| ==> Ranked(shape, leaves[k])
  {
    forall i, j :: 0 <= i < j < |leaves| ==>
      Disjoint(Positions(shape, leaves[i]), Positions(shape, leaves[j]))
  }

  lemma {:induction false} LeafPositionsConcat(shape: seq<nat>, x: seq<View>, y: seq<View>)
    requires forall k :: 0 <= k < |x| ==> Ranked(shape, x[k])
    requires forall k :: 0 <= k < |y| ==> Ranked(shape, y[k])
    ensures LeafPositions(shape, x + y) == LeafPositions(shape, x) + LeafPositions(shape, y)
  {
    if |x| > 0 {
      assert (x + y)[1..] == x[1..] + y;
      LeafPositionsConcat(shape, x[1..], y);
    } else {
      assert x + y == y;
    }
  }

  lemma {:induction false} LeafPositionsMember(shape: seq<nat>, leaves: seq<View>, k: nat, p: nat)
    requires forall i :: 0 <= i < |leaves| ==> Ranked(shape, leaves[i])
    requires k < |leaves| && p in Positions(shape, leaves[k])
    ensures p in LeafPositions(shape, leaves)
  {
    if k > 0 {
      LeafPositionsMember(shape, leaves[1..], k - 1, p);
    }
  }

  /** The leaves of the recursion partition the view: they lie inside the
      array, no two of them share an element, and their positions, one leaf
      after the other, are exactly the positions of the view in its own
      iteration order. */
  lemma {:induction false} LeavesPartition(shape: seq<nat>, v: View)
    requires Within(shape, v)
    ensures forall k :: 0 <= k < |LeafViews(v)| ==> Within(shape, LeafViews(v)[k])
    ensures LeafPositions(shape, LeafViews(v)) == Positions(shape, v)
    ensures PairwiseDisjoint(shape, LeafViews(v))
    decreases v.Len()
  {
    if v.Len() > SPLIT_SIZE {
      LargeViewHasSplitAxis(v);
      var axis := SplitAxis(v.extent);
      MidpointSplit(v, axis);
      var (lo, hi) := SplitAt(v, axis, v.extent[axis] / 2);
      SplitWithin(shape, v, axis, v.extent[axis] / 2);
      SplitInOrder(shape, v, axis, v.extent[axis] / 2);
      LeavesPartition(shape, lo);
      LeavesPartition(shape, hi);
      var x, y := LeafViews(lo), LeafViews(hi);
      assert LeafViews(v) == x + y;
      LeafPositionsConcat(shape, x, y);
      PositionsInOrder(shape, v);
      IncreasingConcatDisjoint(Positions(shape, lo), Positions(shape, hi));
      PairwiseDisjointConcat(shape, x, y);
    }
  }

  lemma PairwiseDisjointConcat(shape: seq<nat>, x: seq<View>, y: seq<View>)
    requires forall k :: 0 <= k < |x| ==> Ranked(shape, x[k])
    requires forall k :: 0 <= k < |y| ==> Ranked(shape, y[k])
    requires PairwiseDisjoint(shape, x) && PairwiseDisjoint(shape, y)
    requires Disjoint(LeafPositions(shape, x), LeafPositions(shape, y))
    ensures PairwiseDisjoint(shape, x + y)
  {
    forall i, j | 0 <= i < j < |x + y|
      ensures Disjoint(Positions(shape, (x + y)[i]), Positions(shape, (x + y)[j]))
    {
      if j < |x| {
        assert (x + y)[i] == x[i] && (x + y)[j] == x[j];
      } else if i >= |x| {
        assert (x + y)[i] == y[i - |x|] && (x + y)[j] == y[j - |x|];
      } else {
        assert (x + y)[i] == x[i] && (x + y)[j] == y[j - |x|];
        forall p | p in Positions(shape, x[i]) ensures p !in Positions(shape, y[j - |x|]) {
          LeafPositionsMember(shape, x, i, p);
          if p in Positions(shape, y[j - |x|]) {
            LeafPositionsMember(shape, y, j - |x|, p);
          }
        }
      }
    }
  }

  /** With the joins run one after the other, the parallel recursion over
      the whole array visits the storage positions in address order, the
      order of the default sequential loop. */
  lemma ParallelOrderIsSequentialOrder(shape: seq<nat>)
    ensures LeafPositions(shape, LeafViews(Whole(shape))) == Range(Product(shape))
  {
    LeavesPartition(shape, Whole(shape));
    WholeInAddressOrder(shape);
  }

  /** The leaves of two joined halves, one half's after the other's, log
      the positions of the first half's leaves followed by the second's. */
  lemma JoinedLeafPositions(shape: seq<nat>, x: seq<View>, y: seq<View>, logX: seq<nat>, logY: seq<nat>)
    requires forall k :: 0 <= k < |x| ==> Ranked(shape, x[k])
    requires forall k :: 0 <= k < |y| ==> Ranked(shape, y[k])
    requires logX == LeafPositions(shape, x) && logY == LeafPositions(shape, y)
    ensures forall k :: 0 <= k < |x + y| ==> Ranked(shape, (x + y)[k])
    ensures logX + logY == LeafPositions(shape, x + y)
  {
    LeafPositionsConcat(shape, x, y);
  }

  /** The two halves `apply_helper` splits a view above the threshold into
      lie inside the array, are smaller than the view and disjoint, and
      their positions and leaves, lower half first, are the view's. */
  lemma SplitHalves(shape: seq<nat>, v: View)
    requires Within(shape, v) && v.Len() > SPLIT_SIZE
    ensures SplitAxis(v.extent) < |v.extent|
    ensures var axis := SplitAxis(v.extent);
            var (lo, hi) := SplitAt(v, axis, v.extent[axis] / 2);
            && Within(shape, lo) && Within(shape, hi)
            && lo.Len() < v.Len() && hi.Len() < v.Len()
            && Positions(shape, lo) + Positions(shape, hi) == Positions(shape, v)
            && Disjoint(Positions(shape, lo), Positions(shape, hi))
            && Disjoint(Positions(shape, hi), Positions(shape, lo))
            && LeafViews(lo) + LeafViews(hi) == LeafViews(v)
  {
    LargeViewHasSplitAxis(v);
    var axis := SplitAxis(v.extent);
    var (lo, hi) := SplitAt(v, axis, v.extent[axis] / 2);
    MidpointSplit(v, axis);
    SplitWithin(shape, v, axis, v.extent[axis] / 2);
    SplitInOrder(shape, v, axis, v.extent[axis] / 2);
    PositionsInOrder(shape, v);
    IncreasingConcatDisjoint(Positions(shape, lo), Positions(shape, hi));
  }

  /** Whichever of the parts `x` and `y` comes first, together they hold
      the elements of `x + y`, the same number of times. */
  lemma EitherOrder<X>(x: seq<X>, y: seq<X>, first: seq<X>, second: seq<X>)
    requires (first == x && second == y) || (first == y && second == x)
    ensures forall p :: p in x + y <==> p in first || p in second
    ensures multiset(first + second) == multiset(x + y)
  {
  }

  /** `s` is `px` up to reordering followed by `py` up to reordering. */
  predicate InTwoParts<X(==)>(s: seq<X>, px: seq<X>, py: seq<X>)
  {
    |px| <= |s| &&
    multiset(s[..|px|]) == multiset(px) && multiset(s[|px|..]) == multiset(py)
  }

  /** Parts `x` and `y` that are `px` and `py` up to reordering, one after
      the other, are `px` followed by `py` up to reordering within each. */
  lemma ConcatParts<X>(x: seq<X>, y: seq<X>, px: seq<X>, py: seq<X>)
    requires multiset(x) == multiset(px) && multiset(y) == multiset(py)
    ensures InTwoParts(x + y, px, py)
  {
    assert |x| == |multiset(px)| == |px|;
    assert (x + y)[..|x|] == x && (x + y)[|x|..] == y;
  }

  /** The observations of two runs of `apply_helper`, on `first` and then
      on `second`, put one after the other. */
  lemma JoinedObservations(shape: seq<nat>, first: View, second: View,
                           logFirst: seq<nat>, logSecond: seq<nat>,
                           leavesFirst: seq<View>, leavesSecond: seq<View>, lowerFirst: bool)
    requires Within(shape, first) && Within(shape, second)
    requires multiset(logFirst) == multiset(Positions(shape, first))
    requires multiset(logSecond) == multiset(Positions(shape, second))
    requires multiset(leavesFirst) == multiset(LeafViews(first))
    requires multiset(leavesSecond) == multiset(LeafViews(second))
    requires lowerFirst ==> logFirst == Positions(shape, first) && leavesFirst == LeafViews(first)
    requires lowerFirst ==> logSecond == Positions(shape, second) && leavesSecond == LeafViews(second)
    requires forall k :: 0 <= k < |leavesFirst| ==> Ranked(shape, leavesFirst[k])
    requires forall k :: 0 <= k < |leavesSecond| ==> Ranked(shape, leavesSecond[k])
    requires logFirst == LeafPositions(shape, leavesFirst)
    requires logSecond == LeafPositions(shape, leavesSecond)
    ensures multiset(logFirst + logSecond) == multiset(Positions(shape, first) + Positions(shape, second))
    ensures multiset(leavesFirst + leavesSecond) == multiset(LeafViews(first) + LeafViews(second))
    ensures InTwoParts(logFirst + logSecond, Positions(shape, first), Positions(shape, second))
    ensures InTwoParts(leavesFirst + leavesSecond, LeafViews(first), LeafViews(second))
    ensures lowerFirst ==>
              logFirst + logSecond == Positions(shape, first) + Positions(shape, second) &&
              leavesFirst + leavesSecond == LeafViews(first) + LeafViews(second)
    ensures forall k :: 0 <= k < |leavesFirst + leavesSecond| ==> Ranked(shape, (leavesFirst + leavesSecond)[k])
    ensures logFirst + logSecond == LeafPositions(shape, leavesFirst + leavesSecond)
  {
    ConcatParts(logFirst, logSecond, Positions(shape, first), Positions(shape, second));
    ConcatParts(leavesFirst, leavesSecond, LeafViews(first), LeafViews(second));
    JoinedLeafPositions(shape, leavesFirst, leavesSecond, logFirst, logSecond);
  }

  /** Running `f` over the positions `first` and then over the disjoint
      positions `second` takes storage `s0` to the storage that applies `f`
      once to every position of either. */
  lemma JoinedState<T>(f: T -> T, s0: seq<T>, s1: seq<T>, s2: seq<T>, first: seq<nat>, second: seq<nat>)
    requires |s1| == |s0| && |s2| == |s0|
    requires Disjoint(first, second)
    requires forall i :: 0 <= i < |s0| ==> s1[i] == if i in first then f(s0[i]) else s0[i]
    requires forall i :: 0 <= i < |s0| ==> s2[i] == if i in second then f(s1[i]) else s1[i]
    ensures forall i :: 0 <= i < |s0| ==>
              s2[i] == if i in first || i in second then f(s0[i]) else s0[i]
  {
  }

  /** The views the sequential loop runs over, once the implementation
      has been chosen from the capabilities. */
  function DispatchLeaves(c: Capability, shape: seq<nat>): (leaves: seq<View>)
    // without the capabilities the array is never split, whatever its size
    ensures !Parallelisable(c) ==> leaves == [Whole(shape)]
    // with them it is split exactly when it is above the threshold
    ensures Parallelisable(c) ==> (leaves == [Whole(shape)] <==> Product(shape) <= SPLIT_SIZE)
    ensures |leaves| > 1 <==> Parallelisable(c) && Product(shape) > SPLIT_SIZE
  {
    if Parallelisable(c) then LeafViews(Whole(shape)) else [Whole(shape)]
  }

  /** The join order a scheduler may pick: `upperFirst(w)` says whether the
      join at split view `w` completes the upper half before the lower. */
  ghost predicate LowerFirst(upperFirst: View -> bool)
  {
    forall w :: !upperFirst(w)
  }

  // ---------------------------------------------------------------------
  // The engine

  /** The sequential loop `for elt in view { f(elt) }`: applies `f` once to
      every element of `v`, in the view's iteration order, and to nothing
      else. */
  method SequentialApply<T>(a: array<T>, shape: seq<nat>, v: View, f: T -> T)
    returns (ghost log: seq<nat>)
    requires a.Length == Product(shape) && Within(shape, v)
    modifies a
    ensures log == Positions(shape, v)
    ensures forall i :: 0 <= i < a.Length ==>
              a[i] == if i in log then f(old(a[i])) else old(a[i])
  {
    var order := Positions(shape, v);
    PositionsInOrder(shape, v);
    log := [];
    for k := 0 to |order|
      invariant log == order[..k]
      invariant forall i :: 0 <= i < a.Length ==>
                  a[i] == if i in log then f(old(a[i])) else old(a[i])
    {
      var p := order[k];
      assert p !in log;
      a[p] := f(a[p]);
      log := log + [p];
    }
  }

  /** `apply_helper`: above the threshold, split at the midpoint of the
      first axis of extent greater than 1 and recurse on both halves, in the
      order `upperFirst` picks for this join; otherwise run the sequential
      loop. Whatever the order, `f` is applied exactly once to each element
      of the view and to nothing else, and each leaf is visited in its own
      iteration order; with the lower half always first, the elements are
      visited in the view's own iteration order. */
  method ApplyHelper<T>(a: array<T>, shape: seq<nat>, v: View, f: T -> T, upperFirst: View -> bool)
    returns (ghost log: seq<nat>, ghost leaves: seq<View>)
    requires a.Length == Product(shape) && Within(shape, v)
    modifies a
    ensures forall i :: 0 <= i < a.Length ==>
              a[i] == if i in Positions(shape, v) then f(old(a[i])) else old(a[i])
    ensures multiset(log) == multiset(Positions(shape, v))
    ensures multiset(leaves) == multiset(LeafViews(v))
    ensures LowerFirst(upperFirst) ==> log == Positions(shape, v) && leaves == LeafViews(v)
    // whatever the order, each leaf runs in its own iteration order
    ensures forall k :: 0 <= k < |leaves| ==> Ranked(shape, leaves[k])
    ensures log == LeafPositions(shape, leaves)
    decreases v.Len(), 2
  {
    var len := v.Len();
    if len > SPLIT_SIZE {
      log, leaves := SplitAndJoin(a, shape, v, f, upperFirst);
    } else {
      log := SequentialApply(a, shape, v, f);
      leaves := [v];
      assert LeafPositions(shape, leaves[1..]) == [];
    }
  }

  /** The branch of `apply_helper` above the threshold: split at the
      midpoint of the first axis of extent greater than 1 and join the two
      halves, in the order `upperFirst` picks for this view. */
  method SplitAndJoin<T>(a: array<T>, shape: seq<nat>, v: View, f: T -> T, upperFirst: View -> bool)
    returns (ghost log: seq<nat>, ghost leaves: seq<View>)
    requires a.Length == Product(shape) && Within(shape, v) && v.Len() > SPLIT_SIZE
    modifies a
    ensures forall i :: 0 <= i < a.Length ==>
              a[i] == if i in Positions(shape, v) then f(old(a[i])) else old(a[i])
    ensures multiset(log) == multiset(Positions(shape, v))
    ensures multiset(leaves) == multiset(LeafViews(v))
    ensures LowerFirst(upperFirst) ==> log == Positions(shape, v) && leaves == LeafViews(v)
    ensures forall k :: 0 <= k < |leaves| ==> Ranked(shape, leaves[k])
    ensures log == LeafPositions(shape, leaves)
    decreases v.Len(), 1
  {
    var axis := FindSplitAxis(v.extent);
    LargeViewHasSplitAxis(v);
    var (lo, hi) := SplitAt(v, axis, v.extent[axis] / 2);
    SplitHalves(shape, v);
    var (first, second) := if upperFirst(v) then (hi, lo) else (lo, hi);
    EitherOrder(Positions(shape, lo), Positions(shape, hi), Positions(shape, first), Positions(shape, second));
    EitherOrder(LeafViews(lo), LeafViews(hi), LeafViews(first), LeafViews(second));
    log, leaves := Join(a, shape, first, second, f, upperFirst, v);
  }

  /** `rayon::join` on two disjoint views smaller than `parent`, modelled
      as running `apply_helper` on `first` and then on `second`. */
  method Join<T>(a: array<T>, shape: seq<nat>, first: View, second: View, f: T -> T,
                 upperFirst: View -> bool, ghost parent: View)
    returns (ghost log: seq<nat>, ghost leaves: seq<View>)
    requires a.Length == Product(shape) && Within(shape, first) && Within(shape, second)
    requires Disjoint(Positions(shape, first), Positions(shape, second))
    requires first.Len() < parent.Len() && second.Len() < parent.Len()
    modifies a
    ensures forall i :: 0 <= i < a.Length ==>
              a[i] == if i in Positions(shape, first) || i in Positions(shape, second)
                      then f(old(a[i])) else old(a[i])
    ensures multiset(log) == multiset(Positions(shape, first) + Positions(shape, second))
    ensures multiset(leaves) == multiset(LeafViews(first) + LeafViews(second))
    // the first view's work is logged before the second's
    ensures InTwoParts(log, Positions(shape, first), Positions(shape, second))
    ensures InTwoParts(leaves, LeafViews(first), LeafViews(second))
    ensures LowerFirst(upperFirst) ==>
              log == Positions(shape, first) + Positions(shape, second) &&
              leaves == LeafViews(first) + LeafViews(second)
    ensures forall k :: 0 <= k < |leaves| ==> Ranked(shape, leaves[k])
    ensures log == LeafPositions(shape, leaves)
    decreases parent.Len(), 0
  {
    ghost var s0 := a[..];
    ghost var logFirst, leavesFirst := ApplyHelper(a, shape, first, f, upperFirst);
    ghost var s1 := a[..];
    ghost var logSecond, leavesSecond := ApplyHelper(a, shape, second, f, upperFirst);
    log := logFirst + logSecond;
    leaves := leavesFirst + leavesSecond;
    JoinedObservations(shape, first, second, logFirst, logSecond, leavesFirst, leavesSecond,
                       LowerFirst(upperFirst));
    JoinedState(f, s0, s1, a[..], Positions(shape, first), Positions(shape, second));
  }

  /** The default implementation of `Apply`: the sequential loop over the
      whole array, never split. */
  method ApplyDefault<T>(a: array<T>, shape: seq<nat>, f: T -> T)
    returns (ghost log: seq<nat>, ghost leaves: seq<View>)
    requires a.Length == Product(shape)
    modifies a
    ensures a[..] == MapElements(f, old(a[..]))
    ensures log == Range(a.Length)
    ensures leaves == [Whole(shape)]
  {
    log := SequentialApply(a, shape, Whole(shape), f);
    leaves := [Whole(shape)];
    WholeInAddressOrder(shape);
    forall i | 0 <= i < a.Length ensures a[..][i] == MapElements(f, old(a[..]))[i] {
      assert log[i] == i;
    }
  }

  /** The specialised implementation of `Apply`: `apply_helper` on the view
      of the whole array. */
  method ApplySpecialised<T>(a: array<T>, shape: seq<nat>, f: T -> T, upperFirst: View -> bool)
    returns (ghost log: seq<nat>, ghost leaves: seq<View>)
    requires a.Length == Product(shape)
    modifies a
    ensures a[..] == MapElements(f, old(a[..]))
    ensures multiset(log) == multiset(Range(a.Length))
    ensures multiset(leaves) == multiset(LeafViews(Whole(shape)))
    ensures LowerFirst(upperFirst) ==> log == Range(a.Length) && leaves == LeafViews(Whole(shape))
    // whatever the order, each leaf runs in its own iteration order
    ensures forall k :: 0 <= k < |leaves| ==> Ranked(shape, leaves[k])
    ensures log == LeafPositions(shape, leaves)
  {
    log, leaves := ApplyHelper(a, shape, Whole(shape), f, upperFirst);
    WholeInAddressOrder(shape);
    forall i | 0 <= i < a.Length ensures a[..][i] == MapElements(f, old(a[..]))[i] {
      assert Range(a.Length)[i] == i;
    }
  }

  /** `apply`: the implementation is chosen once, from the capabilities,
      before any element is touched. Either way, and in whatever order the
      joins complete, every element is replaced by `f` of itself, exactly
      once; the default loop, and the recursion with its joins run lower half
      first, visit the elements in address order. */
  method Apply<T>(a: array<T>, shape: seq<nat>, f: T -> T, c: Capability, upperFirst: View -> bool)
    returns (ghost log: seq<nat>, ghost leaves: seq<View>)
    requires a.Length == Product(shape)
    modifies a
    ensures a[..] == MapElements(f, old(a[..]))
    ensures multiset(log) == multiset(Range(a.Length))
    ensures multiset(leaves) == multiset(DispatchLeaves(c, shape))
    ensures !Parallelisable(c) || LowerFirst(upperFirst) ==>
              log == Range(a.Length) && leaves == DispatchLeaves(c, shape)
    // whatever the order, each leaf runs in its own iteration order
    ensures forall k :: 0 <= k < |leaves| ==> Ranked(shape, leaves[k])
    ensures log == LeafPositions(shape, leaves)
  {
    if Parallelisable(c) {
      log, leaves := ApplySpecialised(a, shape, f, upperFirst);
    } else {
      log, leaves := ApplyDefault(a, shape, f);
      WholeInAddressOrder(shape);
      assert LeafPositions(shape, leaves[1..]) == [];
    }
  }
}

# Parallel in-place apply over n-dimensional arrays

This project models the divide-and-conquer `apply` engine of
`src/lib.rs` in rust-ndarray-experimental, and proves properties of it in
Dafny. `apply(array, f)` replaces every element `x` of an n-dimensional
array with `f(x)`, in place. One of two implementations is chosen once per
call:

- **Default path.** Used when the closure is not `Sync` or the element
  type is not `Send`. It runs `for elt in self { f(elt) }` over the whole
  array.
- **Specialised path.** It runs `apply_helper` on a mutable view of the
  whole array. A view with more than `SPLIT_SIZE` (10000) elements is cut
  in two. The cut is on the first axis whose extent is greater than 1, at
  `extent / 2`. Both halves are then processed recursively through
  `rayon::join`. A view with at most `SPLIT_SIZE` elements runs the
  sequential loop.

The model has two modules:

- **`Views`** (`views.dfy`) is the array abstraction the engine relies on.
  - An array of shape `shape` is an `array<T>` of `Product(shape)` elements, stored at row-major flat positions.
  - A `View` is a box of multi-indices: one start offset and one extent per axis.
  - `Positions(shape, v)` lists the flat positions of the view's elements, in the view's iteration order.
  - `SplitAt` is ndarray's `split_at`.
- **`ParallelApply`** (`apply.dfy`) is the engine itself.
  - `SplitAxis` is the specification of the axis search, and the `FindSplitAxis` loop is proved against it.
  - `LeafViews` is the recursion written as a specification: it gives the views the recursion runs sequentially.
  - The methods `SequentialApply` (the `for elt in view` loop), `ApplyHelper` (with its branch above the threshold, `SplitAndJoin`, and the join itself, `Join`), `ApplyDefault`, `ApplySpecialised` and `Apply` work on the array in place.

Each engine method also returns, as ghost out-parameters, two observations
of what it did (`SequentialApply` returns `log` only):

- `log`: the storage positions, in the order `f` was applied to them.
- `leaves`: the views on which the sequential loop ran.

With these, "each element exactly once, in iteration order" and "never
split" can be stated as postconditions.

Each `rayon::join` runs its two halves one after the other. A scheduler
parameter `upperFirst: View -> bool` picks, for every split view, which half
completes first.

The central fact is `Views.SplitInOrder`. The split axis is the first one
with extent greater than 1, and a view above the threshold has no empty
axis, so every axis before the split axis has extent exactly 1. Because of
this, the lower half's iteration order followed by the upper half's is
exactly the parent's iteration order. The two joined halves are disjoint,
and the model runs them one after the other. With the lower half always
first, the specialised path applies `f` to storage positions
`0, 1, .., n - 1` in the same order as the default loop. In either order,
and for any mix of orders, it leaves the array in the same state and visits
every position exactly once.

## Model

| member | source | states |
|---|---|---|
| `ParallelApply.Apply` | src/lib.rs:27-62 | The implementation is chosen once, from the `Sync`/`Send` capabilities, before any element is touched. On either path, and for any join order, the array ends as the element-wise map of `f` over its old contents, and every position is visited exactly once. The leaves are those of `DispatchLeaves`, and each leaf is visited in its own iteration order. On the default path, and with joins run lower half first, the visit order is the address order `0 .. n` |
| `ParallelApply.DispatchLeaves` | src/lib.rs:39-62 | Without both capabilities (`F: Sync`, `A: Send`) the array is never split, whatever its size. With both, it is split exactly when it has more than `SPLIT_SIZE` elements |
| `ParallelApply.ApplyDefault` | src/lib.rs:45-49 | The default impl applies `f` to every element exactly once, in address order `0 .. n`. It never splits: its only leaf is the whole array, whatever the size |
| `ParallelApply.ApplySpecialised` | src/lib.rs:59-61 | `apply_helper` on the whole view gives the same final array as the default impl, for any join order, and visits each position `0 .. n` exactly once. Its leaves are those of `LeafViews` of the whole view, each visited in its own iteration order. With joins run lower half first, the log and leaves are exactly `0 .. n` and `LeafViews(Whole(shape))` |
| `ParallelApply.ApplyHelper` | src/lib.rs:64-88 | For any join order, applies `f` exactly once to each of the view's positions and leaves every other position unchanged. The log is a permutation of the view's positions and the leaves a permutation of `LeafViews(v)`. The log is the leaves' positions, one leaf after another, each in its own iteration order. With joins run lower half first, they are exactly the view's iteration order and `LeafViews(v)`. Termination is by the view's element count |
| `ParallelApply.SplitAndJoin` | src/lib.rs:71-81 | Above the threshold, the view is cut at the midpoint of the first axis of extent > 1, and the two halves are joined in the order the scheduler picks. The result is the same as `ApplyHelper`'s: `f` on exactly the view's positions, a log and leaves that are permutations of the view's positions and of `LeafViews(v)`, and exactly those with the lower half first |
| `ParallelApply.Join` | src/lib.rs:81 | `rayon::join` on two disjoint views, run one after the other: `f` is applied once to each position of either view and to nothing else. For every join order, the log's first part, as long as the first view's positions, is a permutation of them, and the rest is a permutation of the second view's positions. The leaves split the same way into permutations of `LeafViews(first)` and `LeafViews(second)`. With lower halves first, the log and leaves are exactly the first view's followed by the second's |
| `ParallelApply.SequentialApply` | src/lib.rs:84-86 | The leaf loop applies `f` once to every element of the view, in the view's iteration order, and changes nothing outside the view |
| `ParallelApply.FindSplitAxis` | src/lib.rs:72-78 | The search loop with its early `break` returns `SplitAxis(extent)` |
| `ParallelApply.SplitAxis` | src/lib.rs:72-78 | If some axis has extent > 1, the result is the first such axis. Otherwise it is the fallback 0 |
| `ParallelApply.SplitAxisFrom` | src/lib.rs:73-77 | The first axis at or after a starting axis with extent > 1, or 0 if there is none |
| `ParallelApply.LargeViewHasSplitAxis` | src/lib.rs:71-79 | A view with more than `SPLIT_SIZE` elements has an axis of extent > 1, so the fallback 0 is never used on an unsplittable axis. Every axis before the chosen one has extent exactly 1 |
| `ParallelApply.MidpointSplit` | src/lib.rs:79-80 | Cutting at `extent / 2` gives two extents that sum to the original and differ by at most one. Both are non-empty when the extent is > 1. The halves' element counts sum to the parent's and, when the extent is > 1, each half is strictly smaller than a non-empty parent |
| `ParallelApply.LeafViews` | src/lib.rs:69-87 | The recursion's leaves. A view is left whole exactly when it has at most `SPLIT_SIZE` elements (both directions). Every leaf has at most `SPLIT_SIZE` elements and the rank of the parent |
| `ParallelApply.LeavesPartition` | src/lib.rs:80-86 | The leaves lie inside the array and are pairwise disjoint. Their positions, one leaf after another, are exactly the positions of the original view, in its iteration order |
| `ParallelApply.ParallelOrderIsSequentialOrder` | src/lib.rs:59-88 | With the joins run one after the other, the leaves of the recursion over the whole array visit positions `0 .. n` in order, the order of the default loop |
| `Views.SplitAt` | src/lib.rs:80 | `split_at(axis, index)` changes only the split axis. The lower half keeps the offset and has extent `index`. The upper half starts `index` further along, and the two extents sum to the original |
| `Views.SplitInOrder` | src/lib.rs:80-81 | When every axis before the split axis has extent 1, the lower half's iteration order followed by the upper half's is exactly the parent's iteration order |
| `Views.SplitWithin` | src/lib.rs:80 | Both halves of a split of a view inside the array lie inside the array |
| `Views.Positions` | src/lib.rs:84-86 | The iteration order of a view, `for elt in view`: one storage position per element, `len()` positions in all. `PositionsInOrder`, `BoxAddressVisited` and `VisitedIsBoxAddress` characterise it |
| `Views.PositionsInOrder` | src/lib.rs:84-86 | Iterating a view visits `len()` positions, all inside the array, in strictly increasing address order, so no element is visited twice |
| `Views.BoxAddressVisited` | src/lib.rs:84-86 | Every multi-index in the view's box has its address among the positions the iteration visits |
| `Views.VisitedIsBoxAddress` | src/lib.rs:84-86 | Every position the iteration visits is the address of a multi-index in the view's box |
| `Views.WholeInAddressOrder` | src/lib.rs:46-48 | Iterating the whole array visits positions `0, 1, .., n - 1`, in that order |
| `Views.Whole` | src/lib.rs:60 | `view_mut()` gives a view that lies inside the array and has all `Product(shape)` elements |

## Left out

- `rayon::join`, scheduling and work stealing: the two halves of each join run one after the other, in an order the `upperFirst` parameter picks. In the Rust code the two closures may also run concurrently. `ApplyHelper` proves the final array is the same for every order, because the halves share no position and `f` acts on each element independently. The schedule changes only the order of the leaves: for every schedule the `log` is the leaves' positions one leaf after another, each leaf in its own iteration order.
- Trait specialisation on `F: Sync` and `A: Send`: this is a `Capability` value with two flags, inspected once in `Apply`.
- ndarray's strides, memory layout, `view_mut` and the implementation of `split_at`: the storage is one row-major contiguous array, and a view is an index box over it. Views over transposed or negatively strided storage are not modelled.
- The element function is a total Dafny function `T -> T`, applied to one element at a time. A closure with interior mutability, such as the `Cell` that the `map_not_parallel` benchmark captures to make its closure non-`Sync`, is not modelled. The `log` records the only effect it could observe, the order of calls.
- `usize` arithmetic: element counts and extents are unbounded naturals. ndarray keeps `len()` within `usize`, and `len / 2` is floor division in both.
- The benchmarks `map_parallel` and `map_not_parallel`, the empty test `it_works` and the `prelude` re-exports: they are scaffolding, and the benchmarks use floating-point `f32::exp` and `linspace`.
- A fold or reduction: the code has none.

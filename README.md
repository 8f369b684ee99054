# RowSnapScrollView, modelled in Dafny

RowSnapScrollView is a SwiftUI vertical list of variable-height rows. When a scroll gesture
settles, the list snaps to a row: the content comes to rest at one of the row offsets in a
snap-point table. The table starts at 0 and leaves out the list's padding. A settled row's top
edge therefore sits `padding` (default 10) below the top of the viewport, not at it. It also
exposes the row it snapped to as a two-way binding, `snappedItem`. This project models
the logic behind that behaviour and proves properties of it:

- `SnapPoints`: the snap-point table built by `RowSnapScrollTargetBehavior.init`. It holds one
  offset per row: the running sum of `height(row) + spacing` over the rows above it.
  `BuildSnapPoints` is the source's `for` loop, proved equal to the prefix-sum function
  `SnapTable`. Lemmas give the table's shape, its step rule and its order.
- `SnapTarget`: `updateTarget`. It finds `lower` (the last point `<= y`) and `higher` (the first
  point `> y`), then rewrites the resting offset `y` by the source's rule. `Snap` states that rule
  as a function and `UpdateTarget` follows the source's branches. Lemmas cover membership, the
  tie-break, the boundary cases, nearest-point optimality and idempotence.
- `SnapSync`: the two `onChange` closures. They form a class `SnapCoordinator` holding
  `snappedItem` (the caller's binding) and `scrollPosition` (the view's state). The methods are
  the handlers, plus the host events that fire them. The row lookup `LastWithId` is a pure
  function.
- `Search`: Swift's `last(where:)` and `first(where:)`, which the three lookups use, stated over
  the index they find.
- `Scenarios`: a worked example with rows of height 50, 30 and 70 and spacing 10.

Behaviour as the code has it, where a looser reading of the component differs:

- The item-to-scroll seek is unanimated whenever the previous binding value was `nil`. It is
  not limited to the first observation, so a later change from `nil` to a row is unanimated too.
- `onChange(of: snappedItem, initial: true)` hands the handler the initial value as both the
  old and the new value. The guard `prev != item` therefore returns, and the first appearance
  issues no seek at all (`SnapCoordinator.Appear`).
- A caller's write is not final. The position change it causes fires the scroll-to-item
  handler, which replaces the binding with the last row of `data` carrying the written id.
  For a row whose id no row of `data` has, that is `nil`, followed by an animated seek to `nil`
  rather than no seek at all. For an earlier duplicate of an id, it is the last duplicate
  (`SnapCoordinator.SetSnappedItem`).
- A tie at the exact midpoint between `lower` and `higher` goes to `higher`.
- Nearest-point optimality and idempotence hold only on sorted tables. A table is sorted
  whenever every `height + spacing` is non-negative. On an unsorted table the rule is not
  idempotent (`UnsortedNotIdempotent`).

## Model

| member | source | states |
|---|---|---|
| `Search.LastIndex` | Sources/RowSnapScrollView/RowSnapScrollView.swift:84 | the index found satisfies the predicate and no later element does; `None` exactly when no element does |
| `Search.FirstIndex` | Sources/RowSnapScrollView/RowSnapScrollView.swift:85 | the index found satisfies the predicate and no earlier element does; `None` exactly when no element does |
| `SnapPoints.BuildSnapPoints` | Sources/RowSnapScrollView/RowSnapScrollView.swift:70-81 | the append-then-advance loop yields exactly the exclusive prefix-sum table `SnapTable` |
| `SnapPoints.TableShape` | Sources/RowSnapScrollView/RowSnapScrollView.swift:74-80 | one entry per row; the table is empty exactly when there are no rows; the first entry is 0 |
| `SnapPoints.TableStep` | Sources/RowSnapScrollView/RowSnapScrollView.swift:75-78 | entry `i+1` is entry `i` plus `height(data[i]) + spacing` |
| `SnapPoints.TableStrictlyIncreasing` | Sources/RowSnapScrollView/RowSnapScrollView.swift:75-78 | if every `height + spacing` is positive, the table is strictly increasing |
| `SnapPoints.TableSorted` | Sources/RowSnapScrollView/RowSnapScrollView.swift:75-78 | if every `height + spacing` is non-negative, the table is non-decreasing |
| `SnapPoints.PositiveHeightsStrictlyIncreasing` | Sources/RowSnapScrollView/RowSnapScrollView.swift:75-78 | positive heights and non-negative spacing give a strictly increasing, hence sorted, table |
| `SnapTarget.LowerIndex` | Sources/RowSnapScrollView/RowSnapScrollView.swift:84 | `lower` is a point `<= y` with every later point `> y`; absent exactly when every point is `> y` |
| `SnapTarget.HigherIndex` | Sources/RowSnapScrollView/RowSnapScrollView.swift:85 | `higher` is a point `> y` with every earlier point `<= y`; absent exactly when every point is `<= y` |
| `SnapTarget.UpdateTarget` | Sources/RowSnapScrollView/RowSnapScrollView.swift:83-100 | the branch chain computes `Snap`; an empty table leaves `y` unchanged; otherwise the result is a snap point; on a sorted table it is a nearest one |
| `SnapTarget.SnapMembership` | Sources/RowSnapScrollView/RowSnapScrollView.swift:84-99 | an empty table leaves the offset unchanged; a non-empty table always yields one of its points |
| `SnapTarget.SnapBetween` | Sources/RowSnapScrollView/RowSnapScrollView.swift:87-92 | with both neighbours, `lower <= y < higher`; the result is `lower` iff `y - lower < higher - y`, else `higher` (a tie goes to `higher`) |
| `SnapTarget.NeighboursAdjacent` | Sources/RowSnapScrollView/RowSnapScrollView.swift:84-85 | on a sorted table, `higher` is the entry right after `lower` |
| `SnapTarget.LowerIsGreatestBelow` | Sources/RowSnapScrollView/RowSnapScrollView.swift:84 | on a sorted table, `lower` exists and is the greatest point `<= y` |
| `SnapTarget.HigherIsLeastAbove` | Sources/RowSnapScrollView/RowSnapScrollView.swift:85 | on a sorted table, `higher` exists and is the least point `> y` |
| `SnapTarget.SnapIsNearest` | Sources/RowSnapScrollView/RowSnapScrollView.swift:87-99 | on a sorted table, no snap point is nearer to `y` than the result |
| `SnapTarget.SnapPrefersLaterOnTie` | Sources/RowSnapScrollView/RowSnapScrollView.swift:88-92 | on a sorted table, the result is the highest offset among the points nearest to `y` |
| `SnapTarget.SnapAboveFirst` | Sources/RowSnapScrollView/RowSnapScrollView.swift:97-98 | on a sorted table, a `y` smaller than the first point snaps to the first point |
| `SnapTarget.SnapBeyondLast` | Sources/RowSnapScrollView/RowSnapScrollView.swift:94-95 | on a sorted table, a `y` at or past the last point snaps to the last point |
| `SnapTarget.SnapKeepsSnapPoint` | Sources/RowSnapScrollView/RowSnapScrollView.swift:84-92 | on a sorted table, a `y` that already is a snap point is left unchanged |
| `SnapTarget.SnapIdempotent` | Sources/RowSnapScrollView/RowSnapScrollView.swift:84-99 | on a sorted table, rewriting twice gives the same offset as rewriting once |
| `SnapTarget.UnsortedNotIdempotent` | Sources/RowSnapScrollView/RowSnapScrollView.swift:84-99 | heights 10, -2, 1 with spacing 0 build the unsorted table `[0, 10, 8]`, on which 5 snaps to 10 and 10 snaps to 8, so idempotence needs a sorted table |
| `SnapTarget.SnapToRowOffset` | Sources/RowSnapScrollView/RowSnapScrollView.swift:70-99 | with positive heights, the built table sends every gesture to some row's table offset (its top edge less the padding), and no row's table offset is nearer |
| `SnapSync.IdOf` | Sources/RowSnapScrollView/RowSnapScrollView.swift:57 | `item?.id` is `nil` exactly when the item is `nil`, and is otherwise the item's id |
| `SnapSync.LastWithId` | Sources/RowSnapScrollView/RowSnapScrollView.swift:53 | the row found is in `data`, has the requested id and has no later row with that id; `nil` exactly when no row has it (a `nil` id matches nothing) |
| `SnapSync.SnapCoordinator.constructor` | Sources/RowSnapScrollView/RowSnapScrollView.swift:18-31 | the view starts with the caller's binding value and a `nil` scroll position |
| `SnapSync.SnapCoordinator.OnScrollPositionChange` | Sources/RowSnapScrollView/RowSnapScrollView.swift:52-54 | `snappedItem` becomes the last row with the new id, or `nil`; the scroll position is unchanged |
| `SnapSync.SnapCoordinator.OnSnappedItemChange` | Sources/RowSnapScrollView/RowSnapScrollView.swift:55-60 | an unchanged value does nothing; otherwise the position becomes the binding's id, animated exactly when the previous value was not `nil`; the binding is not written |
| `SnapSync.SnapCoordinator.Appear` | Sources/RowSnapScrollView/RowSnapScrollView.swift:55-56 | the initial run of the handler (old value equals new value) changes nothing and issues no seek |
| `SnapSync.SnapCoordinator.SetSnappedItem` | Sources/RowSnapScrollView/RowSnapScrollView.swift:52-60 | assigning the same value again changes nothing and issues no seek; a new value seeks to its id, animated unless the old value was `nil`; when the position moves, the binding ends as the last row with that id (`nil` for an id no row has) and the position as that row's id, and an animated echo seek is issued exactly when the binding was replaced |
| `SnapSync.SnapCoordinator.ScrollSettled` | Sources/RowSnapScrollView/RowSnapScrollView.swift:52-60 | a settled id names the binding's new row; the echo seek happens exactly when the binding changed; for a known id it keeps the position; afterwards the binding is the last row with the position's id |
| `SnapSync.EchoKeepsPosition` | Sources/RowSnapScrollView/RowSnapScrollView.swift:53-57 | the id of the row found for a scroll id is that scroll id, so a scroll-driven change does not move the position again; the echo keeps the position exactly when some row has the id or the position is `nil`, and otherwise clears it to `nil` |
| `SnapSync.SeekSettleRoundTrip` | Sources/RowSnapScrollView/RowSnapScrollView.swift:53-57 | seeking to a row's id and looking the id up gives the row back iff it is the last row with its id |
| `Scenarios.ExampleTable` | Sources/RowSnapScrollView/RowSnapScrollView.swift:74-99 | heights 50, 30, 70 with spacing 10 give the table `[0, 60, 100]`, and 55 snaps to 60 |
| `Scenarios.ExampleSync` | Sources/RowSnapScrollView/RowSnapScrollView.swift:52-60 | after settling on B, selecting C seeks to C animated, selecting C again issues no seek, and selecting a row whose id no row has seeks to it and then, animated, to `nil` |

## Left out

- SwiftUI view composition (`ScrollView`, `LazyVStack`, `ForEach`, `.id`, `.scrollTargetLayout`) and the `padding` parameter, which the snap rule never reads. `.padding(padding)` pads the stack on every edge, so row `k`'s top edge is at `padding + snapPoints[k]` in content coordinates. At rest, a snapped row therefore sits `padding` below the viewport's top edge, not at it. The model speaks only of table offsets.
- The animation curve of `withAnimation(.default, …)`: a seek carries only an `animated` flag.
- The host scroll surface: momentum, deceleration, how it turns an offset into a row id, and the rest of `ScrollTarget` and `TargetContext`. A target is its vertical offset alone.
- The difference between `rect.minY` (read) and `rect.origin.y` (written): they are taken as equal, which holds for a rectangle of non-negative height.
- `CGFloat` rounding: offsets are exact reals.
- Platform availability gating and the generic `View`/`Identifiable` machinery. A row is a value with an id and whole-value equality.
- SnapSync.SnapCoordinator.ScrollSettled: the host event sequence stops after the echo seek. When the echo clears the position to `nil`, the scroll-to-item handler would run once more. That run rewrites `snappedItem` to the `nil` it already holds, so it is not modelled.
- SnapSync.SnapCoordinator.SetSnappedItem: the event sequence stops after the echo seek. When the echo clears the position to `nil`, the scroll-to-item handler would run once more. That run rewrites `snappedItem` to the `nil` it already holds, so it is not modelled.

# CircleRelationsLayout — a Dafny model of the circular relations layout

CircleRelationsLayout is an Android `ViewGroup` (`CircleLayout`). It lays its
child views out on a ring around the centre of its display area. Each
registered `CircleItem` is bound to one child and lists the ids of the
circles it relates to. When a child is clicked, or after every layout pass,
the layout walks its circles and stores a relation path for each listed
relation that has none yet; a path already stored is never replaced. A
relation path is a quadratic curve from the circle's child centre to a
related child's centre, with the display-area centre as control point.
Relations towards an active circle and towards the circle itself are
skipped.

The model is functional. Sessions, configurations, circles and paths are
immutable datatypes, and every operation of the layout is a pure function
from a session to a new session or to an error.

| file | module | what it models |
|---|---|---|
| `wrappers.dfy` | `Wrappers` | `Option` and `Result` |
| `geometry.dfy` | `Geometry` | `View.radius`, `layoutFromCenter`, `center()`, `forEachChild`, JVM integer halving |
| `relation_path.dfy` | `RelationPaths` | `RelationPath` and its two `buildPath` overloads as command lists |
| `circle_item.dfy` | `CircleItems` | `CircleItem`: `hasRelationFor`, `addRelation`, both `buildPath` overloads |
| `circle_layout.dfy` | `CircleLayout` | constants, session record, setters, `addCircle`/`setCircles`, `checkExistingCircles`, `findCircleIndexById` |
| `layout_pass.dfy` | `LayoutPass` | `onLayout` with `getLayoutRadius`, `getEqualAngle`, `layoutChildrenAtAngle`, `polarToX`/`polarToY` |
| `relations_rebuild.dfy` | `RelationsRebuild` | `buildRelationsList`, the child click listener, and the `post` after `onLayout` |

Modelling choices:

- **Integer arithmetic.** Kotlin `Int` is an unbounded `int`. The JVM's
  truncating `/ 2` is `Geometry.Half`. Measured sizes are `nat`.
- **Angles and trigonometry.** Angles are exact `real`s. Trigonometry and π
  come in as a `Trig(pi, cos, sin)` parameter, so the results hold for any
  cosine and sine. `Double.toInt()` is `Geometry.TruncToInt`, which
  truncates toward zero.
- **Points.** Float points are exact reals. A child's hit rectangle is its
  laid-out frame, and `exactCenterX/Y` is the frame's midpoint.
- **The registry.** The `circles` `ConcurrentHashMap` is a sequence of
  `Entry(key, item)` in its iteration order. Its keys are the child indices
  that `addCircle` assigned. A `ConcurrentHashMap` iterates by hash bin, so
  the model leaves the order open: `WellFormed` requires only distinct keys
  and unique ids, which `addCircle` maintains. The order after each `put`
  is a parameter (`arranged` of `AddCircle`, `placement` of `SetCircles`)
  and may be any rearrangement of the entries, because a resize of the
  table can reorder every entry. Every property of the rebuild holds for any
  such order.
- **Map iteration order.** The iteration order of a circle's
  `relationsWithPath` `HashMap` is an explicit `order` argument that lists
  every key once.
- **Mutation during the rebuild.** `buildRelationsList` mutates the items in
  place while it reads them. The model makes this explicit with
  `RelationsRebuild.StaleView`: while circle `q` is scanned, circles up to
  `q` already carry their new `active` flag and later ones still carry their
  old flag.

## Model

| member | source | states |
|---|---|---|
| Geometry.Half | app/src/main/kotlin/com/monkeycoders/sl/circlerelationslayout/ViewExtensions.kt:15 | halving rounds toward zero: for non-negative `x` the remainder `x - 2r` is 0 or 1, for negative `x` it is 0 or -1 |
| Geometry.TruncToInt | app/src/main/kotlin/com/monkeycoders/sl/circlerelationslayout/CircleLayout.kt:277 | `toInt` truncates toward zero: `r` is the integer nearest to `x` on zero's side, within 1 of `x` |
| Geometry.Radius | app/src/main/kotlin/com/monkeycoders/sl/circlerelationslayout/ViewExtensions.kt:14-15 | the radius is half the larger measured side (`2r <= max <= 2r+1`), at least each half-side, and equal to one of them |
| Geometry.LayoutFromCenter | app/src/main/kotlin/com/monkeycoders/sl/circlerelationslayout/ViewExtensions.kt:22-27 | the rectangle keeps the measured width and height, contains `(cx, cy)`, and its midpoint is off `(cx, cy)` only by the odd side's half pixel |
| Geometry.LayoutFromCenterIsCentred | app/src/main/kotlin/com/monkeycoders/sl/circlerelationslayout/ViewExtensions.kt:22-27 | with even width and height the rectangle is centred exactly on `(cx, cy)` |
| Geometry.Center | app/src/main/kotlin/com/monkeycoders/sl/circlerelationslayout/ViewExtensions.kt:30-41 | x is the midpoint of the display area counted from `paddingLeft`, within one pixel; y is the same midpoint of the height but counted from `paddingRight`; when the paddings exceed the box the negative width (height) is halved toward zero, so the centre lies between the padding and the padding plus that negative extent |
| Geometry.VerticalCentreQuirk | app/src/main/kotlin/com/monkeycoders/sl/circlerelationslayout/ViewExtensions.kt:39 | the vertical centre is the midpoint of the padded area counted from `paddingTop` exactly when `paddingTop == paddingRight` |
| Geometry.OuterRadius | app/src/main/kotlin/com/monkeycoders/sl/circlerelationslayout/CircleLayout.kt:110-119 | the outer radius is half the smaller side of the display area halved toward zero: rounded down for a non-negative side, rounded up (and at most 0) for a negative one |
| Geometry.ForEachChildOrder | app/src/main/kotlin/com/monkeycoders/sl/circlerelationslayout/ViewExtensions.kt:43-47 | the visit order has one entry per child and visits index `k` at step `k` |
| Geometry.ForEachChildVisitsEachOnce | app/src/main/kotlin/com/monkeycoders/sl/circlerelationslayout/ViewExtensions.kt:43-47 | every index below the child count is visited, nothing else is, and in strictly ascending order |
| RelationPaths.BuildPath | app/src/main/kotlin/com/monkeycoders/sl/circlerelationslayout/RelationPath.kt:16-23 | exactly two commands, a move then a quadratic; the path starts at `from`, ends at `to`, and its control point is `center` |
| RelationPaths.BuildPathScaled | app/src/main/kotlin/com/monkeycoders/sl/circlerelationslayout/RelationPath.kt:25-30 | the same shape starting at `from` through `center`, ending at `to` with both coordinates multiplied by `multiplier` |
| RelationPaths.ScaledByOneIsPlain | app/src/main/kotlin/com/monkeycoders/sl/circlerelationslayout/RelationPath.kt:16-30 | `buildPath(1)` equals `buildPath()` |
| RelationPaths.ScaledMovesOnlyTheEnd | app/src/main/kotlin/com/monkeycoders/sl/circlerelationslayout/RelationPath.kt:25-30 | the scaled path is the plain path of the relation whose `to` point was scaled: nothing else moves |
| RelationPaths.RadiusIsIgnored | app/src/main/kotlin/com/monkeycoders/sl/circlerelationslayout/RelationPath.kt:10-30 | changing the `radius` field changes neither path |
| CircleItems.NoRelationForSelf | app/src/main/kotlin/com/monkeycoders/sl/circlerelationslayout/CircleItem.kt:15-17 | `hasRelationFor` on the circle's own id is false whatever is stored |
| CircleItems.HasRelationForIffStored | app/src/main/kotlin/com/monkeycoders/sl/circlerelationslayout/CircleItem.kt:15-20 | for another id, a relation is reported iff a path is stored under it; with an empty map, never |
| CircleItems.AddRelation | app/src/main/kotlin/com/monkeycoders/sl/circlerelationslayout/CircleItem.kt:22-26 | with a stored path for another id nothing changes; otherwise the id is appended to the list, the path stored under it, every other stored path kept, id and flag untouched |
| CircleItems.AddRelationIdempotent | app/src/main/kotlin/com/monkeycoders/sl/circlerelationslayout/CircleItem.kt:22-26 | for another id a second call is a no-op: the first stored path wins and the id is appended at most once |
| CircleItems.SelfRelationIsUnguarded | app/src/main/kotlin/com/monkeycoders/sl/circlerelationslayout/CircleItem.kt:16-25 | adding the circle's own id twice appends it twice and the last path wins |
| CircleItems.ListedIdIsAppendedAgain | app/src/main/kotlin/com/monkeycoders/sl/circlerelationslayout/CircleItem.kt:22-25 | an id listed without a stored path is appended again when its path is added, so the list holds it twice |
| CircleItems.AddRelationKeepsKeysListed | app/src/main/kotlin/com/monkeycoders/sl/circlerelationslayout/CircleItem.kt:22-26 | if every stored id is listed before `addRelation`, it is after |
| CircleItems.NewCircleItemIsBare | app/src/main/kotlin/com/monkeycoders/sl/circlerelationslayout/CircleItem.kt:10-13 | a new circle is inactive, reports no relation for any id, lists every stored id, has the empty sequence as its only iteration order (no path stored), and draws an empty path |
| CircleItems.AddRelationAppendsExactlyStored | app/src/main/kotlin/com/monkeycoders/sl/circlerelationslayout/CircleItem.kt:22-26 | for another id the list grows only by ids that were not stored and are stored afterwards, each once, and every new stored id is among them |
| CircleItems.AppendsExactlyStoredTrans | app/src/main/kotlin/com/monkeycoders/sl/circlerelationslayout/CircleItem.kt:22-26 | appending exactly the newly stored ids composes over successive `addRelation` calls |
| CircleItems.AppendedCountsNewKeys | app/src/main/kotlin/com/monkeycoders/sl/circlerelationslayout/CircleItem.kt:22-26 | when the list grows by exactly the newly stored ids, it grows by the number of new paths |
| CircleItems.ListedIdHasNoPath | app/src/main/kotlin/com/monkeycoders/sl/circlerelationslayout/MainActivity.kt:24 | a host appending to the public list lists an id without storing a path, so the list may name ids the map lacks |
| CircleItems.JoinSubPaths | app/src/main/kotlin/com/monkeycoders/sl/circlerelationslayout/CircleItem.kt:28-44 | the joined path has two commands per relation, and the `k`-th pair is the sub-path of the `k`-th relation in iteration order |
| CircleItems.BuildPath | app/src/main/kotlin/com/monkeycoders/sl/circlerelationslayout/CircleItem.kt:28-35 | the combined path is every stored relation's plain curve in iteration order; with no stored relation it is empty |
| CircleItems.BuildPathScaled | app/src/main/kotlin/com/monkeycoders/sl/circlerelationslayout/CircleItem.kt:37-44 | the same, with every relation's scaled curve |
| CircleItems.JoinScaledByOne | app/src/main/kotlin/com/monkeycoders/sl/circlerelationslayout/CircleItem.kt:28-44 | joining with multiplier 1 equals joining the plain curves |
| CircleItems.BuildPathScaledByOne | app/src/main/kotlin/com/monkeycoders/sl/circlerelationslayout/CircleItem.kt:28-44 | `buildPath(1)` of a circle equals its `buildPath()` |
| CircleItems.PathLengthCountsRelations | app/src/main/kotlin/com/monkeycoders/sl/circlerelationslayout/CircleItem.kt:28-35 | the combined path holds exactly two commands per stored relation |
| CircleLayout.SetRadiusPreset | app/src/main/kotlin/com/monkeycoders/sl/circlerelationslayout/CircleLayout.kt:28-32 | accepted iff the value is `FITS_SMALLEST_CHILD` (0) or `FITS_LARGEST_CHILD` (1); then only the preset changes, otherwise `IllegalArgument` |
| CircleLayout.SetDirection | app/src/main/kotlin/com/monkeycoders/sl/circlerelationslayout/CircleLayout.kt:33-38 | accepted iff the value is non-zero; the stored direction is 1 or -1 with the input's sign, and nothing else changes; zero gives `IllegalArgument` |
| CircleLayout.SetCenterView | app/src/main/kotlin/com/monkeycoders/sl/circlerelationslayout/CircleLayout.kt:40-53 | rejects a view that is not a child; otherwise stores the view (or none) together with its id, changes nothing else, and keeps the configuration valid |
| CircleLayout.SettersKeepConfigValid | app/src/main/kotlin/com/monkeycoders/sl/circlerelationslayout/CircleLayout.kt:28-38 | a successful preset or direction setter keeps the configuration within the accepted values |
| CircleLayout.CheckExistingCircles | app/src/main/kotlin/com/monkeycoders/sl/circlerelationslayout/CircleLayout.kt:228 | true iff some registered circle carries the id |
| CircleLayout.FindCirclePosition | app/src/main/kotlin/com/monkeycoders/sl/circlerelationslayout/CircleLayout.kt:226 | the position of the last circle carrying the id in iteration order, none iff no circle carries it |
| CircleLayout.FindCircleIndexById | app/src/main/kotlin/com/monkeycoders/sl/circlerelationslayout/CircleLayout.kt:226 | the key of the last circle carrying the id; `NoSuchElement(id)` iff none does |
| CircleLayout.AddCircle | app/src/main/kotlin/com/monkeycoders/sl/circlerelationslayout/CircleLayout.kt:163-171 | a known id changes nothing; otherwise exactly one child is appended and the registry gains exactly the entry of the circle under that child's index, in any iteration order the map chooses; the id set grows by the id and well-formedness is kept |
| CircleLayout.Put | app/src/main/kotlin/com/monkeycoders/sl/circlerelationslayout/CircleLayout.kt:170 | after a `put` the registry holds the old entries and the new one, and any rearrangement of them can be the resulting iteration order |
| CircleLayout.RearrangedIds | app/src/main/kotlin/com/monkeycoders/sl/circlerelationslayout/CircleLayout.kt:170 | reordering the registry keeps its set of ids |
| CircleLayout.RearrangedKeepsRegistryWellFormed | app/src/main/kotlin/com/monkeycoders/sl/circlerelationslayout/CircleLayout.kt:170 | reordering a well-formed registry keeps keys and ids distinct and keys below the child count |
| CircleLayout.SetCircles | app/src/main/kotlin/com/monkeycoders/sl/circlerelationslayout/CircleLayout.kt:174-176 | the ids become the old ids plus the list's ids; old children stay a prefix and exactly one child is appended per newly registered circle; well-formedness is kept |
| CircleLayout.FirstWithId | app/src/main/kotlin/com/monkeycoders/sl/circlerelationslayout/CircleLayout.kt:164-175 | the first circle of the list carrying the id: none iff no circle does, otherwise one at a position with no earlier circle of that id |
| CircleLayout.NewEntriesMeans | app/src/main/kotlin/com/monkeycoders/sl/circlerelationslayout/CircleLayout.kt:163-176 | the entries registered for a list are, under consecutive keys from the child count, the first circle of the list for each id not registered before, each id once, and their ids are the list's ids minus the registered ones |
| CircleLayout.SetCirclesRegistersNewEntries | app/src/main/kotlin/com/monkeycoders/sl/circlerelationslayout/CircleLayout.kt:163-176 | `setCircles` keeps every old entry and adds exactly those entries, nothing else |
| CircleLayout.SetCirclesChildPerEntry | app/src/main/kotlin/com/monkeycoders/sl/circlerelationslayout/CircleLayout.kt:163-176 | one child is inflated per added entry, so the added keys are exactly the new children's indices |
| CircleLayout.SetCirclesAddsInflated | app/src/main/kotlin/com/monkeycoders/sl/circlerelationslayout/CircleLayout.kt:168-175 | every child `setCircles` appends is the inflated view |
| CircleLayout.SetCirclesCountsDistinctIds | app/src/main/kotlin/com/monkeycoders/sl/circlerelationslayout/CircleLayout.kt:163-176 | after `setCircles` there is exactly one circle per distinct id |
| LayoutPass.PolarWithinRadius | app/src/main/kotlin/com/monkeycoders/sl/circlerelationslayout/CircleLayout.kt:277-285 | for cosine and sine in [-1, 1] both polar offsets are at most the radius in size |
| LayoutPass.PolarTruncates | app/src/main/kotlin/com/monkeycoders/sl/circlerelationslayout/CircleLayout.kt:277-285 | each polar coordinate is the product of radius and cosine (sine) truncated toward zero: below it by less than 1 when it is non-negative, above it by less than 1 when negative |
| LayoutPass.HasCenterViewMeans | app/src/main/kotlin/com/monkeycoders/sl/circlerelationslayout/CircleLayout.kt:40-41 | the layout has a centre view iff one is set and its id is not `NO_ID`; then no child carrying that id is laid out on the ring |
| LayoutPass.FilterLaidOut | app/src/main/kotlin/com/monkeycoders/sl/circlerelationslayout/CircleLayout.kt:125-133 | the children among the first `n` that are neither gone nor the centre view, exactly those, in ascending index order |
| LayoutPass.FilterFollowsVisitOrder | app/src/main/kotlin/com/monkeycoders/sl/circlerelationslayout/CircleLayout.kt:125-133 | filtering the children is the same as keeping, in `forEachChild`'s visit order, every visited child that is neither gone nor the centre view |
| LayoutPass.ChildrenToLayout | app/src/main/kotlin/com/monkeycoders/sl/circlerelationslayout/CircleLayout.kt:125-133 | the ring children are exactly the children that are neither gone nor the centre view, in ascending index order |
| LayoutPass.MinChildRadius | app/src/main/kotlin/com/monkeycoders/sl/circlerelationslayout/CircleLayout.kt:123-132 | the minimum starts at the outer radius: at most every ring child's radius and the outer radius, and equal to one of them |
| LayoutPass.MaxChildRadius | app/src/main/kotlin/com/monkeycoders/sl/circlerelationslayout/CircleLayout.kt:124-131 | the maximum starts at 0: at least every ring child's radius and 0, and equal to one of them |
| LayoutPass.EqualAngle | app/src/main/kotlin/com/monkeycoders/sl/circlerelationslayout/CircleLayout.kt:249 | `n` slices of the angle make a full turn; zero slices give a full turn, never a division by zero |
| LayoutPass.AngleIncrement | app/src/main/kotlin/com/monkeycoders/sl/circlerelationslayout/CircleLayout.kt:135 | a non-zero configured angle is used as is; otherwise the increment splits the full turn over the ring children |
| LayoutPass.LayoutRadius | app/src/main/kotlin/com/monkeycoders/sl/circlerelationslayout/CircleLayout.kt:236-242 | the ring radius plus the smallest child radius is the outer radius for `FITS_SMALLEST_CHILD`; for any other preset, the largest child radius does |
| LayoutPass.ChooseLayoutRadius | app/src/main/kotlin/com/monkeycoders/sl/circlerelationslayout/CircleLayout.kt:138 | a non-zero fixed radius wins; otherwise the preset's radius |
| LayoutPass.LargestPresetFitsEveryChild | app/src/main/kotlin/com/monkeycoders/sl/circlerelationslayout/CircleLayout.kt:119-138 | with `FITS_LARGEST_CHILD` every ring child fits inside the outer radius and the largest one touches it |
| LayoutPass.SmallestPresetFitsSmallestChild | app/src/main/kotlin/com/monkeycoders/sl/circlerelationslayout/CircleLayout.kt:119-138 | with `FITS_SMALLEST_CHILD` every ring child reaches the outer radius, and with no ring child the ring radius is 0 |
| LayoutPass.RingAngleAdvance | app/src/main/kotlin/com/monkeycoders/sl/circlerelationslayout/CircleLayout.kt:261-267 | starting one step later is the same as taking the next child's angle |
| LayoutPass.PlaceOnRing | app/src/main/kotlin/com/monkeycoders/sl/circlerelationslayout/CircleLayout.kt:263-265 | the child keeps its measured size and its frame is centred, up to the odd half pixel, on `(cx + polarToX, cy - polarToY)` with the y axis pointing down; nothing but the frame changes |
| LayoutPass.LayoutChildrenAtAngle | app/src/main/kotlin/com/monkeycoders/sl/circlerelationslayout/CircleLayout.kt:260-269 | the `k`-th listed child is placed at `angleOffset + k * step`; unlisted children are untouched and no child changes anything but its frame |
| LayoutPass.PlaceCenterView | app/src/main/kotlin/com/monkeycoders/sl/circlerelationslayout/CircleLayout.kt:121 | the centre view, if any, is laid out centred on the display centre, and no other child changes |
| LayoutPass.PlaceOnRingIgnoresFrame | app/src/main/kotlin/com/monkeycoders/sl/circlerelationslayout/ViewExtensions.kt:22-27 | where a child lands does not depend on where it was before |
| LayoutPass.RingIgnoresPriorFrames | app/src/main/kotlin/com/monkeycoders/sl/circlerelationslayout/CircleLayout.kt:260-269 | the ring placement of every listed child does not depend on earlier frames |
| LayoutPass.OnLayout | app/src/main/kotlin/com/monkeycoders/sl/circlerelationslayout/CircleLayout.kt:109-140 | a layout pass keeps bounds, padding, registry, active index, configuration and child count |
| LayoutPass.OnLayoutPlacesRing | app/src/main/kotlin/com/monkeycoders/sl/circlerelationslayout/CircleLayout.kt:109-140 | the `k`-th ring child lands at polar angle `angleOffset + k * increment * direction` and the chosen radius around the display centre |
| LayoutPass.OnLayoutOnlyMovesChildren | app/src/main/kotlin/com/monkeycoders/sl/circlerelationslayout/CircleLayout.kt:109-140 | only frames change, and the session stays well formed |
| LayoutPass.OnLayoutPlacesCenterView | app/src/main/kotlin/com/monkeycoders/sl/circlerelationslayout/CircleLayout.kt:121-133 | the centre view, when not on the ring, is centred on the display centre; every other child off the ring is untouched |
| LayoutPass.RingClosesAfterFullTurn | app/src/main/kotlin/com/monkeycoders/sl/circlerelationslayout/CircleLayout.kt:135-140 | with equal angles, the angle after the last ring child is a full turn (in the configured direction) past the offset |
| LayoutPass.FourChildrenAtQuarterTurns | app/src/main/kotlin/com/monkeycoders/sl/circlerelationslayout/CircleLayout.kt:249-267 | four children counter-clockwise from offset 0 sit at 0, pi/2, pi and 3pi/2 |
| RelationsRebuild.MakeRelationPath | app/src/main/kotlin/com/monkeycoders/sl/circlerelationslayout/CircleLayout.kt:188-220 | the relation runs from the circle's child centre to the target child's centre, through the display centre, carrying the source child's radius |
| RelationsRebuild.ScanRelations | app/src/main/kotlin/com/monkeycoders/sl/circlerelationslayout/CircleLayout.kt:199-221 | the scan succeeds iff every listed id is registered, else fails with `NoSuchElement` for a listed unregistered id; on success the circle keeps id, flag, list prefix and every stored path |
| RelationsRebuild.ScanStoresOnlyAdmitted | app/src/main/kotlin/com/monkeycoders/sl/circlerelationslayout/CircleLayout.kt:199-221 | every newly stored id is listed, its target is inactive and not the circle itself, and its path goes to the last circle carrying that id |
| RelationsRebuild.ScanStoresEveryAdmitted | app/src/main/kotlin/com/monkeycoders/sl/circlerelationslayout/CircleLayout.kt:199-221 | every listed id whose target is inactive and not the circle itself ends up with a stored path |
| RelationsRebuild.ScanAppendsExactlyStored | app/src/main/kotlin/com/monkeycoders/sl/circlerelationslayout/CircleLayout.kt:199-221 | one circle's scan appends to its list exactly the ids it newly stores, each once |
| RelationsRebuild.AppendedIsRegistered | app/src/main/kotlin/com/monkeycoders/sl/circlerelationslayout/CircleLayout.kt:199-216 | an id newly stored by the scan is one some registered circle carries |
| RelationsRebuild.FindPositionSeesIdsOnly | app/src/main/kotlin/com/monkeycoders/sl/circlerelationslayout/CircleLayout.kt:226 | the lookup depends only on the ids in iteration order |
| RelationsRebuild.ScanSeesFlagsOnly | app/src/main/kotlin/com/monkeycoders/sl/circlerelationslayout/CircleLayout.kt:199-221 | the scan reads the other circles only through their keys, ids and active flags |
| RelationsRebuild.StaleView | app/src/main/kotlin/com/monkeycoders/sl/circlerelationslayout/CircleLayout.kt:184-197 | while circle `p` is scanned, circles up to `p` carry their new active flag and later ones their old flag |
| RelationsRebuild.AnyMissingMeans | app/src/main/kotlin/com/monkeycoders/sl/circlerelationslayout/CircleLayout.kt:199-202 | a rebuild can fail iff some circle lists an id no circle carries |
| RelationsRebuild.RebuildFrom | app/src/main/kotlin/com/monkeycoders/sl/circlerelationslayout/CircleLayout.kt:184-223 | the remaining walk fails iff a remaining circle lists an unregistered id; otherwise each remaining circle is its scan over the stale view and earlier ones are untouched |
| RelationsRebuild.MarkSelected | app/src/main/kotlin/com/monkeycoders/sl/circlerelationslayout/CircleLayout.kt:222 | a child bound to a circle is selected iff it is the active child; other children and fields are untouched |
| RelationsRebuild.BuildRelationsList | app/src/main/kotlin/com/monkeycoders/sl/circlerelationslayout/CircleLayout.kt:178-224 | fails iff some circle lists an unregistered id; otherwise every circle is its scan over the stale view, and layout state and counts are kept |
| RelationsRebuild.RebuildActivatesActiveChild | app/src/main/kotlin/com/monkeycoders/sl/circlerelationslayout/CircleLayout.kt:192-197 | after a rebuild the registry has the same keys and ids, and a circle is active iff its key is the active child index |
| RelationsRebuild.RebuildSelectsActiveChild | app/src/main/kotlin/com/monkeycoders/sl/circlerelationslayout/CircleLayout.kt:188-222 | after a rebuild a bound child is selected iff it is the active child; children change in nothing else |
| RelationsRebuild.RebuildKeepsRelations | app/src/main/kotlin/com/monkeycoders/sl/circlerelationslayout/CircleLayout.kt:178-224 | the rebuild never removes or replaces a listed id or a stored path (nothing clears them); what it appends to a circle's list is exactly the newly stored ids, each once, so the list grows by the number of new paths |
| RelationsRebuild.RebuiltListsRegistered | app/src/main/kotlin/com/monkeycoders/sl/circlerelationslayout/CircleLayout.kt:178-224 | after a successful rebuild every id on every circle's list is carried by a registered circle |
| RelationsRebuild.RebuildKeepsWellFormed | app/src/main/kotlin/com/monkeycoders/sl/circlerelationslayout/CircleLayout.kt:178-224 | a successful rebuild keeps the session well formed |
| RelationsRebuild.RebuildIsRepeatable | app/src/main/kotlin/com/monkeycoders/sl/circlerelationslayout/CircleLayout.kt:178-224 | after a successful rebuild no circle lists an unregistered id, so the next rebuild succeeds too |
| RelationsRebuild.RebuildStoresExactlyAdmitted | app/src/main/kotlin/com/monkeycoders/sl/circlerelationslayout/CircleLayout.kt:199-221 | a path is newly stored for `x` iff `x` is listed and its target is inactive in the stale view and not the circle itself; the path leads to that target's child |
| RelationsRebuild.StaleFlagSkipsRelation | app/src/main/kotlin/com/monkeycoders/sl/circlerelationslayout/CircleLayout.kt:197-206 | clicking the first circle while the second was active stores no relation to the second, although the second ends inactive |
| RelationsRebuild.OnChildClick | app/src/main/kotlin/com/monkeycoders/sl/circlerelationslayout/CircleLayout.kt:58-62 | the clicked index becomes active: exactly its circle is active, at most one circle is, bound children are selected iff clicked; fails iff a listed id is unregistered |
| RelationsRebuild.LayoutThenRebuild | app/src/main/kotlin/com/monkeycoders/sl/circlerelationslayout/CircleLayout.kt:109-141 | a layout pass followed by the posted rebuild fails iff a listed id is unregistered; otherwise frames are the layout pass's and configuration and active index are kept |

## Left out

- Floating point. `Float`/`Double` rounding of angles, of `angle * direction`, of `2 * Math.PI.toFloat() / n` and of point coordinates is not modelled. Angles and points are exact reals.
- `NaN` and infinities in `Double.toInt()`, which maps NaN to 0 and saturates at the `Int` bounds, are not modelled. `TruncToInt` assumes a finite real.
- 32-bit `Int` overflow of coordinates and radii is not modelled. Integers are unbounded.
- Trigonometry. `Math.cos`, `Math.sin` and π are parameters (`LayoutPass.Trig`). Results hold for any choice, and only `PolarWithinRadius` assumes values in [-1, 1].
- `RelationPath.recalculateStartPoint` (RelationPath.kt:32-40) is unused by the layout and pure floating-point geometry (`hypot`, `sqrt`, `pow`).
- `CircleView.kt`, `onDraw`, `drawCircleRelations`, the paints and `invalidate()` are rendering. The drawn path is `CircleItems.BuildPath`.
- Concurrency. `ConcurrentHashMap` thread safety is not modelled. `post { buildRelationsList() }` is modelled as running right after the layout pass (`LayoutThenRebuild`).
- `init`, styled-attribute parsing, `onFinishInflate`, `onMeasure`/`measureChildren` and `LayoutInflater` are platform glue. Measured sizes are inputs, and the inflated child of `addCircle` is a parameter.
- `addView`'s click-listener wiring is not modelled. `indexOfChild(it)` in the listener is the `index` parameter of `OnChildClick`.
- `getChildAt(key)` returning null cannot happen in the model. `WellFormed` makes every registry key a child index, as `addCircle` guarantees.
- State after an exception is not modelled. A `NoSuchElementException` thrown midway through `buildRelationsList` leaves the layout's items partly updated, but the model returns only `Failure(NoSuchElement(id))`.
- View transforms are not modelled. The hit rectangle of a child is its laid-out frame.
- The `ConcurrentHashMap`'s hashing, bins and resize policy are not computed. The iteration order after each `put` is the parameter `arranged` of `CircleLayout.AddCircle`, which may be any rearrangement of the entries.
- `CircleItems.BuildPath`: the iteration order of the `HashMap` is an argument (`order`). It is not the platform's hash order.
- The `?:` fallback at CircleLayout.kt:202 is not modelled, because `findCircleIndexById` never returns a key that is absent from `circles`. A missing id throws instead (below).

## Behaviour of the code worth knowing

The model follows the code on these points:

- A listed id that no circle carries makes `findCircleIndexById` throw (`keys.last()` on an empty set), so the whole rebuild fails. It is not skipped.
- `relationsToCircles` is public. The list can name ids without a stored path (`ListedIdHasNoPath`), and `addRelation` can then list such an id twice (`ListedIdIsAppendedAgain`).
- Nothing ever clears or replaces a stored path. The commented-out `circles.clear()` at CircleLayout.kt:179 would empty the layout's registry (CircleLayout.kt:56), not the paths, and `addRelation` keeps the first path stored for an id (CircleItem.kt:23). A path stored while its target was inactive stays after the target becomes active (`RebuildKeepsRelations`).
- A stored path keeps the child centres of the rebuild that stored it. After a later layout pass moves the children, the drawn curve still runs between their old centres, because the rebuild skips every id that already has a path.
- The self-id guard lives only in `hasRelationFor`. `addRelation` with the circle's own id always appends (`SelfRelationIsUnguarded`). `buildRelationsList` never calls it that way.
- The centre's y coordinate adds `paddingRight`, not `paddingTop` (ViewExtensions.kt:39, CircleLayout.kt:118). This is kept, and `VerticalCentreQuirk` states when it matters.
- Radii and centres use truncating integer halving. When the paddings exceed the box, a negative display extent is therefore halved toward zero, that is rounded up (`Center`, `OuterRadius`).
- `setCircles` with two circles of the same id registers only the first of them, and the later one is silently dropped (`NewEntriesMeans`).
- The active flags are stale during the rebuild. A circle after the current one in iteration order is still seen with its previous flag, so a relation towards the newly active circle can be stored, and one towards the previously active circle skipped (`StaleFlagSkipsRelation`).

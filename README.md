# Route leg geometry

A model of the `shape` property that MapboxCoreNavigation adds to `RouteLeg`
(`MapboxCoreNavigation/RouteLeg.swift`). A route leg is made of steps, and
each step may carry its own path geometry, a Turf `LineString`. The leg's
geometry is built by stitching the steps' geometries together in order:

- the first step's coordinates are kept whole (an absent first geometry gives an empty seed);
- every later step appends its coordinates without the first one, which is
  the boundary point it shares with the step before it (an absent geometry counts as empty).

The Swift code seeds `reduce(into:)` with `steps.first?.shape ?? LineString([])`
and, for each step of `steps.dropFirst()`, appends
`(step.shape?.coordinates ?? []).dropFirst()` to the result's coordinates.

## How it is modelled

- `wrappers.dfy` (module `Wrappers`): Swift optionals, with `??` as `GetOr`.
- `route_leg.dfy` (module `RouteLegShape`):
  - `RouteStep` and `RouteLeg` are read-only values. A `LineString` is the
    sequence of its coordinates. A coordinate is the type parameter `C`,
    which the stitching never compares.
  - The specification is the function `Stitched`. It is the seed
    (`Seed`) followed by the later steps' contributions, in order (`Joined`).
  - `Shape` is the property itself. It seeds a local accumulator and
    appends to it in a loop, and it is proved equal to `Stitched`.
  - The lemmas state what the stitching promises: it only appends, absent
    geometry counts as empty, and the exact output length. Renaming
    coordinates commutes with stitching, so values are never inspected.
    On continuous steps each step reappears whole. Nothing repairs a gap.

Two behaviours of the code may be unexpected, and the model follows the code:

- One might expect the steps `[p0, p1]`, `[]`, `[p1, p2]` to give
  `[p0, p1, p1, p2]`; the code gives `[p0, p1, p2]`. The empty step contributes nothing, and the step
  after it still drops its first coordinate (`EmptyStepBetweenIsTransparent`).
- One might expect re-stitching a geometry as one single-coordinate step per
  coordinate to reproduce it; it does not. Every later step drops its only coordinate, so only the first
  coordinate remains (`RestitchingPointsKeepsOnlyTheFirst`).

## Model

| member | source | states |
|---|---|---|
| RouteLegShape.Shape | MapboxCoreNavigation/RouteLeg.swift:5-9 | the accumulator loop returns exactly `Stitched(steps)`; zero steps give no coordinates; one step gives exactly its coordinates; the first step's coordinates are a prefix of the result; the result has `LegLength(steps)` coordinates |
| Wrappers.Option.GetOr | MapboxCoreNavigation/RouteLeg.swift:6-7 | `??` gives the wrapped value when there is one and the default (here an empty geometry) when it is absent |
| RouteLegShape.Coordinates | MapboxCoreNavigation/RouteLeg.swift:7 | `step.shape?.coordinates ?? []`: a present geometry gives its coordinates, an absent one the empty sequence |
| RouteLegShape.Seed | MapboxCoreNavigation/RouteLeg.swift:6 | `steps.first?.shape ?? LineString([])`: a leg with no steps seeds an empty geometry, otherwise the seed is the first step's coordinates, absent counting as empty |
| RouteLegShape.DropFirst | MapboxCoreNavigation/RouteLeg.swift:7 | `dropFirst()` has no elements for an empty input and one element fewer than a non-empty one |
| RouteLegShape.JoinedGrows | MapboxCoreNavigation/RouteLeg.swift:6-7 | each iteration of `reduce(into:)` appends the next step's coordinates from index 1 on to what the earlier steps contributed |
| RouteLegShape.JoinedSingle | MapboxCoreNavigation/RouteLeg.swift:7 | one later step contributes its coordinates from index 1 on |
| RouteLegShape.JoinedConcat | MapboxCoreNavigation/RouteLeg.swift:6-7 | the fold over two runs of later steps is the first run's contribution followed by the second's |
| RouteLegShape.StitchedAppendSteps | MapboxCoreNavigation/RouteLeg.swift:6-7 | adding steps to a non-empty leg only appends their contributions after the existing geometry |
| RouteLegShape.StitchedAppendStep | MapboxCoreNavigation/RouteLeg.swift:7 | adding one step appends exactly that step's coordinates from index 1 on |
| RouteLegShape.StitchedLastStep | MapboxCoreNavigation/RouteLeg.swift:6-7 | a leg of two or more steps is the geometry of all steps but the last, followed by the last step's coordinates from index 1 on |
| RouteLegShape.StitchedPrefix | MapboxCoreNavigation/RouteLeg.swift:6-7 | the geometry of the first k steps is a prefix of that of the first j steps whenever k <= j |
| RouteLegShape.FirstStepIsPrefix | MapboxCoreNavigation/RouteLeg.swift:6 | the first step's coordinates, whole, begin the leg's geometry, and a one-step leg is that step's coordinates |
| RouteLegShape.AbsentFirstShapeIsEmptySeed | MapboxCoreNavigation/RouteLeg.swift:6 | an absent first geometry is an empty seed rather than an error, the same as a present but empty one |
| RouteLegShape.JoinedOnlyCoordinatesMatter | MapboxCoreNavigation/RouteLeg.swift:7 | later steps with the same coordinates (absent counting as empty) contribute the same |
| RouteLegShape.OnlyCoordinatesMatter | MapboxCoreNavigation/RouteLeg.swift:6-7 | an absent geometry and an empty one are interchangeable at every position of the leg |
| RouteLegShape.StitchedAroundStep | MapboxCoreNavigation/RouteLeg.swift:6-7 | a later step's contribution sits exactly between the geometry of the steps before it and the contributions of the steps after it |
| RouteLegShape.ShortLaterStepContributesNothing | MapboxCoreNavigation/RouteLeg.swift:7 | a later step with an absent, empty or single-point geometry adds nothing: removing it leaves the leg's geometry unchanged |
| RouteLegShape.JoinedLength | MapboxCoreNavigation/RouteLeg.swift:7 | the later steps contribute the sum of max(\|shape_i\| - 1, 0) coordinates |
| RouteLegShape.StitchedLength | MapboxCoreNavigation/RouteLeg.swift:6-7 | the leg's geometry has \|shape_1\| + the sum over later steps of max(\|shape_i\| - 1, 0) coordinates |
| RouteLegShape.LaterLengthOfNonEmpty | MapboxCoreNavigation/RouteLeg.swift:7 | when every later geometry is non-empty, each contributes one coordinate fewer than it has |
| RouteLegShape.StitchedLengthOfNonEmptySteps | MapboxCoreNavigation/RouteLeg.swift:6-7 | with all N geometries non-empty the leg has L_1 + (L_2 - 1) + ... + (L_N - 1) coordinates |
| RouteLegShape.JoinedCommutesWithMap | MapboxCoreNavigation/RouteLeg.swift:7 | renaming coordinates before or after the fold over later steps gives the same result |
| RouteLegShape.StitchedCommutesWithMap | MapboxCoreNavigation/RouteLeg.swift:6-7 | renaming every coordinate by any function before stitching equals renaming after, so the result depends only on lengths and positions, never on coordinate values |
| RouteLegShape.LastStepEndsLeg | MapboxCoreNavigation/RouteLeg.swift:6-7 | when each step starts where the previous one ends, the leg's geometry ends with the last step's coordinates, whole |
| RouteLegShape.StepReappearsInLeg | MapboxCoreNavigation/RouteLeg.swift:6-7 | on continuous steps every step's coordinates appear whole, in order, as a contiguous slice of the leg's geometry; only boundary duplicates are removed |
| RouteLegShape.DiscontinuityIsKept | MapboxCoreNavigation/RouteLeg.swift:7 | a second step's first coordinate is dropped even when it differs from the first step's last one: no gap is detected or repaired |
| RouteLegShape.SharedBoundaryKeptOnce | MapboxCoreNavigation/RouteLeg.swift:6-7 | two steps sharing a boundary point give exactly one copy of it |
| RouteLegShape.EmptyStepBetweenIsTransparent | MapboxCoreNavigation/RouteLeg.swift:7 | an empty step between two steps changes nothing, and the shared boundary point appears once |
| RouteLegShape.JoinedOfPoints | MapboxCoreNavigation/RouteLeg.swift:7 | later steps of one coordinate each contribute nothing |
| RouteLegShape.RestitchingPointsKeepsOnlyTheFirst | MapboxCoreNavigation/RouteLeg.swift:6-7 | stitching one single-point step per coordinate keeps only the first coordinate |

## Left out

- Turf's `LineString` and coordinate arithmetic: a geometry is a plain sequence and a coordinate an opaque type, because the stitching neither computes with nor compares coordinates.
- Growth of the result array: the code grows it with `+=` and reserves no capacity; the model appends to a sequence in the same order and does not model allocation.
- `MapboxNavigation/EndOfRouteViewController.swift` as a whole: it is UIKit presentation code. This includes outlets, layout-constraint changes and animation, corner masking, and the comment box's placeholder handling.
- Reverse geocoding of the destination through `CLGeocoder`: an asynchronous call into a system framework.
- The delayed dismissal through `DispatchQueue.main.asyncAfter`: timing and concurrency.
- The destination label formatting (`string(for:)`): it formats floating-point latitude and longitude, and it is a placeholder.
- The star rating and the optional comment reported on dismissal: view state of the same screen, with no logic beyond handing them to a callback.

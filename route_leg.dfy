/**
 * The path geometry of a route leg, built by stitching together the
 * geometries of its steps (the `shape` property of `RouteLeg`).
 *
 * A `LineString` is modelled as the sequence of its coordinates, and a
 * coordinate as the opaque type parameter `C`: the stitching never looks
 * at coordinate values, so `C` need not support equality.  Only the
 * continuity lemmas at the end compare coordinates, in their statements,
 * to say what the stitching assumes without checking it.
 */
module RouteLegShape {
  import opened Wrappers

  /** A step of a route leg; its geometry may be absent. */
  datatype RouteStep<C> = RouteStep(shape: Option<seq<C>>)

  /** A route leg: its steps, in travel order. */
  datatype RouteLeg<C> = RouteLeg(steps: seq<RouteStep<C>>)

  // ---------------------------------------------------------------------
  // Specification
  // ---------------------------------------------------------------------

  /** Swift's `dropFirst()`: everything after the first element, nothing when empty. */
  function DropFirst<T>(s: seq<T>): (r: seq<T>)
    ensures |r| == if s == [] then 0 else |s| - 1
  {
    if s == [] then [] else s[1..]
  }

  /** `step.shape?.coordinates ?? []`: an absent geometry counts as empty. */
  function Coordinates<C>(step: RouteStep<C>): (r: seq<C>)
    ensures step.shape.Some? ==> r == step.shape.value
    ensures step.shape.None? ==> r == []
  {
    step.shape.GetOr([])
  }

  /** `steps.first?.shape ?? LineString([])`: the seed of the fold. */
  function Seed<C>(steps: seq<RouteStep<C>>): (r: seq<C>)
    ensures steps == [] ==> r == []
    ensures steps != [] ==> r == Coordinates(steps[0])
  {
    (if steps == [] then None else steps[0].shape).GetOr([])
  }

  /**
   * What the fold body appends for the later steps, in order: each step's
   * coordinates without its first one, the boundary point it shares with
   * the step before it.
   */
  function Joined<C>(later: seq<RouteStep<C>>): seq<C> {
    if later == [] then []
    else DropFirst(Coordinates(later[0])) + Joined(later[1..])
  }

  /** The geometry of a leg with the given steps. */
  function Stitched<C>(steps: seq<RouteStep<C>>): seq<C> {
    Seed(steps) + Joined(DropFirst(steps))
  }

  // ---------------------------------------------------------------------
  // The operation
  // ---------------------------------------------------------------------

  /**
   * `RouteLeg.shape`: seeds an accumulator with the first step's
   * coordinates and appends, step by step, every later step's coordinates
   * but the first.
   */
  method Shape<C>(leg: RouteLeg<C>) returns (coordinates: seq<C>)
    ensures coordinates == Stitched(leg.steps)
    ensures leg.steps == [] ==> coordinates == []
    ensures |leg.steps| == 1 ==> coordinates == Coordinates(leg.steps[0])
    ensures leg.steps != [] ==> Coordinates(leg.steps[0]) <= coordinates
    ensures |coordinates| == LegLength(leg.steps)
  {
    var later := DropFirst(leg.steps);
    coordinates := Seed(leg.steps);
    for i := 0 to |later|
      invariant coordinates == Seed(leg.steps) + Joined(later[..i])
    {
      coordinates := coordinates + DropFirst(Coordinates(later[i]));
      JoinedGrows(later, i);
    }
    assert later[..|later|] == later;
    assert |coordinates| == LegLength(leg.steps) by {
      StitchedLength(leg.steps);
    }
    assert leg.steps != [] ==> Coordinates(leg.steps[0]) <= coordinates by {
      if leg.steps != [] {
        FirstStepIsPrefix(leg.steps);
      }
    }
  }

  // ---------------------------------------------------------------------
  // The fold is append-only
  // ---------------------------------------------------------------------

  /** Joining two runs of later steps joins their contributions. */
  lemma {:induction false} JoinedConcat<C>(a: seq<RouteStep<C>>, b: seq<RouteStep<C>>)
    ensures Joined(a + b) == Joined(a) + Joined(b)
    decreases |a|
  {
    if a == [] {
      assert a + b == b;
    } else {
      calc {
        Joined(a + b);
        { assert (a + b)[0] == a[0];
          assert (a + b)[1..] == a[1..] + b; }
        DropFirst(Coordinates(a[0])) + Joined(a[1..] + b);
        { JoinedConcat(a[1..], b); }
        DropFirst(Coordinates(a[0])) + Joined(a[1..]) + Joined(b);
      }
    }
  }

  /** A single later step contributes its coordinates from index 1 on. */
  lemma JoinedSingle<C>(step: RouteStep<C>)
    ensures Joined([step]) == DropFirst(Coordinates(step))
  {
    assert [step][1..] == [];
  }

  /** One more iteration of the fold appends the next step's contribution. */
  lemma JoinedGrows<C>(later: seq<RouteStep<C>>, i: nat)
    requires i < |later|
    ensures Joined(later[..i + 1]) == Joined(later[..i]) + DropFirst(Coordinates(later[i]))
  {
    assert later[..i + 1] == later[..i] + [later[i]];
    JoinedConcat(later[..i], [later[i]]);
    JoinedSingle(later[i]);
  }

  /** Stitching more steps onto a non-empty leg only appends their contributions. */
  lemma {:induction false} StitchedAppendSteps<C>(a: seq<RouteStep<C>>, b: seq<RouteStep<C>>)
    requires a != []
    ensures Stitched(a + b) == Stitched(a) + Joined(b)
  {
    assert (a + b)[0] == a[0];
    assert DropFirst(a + b) == DropFirst(a) + b;
    JoinedConcat(DropFirst(a), b);
  }

  /** One more step appends exactly that step's coordinates from index 1 on. */
  lemma {:induction false} StitchedAppendStep<C>(steps: seq<RouteStep<C>>, step: RouteStep<C>)
    requires steps != []
    ensures Stitched(steps + [step]) == Stitched(steps) + DropFirst(Coordinates(step))
  {
    StitchedAppendSteps(steps, [step]);
    JoinedSingle(step);
  }

  /** A leg of two or more steps is its steps but the last, stitched, followed by the last step's contribution. */
  lemma StitchedLastStep<C>(steps: seq<RouteStep<C>>)
    requires |steps| >= 2
    ensures Stitched(steps) == Stitched(steps[..|steps| - 1]) + DropFirst(Coordinates(steps[|steps| - 1]))
  {
    assert steps == steps[..|steps| - 1] + [steps[|steps| - 1]];
    StitchedAppendStep(steps[..|steps| - 1], steps[|steps| - 1]);
  }

  /** The geometry of the first k steps is a prefix of that of the first j steps, k <= j. */
  lemma {:induction false} StitchedPrefix<C>(steps: seq<RouteStep<C>>, k: nat, j: nat)
    requires k <= j <= |steps|
    ensures Stitched(steps[..k]) <= Stitched(steps[..j])
  {
    if k > 0 {
      calc {
        Stitched(steps[..j]);
        { assert steps[..j] == steps[..k] + steps[k..j]; }
        Stitched(steps[..k] + steps[k..j]);
        { StitchedAppendSteps(steps[..k], steps[k..j]); }
        Stitched(steps[..k]) + Joined(steps[k..j]);
      }
    }
  }

  /** The first step's coordinates, whole, begin the leg's geometry. */
  lemma {:induction false} FirstStepIsPrefix<C>(steps: seq<RouteStep<C>>)
    requires steps != []
    ensures Coordinates(steps[0]) <= Stitched(steps)
    ensures Stitched([steps[0]]) == Coordinates(steps[0])
  {
    StitchedPrefix(steps, 1, |steps|);
    assert steps[..1] == [steps[0]];
    assert steps[..|steps|] == steps;
  }

  // ---------------------------------------------------------------------
  // Absent and short geometries
  // ---------------------------------------------------------------------

  /** An absent first geometry is an empty seed: the leg is the later steps' contributions. */
  lemma AbsentFirstShapeIsEmptySeed<C>(rest: seq<RouteStep<C>>)
    ensures Stitched([RouteStep(None)] + rest) == Joined(rest)
    ensures Stitched([RouteStep(None)] + rest) == Stitched([RouteStep(Some([]))] + rest)
  {
    assert DropFirst([RouteStep<C>.RouteStep(None)] + rest) == rest;
    assert DropFirst([RouteStep<C>.RouteStep(Some([]))] + rest) == rest;
  }

  /** Joined sees a step only through its coordinates. */
  lemma {:induction false} JoinedOnlyCoordinatesMatter<C>(a: seq<RouteStep<C>>, b: seq<RouteStep<C>>)
    requires |a| == |b|
    requires forall i :: 0 <= i < |a| ==> Coordinates(a[i]) == Coordinates(b[i])
    ensures Joined(a) == Joined(b)
    decreases |a|
  {
    if a != [] {
      JoinedOnlyCoordinatesMatter(a[1..], b[1..]);
    }
  }

  /**
   * Absent and present-but-empty geometries are interchangeable anywhere
   * in a leg: the geometry depends on each step only through
   * `shape?.coordinates ?? []`.
   */
  lemma {:induction false} OnlyCoordinatesMatter<C>(a: seq<RouteStep<C>>, b: seq<RouteStep<C>>)
    requires |a| == |b|
    requires forall i :: 0 <= i < |a| ==> Coordinates(a[i]) == Coordinates(b[i])
    ensures Stitched(a) == Stitched(b)
  {
    if a != [] {
      JoinedOnlyCoordinatesMatter(a[1..], b[1..]);
    }
  }

  /** A later step's contribution sits between those of the steps around it. */
  lemma StitchedAroundStep<C>(steps: seq<RouteStep<C>>, k: nat)
    requires 1 <= k < |steps|
    ensures Stitched(steps)
         == Stitched(steps[..k]) + DropFirst(Coordinates(steps[k])) + Joined(steps[k + 1..])
  {
    var upTo := steps[..k + 1];
    assert Stitched(steps) == Stitched(upTo) + Joined(steps[k + 1..]) by {
      assert steps == upTo + steps[k + 1..];
      StitchedAppendSteps(upTo, steps[k + 1..]);
    }
    assert Stitched(upTo) == Stitched(steps[..k]) + DropFirst(Coordinates(steps[k])) by {
      StitchedLastStep(upTo);
      assert upTo[..k] == steps[..k];
    }
  }

  /**
   * A later step whose geometry is absent, empty or a single point
   * contributes nothing: dropping it from the leg leaves the geometry
   * unchanged.
   */
  lemma {:induction false} ShortLaterStepContributesNothing<C>(steps: seq<RouteStep<C>>, k: nat)
    requires 1 <= k < |steps|
    requires |Coordinates(steps[k])| <= 1
    ensures Stitched(steps[..k] + steps[k + 1..]) == Stitched(steps)
  {
    var before, after := steps[..k], steps[k + 1..];
    calc {
      Stitched(steps);
      { StitchedAroundStep(steps, k); }
      Stitched(before) + DropFirst(Coordinates(steps[k])) + Joined(after);
      { assert DropFirst(Coordinates(steps[k])) == []; }
      Stitched(before) + Joined(after);
      { StitchedAppendSteps(before, after); }
      Stitched(before + after);
    }
  }

  // ---------------------------------------------------------------------
  // Length
  // ---------------------------------------------------------------------

  /** How many coordinates one later step contributes: max(|shape| - 1, 0). */
  function LaterStepLength<C>(step: RouteStep<C>): nat {
    if |Coordinates(step)| == 0 then 0 else |Coordinates(step)| - 1
  }

  /** Sum of the later steps' contributions, counted from the front. */
  function LaterLength<C>(later: seq<RouteStep<C>>): nat {
    if later == [] then 0 else LaterStepLength(later[0]) + LaterLength(later[1..])
  }

  /** |shape_1| + the sum over later steps of max(|shape_i| - 1, 0). */
  function LegLength<C>(steps: seq<RouteStep<C>>): nat {
    if steps == [] then 0 else |Coordinates(steps[0])| + LaterLength(steps[1..])
  }

  /** Total number of coordinates over all steps, absent ones counting 0. */
  function TotalCoordinates<C>(steps: seq<RouteStep<C>>): nat {
    if steps == [] then 0 else |Coordinates(steps[0])| + TotalCoordinates(steps[1..])
  }

  lemma {:induction false} JoinedLength<C>(later: seq<RouteStep<C>>)
    ensures |Joined(later)| == LaterLength(later)
    decreases |later|
  {
    if later != [] {
      JoinedLength(later[1..]);
    }
  }

  /** The leg's geometry has exactly LegLength(steps) coordinates. */
  lemma {:induction false} StitchedLength<C>(steps: seq<RouteStep<C>>)
    ensures |Stitched(steps)| == LegLength(steps)
  {
    JoinedLength(DropFirst(steps));
  }

  lemma {:induction false} LaterLengthOfNonEmpty<C>(later: seq<RouteStep<C>>)
    requires forall i :: 0 <= i < |later| ==> Coordinates(later[i]) != []
    ensures LaterLength(later) + |later| == TotalCoordinates(later)
    decreases |later|
  {
    if later != [] {
      LaterLengthOfNonEmpty(later[1..]);
    }
  }

  /**
   * When every step has a geometry with at least one coordinate, the leg
   * has L_1 + (L_2 - 1) + ... + (L_N - 1) coordinates: one per step
   * boundary fewer than all steps together.
   */
  lemma {:induction false} StitchedLengthOfNonEmptySteps<C>(steps: seq<RouteStep<C>>)
    requires steps != []
    requires forall i :: 0 <= i < |steps| ==> Coordinates(steps[i]) != []
    ensures |Stitched(steps)| + |steps| - 1 == TotalCoordinates(steps)
  {
    StitchedLength(steps);
    LaterLengthOfNonEmpty(steps[1..]);
  }

  // ---------------------------------------------------------------------
  // Coordinates are never inspected
  // ---------------------------------------------------------------------

  function MapCoordinates<C, D>(f: C -> D, s: seq<C>): (r: seq<D>)
    ensures |r| == |s|
    ensures forall i :: 0 <= i < |s| ==> r[i] == f(s[i])
  {
    seq(|s|, i requires 0 <= i < |s| => f(s[i]))
  }

  function MapStep<C, D>(f: C -> D, step: RouteStep<C>): (r: RouteStep<D>)
    ensures Coordinates(r) == MapCoordinates(f, Coordinates(step))
  {
    match step.shape
    case None => RouteStep(None)
    case Some(s) => RouteStep(Some(MapCoordinates(f, s)))
  }

  function MapSteps<C, D>(f: C -> D, steps: seq<RouteStep<C>>): (r: seq<RouteStep<D>>)
    ensures |r| == |steps|
    ensures forall i :: 0 <= i < |steps| ==> r[i] == MapStep(f, steps[i])
  {
    seq(|steps|, i requires 0 <= i < |steps| => MapStep(f, steps[i]))
  }

  lemma MapCoordinatesConcat<C, D>(f: C -> D, a: seq<C>, b: seq<C>)
    ensures MapCoordinates(f, a + b) == MapCoordinates(f, a) + MapCoordinates(f, b)
  {
    assert forall i :: 0 <= i < |a + b| ==>
      MapCoordinates(f, a + b)[i] == (MapCoordinates(f, a) + MapCoordinates(f, b))[i];
  }

  lemma MapCoordinatesDropFirst<C, D>(f: C -> D, s: seq<C>)
    ensures MapCoordinates(f, DropFirst(s)) == DropFirst(MapCoordinates(f, s))
  {
  }

  lemma {:induction false} JoinedCommutesWithMap<C, D>(f: C -> D, later: seq<RouteStep<C>>)
    ensures Joined(MapSteps(f, later)) == MapCoordinates(f, Joined(later))
    decreases |later|
  {
    if later != [] {
      var first := Coordinates(later[0]);
      calc {
        Joined(MapSteps(f, later));
        { assert MapSteps(f, later)[1..] == MapSteps(f, later[1..]); }
        DropFirst(MapCoordinates(f, first)) + Joined(MapSteps(f, later[1..]));
        { JoinedCommutesWithMap(f, later[1..]);
          MapCoordinatesDropFirst(f, first); }
        MapCoordinates(f, DropFirst(first)) + MapCoordinates(f, Joined(later[1..]));
        { MapCoordinatesConcat(f, DropFirst(first), Joined(later[1..])); }
        MapCoordinates(f, Joined(later));
      }
    }
  }

  /**
   * The stitching never looks at coordinate values: renaming every
   * coordinate by any function f before stitching gives the same result
   * as renaming after.  The output is therefore fixed by the lengths and
   * positions of the steps' coordinates alone.
   */
  lemma {:induction false} StitchedCommutesWithMap<C, D>(f: C -> D, steps: seq<RouteStep<C>>)
    ensures Stitched(MapSteps(f, steps)) == MapCoordinates(f, Stitched(steps))
  {
    if steps != [] {
      assert DropFirst(MapSteps(f, steps)) == MapSteps(f, DropFirst(steps));
      JoinedCommutesWithMap(f, DropFirst(steps));
      MapCoordinatesConcat(f, Seed(steps), Joined(DropFirst(steps)));
    }
  }

  // ---------------------------------------------------------------------
  // Continuity is assumed, never checked
  // ---------------------------------------------------------------------

  /** The next step starts exactly where the previous one ends. */
  ghost predicate Joins<C>(previous: RouteStep<C>, next: RouteStep<C>) {
    var p, n := Coordinates(previous), Coordinates(next);
    p != [] && n != [] && n[0] == p[|p| - 1]
  }

  /**
   * Every step has a geometry with at least one coordinate, and each
   * later step starts exactly where the step before it ends.
   */
  ghost predicate Continuous<C>(steps: seq<RouteStep<C>>)
    decreases |steps|
  {
    if |steps| <= 1 then steps == [] || Coordinates(steps[0]) != []
    else Continuous(steps[..|steps| - 1]) && Joins(steps[|steps| - 2], steps[|steps| - 1])
  }

  /** Every leading run of continuous steps is continuous. */
  lemma {:induction false} ContinuousPrefix<C>(steps: seq<RouteStep<C>>, k: nat)
    requires Continuous(steps) && k <= |steps|
    ensures Continuous(steps[..k])
    decreases |steps|
  {
    if k < |steps| {
      var init := steps[..|steps| - 1];
      if |steps| == 1 {
        assert steps[..k] == [];
      } else {
        ContinuousPrefix(init, k);
        assert init[..k] == steps[..k];
      }
    } else {
      assert steps[..k] == steps;
    }
  }

  /** t ends s. */
  ghost predicate IsSuffix<T>(t: seq<T>, s: seq<T>) {
    |t| <= |s| && s[|s| - |t|..] == t
  }

  /**
   * Appending a geometry without its first coordinate after a sequence
   * that ends with a geometry whose last point is that first coordinate
   * leaves the appended geometry, whole, at the end.
   */
  lemma AppendAfterBoundary<C>(s: seq<C>, previous: seq<C>, next: seq<C>)
    requires previous != [] && IsSuffix(previous, s)
    requires next != [] && next[0] == previous[|previous| - 1]
    ensures IsSuffix(next, s + DropFirst(next))
  {
    assert s[|s| - 1] == next[0];
    assert s + DropFirst(next) == s[..|s| - 1] + next;
  }

  /** On continuous steps the leg's geometry ends with the last step's coordinates, whole. */
  lemma {:induction false} LastStepEndsLeg<C>(steps: seq<RouteStep<C>>)
    requires steps != [] && Continuous(steps)
    ensures IsSuffix(Coordinates(steps[|steps| - 1]), Stitched(steps))
    decreases |steps|
  {
    var n := |steps|;
    if n == 1 {
      FirstStepIsPrefix(steps);
      assert steps == [steps[0]];
    } else {
      var init := steps[..n - 1];
      LastStepEndsLeg(init);
      assert init[|init| - 1] == steps[n - 2];
      AppendAfterBoundary(Stitched(init), Coordinates(steps[n - 2]), Coordinates(steps[n - 1]));
      StitchedLastStep(steps);
    }
  }

  /**
   * On continuous steps the leg's geometry holds every step's geometry
   * whole, in order, as a contiguous slice: only the duplicated boundary
   * points are removed.  The slice of step k ends where the geometry of
   * the first k + 1 steps ends.
   */
  lemma {:induction false} StepReappearsInLeg<C>(steps: seq<RouteStep<C>>, k: nat)
    requires Continuous(steps) && k < |steps|
    ensures |Coordinates(steps[k])| <= |Stitched(steps[..k + 1])| <= |Stitched(steps)|
    ensures Stitched(steps)[|Stitched(steps[..k + 1])| - |Coordinates(steps[k])| .. |Stitched(steps[..k + 1])|]
         == Coordinates(steps[k])
  {
    var prefix := steps[..k + 1];
    assert Stitched(prefix) <= Stitched(steps) by {
      StitchedPrefix(steps, k + 1, |steps|);
      assert steps[..|steps|] == steps;
    }
    assert IsSuffix(Coordinates(steps[k]), Stitched(prefix)) by {
      ContinuousPrefix(steps, k + 1);
      LastStepEndsLeg(prefix);
    }
    SuffixOfPrefix(Coordinates(steps[k]), Stitched(prefix), Stitched(steps));
  }

  /** What ends a prefix of s sits in s just before the prefix ends. */
  lemma SuffixOfPrefix<T>(t: seq<T>, p: seq<T>, s: seq<T>)
    requires IsSuffix(t, p) && p <= s
    ensures s[|p| - |t|..|p|] == t
  {
    assert s[|p| - |t|..|p|] == p[|p| - |t|..];
  }

  /**
   * Without continuity nothing is repaired: the second step's first
   * coordinate is dropped even when it differs from the first step's last.
   */
  lemma DiscontinuityIsKept<C>(a: C, b: C, c: C, d: C)
    ensures Stitched([RouteStep(Some([a, b])), RouteStep(Some([c, d]))]) == [a, b, d]
  {
    StitchedAppendStep([RouteStep(Some([a, b]))], RouteStep(Some([c, d])));
    assert [RouteStep(Some([a, b]))] + [RouteStep(Some([c, d]))]
        == [RouteStep(Some([a, b])), RouteStep(Some([c, d]))];
  }

  /** Two steps sharing their boundary point keep one copy of it. */
  lemma SharedBoundaryKeptOnce<C>(p0: C, p1: C, p2: C, p3: C)
    ensures Stitched([RouteStep(Some([p0, p1, p2])), RouteStep(Some([p2, p3]))]) == [p0, p1, p2, p3]
  {
    DiscontinuityIsKept(p1, p2, p2, p3);
    assert [RouteStep(Some([p0, p1, p2])), RouteStep(Some([p2, p3]))][1..] == [RouteStep(Some([p2, p3]))];
  }

  /**
   * An empty step between two steps changes nothing: the step after it
   * still drops its first coordinate, so the shared boundary point appears
   * once, exactly as if the empty step were not there.
   */
  lemma EmptyStepBetweenIsTransparent<C>(p0: C, p1: C, p2: C)
    ensures Stitched([RouteStep(Some([p0, p1])), RouteStep(Some([])), RouteStep(Some([p1, p2]))])
         == [p0, p1, p2]
  {
    var steps := [RouteStep(Some([p0, p1])), RouteStep(Some([])), RouteStep(Some([p1, p2]))];
    ShortLaterStepContributesNothing(steps, 1);
    assert steps[..1] + steps[2..] == [RouteStep(Some([p0, p1])), RouteStep(Some([p1, p2]))];
    DiscontinuityIsKept(p0, p1, p1, p2);
  }

  /** The steps of a leg in which every coordinate of s is a step of its own. */
  function PointSteps<C>(s: seq<C>): (r: seq<RouteStep<C>>)
    ensures |r| == |s|
    ensures forall i :: 0 <= i < |s| ==> Coordinates(r[i]) == [s[i]]
  {
    seq(|s|, i requires 0 <= i < |s| => RouteStep(Some([s[i]])))
  }

  lemma {:induction false} JoinedOfPoints<C>(later: seq<RouteStep<C>>)
    requires forall i :: 0 <= i < |later| ==> |Coordinates(later[i])| == 1
    ensures Joined(later) == []
    decreases |later|
  {
    if later != [] {
      JoinedOfPoints(later[1..]);
    }
  }

  /**
   * Re-stitching a geometry as one single-point step per coordinate does
   * not give it back: every later step drops its only coordinate, so only
   * the first coordinate survives.
   */
  lemma {:induction false} RestitchingPointsKeepsOnlyTheFirst<C>(s: seq<C>)
    requires s != []
    ensures Stitched(PointSteps(s)) == [s[0]]
  {
    JoinedOfPoints(DropFirst(PointSteps(s)));
  }
}

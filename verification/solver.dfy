/** The path solver (python/old.py, lines 400-460): pick a seed pixel with
    few neighbours, then repeatedly move to the nearest pixel not yet
    visited. */
module Solver {
  import opened Points
  import opened Results

  /** The only way the solver fails: the skeleton has no white pixel, so
      indexing the seed raises `IndexError`. */
  datatype SolveError = NoWhitePixels

  /** The neighbour count the seed loop starts from; only counts strictly
      below it can select a seed. */
  const InitialLeast: nat := 2

  // ---------------------------------------------------------------------
  // Neighbour counts

  /** The number of indices `j < hi`, other than `i` itself, whose pixel is
      adjacent to pixel `i`. */
  function CountNeighbours(pts: seq<Point>, i: nat, hi: nat): nat
    requires i < |pts| && hi <= |pts|
  {
    if hi == 0 then 0
    else CountNeighbours(pts, i, hi - 1) + (if hi - 1 != i && Adjacent(pts[i], pts[hi - 1]) then 1 else 0)
  }

  /** The neighbour count of pixel `i` over the whole list. */
  function Neighbours(pts: seq<Point>, i: nat): nat
    requires i < |pts|
  {
    CountNeighbours(pts, i, |pts|)
  }

  /** The indices that `CountNeighbours` counts. */
  ghost function NeighbourIndices(pts: seq<Point>, i: nat, hi: nat): set<nat>
    requires i < |pts| && hi <= |pts|
  {
    set j: nat | j < hi && j != i && Adjacent(pts[i], pts[j])
  }

  /** The running count is the size of the set of other list positions
      holding an adjacent pixel. */
  lemma {:induction false} CountIsCardinality(pts: seq<Point>, i: nat, hi: nat)
    requires i < |pts| && hi <= |pts|
    ensures CountNeighbours(pts, i, hi) == |NeighbourIndices(pts, i, hi)|
  {
    if hi > 0 {
      CountIsCardinality(pts, i, hi - 1);
      var prev := NeighbourIndices(pts, i, hi - 1);
      if hi - 1 != i && Adjacent(pts[i], pts[hi - 1]) {
        assert NeighbourIndices(pts, i, hi) == prev + {hi - 1};
        assert hi - 1 !in prev;
      } else {
        assert NeighbourIndices(pts, i, hi) == prev;
      }
    }
  }

  // ---------------------------------------------------------------------
  // Seed selection

  /** The seed loop after visiting indices `0 .. i-1`, holding the running
      minimum `least` and its index: the index it finally reports. */
  function SeedFrom(pts: seq<Point>, i: nat, least: nat, index: nat): nat
    requires i <= |pts|
    decreases |pts| - i
  {
    if i == |pts| then index
    else if Neighbours(pts, i) < least then SeedFrom(pts, i + 1, Neighbours(pts, i), i)
    else SeedFrom(pts, i + 1, least, index)
  }

  /** The seed index: the loop started with `least = 2` and index 0. */
  function SeedIndex(pts: seq<Point>): nat {
    SeedFrom(pts, 0, InitialLeast, 0)
  }

  /** The seed described without the loop. When some pixel has fewer than
      two neighbours, the seed is the first pixel of smallest neighbour
      count; otherwise it is index 0. */
  ghost predicate IsSeed(pts: seq<Point>, k: nat) {
    if exists j :: 0 <= j < |pts| && Neighbours(pts, j) < InitialLeast then
      && k < |pts|
      && Neighbours(pts, k) < InitialLeast
      && (forall j :: 0 <= j < |pts| ==> Neighbours(pts, k) <= Neighbours(pts, j))
      && (forall j :: 0 <= j < k ==> Neighbours(pts, k) < Neighbours(pts, j))
    else k == 0
  }

  /** What the seed loop knows after visiting indices `0 .. i-1`. */
  ghost predicate SeedLoopState(pts: seq<Point>, i: nat, least: nat, index: nat)
    requires i <= |pts|
  {
    && least <= InitialLeast
    && (least == InitialLeast ==> index == 0 && forall j :: 0 <= j < i ==> Neighbours(pts, j) >= InitialLeast)
    && (least < InitialLeast ==>
          && index < i
          && Neighbours(pts, index) == least
          && (forall j :: 0 <= j < i ==> least <= Neighbours(pts, j))
          && (forall j :: 0 <= j < index ==> least < Neighbours(pts, j)))
  }

  /** One iteration of the seed loop keeps `SeedLoopState`. */
  lemma SeedLoopStep(pts: seq<Point>, i: nat, least: nat, index: nat)
    requires i < |pts| && SeedLoopState(pts, i, least, index)
    ensures Neighbours(pts, i) < least ==> SeedLoopState(pts, i + 1, Neighbours(pts, i), i)
    ensures Neighbours(pts, i) >= least ==> SeedLoopState(pts, i + 1, least, index)
  {
  }

  /** When the seed loop ends, its index is the seed. */
  lemma SeedLoopEnd(pts: seq<Point>, least: nat, index: nat)
    requires SeedLoopState(pts, |pts|, least, index)
    ensures IsSeed(pts, index)
  {
    if least < InitialLeast {
      assert Neighbours(pts, index) < InitialLeast;
    }
  }

  /** Finishing the loop from any state it can be in yields the seed. */
  lemma {:induction false} SeedFromIsSeed(pts: seq<Point>, i: nat, least: nat, index: nat)
    requires i <= |pts| && SeedLoopState(pts, i, least, index)
    ensures IsSeed(pts, SeedFrom(pts, i, least, index))
    decreases |pts| - i
  {
    if i == |pts| {
      SeedLoopEnd(pts, least, index);
    } else {
      SeedLoopStep(pts, i, least, index);
      if Neighbours(pts, i) < least {
        SeedFromIsSeed(pts, i + 1, Neighbours(pts, i), i);
      } else {
        SeedFromIsSeed(pts, i + 1, least, index);
      }
    }
  }

  /** The source's seed loop selects the seed described by `IsSeed`. */
  lemma SeedIndexIsSeed(pts: seq<Point>)
    ensures IsSeed(pts, SeedIndex(pts))
  {
    SeedFromIsSeed(pts, 0, InitialLeast, 0);
  }

  /** `IsSeed` pins down a single index. */
  lemma SeedIsUnique(pts: seq<Point>, k1: nat, k2: nat)
    requires IsSeed(pts, k1) && IsSeed(pts, k2)
    ensures k1 == k2
  {
  }

  /** A non-empty list always yields a valid seed index. */
  lemma SeedIndexInRange(pts: seq<Point>)
    requires |pts| > 0
    ensures SeedIndex(pts) < |pts|
  {
    SeedIndexIsSeed(pts);
  }

  // ---------------------------------------------------------------------
  // Nearest remaining pixel

  /** The inner loop of an extension step after visiting `rest[0 .. j-1]`,
      holding the smallest squared distance `best` seen and its index. */
  function NearestFrom(rest: seq<Point>, current: Point, j: nat, best: nat, index: nat): (k: nat)
    requires j <= |rest|
    ensures index < |rest| ==> k < |rest|
    decreases |rest| - j
  {
    if j == |rest| then index
    else if SquaredDistance(rest[j], current) < best then
      NearestFrom(rest, current, j + 1, SquaredDistance(rest[j], current), j)
    else NearestFrom(rest, current, j + 1, best, index)
  }

  /** The index an extension step picks: the loop starts from the distance
      of `rest[0]` and index 0. */
  function Nearest(rest: seq<Point>, current: Point): (k: nat)
    requires |rest| > 0
    ensures k < |rest|
  {
    NearestFrom(rest, current, 0, SquaredDistance(rest[0], current), 0)
  }

  /** Index `k` holds a pixel at minimum distance from `current`, and no
      earlier index does. */
  ghost predicate IsNearest(rest: seq<Point>, current: Point, k: nat) {
    && k < |rest|
    && (forall j :: 0 <= j < |rest| ==> SquaredDistance(rest[k], current) <= SquaredDistance(rest[j], current))
    && (forall j :: 0 <= j < k ==> SquaredDistance(rest[k], current) < SquaredDistance(rest[j], current))
  }

  /** Finishing the inner loop from any state it can be in yields the first
      nearest pixel. */
  lemma {:induction false} NearestFromIsNearest(rest: seq<Point>, current: Point, j: nat, best: nat, index: nat)
    requires 0 < j <= |rest| && index < j
    requires best == SquaredDistance(rest[index], current)
    requires forall i :: 0 <= i < j ==> best <= SquaredDistance(rest[i], current)
    requires forall i :: 0 <= i < index ==> best < SquaredDistance(rest[i], current)
    ensures IsNearest(rest, current, NearestFrom(rest, current, j, best, index))
    decreases |rest| - j
  {
    if j < |rest| {
      if SquaredDistance(rest[j], current) < best {
        NearestFromIsNearest(rest, current, j + 1, SquaredDistance(rest[j], current), j);
      } else {
        NearestFromIsNearest(rest, current, j + 1, best, index);
      }
    }
  }

  /** The source's inner loop picks the first pixel at minimum distance. */
  lemma NearestIsNearest(rest: seq<Point>, current: Point)
    requires |rest| > 0
    ensures IsNearest(rest, current, Nearest(rest, current))
  {
    assert NearestFrom(rest, current, 0, SquaredDistance(rest[0], current), 0)
        == NearestFrom(rest, current, 1, SquaredDistance(rest[0], current), 0);
    NearestFromIsNearest(rest, current, 1, SquaredDistance(rest[0], current), 0);
  }

  /** `IsNearest` pins down a single index. */
  lemma NearestIsUnique(rest: seq<Point>, current: Point, k1: nat, k2: nat)
    requires IsNearest(rest, current, k1) && IsNearest(rest, current, k2)
    ensures k1 == k2
  {
    assert SquaredDistance(rest[k1], current) == SquaredDistance(rest[k2], current);
  }

  // ---------------------------------------------------------------------
  // Greedy extension

  /** Extend `path` until `rest` is used up, each step moving the first
      nearest remaining pixel from `rest` to the end of `path`. */
  function Extend(path: seq<Point>, rest: seq<Point>): seq<Point>
    requires |path| > 0
    decreases |rest|
  {
    if |rest| == 0 then path
    else
      var k := Nearest(rest, path[|path| - 1]);
      Extend(path + [rest[k]], Pop(rest, k))
  }

  /** Extension keeps the path it started from and appends a rearrangement
      of the remaining pixels. */
  lemma {:induction false} ExtendPermutes(path: seq<Point>, rest: seq<Point>)
    requires |path| > 0
    ensures |Extend(path, rest)| == |path| + |rest|
    ensures Extend(path, rest)[..|path|] == path
    ensures multiset(Extend(path, rest)[|path|..]) == multiset(rest)
    decreases |rest|
  {
    if |rest| > 0 {
      var k := Nearest(rest, path[|path| - 1]);
      NearestIsNearest(rest, path[|path| - 1]);
      var path', rest' := path + [rest[k]], Pop(rest, k);
      ExtendPermutes(path', rest');
      var r := Extend(path', rest');
      assert r[..|path'|][..|path|] == r[..|path|];
      assert r[|path|..] == [rest[k]] + r[|path'|..];
    }
  }

  /** The first pixel extension appends is at minimum squared distance
      from the end of `path` among all pixels it appends. */
  lemma ExtendHeadIsNearest(path: seq<Point>, rest: seq<Point>)
    requires |path| > 0 && |rest| > 0
    ensures var r := Extend(path, rest);
      forall u :: |path| <= u < |r| ==>
        SquaredDistance(r[|path|], path[|path| - 1]) <= SquaredDistance(r[u], path[|path| - 1])
  {
    var last := path[|path| - 1];
    var k := Nearest(rest, last);
    NearestIsNearest(rest, last);
    var path' := path + [rest[k]];
    var r := Extend(path, rest);
    assert r == Extend(path', Pop(rest, k));
    ExtendPermutes(path, rest);
    ExtendPermutes(path', Pop(rest, k));
    assert r[|path|] == rest[k] by {
      assert r[..|path'|] == path';
    }
    forall u | |path| <= u < |r|
      ensures SquaredDistance(r[|path|], last) <= SquaredDistance(r[u], last)
    {
      assert r[|path|..][u - |path|] == r[u];
      assert r[u] in multiset(rest);
    }
  }

  /** Every pixel extension appends is at minimum squared distance from the
      pixel placed before it, among all pixels not placed yet. */
  lemma {:induction false} ExtendIsGreedy(path: seq<Point>, rest: seq<Point>)
    requires |path| > 0
    ensures var r := Extend(path, rest);
      forall t, u :: |path| <= t <= u < |r| ==> SquaredDistance(r[t], r[t - 1]) <= SquaredDistance(r[u], r[t - 1])
    decreases |rest|
  {
    if |rest| > 0 {
      var k := Nearest(rest, path[|path| - 1]);
      var path' := path + [rest[k]];
      var r := Extend(path, rest);
      assert r == Extend(path', Pop(rest, k));
      ExtendIsGreedy(path', Pop(rest, k));
      ExtendHeadIsNearest(path, rest);
      ExtendPermutes(path, rest);
      assert r[|path| - 1] == path[|path| - 1] by {
        assert r[..|path|] == path;
      }
    }
  }

  /** One extension step: the first pixel of smallest squared distance
      from the end of the path moves to the path, and the other remaining
      pixels keep their relative order. */
  lemma ExtendStep(path: seq<Point>, rest: seq<Point>, k: nat)
    requires |path| > 0
    requires IsNearest(rest, path[|path| - 1], k)
    ensures Extend(path, rest) == Extend(path + [rest[k]], Pop(rest, k))
  {
    NearestIsNearest(rest, path[|path| - 1]);
    NearestIsUnique(rest, path[|path| - 1], k, Nearest(rest, path[|path| - 1]));
  }

  // ---------------------------------------------------------------------
  // The whole solver

  /** The solved path: the seed, then greedy extension over the list with
      the seed popped; no pixels is an error. */
  function Solve(pts: seq<Point>): (r: Result<seq<Point>, SolveError>)
    ensures r.Err? <==> |pts| == 0
  {
    if |pts| == 0 then Err(NoWhitePixels)
    else
      SeedIndexInRange(pts);
      var s := SeedIndex(pts);
      Ok(Extend([pts[s]], Pop(pts, s)))
  }

  /** The solved path is a rearrangement of the white pixels that starts
      at the seed. */
  lemma SolvePermutes(pts: seq<Point>)
    requires |pts| > 0
    ensures Solve(pts).Ok?
    ensures |Solve(pts).value| == |pts|
    ensures multiset(Solve(pts).value) == multiset(pts)
    ensures IsSeed(pts, SeedIndex(pts)) && Solve(pts).value[0] == pts[SeedIndex(pts)]
  {
    SeedIndexIsSeed(pts);
    var s := SeedIndex(pts);
    var rest := Pop(pts, s);
    ExtendPermutes([pts[s]], rest);
    var r := Solve(pts).value;
    assert r == r[..1] + r[1..];
    assert r[..1] == [pts[s]];
  }

  /** When the input has no duplicates, neither has the path: every pixel
      is visited exactly once. */
  lemma SolveVisitsEachOnce(pts: seq<Point>)
    requires |pts| > 0 && Distinct(pts)
    ensures Distinct(Solve(pts).value)
    ensures forall p :: p in Solve(pts).value <==> p in pts
  {
    SolvePermutes(pts);
    PermutationPreservesDistinct(pts, Solve(pts).value);
    var r := Solve(pts).value;
    forall p ensures p in r <==> p in pts {
      assert p in r <==> p in multiset(r);
      assert p in pts <==> p in multiset(pts);
    }
  }

  /** After the seed, every pixel of the path is a nearest one to its
      predecessor among the pixels not yet visited. */
  lemma SolveIsGreedy(pts: seq<Point>)
    requires |pts| > 0
    ensures var r := Solve(pts).value;
      forall t, u :: 1 <= t <= u < |r| ==> SquaredDistance(r[t], r[t - 1]) <= SquaredDistance(r[u], r[t - 1])
  {
    SeedIndexInRange(pts);
    var s := SeedIndex(pts);
    assert Solve(pts).value == Extend([pts[s]], Pop(pts, s));
    ExtendIsGreedy([pts[s]], Pop(pts, s));
  }
}

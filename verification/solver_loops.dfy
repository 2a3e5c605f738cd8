/** The solver as the source writes it: index loops over a list that
    shrinks by `pop`. Each method is proved to compute the functional
    definition in `Solver`. */
module SolverLoops {
  import opened Points
  import opened Results
  import opened Solver

  /** The seed loop (python/old.py, lines 405-422): count each pixel's
      neighbours with a nested loop and keep the first strictly smaller
      count, starting from 2 at index 0. */
  method SelectSeed(pts: seq<Point>) returns (index: nat)
    ensures index == SeedIndex(pts)
    ensures IsSeed(pts, index)
  {
    SeedIndexIsSeed(pts);
    var least: nat := InitialLeast;
    index := 0;
    var i := 0;
    while i < |pts|
      invariant i <= |pts|
      invariant SeedFrom(pts, i, least, index) == SeedIndex(pts)
    {
      var neighbours := 0;
      var j := 0;
      while j < |pts|
        invariant j <= |pts|
        invariant neighbours == CountNeighbours(pts, i, j)
      {
        if i != j {
          if Abs(pts[i].x - pts[j].x) <= 1 {
            if Abs(pts[i].y - pts[j].y) <= 1 {
              neighbours := neighbours + 1;
            }
          }
        }
        j := j + 1;
      }
      if neighbours < least {
        least := neighbours;
        index := i;
      }
      i := i + 1;
    }
  }

  /** One extension step's inner loop (python/old.py, lines 440-456):
      start from `rest[0]` and keep the first strictly closer pixel. */
  method ClosestIndex(rest: seq<Point>, current: Point) returns (closest: nat)
    requires |rest| > 0
    ensures closest == Nearest(rest, current)
    ensures IsNearest(rest, current, closest)
  {
    NearestIsNearest(rest, current);
    var distance := SquaredDistance(rest[0], current);
    closest := 0;
    var j := 0;
    while j < |rest|
      invariant j <= |rest|
      invariant NearestFrom(rest, current, j, distance, closest) == Nearest(rest, current)
    {
      var d := SquaredDistance(rest[j], current);
      if d < distance {
        distance := d;
        closest := j;
      }
      j := j + 1;
    }
  }

  /** The whole solver (python/old.py, lines 401-460): pick and pop the
      seed, failing when there is no pixel, then `len` times append and pop
      the closest remaining pixel. */
  method SolvePath(pts: seq<Point>) returns (r: Result<seq<Point>, SolveError>)
    ensures r == Solve(pts)
  {
    var white := pts;
    var seed := SelectSeed(white);
    if seed >= |white| {
      return Err(NoWhitePixels);
    }
    var solved := [white[seed]];
    white := Pop(white, seed);
    var n := |white|;
    var i := 0;
    while i < n
      invariant i <= n && |white| == n - i
      invariant |solved| > 0
      invariant Extend(solved, white) == Solve(pts).value
    {
      var current := solved[|solved| - 1];
      var closest := ClosestIndex(white, current);
      solved := solved + [white[closest]];
      white := Pop(white, closest);
      i := i + 1;
    }
    return Ok(solved);
  }
}

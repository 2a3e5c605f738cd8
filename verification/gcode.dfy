/** The G-code emitter (python/old.py, lines 465-510): optional speed and
    acceleration lines, one move per path pixel mapped onto the machine's
    bed, and a dwell inserted at list position 3. */
module Gcode {
  import opened Points

  /** The machine settings the emitter reads. */
  datatype Config = Config(
    maximumX: int,
    maximumY: int,
    borderX: int,
    borderY: int,
    initialSpeed: int,
    initialAcceleration: int,
    dwellTime: int,
    debug: bool)

  /** A number as the source holds it: a Python `int`, or a `float` rounded
      to three decimals, kept exactly as a whole number of thousandths. */
  datatype Num = Int(i: int) | Thousandths(milli: int)

  /** The value of a number, in thousandths. */
  function MilliOf(n: Num): int {
    match n
    case Int(i) => 1000 * i
    case Thousandths(m) => m
  }

  /** One line of the program. */
  datatype Command =
    | SetSpeed(feed: int)              // G0 F<speed>
    | SetAcceleration(accel: int)      // M204 X<a> Y<a> Z<a>
    | Dwell(time: int)                 // G04 P<time>
    | Move(x: Num, y: Num, z: Num)     // G0 X<x> Y<y> Z<z>

  /** Width and height of the pixel grid the path lives on. */
  const Resolution: int := 1000

  /** The dwell goes in at this list index. */
  const DwellSlot: int := 3

  // ---------------------------------------------------------------------
  // Coordinate mapping

  /** `(maximum - 2 border) / 1000 * p + border` in thousandths. In exact
      arithmetic this value has at most three decimals, so rounding it to
      three decimals leaves it unchanged. */
  function MapAxis(maximum: int, border: int, p: int): int {
    (maximum - 2 * border) * p + 1000 * border
  }

  /** Read as millimetres, the mapped value is the source's formula
      `(maximum - 2 border) / 1000 * p + border`, computed exactly. */
  lemma MapAxisFormula(maximum: int, border: int, p: int)
    ensures MapAxis(maximum, border, p) as real / 1000.0
         == ((maximum - 2 * border) as real / Resolution as real) * p as real + border as real
  {
  }

  /** Pixel 0 lands on the border. */
  lemma MapAxisOrigin(maximum: int, border: int)
    ensures MapAxis(maximum, border, 0) == 1000 * border
  {
  }

  /** When the two borders fit on the axis, every pixel column lands between
      them: pixel 0 on the near border and pixel 1000 (one past the last)
      on the far one. */
  lemma MapAxisBounds(maximum: int, border: int, p: int)
    requires 2 * border <= maximum
    requires 0 <= p < Resolution
    ensures 1000 * border <= MapAxis(maximum, border, p) <= 1000 * (maximum - border)
  {
    var s := maximum - 2 * border;
    assert 0 <= s * p <= s * Resolution by {
      MulMonotone(s, p, Resolution);
    }
  }

  lemma MulMonotone(s: int, a: int, b: int)
    requires 0 <= s && 0 <= a <= b
    ensures 0 <= s * a <= s * b
  {
  }

  /** With a positive scale the mapping keeps pixel order strictly. */
  lemma MapAxisMonotone(maximum: int, border: int, p: int, q: int)
    requires 2 * border < maximum
    requires p < q
    ensures MapAxis(maximum, border, p) < MapAxis(maximum, border, q)
  {
    var s := maximum - 2 * border;
    assert s * q - s * p == s * (q - p);
    assert s * (q - p) > 0;
  }

  /** With a nonzero scale the pixel can be read back from the mapped
      value: distinct pixels never share a machine coordinate. */
  lemma MapAxisInverse(maximum: int, border: int, p: int)
    requires maximum != 2 * border
    ensures (MapAxis(maximum, border, p) - 1000 * border) / (maximum - 2 * border) == p
  {
    var s := maximum - 2 * border;
    assert MapAxis(maximum, border, p) - 1000 * border == s * p;
    DivExact(s, p);
  }

  /** Dividing an exact multiple gives back the factor. */
  lemma DivExact(s: int, p: int)
    requires s != 0
    ensures (s * p) / s == p
  {
    var q, r := (s * p) / s, (s * p) % s;
    assert s * p == s * q + r && 0 <= r < Abs(s);
    assert s * (p - q) == s * p - s * q;
    MultipleBelowAbs(s, p - q);
  }

  /** The only multiple of `s` in `0 .. |s| - 1` is zero times `s`. */
  lemma MultipleBelowAbs(s: int, d: int)
    requires s != 0 && 0 <= s * d < Abs(s)
    ensures d == 0
  {
    if d > 0 {
      AbsProductAtLeast(s, d);
    } else if d < 0 {
      assert s * (-d) == -(s * d);
      AbsProductAtLeast(s, -d);
    }
  }

  lemma AbsProductAtLeast(s: int, d: int)
    requires s != 0 && d > 0
    ensures Abs(s * d) >= Abs(s)
  {
    if s > 0 {
      assert s * d == s + s * (d - 1);
      assert s * (d - 1) >= 0;
    } else {
      assert s * d == s + s * (d - 1);
      assert s * (d - 1) <= 0;
    }
  }

  // ---------------------------------------------------------------------
  // Lines

  /** The move for one path pixel: both axes mapped, and Z either the
      integer 0 (debug) or the same float as Y. */
  function Motion(p: Point, cfg: Config): Command {
    var x := Thousandths(MapAxis(cfg.maximumX, cfg.borderX, p.x));
    var y := Thousandths(MapAxis(cfg.maximumY, cfg.borderY, p.y));
    Move(x, y, if cfg.debug then Int(0) else y)
  }

  /** The optional set-up lines, speed first. */
  function Headers(cfg: Config): seq<Command> {
    (if cfg.initialSpeed != 0 then [SetSpeed(cfg.initialSpeed)] else [])
    + (if cfg.initialAcceleration != 0 then [SetAcceleration(cfg.initialAcceleration)] else [])
  }

  /** One move per path pixel, in path order. */
  function Motions(path: seq<Point>, cfg: Config): (ms: seq<Command>)
    ensures |ms| == |path|
    ensures forall i :: 0 <= i < |path| ==> ms[i] == Motion(path[i], cfg)
  {
    if |path| == 0 then [] else [Motion(path[0], cfg)] + Motions(path[1..], cfg)
  }

  /** The number of set-up lines. */
  function HeaderCount(cfg: Config): nat {
    (if cfg.initialSpeed != 0 then 1 else 0) + (if cfg.initialAcceleration != 0 then 1 else 0)
  }

  // ---------------------------------------------------------------------
  // Python's list.insert

  /** Where `list.insert(i, x)` puts `x` in a list of length `len`: a
      negative index counts from the end, and the result is clamped to
      `0 .. len`. */
  function InsertPosition(len: nat, i: int): (k: nat)
    ensures k <= len
    ensures 0 <= i <= len ==> k == i
    ensures i > len ==> k == len
    ensures i < 0 && 0 <= len + i ==> k == len + i
    ensures len + i < 0 ==> k == 0
  {
    if i < 0 then (if len + i < 0 then 0 else len + i)
    else if i > len then len
    else i
  }

  /** Python's `s.insert(i, x)`: `x` lands at the clamped position, the
      elements before it stay put and the ones after it move up by one. */
  function Insert<T>(s: seq<T>, i: int, x: T): (r: seq<T>)
    ensures |r| == |s| + 1
    ensures r[InsertPosition(|s|, i)] == x
    ensures forall j :: 0 <= j < InsertPosition(|s|, i) ==> r[j] == s[j]
    ensures forall j :: InsertPosition(|s|, i) < j < |r| ==> r[j] == s[j - 1]
  {
    var k := InsertPosition(|s|, i);
    s[..k] + [x] + s[k..]
  }

  /** Popping the inserted element restores the list. */
  lemma PopUndoesInsert<T>(s: seq<T>, i: int, x: T)
    ensures Pop(Insert(s, i, x), InsertPosition(|s|, i)) == s
  {
  }

  /** Inserting an element that is not a move leaves the move lines as
      they were. */
  lemma MovesOfInsert(s: seq<Command>, i: int, x: Command)
    requires !x.Move?
    ensures MovesOf(Insert(s, i, x)) == MovesOf(s)
  {
    var k := InsertPosition(|s|, i);
    assert Insert(s, i, x) == s[..k] + ([x] + s[k..]);
    MovesOfAppend(s[..k], [x] + s[k..]);
    MovesOfAppend([x], s[k..]);
    assert MovesOf([x]) == [];
    assert s == s[..k] + s[k..];
    MovesOfAppend(s[..k], s[k..]);
  }

  // ---------------------------------------------------------------------
  // The program

  /** The lines before the dwell is inserted. */
  function Lines(path: seq<Point>, cfg: Config): seq<Command> {
    Headers(cfg) + Motions(path, cfg)
  }

  /** The emitted program: the lines with the dwell inserted at index 3. */
  function Emit(path: seq<Point>, cfg: Config): seq<Command> {
    Insert(Lines(path, cfg), DwellSlot, Dwell(cfg.dwellTime))
  }

  /** Where the dwell ends up: index 3, or the end of a shorter list. */
  function DwellIndex(path: seq<Point>, cfg: Config): nat {
    if HeaderCount(cfg) + |path| >= DwellSlot then DwellSlot else HeaderCount(cfg) + |path|
  }

  /** Where the move for path pixel `i` ends up. */
  function MoveIndex(cfg: Config, i: nat): nat {
    var before := HeaderCount(cfg) + i;
    if before >= DwellSlot then before + 1 else before
  }

  /** The set-up lines: a speed line exactly when the speed is nonzero and an
      acceleration line exactly when the acceleration is nonzero, speed
      first. */
  lemma HeadersLayout(cfg: Config)
    ensures |Headers(cfg)| == HeaderCount(cfg)
    ensures forall c :: c in Headers(cfg) ==> !c.Move? && !c.Dwell?
    ensures (SetSpeed(cfg.initialSpeed) in Headers(cfg)) <==> cfg.initialSpeed != 0
    ensures (SetAcceleration(cfg.initialAcceleration) in Headers(cfg)) <==> cfg.initialAcceleration != 0
    ensures cfg.initialSpeed != 0 ==> Headers(cfg)[0] == SetSpeed(cfg.initialSpeed)
    ensures cfg.initialAcceleration != 0 ==>
      Headers(cfg)[HeaderCount(cfg) - 1] == SetAcceleration(cfg.initialAcceleration)
  {
  }

  /** The program's shape: headers, moves and one dwell, with the dwell at
      index 3 when at least three lines precede it and last otherwise. */
  lemma EmitLayout(path: seq<Point>, cfg: Config)
    ensures |Emit(path, cfg)| == HeaderCount(cfg) + |path| + 1
    ensures Emit(path, cfg)[DwellIndex(path, cfg)] == Dwell(cfg.dwellTime)
    ensures HeaderCount(cfg) + |path| >= 3 ==> DwellIndex(path, cfg) == 3
    ensures HeaderCount(cfg) + |path| < 3 ==> DwellIndex(path, cfg) == |Emit(path, cfg)| - 1
    ensures Pop(Emit(path, cfg), DwellIndex(path, cfg)) == Lines(path, cfg)
  {
    PopUndoesInsert(Lines(path, cfg), DwellSlot, Dwell(cfg.dwellTime));
  }

  /** The set-up lines open the program, in order. */
  lemma EmitHeaders(path: seq<Point>, cfg: Config)
    ensures forall i :: 0 <= i < HeaderCount(cfg) ==> Emit(path, cfg)[i] == Headers(cfg)[i]
  {
    HeadersLayout(cfg);
  }

  /** The move for path pixel `i` sits at `MoveIndex(cfg, i)`: after the
      headers, in path order, one further down once past the dwell. */
  lemma EmitMovePositions(path: seq<Point>, cfg: Config)
    ensures forall i :: 0 <= i < |path| ==> Emit(path, cfg)[MoveIndex(cfg, i)] == Motion(path[i], cfg)
  {
    HeadersLayout(cfg);
    var lines := Lines(path, cfg);
    var h := HeaderCount(cfg);
    forall i | 0 <= i < |path| ensures Emit(path, cfg)[MoveIndex(cfg, i)] == Motion(path[i], cfg) {
      assert lines[h + i] == Motion(path[i], cfg);
    }
  }

  /** The inserted dwell is the program's only dwell line. */
  lemma EmitSingleDwell(path: seq<Point>, cfg: Config)
    ensures forall i :: 0 <= i < |Emit(path, cfg)| ==> (Emit(path, cfg)[i].Dwell? <==> i == DwellIndex(path, cfg))
  {
    HeadersLayout(cfg);
    var lines := Lines(path, cfg);
    assert forall j :: 0 <= j < |lines| ==> !lines[j].Dwell? by {
      forall j | 0 <= j < |lines| ensures !lines[j].Dwell? {
        if j < HeaderCount(cfg) {
          assert lines[j] in Headers(cfg);
        }
      }
    }
  }

  /** The move lines of a program, in order. */
  function MovesOf(prog: seq<Command>): seq<Command> {
    if |prog| == 0 then []
    else (if prog[0].Move? then [prog[0]] else []) + MovesOf(prog[1..])
  }

  lemma {:induction false} MovesOfAppend(a: seq<Command>, b: seq<Command>)
    ensures MovesOf(a + b) == MovesOf(a) + MovesOf(b)
  {
    if |a| == 0 {
      assert a + b == b;
    } else {
      var head := if a[0].Move? then [a[0]] else [];
      assert (a + b)[0] == a[0];
      assert (a + b)[1..] == a[1..] + b;
      MovesOfAppend(a[1..], b);
      calc {
        MovesOf(a + b);
        head + MovesOf(a[1..] + b);
        head + (MovesOf(a[1..]) + MovesOf(b));
        (head + MovesOf(a[1..])) + MovesOf(b);
      }
    }
  }

  lemma {:induction false} MovesOfMotions(path: seq<Point>, cfg: Config)
    ensures MovesOf(Motions(path, cfg)) == Motions(path, cfg)
  {
    if |path| > 0 {
      MovesOfMotions(path[1..], cfg);
      assert Motions(path, cfg)[1..] == Motions(path[1..], cfg);
    }
  }

  /** Reading the move lines back out of the program gives one move per
      path pixel, in path order. */
  lemma EmitMoves(path: seq<Point>, cfg: Config)
    ensures MovesOf(Emit(path, cfg)) == Motions(path, cfg)
  {
    MovesOfInsert(Lines(path, cfg), DwellSlot, Dwell(cfg.dwellTime));
    MovesOfAppend(Headers(cfg), Motions(path, cfg));
    assert MovesOf(Headers(cfg)) == [] by {
      HeadersLayout(cfg);
      if cfg.initialSpeed != 0 && cfg.initialAcceleration != 0 {
        assert Headers(cfg)[1..] == [SetAcceleration(cfg.initialAcceleration)];
      }
    }
    MovesOfMotions(path, cfg);
  }

  /** For every pixel and every configuration, a move's Z is the integer 0
      in debug mode and repeats its Y otherwise. */
  lemma MotionZ(p: Point, cfg: Config)
    ensures var m := Motion(p, cfg);
      && m.Move?
      && (cfg.debug ==> m.z == Int(0))
      && (!cfg.debug ==> m.z == m.y)
  {
  }

  /** When the borders fit and the pixel is on the grid, X and Y lie
      between the borders; Z is as `MotionZ` states. */
  lemma MotionCoordinates(p: Point, cfg: Config)
    requires 0 <= p.x < Resolution && 0 <= p.y < Resolution
    requires 2 * cfg.borderX <= cfg.maximumX && 2 * cfg.borderY <= cfg.maximumY
    ensures var m := Motion(p, cfg);
      && m.Move?
      && 1000 * cfg.borderX <= MilliOf(m.x) <= 1000 * (cfg.maximumX - cfg.borderX)
      && 1000 * cfg.borderY <= MilliOf(m.y) <= 1000 * (cfg.maximumY - cfg.borderY)
      && (cfg.debug ==> m.z == Int(0))
      && (!cfg.debug ==> m.z == m.y)
  {
    MapAxisBounds(cfg.maximumX, cfg.borderX, p.x);
    MapAxisBounds(cfg.maximumY, cfg.borderY, p.y);
  }

  /** With nonzero scales, each move line determines the pixel it was made
      from. */
  lemma MotionDeterminesPixel(p: Point, q: Point, cfg: Config)
    requires cfg.maximumX != 2 * cfg.borderX && cfg.maximumY != 2 * cfg.borderY
    requires Motion(p, cfg) == Motion(q, cfg)
    ensures p == q
  {
    MapAxisInverse(cfg.maximumX, cfg.borderX, p.x);
    MapAxisInverse(cfg.maximumX, cfg.borderX, q.x);
    MapAxisInverse(cfg.maximumY, cfg.borderY, p.y);
    MapAxisInverse(cfg.maximumY, cfg.borderY, q.y);
  }
}

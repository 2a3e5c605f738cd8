/** Worked scenarios for the path solver and the emitter, each pinned to
    concrete values. */
module Scenarios {
  import opened Results
  import opened Points
  import opened Solver
  import opened Gcode
  import opened Render
  import opened Args
  import opened Text

  /** Three mutually distant pixels all have no neighbours; the first in
      scan order is the seed. */
  lemma SeedTieBreak()
    ensures SeedIndex([Point(0, 0), Point(5, 5), Point(10, 10)]) == 0
  {
  }

  /** From `(0,0)` the strictly closer `(1,1)` is taken before `(10,10)`. */
  lemma NearestExample()
    ensures Nearest([Point(10, 10), Point(1, 1)], Point(0, 0)) == 1
  {
  }

  /** On a 613 mm axis with 50 mm borders, pixel 0 lands on 50.000 and
      pixel 999 on 562.487. */
  lemma MappingExample()
    ensures MapAxis(613, 50, 0) == 50000
    ensures MapAxis(613, 50, 999) == 562487
  {
  }

  /** With both set-up lines and three moves the dwell is the fourth line,
      right after the first move. */
  lemma DwellAfterFirstMove(a: Point, b: Point, c: Point, cfg: Config)
    requires cfg.initialSpeed != 0 && cfg.initialAcceleration != 0
    ensures var prog := Emit([a, b, c], cfg);
      && |prog| == 6
      && prog[0].SetSpeed? && prog[1].SetAcceleration?
      && prog[2] == Motion(a, cfg)
      && prog[3] == Dwell(cfg.dwellTime)
      && prog[4] == Motion(b, cfg) && prog[5] == Motion(c, cfg)
  {
    EmitLayout([a, b, c], cfg);
    EmitMovePositions([a, b, c], cfg);
    EmitHeaders([a, b, c], cfg);
  }

  /** The settings of the three-pixel scenario: a 100 by 100 bed without
      borders, no set-up lines, a 500 ms dwell, debug mode on. */
  const LineConfig := Config(
    maximumX := 100, maximumY := 100, borderX := 0, borderY := 0,
    initialSpeed := 0, initialAcceleration := 0, dwellTime := 500, debug := true)

  /** The three pixels of a row, in scan order. */
  const Row := [Point(0, 0), Point(1, 0), Point(2, 0)]

  /** A row is solved end to end: the first pixel is the seed, and each
      step takes the next pixel along. */
  lemma ThreePixelPath()
    ensures Solve(Row) == Ok(Row)
  {
    calc {
      Solve(Row);
      { RowSeed(); }
      Ok(Extend([Point(0, 0)], Pop(Row, 0)));
      { assert Pop(Row, 0) == [Point(1, 0), Point(2, 0)]; }
      Ok(Extend([Point(0, 0)], [Point(1, 0), Point(2, 0)]));
      { RowExtend(); }
      Ok(Row);
    }
  }

  /** Every pixel of the row has a neighbour, the middle one two: the
      first one is the seed. */
  lemma RowSeed()
    ensures SeedIndex(Row) == 0
  {
  }

  /** From each pixel the next one along is strictly nearest. */
  lemma RowExtend()
    ensures Extend([Point(0, 0)], [Point(1, 0), Point(2, 0)]) == Row
  {
    RowFirstStep();
    RowSecondStep();
  }

  lemma RowFirstStep()
    ensures Extend([Point(0, 0)], [Point(1, 0), Point(2, 0)])
         == Extend([Point(0, 0), Point(1, 0)], [Point(2, 0)])
  {
    assert Nearest([Point(1, 0), Point(2, 0)], Point(0, 0)) == 0;
    ExtendFront([Point(0, 0)], [Point(1, 0), Point(2, 0)]);
  }

  lemma RowSecondStep()
    ensures Extend([Point(0, 0), Point(1, 0)], [Point(2, 0)]) == Row
  {
    ExtendFront([Point(0, 0), Point(1, 0)], [Point(2, 0)]);
  }

  /** When the first remaining pixel is the nearest, extension takes it. */
  lemma ExtendFront(path: seq<Point>, rest: seq<Point>)
    requires |path| > 0 && |rest| > 0
    requires Nearest(rest, path[|path| - 1]) == 0
    ensures Extend(path, rest) == Extend(path + [rest[0]], rest[1..])
  {
    assert Pop(rest, 0) == rest[1..];
  }

  /** The moves the row maps to: pixel `x` goes to `x` tenths of a
      millimetre, and Z is 0 in debug mode. */
  const RowMoves := [ Move(Thousandths(0), Thousandths(0), Int(0)),
                      Move(Thousandths(100), Thousandths(0), Int(0)),
                      Move(Thousandths(200), Thousandths(0), Int(0)) ]

  /** Without set-up lines the program is the three moves with the dwell
      appended, since only three lines precede it. */
  lemma ThreePixelProgram()
    ensures Emit(Row, LineConfig) == RowMoves + [Dwell(500)]
  {
    assert HeaderCount(LineConfig) == 0;
    calc {
      Emit(Row, LineConfig);
      { ShortProgram(Point(0, 0), Point(1, 0), Point(2, 0), LineConfig); }
      [ Motion(Point(0, 0), LineConfig), Motion(Point(1, 0), LineConfig),
        Motion(Point(2, 0), LineConfig), Dwell(500) ];
      { RowMotion(0); RowMotion(1); RowMotion(2); }
      [ Move(Thousandths(0), Thousandths(0), Int(0)), Move(Thousandths(100), Thousandths(0), Int(0)),
        Move(Thousandths(200), Thousandths(0), Int(0)), Dwell(500) ];
      RowMoves + [Dwell(500)];
    }
  }

  /** Three moves and no set-up lines: the dwell comes last. */
  lemma ShortProgram(a: Point, b: Point, c: Point, cfg: Config)
    requires HeaderCount(cfg) == 0
    ensures Emit([a, b, c], cfg) == [Motion(a, cfg), Motion(b, cfg), Motion(c, cfg), Dwell(cfg.dwellTime)]
  {
    EmitLayout([a, b, c], cfg);
    EmitMovePositions([a, b, c], cfg);
    assert MoveIndex(cfg, 0) == 0 && MoveIndex(cfg, 1) == 1 && MoveIndex(cfg, 2) == 2;
  }

  /** On the 100 mm bed without borders, pixel `x` of the top row moves to
      `x` tenths of a millimetre. */
  lemma RowMotion(x: int)
    ensures Motion(Point(x, 0), LineConfig) == Move(Thousandths(100 * x), Thousandths(0), Int(0))
  {
    assert LineConfig.maximumX == 100 && LineConfig.borderX == 0;
    assert LineConfig.maximumY == 100 && LineConfig.borderY == 0 && LineConfig.debug;
    assert MapAxis(100, 0, x) == 100 * x;
    assert MapAxis(100, 0, 0) == 0;
  }

  /** The printed form of the row's first move. */
  lemma ThreePixelFirstLine()
    ensures LineText(Move(Thousandths(100), Thousandths(0), Int(0))) == "G0 X0.1 Y0.0 Z0"
  {
    assert MilliToString(100) == "0.1";
    assert MilliToString(0) == "0.0";
  }

  /** Without the leading `--` an argument binds the same way:
      `input=a.png` sets `input`. */
  lemma UndashedKeyValue()
    ensures Binding("input=a.png") == ("input", Value("a.png"))
  {
    var arg := "input=a.png";
    assert arg[..2] != "--" by { assert arg[0] == 'i'; }
    assert arg == "input" + "=" + "a.png";
    assert '=' !in "input" && '=' !in "a.png";
    BindingOfKeyValue(arg, "input", "a.png");
  }

  /** `debug` alone, without `--`, is a flag. */
  lemma UndashedFlag()
    ensures Binding("debug") == ("debug", Flag)
  {
    assert "debug"[..2] != "--" by { assert "debug"[0] == 'd'; }
    assert '=' !in "debug";
    BindingOfFlag("debug", "debug");
  }

  /** The file separator 0x1c is not whitespace to `int()`: the text
      `"\x1c5"` is rejected. */
  lemma SeparatorIsNotSpace()
    ensures ParseInt([28 as char] + "5") == Err(InvalidLiteral)
  {
    var s := [28 as char] + "5";
    assert s[0] == 28 as char && s[|s| - 1] == '5';
    StripNoSpaceEnds(s);
    assert !DigitGroups(s);
  }

  /** Tab, line feed and space around a numeral are skipped:
      `int("\t 42\n")` is 42. */
  lemma WhitespaceAroundNumeral()
    ensures ParseInt("\t " + "42" + "\n") == Ok(42)
  {
    SpacesAround();
    ParseIntIgnoresSpaces("\t ", "42", "\n");
    FortyTwo();
  }

  lemma SpacesAround()
    ensures AllSpaces("\t ") && AllSpaces("\n")
  {
  }

  lemma FortyTwo()
    ensures ParseInt("42") == Ok(42)
  {
    assert "42" == [DigitChar(4), DigitChar(2)];
    TwoDigits(4, 2);
  }

  /** A two-digit numeral reads as its value. */
  lemma TwoDigits(a: nat, b: nat)
    requires a < 10 && b < 10
    ensures ParseInt([DigitChar(a), DigitChar(b)]) == Ok(10 * a + b)
  {
    var s := [DigitChar(a), DigitChar(b)];
    StripNoSpaceEnds(s);
    assert DigitGroups(s);
    assert s[..1] == [DigitChar(a)];
    assert DigitsValue(s) == 10 * DigitsValue([DigitChar(a)]) + b;
  }
}

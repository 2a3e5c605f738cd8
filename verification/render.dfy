/** The program's text (python/old.py, lines 466-510): each command rendered
    by an f-string ending in a newline, and the lines joined with `""`.
    Integers print as `str(int)`; a rounded float prints as Python's `repr`,
    which for a value with at most three decimals is the plain decimal with
    trailing zeros removed and at least one digit after the point. */
module Render {
  import opened Results
  import opened Text
  import opened Gcode
  import opened Points

  // ---------------------------------------------------------------------
  // Numbers

  /** The decimals of `f` thousandths, as `repr` writes them: three digits
      with trailing zeros dropped, but never fewer than one. */
  function FractionDigits(f: nat): string
    requires f < 1000
  {
    var d1, d2, d3 := f / 100, f / 10 % 10, f % 10;
    if d3 != 0 then [DigitChar(d1), DigitChar(d2), DigitChar(d3)]
    else if d2 != 0 then [DigitChar(d1), DigitChar(d2)]
    else [DigitChar(d1)]
  }

  /** `repr` of the float holding `m` thousandths. */
  function MilliToString(m: int): string {
    var a := if m < 0 then -m else m;
    (if m < 0 then "-" else "") + NatToString(a / 1000) + "." + FractionDigits(a % 1000)
  }

  /** How a number of the program prints. */
  function NumText(n: Num): string {
    match n
    case Int(i) => IntToString(i)
    case Thousandths(m) => MilliToString(m)
  }

  /** A non-empty run of decimal digits. */
  predicate AllDigits(s: string) {
    |s| > 0 && forall i :: 0 <= i < |s| ==> IsDigit(s[i])
  }

  /** The thousandths one to three decimals stand for. */
  function FractionValue(t: string): nat
    requires AllDigits(t) && |t| <= 3
  {
    DigitsValue(t) * (if |t| == 1 then 100 else if |t| == 2 then 10 else 1)
  }

  /** Reads `[-]<digits>.<one to three digits>` as thousandths: the inverse
      of `MilliToString`. */
  function ReadMilli(s: string): Result<int, ParseError> {
    var negative := |s| > 0 && s[0] == '-';
    var body := if negative then s[1..] else s;
    var parts := Split(body, '.');
    if |parts| != 2 || !AllDigits(parts[0]) || !AllDigits(parts[1]) || |parts[1]| > 3 then Err(InvalidLiteral)
    else
      var v := 1000 * DigitsValue(parts[0]) + FractionValue(parts[1]);
      Ok(if negative then -v else v)
  }

  lemma FractionDigitsRoundTrip(f: nat)
    requires f < 1000
    ensures AllDigits(FractionDigits(f)) && |FractionDigits(f)| <= 3
    ensures FractionValue(FractionDigits(f)) == f
  {
    var d1, d2, d3 := f / 100, f / 10 % 10, f % 10;
    assert f == 100 * d1 + 10 * d2 + d3;
    ShortDigitsValue(d1, d2, d3);
  }

  /** The values of one, two and three digits written out. */
  lemma ShortDigitsValue(d1: nat, d2: nat, d3: nat)
    requires d1 < 10 && d2 < 10 && d3 < 10
    ensures DigitsValue([DigitChar(d1)]) == d1
    ensures DigitsValue([DigitChar(d1), DigitChar(d2)]) == 10 * d1 + d2
    ensures DigitsValue([DigitChar(d1), DigitChar(d2), DigitChar(d3)]) == 100 * d1 + 10 * d2 + d3
  {
    var c1, c2, c3 := DigitChar(d1), DigitChar(d2), DigitChar(d3);
    assert [c1][..0] == [];
    assert [c1, c2][..1] == [c1];
    assert [c1, c2, c3][..2] == [c1, c2];
  }

  /** `repr` prints no trailing zero after the first decimal. */
  lemma FractionDigitsShortest(f: nat)
    requires f < 1000
    ensures |FractionDigits(f)| > 1 ==> FractionDigits(f)[|FractionDigits(f)| - 1] != '0'
  {
  }

  lemma NatToStringAllDigits(n: nat)
    ensures AllDigits(NatToString(n))
  {
  }

  /** The text of `m` thousandths splits at its point into the whole part
      and the decimals. */
  lemma MilliToStringShape(m: int)
    ensures var a := if m < 0 then -m else m;
      var s := MilliToString(m);
      && (|s| > 0 && s[0] == '-' <==> m < 0)
      && (if m < 0 then s[1..] else s) == NatToString(a / 1000) + "." + FractionDigits(a % 1000)
  {
    var a := if m < 0 then -m else m;
    var body := NatToString(a / 1000) + "." + FractionDigits(a % 1000);
    NatToStringAllDigits(a / 1000);
    assert body[0] == NatToString(a / 1000)[0];
    if m < 0 {
      assert MilliToString(m) == "-" + body;
      assert ("-" + body)[1..] == body;
    }
  }

  lemma SplitWholeAndFraction(w: string, t: string)
    requires AllDigits(w) && AllDigits(t)
    ensures Split(w + "." + t, '.') == [w, t]
  {
    assert '.' !in w && '.' !in t;
    assert Join([w, t], '.') == w + "." + t;
    SplitJoin([w, t], '.');
  }

  /** Reading the printed number gives back the number. */
  lemma ReadMilliOfMilliToString(m: int)
    ensures ReadMilli(MilliToString(m)) == Ok(m)
  {
    var a := if m < 0 then -m else m;
    var w, t := NatToString(a / 1000), FractionDigits(a % 1000);
    MilliToStringShape(m);
    NatToStringAllDigits(a / 1000);
    FractionDigitsRoundTrip(a % 1000);
    SplitWholeAndFraction(w, t);
    DigitsValueOfNatToString(a / 1000);
  }

  // ---------------------------------------------------------------------
  // Lines

  /** The text of one command, without its newline. */
  function LineText(c: Command): string {
    match c
    case SetSpeed(f) => "G0 F" + IntToString(f)
    case SetAcceleration(a) => "M204 X" + IntToString(a) + " Y" + IntToString(a) + " Z" + IntToString(a)
    case Dwell(t) => "G04 P" + IntToString(t)
    case Move(x, y, z) => "G0 X" + NumText(x) + " Y" + NumText(y) + " Z" + NumText(z)
  }

  /** `"".join(gcode)`: every line followed by its newline. */
  function Serialize(prog: seq<Command>): string {
    if |prog| == 0 then "" else LineText(prog[0]) + "\n" + Serialize(prog[1..])
  }

  /** The texts of the lines, in order. */
  function Texts(prog: seq<Command>): (ts: seq<string>)
    ensures |ts| == |prog|
    ensures forall i :: 0 <= i < |prog| ==> ts[i] == LineText(prog[i])
  {
    if |prog| == 0 then [] else [LineText(prog[0])] + Texts(prog[1..])
  }

  /** A printed number uses only digits, `-` and `.`. */
  lemma NumTextChars(n: Num)
    ensures forall c :: c in NumText(n) ==> IsDigit(c) || c == '-' || c == '.'
  {
    match n
    case Int(i) => IntToStringChars(i);
    case Thousandths(m) =>
      var a := if m < 0 then -m else m;
      NatToStringAllDigits(a / 1000);
      FractionDigitsRoundTrip(a % 1000);
  }

  /** No line text holds a newline, so each command is exactly one line. */
  lemma LineTextHasNoNewline(c: Command)
    ensures '\n' !in LineText(c)
  {
    match c
    case SetSpeed(f) =>
      IntToStringChars(f);
      NoNewlineJoined("G0 F", IntToString(f));
    case SetAcceleration(a) =>
      IntToStringChars(a);
      var t := IntToString(a);
      NoNewlineJoined("M204 X", t);
      NoNewlineJoined("M204 X" + t, " Y");
      NoNewlineJoined("M204 X" + t + " Y", t);
      NoNewlineJoined("M204 X" + t + " Y" + t, " Z");
      NoNewlineJoined("M204 X" + t + " Y" + t + " Z", t);
    case Dwell(t) =>
      IntToStringChars(t);
      NoNewlineJoined("G04 P", IntToString(t));
    case Move(x, y, z) =>
      NumTextChars(x);
      NumTextChars(y);
      NumTextChars(z);
      var tx, ty, tz := NumText(x), NumText(y), NumText(z);
      NoNewlineJoined("G0 X", tx);
      NoNewlineJoined("G0 X" + tx, " Y");
      NoNewlineJoined("G0 X" + tx + " Y", ty);
      NoNewlineJoined("G0 X" + tx + " Y" + ty, " Z");
      NoNewlineJoined("G0 X" + tx + " Y" + ty + " Z", tz);
  }

  lemma NoNewlineJoined(a: string, b: string)
    requires '\n' !in a && '\n' !in b
    ensures '\n' !in a + b
  {
  }

  lemma {:induction false} SerializeIsJoin(prog: seq<Command>)
    ensures Serialize(prog) == Join(Texts(prog) + [""], '\n')
  {
    if |prog| > 0 {
      SerializeIsJoin(prog[1..]);
      var rest := Texts(prog[1..]) + [""];
      assert Texts(prog) + [""] == [LineText(prog[0])] + rest;
      JoinCons(LineText(prog[0]), rest, '\n');
    }
  }

  /** Splitting the program text at newlines gives one line per command, in
      order, and the empty piece after the final newline. */
  lemma SerializeLines(prog: seq<Command>)
    ensures Split(Serialize(prog), '\n') == Texts(prog) + [""]
  {
    var pieces := Texts(prog) + [""];
    forall i | 0 <= i < |pieces|
      ensures '\n' !in pieces[i]
    {
      if i < |prog| {
        LineTextHasNoNewline(prog[i]);
      }
    }
    SerializeIsJoin(prog);
    SplitJoin(pieces, '\n');
  }

  /** Four pieces joined by a separator. */
  lemma JoinFour(a: string, b: string, c: string, d: string, sep: char)
    ensures Join([a, b, c, d], sep) == a + [sep] + (b + [sep] + (c + [sep] + d))
  {
    calc {
      Join([a, b, c, d], sep);
      { assert [a, b, c, d] == [a] + [b, c, d]; JoinCons(a, [b, c, d], sep); }
      a + [sep] + Join([b, c, d], sep);
      { assert [b, c, d] == [b] + [c, d]; JoinCons(b, [c, d], sep); }
      a + [sep] + (b + [sep] + Join([c, d], sep));
      { assert [c, d] == [c] + [d]; JoinCons(c, [d], sep); }
      a + [sep] + (b + [sep] + (c + [sep] + d));
    }
  }

  /** `G0 X<a> Y<b> Z<c>` splits at its spaces into its four fields. */
  lemma SplitMoveText(a: string, b: string, c: string)
    requires ' ' !in a && ' ' !in b && ' ' !in c
    ensures Split("G0 X" + a + " Y" + b + " Z" + c, ' ') == ["G0", "X" + a, "Y" + b, "Z" + c]
  {
    var fields := ["G0", "X" + a, "Y" + b, "Z" + c];
    MoveTextIsJoin(a, b, c);
    assert forall i :: 0 <= i < |fields| ==> ' ' !in fields[i];
    SplitJoin(fields, ' ');
  }

  /** A move line is its four fields joined by spaces. */
  lemma MoveTextIsJoin(a: string, b: string, c: string)
    ensures "G0 X" + a + " Y" + b + " Z" + c == Join(["G0", "X" + a, "Y" + b, "Z" + c], ' ')
  {
    JoinFour("G0", "X" + a, "Y" + b, "Z" + c, ' ');
    assert "G0 X" + a + " Y" + b + " Z" + c == "G0" + [' '] + (("X" + a) + [' '] + (("Y" + b) + [' '] + ("Z" + c)));
  }

  /** The fields of a move line, split at spaces. */
  lemma MoveFields(x: Num, y: Num, z: Num)
    ensures Split(LineText(Move(x, y, z)), ' ') == ["G0", "X" + NumText(x), "Y" + NumText(y), "Z" + NumText(z)]
  {
    NumTextChars(x);
    NumTextChars(y);
    NumTextChars(z);
    SplitMoveText(NumText(x), NumText(y), NumText(z));
  }

  /** The X field of the line printed for a path pixel reads back as the
      mapped coordinate, in thousandths. */
  lemma MotionTextX(p: Point, cfg: Config)
    ensures var f := Split(LineText(Motion(p, cfg)), ' ');
      |f| == 4 && |f[1]| > 0 && f[1][0] == 'X'
      && ReadMilli(f[1][1..]) == Ok(MapAxis(cfg.maximumX, cfg.borderX, p.x))
  {
    var m := Motion(p, cfg);
    MoveFields(m.x, m.y, m.z);
    var text := NumText(m.x);
    assert ("X" + text)[1..] == text;
    ReadMilliOfMilliToString(MapAxis(cfg.maximumX, cfg.borderX, p.x));
  }

  /** The program text has one line per command plus the empty tail, and
      line `DwellIndex` is the dwell. */
  lemma EmitText(path: seq<Point>, cfg: Config)
    ensures var lines := Split(Serialize(Emit(path, cfg)), '\n');
      && |lines| == HeaderCount(cfg) + |path| + 2
      && lines[DwellIndex(path, cfg)] == "G04 P" + IntToString(cfg.dwellTime)
      && lines[|lines| - 1] == ""
  {
    SerializeLines(Emit(path, cfg));
    EmitLayout(path, cfg);
  }
}

# gcodepainter path core in Dafny

This project models the algorithmic core of gcodepainter's `python/old.py`. That script turns a thinned
(skeletonised) line drawing into a G-code program for a marble-plotting machine. It does so in four steps:

1. **White-pixel scan.** The 1000 x 1000 skeleton is scanned row by row. Every white pixel is collected as
   `[x, y]` (module `Scan`).
2. **Seed selection.** Each pixel's 8-neighbours are counted. The minimum starts at 2 and the seed index at 0;
   a pixel whose count is strictly below the running minimum replaces the seed. So the seed is the first pixel
   of smallest count when that count is below 2, and index 0 otherwise. An empty list fails with `IndexError`
   (module `Solver`).
3. **Greedy extension.** The seed is popped onto the path. Then, once per remaining pixel, the first pixel
   at the smallest distance from the path's end (a later pixel replaces the candidate only when strictly
   closer) is appended and popped (module `Solver`). `SolverLoops` writes the same
   steps as the source's index loops. It proves they compute the functional definitions.
4. **G-code emission** (module `Gcode`):
   - an optional `G0 F<speed>` line;
   - an optional `M204` acceleration line;
   - one `G0 X Y Z` move per path pixel, mapped onto the bed through `(maximum - 2 border) / 1000 * p + border`;
   - a `G04 P<dwell>` line, placed with `list.insert(3, …)`.

   The lines are joined into one text (module `Render`).

The model also covers the command-line front end of the same script (module `Args`):

- the argv loop that builds the arguments dictionary;
- reading the machine settings with their defaults, including Python's `int()` and `bool()` conversions;
- the `camera_bounds` parser.

`Text` models the Python string operations these rely on: `str(int)`, `int(str)`, `str.split` and `str.replace`.
`Scenarios` pins worked examples to concrete values.

Conventions:

- **Numbers.** A number the source prints is either a Python `int` or a float rounded to three decimals. The
  model holds the float as an exact count of thousandths (`Gcode.Num`). In debug mode Z is the integer `0`,
  which prints as `Z0`; otherwise Z is a float equal to Y.
- **Distances.** The source compares `math.sqrt` of squared distances. The model compares the squared
  distances directly. `sqrt` is strictly increasing, so both choose the same pixel.

Two consequences of the code are worth stating:

- Pixel 999 on a 613 mm axis with 50 mm borders maps to 0.513 * 999 + 50 = 562.487 (`Scenarios.MappingExample`).
- `list.insert(3, …)` clamps the index, so when fewer than three lines precede the dwell it is appended last
  (`Gcode.EmitLayout`, `Scenarios.ThreePixelProgram`).

## Model

| member | source | states |
|---|---|---|
| Scan.ScanImage | python/old.py:393-397 | the two nested loops build exactly the list `WhitePixels` of the image |
| Scan.WhitePixelsContents | python/old.py:394-397 | a pixel is in the scanned list if and only if it lies on the 1000 x 1000 canvas and is white; the list is in row-major order (row first, then column) |
| Scan.WhitePixelsDistinctOnCanvas | python/old.py:394-397 | the scanned list holds no pixel twice and only canvas pixels |
| Points.Pop | python/old.py:429 | `list.pop(i)` removes exactly element `i`: earlier elements keep their place, later ones shift down by one, and the multiset loses that one element |
| Points.SquaredDistance | python/old.py:442 | the squared distance is zero exactly when the two pixels coincide |
| Solver.CountIsCardinality | python/old.py:409-419 | the inner loop's count is the number of other list positions that hold a pixel within Chebyshev distance 1 |
| Solver.SeedIndexIsSeed | python/old.py:405-422 | when some pixel has fewer than 2 neighbours, the seed has the smallest count and is the first pixel with it; otherwise the seed index stays 0 |
| Solver.SeedIsUnique | python/old.py:405-422 | the seed characterisation admits exactly one index |
| Solver.SeedIndexInRange | python/old.py:425-429 | on a non-empty list the seed index is a valid index, so the append and pop succeed |
| Solver.NearestIsNearest | python/old.py:440-456 | an extension step picks a pixel at minimum distance from the path's end, and no earlier index is at that distance (strict `<` keeps the first) |
| Solver.NearestIsUnique | python/old.py:440-456 | the nearest-pixel characterisation admits exactly one index |
| Solver.ExtendPermutes | python/old.py:438-460 | extension keeps the path so far and appends a rearrangement of all remaining pixels |
| Solver.ExtendIsGreedy | python/old.py:438-460 | every appended pixel is at minimum distance from its predecessor among all pixels not yet appended |
| Solver.ExtendStep | python/old.py:438-460 | one extension step moves the first nearest remaining pixel to the path and pops it from the rest |
| Solver.Solve | python/old.py:425-432 | solving fails if and only if there are no white pixels |
| Solver.SolvePermutes | python/old.py:401-460 | the solved path is a permutation of the white pixels and starts at the seed |
| Solver.SolveVisitsEachOnce | python/old.py:401-460 | for a list without duplicates, the path visits every white pixel exactly once and nothing else |
| Solver.SolveIsGreedy | python/old.py:436-460 | after the seed, each path pixel is a nearest one to its predecessor among the pixels still unvisited |
| SolverLoops.SelectSeed | python/old.py:405-422 | the nested seed loop returns the index `SeedIndex` describes, which satisfies `IsSeed` |
| SolverLoops.ClosestIndex | python/old.py:440-456 | the inner closest-pixel loop returns the first index at minimum distance |
| SolverLoops.SolvePath | python/old.py:401-460 | the source's seed-and-pop loop followed by its append-and-pop loop returns what `Solve` defines, including the error for no pixels |
| Gcode.MapAxisFormula | python/old.py:480-481 | the mapped value in thousandths, read in millimetres, equals `(maximum - 2 border) / 1000 * p + border` computed exactly |
| Gcode.MapAxisOrigin | python/old.py:480 | pixel 0 lands on the border |
| Gcode.MapAxisBounds | python/old.py:480-481 | when both borders fit on the axis, every pixel of the grid maps between the near and the far border |
| Gcode.MapAxisMonotone | python/old.py:480-481 | with a positive scale, a larger pixel coordinate maps strictly further along the axis |
| Gcode.MapAxisInverse | python/old.py:480-481 | with a nonzero scale, the pixel coordinate can be recovered from the mapped value |
| Gcode.Motions | python/old.py:478-494 | one move per path pixel, at the same position in the list as the pixel in the path |
| Gcode.MotionZ | python/old.py:483-491 | for every pixel and configuration, Z is the integer 0 in debug mode and equals Y otherwise |
| Gcode.MotionCoordinates | python/old.py:478-491 | X and Y lie between the borders; Z is the integer 0 in debug mode and equals Y otherwise |
| Gcode.MotionDeterminesPixel | python/old.py:480-481 | with nonzero scales, two pixels that give the same move line are the same pixel |
| Gcode.HeadersLayout | python/old.py:468-474 | a speed line is present if and only if the speed is nonzero, likewise an acceleration line for the acceleration; speed comes first; neither is a move or a dwell |
| Gcode.InsertPosition | python/old.py:507 | `list.insert` places the element at the given index when it is in range, clamps past the end to the end, counts negative indices from the end, and clamps below zero to the front |
| Gcode.Insert | python/old.py:507 | after `list.insert` the list is one longer, holds the new element at the clamped position, and keeps all other elements in order |
| Gcode.PopUndoesInsert | python/old.py:507 | popping the inserted position gives back the original list |
| Gcode.EmitLayout | python/old.py:466-507 | the program has headers + pixels + 1 lines; the dwell sits at index 3 when at least three lines precede it and is last otherwise; removing it leaves the header and move lines |
| Gcode.EmitHeaders | python/old.py:466-474 | the set-up lines open the program, in order |
| Gcode.EmitMovePositions | python/old.py:478-507 | the move for path pixel `i` is at index headers + `i`, shifted down by one once past the dwell |
| Gcode.EmitSingleDwell | python/old.py:507 | a line of the program is a dwell if and only if it is at the dwell's index |
| Gcode.EmitMoves | python/old.py:478-507 | the move lines of the program, in order, are one move per path pixel in path order |
| Render.FractionDigitsRoundTrip | python/old.py:489-494 | the printed decimals (trailing zeros dropped, at least one kept) read back as the same thousandths |
| Render.FractionDigitsShortest | python/old.py:489-494 | `repr` of a rounded float is the shortest form: beyond the first decimal, the last printed digit is never 0 |
| Render.MilliToStringShape | python/old.py:489-494 | a printed number starts with `-` exactly when it is negative; the rest is the whole part, a point and the decimals |
| Render.ReadMilliOfMilliToString | python/old.py:489-494 | parsing the printed form of a rounded coordinate gives back the coordinate |
| Render.LineTextHasNoNewline | python/old.py:469-507 | no command's text contains a newline, so each command is exactly one line of the output |
| Render.SerializeLines | python/old.py:510 | splitting the joined program at newlines gives the command texts in order, then an empty piece |
| Render.MoveFields | python/old.py:494 | a move line splits at spaces into `G0`, `X<x>`, `Y<y>` and `Z<z>` |
| Render.MotionTextX | python/old.py:480-494 | the X field of a pixel's move line parses back as that pixel's mapped X |
| Render.EmitText | python/old.py:466-510 | the program text has one line per command plus an empty tail, and the dwell's line reads `G04 P<dwell>` |
| Text.ParseIntOfIntToString | python/old.py:96 | `int(str(n)) == n` for every integer |
| Text.ParseIntIgnoresSpaces | python/old.py:96 | `int()` ignores any runs of tab, line feed, vertical tab, form feed, carriage return and space before and after the numeral |
| Text.SplitJoin | python/old.py:61 | splitting pieces that were joined with a separator they do not contain gives back the pieces |
| Text.JoinSplit | python/old.py:61 | joining the pieces of a split with the same separator gives back the text |
| Text.SplitPiecesHaveNoSeparator | python/old.py:61 | no piece of a split contains the separator |
| Args.Bindings | python/old.py:55-62 | the argv loop handles every argument the same way, in order |
| Args.StripDashesOfDashed | python/old.py:56-57 | a leading `--` is removed and the rest kept unchanged |
| Args.BindingOfKeyValue | python/old.py:56-62 | any argument that reads `key=value` once a leading `--` is removed, with or without that `--`, binds `key` to the text `value` |
| Args.BindingDropsAfterSecondEquals | python/old.py:56-62 | for any argument reading `key=a=b` once a leading `--` is removed, only the text between the first and second `=` is kept |
| Args.BindingOfFlag | python/old.py:56-59 | any argument without `=`, with or without a leading `--`, binds its name to `True` |
| Args.ParseArgsHasKey | python/old.py:53-62 | a key is in the dictionary if and only if some argument sets it |
| Args.ParseArgsLastSetter | python/old.py:53-62 | a key's value comes from the last argument that sets it |
| Args.IntArgFailsIff | python/old.py:95-99 | reading one integer setting fails if and only if its value is text `int()` rejects, and the error names that key |
| Args.BareIntegerKeyReadsAsOne | python/old.py:95-99 | a bare integer key reads as 1, since `int(True)` is 1 |
| Args.ReadIntsFailsIff | python/old.py:94-155 | reading the integer settings fails if and only if one of them holds text `int()` rejects |
| Args.ReadIntsFirstBad | python/old.py:94-155 | the reading error names the first rejected key in reading order |
| Args.LoadConfigFailsIff | python/old.py:94-155 | loading the settings fails exactly when an integer setting is malformed, and it reports the first malformed key in the source's order |
| Args.LoadConfigDefaults | python/old.py:94-155 | with no arguments, the settings are 613, 548, 50, 50, 50000, 1000, 10000 and production mode |
| Args.DebugTextFalseEnablesDebug | python/old.py:130-134 | `debug=False` turns debug mode on, because `bool()` of any non-empty text is `True` |
| Args.LoadConfigRoundTrip | python/old.py:51-155 | writing any settings as `--key=value` arguments, plus `--debug` when it is on, and loading them back gives the same settings |
| Args.BoundsPartsOfFormat | python/old.py:203-205 | rewriting `(a,b)(c,d)` and splitting it at commas gives the four numerals and an empty tail |
| Args.CameraBoundsRoundTrip | python/old.py:198-206 | parsing formatted bounds gives back the bounds |
| Args.CameraBoundsAbsent | python/old.py:199-209 | when no argument sets `camera_bounds`, the `KeyError` default `[[0, 0], [0, 0]]` is used |
| Args.CameraBoundsGiven | python/old.py:199-209 | otherwise the last setter's value is parsed, and a bare `camera_bounds` flag (`True`, which has no `replace`) fails |
| Args.CameraBoundsFromArgv | python/old.py:199-206 | `--camera_bounds=(l,t)(r,b)`, read through the argv loop, yields exactly those bounds |
| Args.CameraBoundsNoArgv | python/old.py:199-209 | with no arguments at all the bounds are the default |
| Args.CameraBoundsBareFlag | python/old.py:199-203 | `--camera_bounds` without a value, read through the argv loop as `True`, fails with `AttributeError` |
| Args.BoundsTooFewParts | python/old.py:203-206 | with fewer than four pieces that all parse, the missing piece's index is reported (`IndexError`) |
| Args.BoundsBadPart | python/old.py:203-206 | among the first four pieces, the first that `int()` rejects is reported (`ValueError`) |
| Scenarios.SeedTieBreak | python/old.py:405-422 | among pixels with equal smallest counts, the first in scan order is the seed |
| Scenarios.NearestExample | python/old.py:440-456 | a strictly closer later pixel replaces the first candidate |
| Scenarios.MappingExample | python/old.py:480 | on a 613 mm axis with 50 mm borders, pixel 0 maps to 50.000 and pixel 999 to 562.487 |
| Scenarios.DwellAfterFirstMove | python/old.py:466-507 | with both set-up lines and three pixels, the dwell is the fourth line, right after the first move |
| Scenarios.ThreePixelPath | python/old.py:401-460 | the row (0,0), (1,0), (2,0) is solved in that order |
| Scenarios.ThreePixelProgram | python/old.py:466-507 | with no set-up lines and debug mode, that row gives three moves with Z 0 and the dwell appended last |
| Scenarios.ThreePixelFirstLine | python/old.py:494 | the move to (0.1, 0.0) in debug mode prints as `G0 X0.1 Y0.0 Z0` |
| Scenarios.UndashedKeyValue | python/old.py:56-62 | `input=a.png`, written without `--`, binds `input` to `a.png` |
| Scenarios.UndashedFlag | python/old.py:56-59 | `debug`, written without `--`, binds `debug` to `True` |
| Scenarios.SeparatorIsNotSpace | python/old.py:96 | a file separator (0x1c) before a numeral is not skipped, so `int()` rejects the text |
| Scenarios.WhitespaceAroundNumeral | python/old.py:96 | tab, space and line feed around `42` are skipped and the text reads as 42 |

## Left out

- Image acquisition and processing are not modelled: camera or file input, resizing, thresholding, the distance transform, skeletonisation and display. The scan takes the skeleton's first channel as a parameter.
- The script's I/O is not modelled: progress bars and messages, writing the G-code file, launching the printer, GPIO button polling and `quit()`. A failure is modelled as an error result instead of a printed message and exit.
- main.py, python/webui.py and python/autoclass.py are not part of this model.
- Several arguments are not modelled:
  - `help`, `input`, `output` and `display` only drive I/O;
  - `camera_number`, `pi_mode`, `input_pin` and `execute` select hardware;
  - the `ValueError` that `int()` raises for a malformed `camera_number` or `input_pin` is therefore not modelled either.
- Args.ParseArgs: the `except IndexError` branch around the argv loop is not modelled. No argument list can reach it, because a value containing `=` always splits into at least two pieces (`Args.SplitAtSeparator`).
- Gcode.MapAxisFormula: the mapping is computed in exact arithmetic, not in binary floating point, so any last-digit float error before `round(…, 3)` is not modelled.
- Render.MilliToString: `repr` of a rounded float is an abstraction here. The model prints the exact decimal of a whole number of thousandths, and that number is computed exactly. Python's float is a double, which can only hold every thousandth below 2^43 (about 8.8 * 10^12 mm). The source's own division, multiplication and addition add further rounding, so the real bound is lower. Above it, the printed digits can differ from the model's. Exponent notation for very large values is not modelled either.
- Text.ParseInt: `int()` is modelled for ASCII text only. On such text it skips only tab, line feed, vertical tab, form feed, carriage return and space, which is what `Text.IsSpace` admits; the separators 0x1c-0x1f are not skipped. Text holding any non-ASCII character is first rewritten by CPython (characters from U+0080 up that are Unicode whitespace become a space and Unicode decimal digits become ASCII digits; ASCII characters, the separators 0x1c-0x1f among them, are kept as they are and still rejected); that rewriting is not modelled.
- Text.ParseInt: CPython's limit on the length of integer strings is not modelled. Since the fix for CVE-2020-10735, `int()` raises `ValueError` on a decimal numeral longer than 4300 digits, and `ParseInt` accepts it. So `Args.LoadConfigFailsIff` and `Text.ParseIntOfIntToString` hold for Python only for numerals of at most 4300 digits.
- Points.SquaredDistance: the source's `math.sqrt` float comparison is replaced by an exact integer comparison of squared distances. On the 1000 x 1000 grid the squares stay below 2 * 10^6. There, distinct squares have distinct, correctly ordered double-precision roots, so both comparisons agree.

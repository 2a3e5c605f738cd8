/** Command-line handling (python/old.py, lines 51-209): the argv loop
    that builds the arguments dictionary, the reading of the machine
    settings from it, and the `camera_bounds` parser. */
module Args {
  import opened Results
  import opened Text
  import opened Gcode

  /** A value of the arguments dictionary: `True` for a bare key, otherwise
      the text after the first `=`. */
  datatype ArgValue = Flag | Value(text: string)

  type Arguments = map<string, ArgValue>

  // ---------------------------------------------------------------------
  // The argv loop

  /** A leading `--` is dropped. */
  function StripDashes(arg: string): string {
    if |arg| >= 2 && arg[..2] == "--" then arg[2..] else arg
  }

  /** Splitting text that contains the separator gives at least two pieces. */
  lemma {:induction false} SplitAtSeparator(s: string, sep: char)
    requires sep in s
    ensures |Split(s, sep)| >= 2
  {
    if s[0] != sep {
      SplitAtSeparator(s[1..], sep);
    }
  }

  /** The dictionary entry one argument makes: a bare key maps to `True`;
      otherwise the text is split at every `=` and the first piece maps to
      the second. */
  function Binding(arg: string): (string, ArgValue) {
    var v := StripDashes(arg);
    if '=' !in v then (v, Flag)
    else
      SplitAtSeparator(v, '=');
      var parts := Split(v, '=');
      (parts[0], Value(parts[1]))
  }

  /** The entry each argument makes, in order. */
  function Bindings(argv: seq<string>): (bs: seq<(string, ArgValue)>)
    ensures |bs| == |argv|
    ensures forall i :: 0 <= i < |argv| ==> bs[i] == Binding(argv[i])
  {
    if |argv| == 0 then []
    else Bindings(argv[..|argv| - 1]) + [Binding(argv[|argv| - 1])]
  }

  /** A dictionary filled from entries in turn, later entries overwriting
      earlier ones with the same key. */
  function Collect(bs: seq<(string, ArgValue)>): map<string, ArgValue> {
    if |bs| == 0 then map[]
    else Collect(bs[..|bs| - 1])[bs[|bs| - 1].0 := bs[|bs| - 1].1]
  }

  /** The arguments dictionary built by the argv loop. */
  function ParseArgs(argv: seq<string>): Arguments {
    Collect(Bindings(argv))
  }

  /** A key is in a collected dictionary exactly when some entry has it. */
  lemma {:induction false} CollectHasKey(bs: seq<(string, ArgValue)>, key: string)
    ensures key in Collect(bs) <==> exists i :: 0 <= i < |bs| && bs[i].0 == key
  {
    if |bs| > 0 {
      var n := |bs| - 1;
      var init := bs[..n];
      CollectHasKey(init, key);
      if key in Collect(bs) && bs[n].0 != key {
        var i :| 0 <= i < n && init[i].0 == key;
        assert bs[i].0 == key;
      }
      if exists i :: 0 <= i < |bs| && bs[i].0 == key {
        var i :| 0 <= i < |bs| && bs[i].0 == key;
        if i < n {
          assert init[i].0 == key;
        }
      }
    }
  }

  /** The value of a key is the one of the last entry that has it. */
  lemma {:induction false} CollectLast(bs: seq<(string, ArgValue)>, key: string, i: nat)
    requires i < |bs| && bs[i].0 == key
    requires forall j :: i < j < |bs| ==> bs[j].0 != key
    ensures key in Collect(bs) && Collect(bs)[key] == bs[i].1
  {
    var n := |bs| - 1;
    if i < n {
      var init := bs[..n];
      assert init[i] == bs[i];
      assert bs[n].0 != key;
      CollectLast(init, key, i);
    }
  }

  /** Argument `i` is the last one that sets `key`. */
  ghost predicate LastSetter(argv: seq<string>, key: string, i: nat) {
    && i < |argv|
    && Binding(argv[i]).0 == key
    && forall j :: i < j < |argv| ==> Binding(argv[j]).0 != key
  }

  /** A key is in the dictionary exactly when some argument sets it. */
  lemma ParseArgsHasKey(argv: seq<string>, key: string)
    ensures key in ParseArgs(argv) <==> exists i :: 0 <= i < |argv| && Binding(argv[i]).0 == key
  {
    var bs := Bindings(argv);
    CollectHasKey(bs, key);
    if exists i :: 0 <= i < |argv| && Binding(argv[i]).0 == key {
      var i :| 0 <= i < |argv| && Binding(argv[i]).0 == key;
      assert bs[i].0 == key;
    }
  }

  /** The value of a key is the one its last setter gives. */
  lemma ParseArgsLastSetter(argv: seq<string>, key: string, i: nat)
    requires LastSetter(argv, key, i)
    ensures key in ParseArgs(argv) && ParseArgs(argv)[key] == Binding(argv[i]).1
  {
    CollectLast(Bindings(argv), key, i);
  }

  lemma SplitKeyValue(key: string, value: string)
    requires '=' !in key && '=' !in value
    ensures Split(key + "=" + value, '=') == [key, value]
  {
    assert Join([key, value], '=') == key + "=" + value;
    SplitJoin([key, value], '=');
  }

  /** A leading `--` is removed and nothing else. */
  lemma StripDashesOfDashed(t: string)
    ensures StripDashes("--" + t) == t
  {
    assert ("--" + t)[..2] == "--";
    assert ("--" + t)[2..] == t;
  }

  /** `key=value` with no further `=`, with or without a leading `--`,
      binds `key` to `value`. */
  lemma BindingOfKeyValue(arg: string, key: string, value: string)
    requires StripDashes(arg) == key + "=" + value
    requires '=' !in key && '=' !in value
    ensures Binding(arg) == (key, Value(value))
  {
    assert '=' in key + "=" + value by {
      assert (key + "=" + value)[|key|] == '=';
    }
    SplitKeyValue(key, value);
  }

  /** Only the text between the first and second `=` is kept:
      `key=a=b`, with or without a leading `--`, binds `key` to `a`. */
  lemma BindingDropsAfterSecondEquals(arg: string, key: string, a: string, b: string)
    requires StripDashes(arg) == key + "=" + a + "=" + b
    requires '=' !in key && '=' !in a && '=' !in b
    ensures Binding(arg) == (key, Value(a))
  {
    var v := key + "=" + a + "=" + b;
    assert v[|key|] == '=';
    JoinCons(key, [a, b], '=');
    JoinCons(a, [b], '=');
    assert [key] + [a, b] == [key, a, b];
    assert [a] + [b] == [a, b];
    assert Join([key, a, b], '=') == v;
    SplitJoin([key, a, b], '=');
  }

  /** An argument with no `=`, with or without a leading `--`, binds its
      name to `True`. */
  lemma BindingOfFlag(arg: string, key: string)
    requires StripDashes(arg) == key && '=' !in key
    ensures Binding(arg) == (key, Flag)
  {
  }

  // ---------------------------------------------------------------------
  // Machine settings (python/old.py, lines 94-155)

  /** Why reading the settings fails: `int()` raised `ValueError` on the
      value of this key. */
  datatype ConfigError = NotAnInteger(key: string)

  /** The settings used for every key that is absent. */
  const DefaultConfig := Config(
    maximumX := 613, maximumY := 548, borderX := 50, borderY := 50,
    initialSpeed := 50000, initialAcceleration := 1000, dwellTime := 10000, debug := false)

  /** `int(arguments[key])`, or the default when the key is absent; a bare
      key holds `True`, and `int(True)` is 1. */
  function IntArg(args: Arguments, key: string, default: int): Result<int, ConfigError> {
    if key !in args then Ok(default)
    else match args[key]
      case Flag => Ok(1)
      case Value(s) =>
        match ParseInt(s)
        case Ok(n) => Ok(n)
        case Err(_) => Err(NotAnInteger(key))
  }

  /** `bool(arguments[key])`, or `False` when the key is absent: `True` for
      a bare key, and for text, whether it is non-empty. */
  function BoolArg(args: Arguments, key: string): bool {
    key in args && (args[key].Flag? || |args[key].text| > 0)
  }

  /** The integer settings, in the order the source reads them. */
  const IntKeys: seq<string> :=
    ["maximum_x", "maximum_y", "initial_speed", "border_x", "border_y", "dwell_time", "acceleration"]

  /** The default of each integer setting, in the order of `IntKeys`. */
  const IntDefaults: seq<int> := [
    DefaultConfig.maximumX, DefaultConfig.maximumY, DefaultConfig.initialSpeed,
    DefaultConfig.borderX, DefaultConfig.borderY, DefaultConfig.dwellTime,
    DefaultConfig.initialAcceleration]

  /** The value of `key` is text that `int()` rejects. */
  predicate BadInt(args: Arguments, key: string) {
    key in args && args[key].Value? && ParseInt(args[key].text).Err?
  }

  /** `keys[i]` is the first key, in order, whose text `int()` rejects. */
  predicate FirstBad(args: Arguments, keys: seq<string>, i: nat) {
    && i < |keys|
    && BadInt(args, keys[i])
    && forall j :: 0 <= j < i ==> !BadInt(args, keys[j])
  }

  /** The integer settings read one after another; the first value `int()`
      rejects stops the reading. */
  function ReadInts(args: Arguments, keys: seq<string>, defaults: seq<int>): (r: Result<seq<int>, ConfigError>)
    requires |keys| == |defaults|
    ensures r.Ok? ==> |r.value| == |keys|
  {
    if |keys| == 0 then Ok([])
    else
      var n :- IntArg(args, keys[0], defaults[0]);
      var rest :- ReadInts(args, keys[1..], defaults[1..]);
      Ok([n] + rest)
  }

  /** The machine settings, read in the source's order. The source reads
      `debug` between `border_y` and `dwell_time`; reading it cannot fail, so
      reading it after the integers gives the same outcome. */
  function LoadConfig(args: Arguments): Result<Config, ConfigError> {
    var v :- ReadInts(args, IntKeys, IntDefaults);
    Ok(Config(v[0], v[1], v[3], v[4], v[2], v[6], v[5], BoolArg(args, "debug")))
  }

  /** With no arguments the documented defaults apply. */
  lemma LoadConfigDefaults()
    ensures LoadConfig(map[]) == Ok(DefaultConfig)
  {
    ReadIntsAllSet(map[], IntKeys, IntDefaults, IntDefaults);
    assert ReadInts(map[], IntKeys, IntDefaults) == Ok(IntDefaults);
  }

  lemma IntArgFailsIff(args: Arguments, key: string, default: int)
    ensures IntArg(args, key, default).Err? <==> BadInt(args, key)
    ensures IntArg(args, key, default).Err? ==> IntArg(args, key, default).error == NotAnInteger(key)
  {
  }

  /** Reading fails exactly when some key holds text `int()` rejects. */
  lemma {:induction false} ReadIntsFailsIff(args: Arguments, keys: seq<string>, defaults: seq<int>)
    requires |keys| == |defaults|
    ensures ReadInts(args, keys, defaults).Err? <==> exists i :: 0 <= i < |keys| && BadInt(args, keys[i])
  {
    if |keys| > 0 {
      IntArgFailsIff(args, keys[0], defaults[0]);
      ReadIntsFailsIff(args, keys[1..], defaults[1..]);
      if ReadInts(args, keys[1..], defaults[1..]).Err? {
        var i :| 0 <= i < |keys| - 1 && BadInt(args, keys[1..][i]);
        assert BadInt(args, keys[i + 1]);
      }
      if exists i :: 0 <= i < |keys| && BadInt(args, keys[i]) {
        var i :| 0 <= i < |keys| && BadInt(args, keys[i]);
        if i > 0 {
          assert BadInt(args, keys[1..][i - 1]);
        }
      }
    }
  }

  /** The error names the first key, in reading order, that holds text
      `int()` rejects. */
  lemma {:induction false} ReadIntsFirstBad(args: Arguments, keys: seq<string>, defaults: seq<int>, i: nat)
    requires |keys| == |defaults|
    requires FirstBad(args, keys, i)
    ensures ReadInts(args, keys, defaults) == Err(NotAnInteger(keys[i]))
  {
    if i == 0 {
      IntArgFailsIff(args, keys[0], defaults[0]);
    } else {
      assert !BadInt(args, keys[0]);
      IntArgFailsIff(args, keys[0], defaults[0]);
      assert forall j :: 0 <= j < i - 1 ==> keys[1..][j] == keys[j + 1];
      ReadIntsFirstBad(args, keys[1..], defaults[1..], i - 1);
    }
  }

  /** When every key reads as the given value, reading gives those values. */
  lemma {:induction false} ReadIntsAllSet(args: Arguments, keys: seq<string>, defaults: seq<int>, values: seq<int>)
    requires |keys| == |defaults| == |values|
    requires forall i :: 0 <= i < |keys| ==> IntArg(args, keys[i], defaults[i]) == Ok(values[i])
    ensures ReadInts(args, keys, defaults) == Ok(values)
  {
    if |keys| > 0 {
      assert IntArg(args, keys[0], defaults[0]) == Ok(values[0]);
      ReadIntsAllSet(args, keys[1..], defaults[1..], values[1..]);
      assert [values[0]] + values[1..] == values;
    }
  }

  /** Reading the settings fails exactly when some integer setting holds
      text that `int()` rejects, and the error names the first such key in
      the source's reading order. */
  lemma LoadConfigFailsIff(args: Arguments)
    ensures LoadConfig(args).Err? <==> exists i :: 0 <= i < |IntKeys| && BadInt(args, IntKeys[i])
    ensures forall i: nat :: FirstBad(args, IntKeys, i) ==> LoadConfig(args) == Err(NotAnInteger(IntKeys[i]))
  {
    ReadIntsFailsIff(args, IntKeys, IntDefaults);
    forall i: nat | FirstBad(args, IntKeys, i)
      ensures LoadConfig(args) == Err(NotAnInteger(IntKeys[i]))
    {
      ReadIntsFirstBad(args, IntKeys, IntDefaults, i);
    }
  }

  /** `bool()` of any non-empty text is `True`: `debug=False` turns debug
      mode on. */
  lemma DebugTextFalseEnablesDebug()
    ensures LoadConfig(map["debug" := Value("False")]) == Ok(DefaultConfig.(debug := true))
  {
    var args := map["debug" := Value("False")];
    IntKeysDistinct();
    ReadIntsAllSet(args, IntKeys, IntDefaults, IntDefaults);
  }

  /** A bare integer key reads as 1, since `int(True)` is 1. */
  lemma BareIntegerKeyReadsAsOne(key: string)
    requires key in IntKeys
    ensures IntArg(map[key := Flag], key, 0) == Ok(1)
  {
  }

  lemma IntToStringHasNoEquals(n: int)
    ensures '=' !in IntToString(n)
  {
    IntToStringChars(n);
  }

  /** The integer settings of `cfg`, in the order of `IntKeys`. */
  function IntValues(cfg: Config): seq<int> {
    [cfg.maximumX, cfg.maximumY, cfg.initialSpeed, cfg.borderX, cfg.borderY,
     cfg.dwellTime, cfg.initialAcceleration]
  }

  /** The command line that spells out every setting of `cfg`:
      `--maximum_x=<n>` and so on, then `--debug` when debug mode is on. */
  function ConfigArgv(cfg: Config): seq<string> {
    seq(|IntKeys|, j requires 0 <= j < |IntKeys| => "--" + IntKeys[j] + "=" + IntToString(IntValues(cfg)[j]))
    + (if cfg.debug then ["--debug"] else [])
  }

  /** The entries the arguments of `ConfigArgv(cfg)` make. */
  function ConfigEntries(cfg: Config): seq<(string, ArgValue)> {
    seq(|IntKeys|, j requires 0 <= j < |IntKeys| => (IntKeys[j], Value(IntToString(IntValues(cfg)[j]))))
    + (if cfg.debug then [("debug", Flag)] else [])
  }

  /** The setting names hold no `=`, differ from one another and from
      `debug`. */
  lemma IntKeysDistinct()
    ensures forall j :: 0 <= j < |IntKeys| ==> '=' !in IntKeys[j] && IntKeys[j] != "debug"
    ensures forall i, j :: 0 <= i < j < |IntKeys| ==> IntKeys[i] != IntKeys[j]
  {
    forall i, j | 0 <= i < j < |IntKeys|
      ensures IntKeys[i] != IntKeys[j]
    {
      if |IntKeys[i]| == |IntKeys[j]| {
        assert IntKeys[i][|IntKeys[i]| - 1] != IntKeys[j][|IntKeys[j]| - 1];
      }
    }
  }

  /** `--key=<n>` binds `key` to the digits of `n`. */
  lemma SettingBinding(key: string, n: int)
    requires '=' !in key
    ensures Binding("--" + key + "=" + IntToString(n)) == (key, Value(IntToString(n)))
  {
    IntToStringHasNoEquals(n);
    StripDashesOfDashed(key + "=" + IntToString(n));
    assert "--" + key + "=" + IntToString(n) == "--" + (key + "=" + IntToString(n));
    BindingOfKeyValue("--" + key + "=" + IntToString(n), key, IntToString(n));
  }

  /** Each argument of `ConfigArgv(cfg)` makes the matching entry. */
  lemma ConfigBindings(cfg: Config)
    ensures Bindings(ConfigArgv(cfg)) == ConfigEntries(cfg)
  {
    var argv, entries := ConfigArgv(cfg), ConfigEntries(cfg);
    IntKeysDistinct();
    forall j | 0 <= j < |IntKeys|
      ensures Binding(argv[j]) == entries[j]
    {
      SettingBinding(IntKeys[j], IntValues(cfg)[j]);
    }
    if cfg.debug {
      StripDashesOfDashed("debug");
      BindingOfFlag("--debug", "debug");
    }
  }

  /** Each integer setting of the collected entries reads as its value. */
  lemma ConfigEntriesInts(cfg: Config)
    ensures ReadInts(Collect(ConfigEntries(cfg)), IntKeys, IntDefaults) == Ok(IntValues(cfg))
  {
    var entries, values := ConfigEntries(cfg), IntValues(cfg);
    IntKeysDistinct();
    forall j | 0 <= j < |IntKeys|
      ensures IntArg(Collect(entries), IntKeys[j], IntDefaults[j]) == Ok(values[j])
    {
      CollectLast(entries, IntKeys[j], j);
      ParseIntOfIntToString(values[j]);
    }
    ReadIntsAllSet(Collect(entries), IntKeys, IntDefaults, values);
  }

  /** The collected entries hold `debug` exactly when debug mode is on. */
  lemma ConfigEntriesDebug(cfg: Config)
    ensures BoolArg(Collect(ConfigEntries(cfg)), "debug") == cfg.debug
  {
    var entries := ConfigEntries(cfg);
    IntKeysDistinct();
    CollectHasKey(entries, "debug");
    if cfg.debug {
      CollectLast(entries, "debug", |IntKeys|);
    }
  }

  /** Writing the settings as a command line and reading them back gives
      the same settings. */
  lemma LoadConfigRoundTrip(cfg: Config)
    ensures LoadConfig(ParseArgs(ConfigArgv(cfg))) == Ok(cfg)
  {
    ConfigBindings(cfg);
    ConfigEntriesInts(cfg);
    ConfigEntriesDebug(cfg);
  }

  // ---------------------------------------------------------------------
  // camera_bounds (python/old.py, lines 198-209)

  /** The crop rectangle `[[left, top], [right, bottom]]`. */
  datatype Bounds = Bounds(left: int, top: int, right: int, bottom: int)

  /** Why parsing the bounds fails: the value is `True` (it has no
      `replace`), a piece is missing (`IndexError`), or a piece is not an
      integer (`ValueError`). */
  datatype BoundsError = NotText | MissingPart(index: nat) | NotAnIntegerPart(index: nat)

  /** The bounds used when none are given: "no cropping". */
  const NoBounds := Bounds(0, 0, 0, 0)

  /** The pieces: `(` removed, `)` turned into `,`, then split at `,`. */
  function BoundsParts(s: string): seq<string> {
    Split(Replace(Replace(s, '(', ""), ')', ","), ',')
  }

  /** `int()` of every piece. Parsing has no side effects, so parsing all
      pieces up front and consulting them in order behaves as the source's
      left-to-right evaluation. */
  function ParsedParts(parts: seq<string>): (rs: seq<Result<int, ParseError>>)
    ensures |rs| == |parts|
    ensures forall k :: 0 <= k < |parts| ==> rs[k] == ParseInt(parts[k])
  {
    seq(|parts|, k requires 0 <= k < |parts| => ParseInt(parts[k]))
  }

  /** The `camera_bounds` value: the first four pieces, read in order. */
  function ParseCameraBounds(v: ArgValue): Result<Bounds, BoundsError> {
    match v
    case Flag => Err(NotText)
    case Value(s) => BoundsFromParts(BoundsParts(s))
  }

  /** `int(p[k])`, `int(p[k + 1])`, ... up to piece 3, left to right: a
      missing piece is an `IndexError` and a piece `int()` rejects is a
      `ValueError`, whichever comes first. */
  function ReadParts(rs: seq<Result<int, ParseError>>, k: nat): (r: Result<seq<int>, BoundsError>)
    requires k <= 4
    ensures r.Ok? ==> |r.value| == 4 - k
    decreases 4 - k
  {
    if k == 4 then Ok([])
    else if k >= |rs| then Err(MissingPart(k))
    else match rs[k]
      case Err(_) => Err(NotAnIntegerPart(k))
      case Ok(n) =>
        var rest :- ReadParts(rs, k + 1);
        Ok([n] + rest)
  }

  /** `[[int(p[0]), int(p[1])], [int(p[2]), int(p[3])]]`, evaluated left to
      right. */
  function BoundsFromParts(parts: seq<string>): Result<Bounds, BoundsError> {
    var v :- ReadParts(ParsedParts(parts), 0);
    Ok(Bounds(v[0], v[1], v[2], v[3]))
  }

  /** The bounds the program uses: parsed when given, else `NoBounds`. */
  function CameraBounds(args: Arguments): Result<Bounds, BoundsError> {
    if "camera_bounds" in args then ParseCameraBounds(args["camera_bounds"]) else Ok(NoBounds)
  }

  /** The documented format `(left,top)(right,bottom)`. */
  function FormatBounds(b: Bounds): string {
    Pair(b.left, b.top) + Pair(b.right, b.bottom)
  }

  function Pair(a: int, b: int): string {
    "(" + IntToString(a) + "," + IntToString(b) + ")"
  }

  lemma NoBracketsInInt(n: int)
    ensures '(' !in IntToString(n) && ')' !in IntToString(n) && ',' !in IntToString(n)
  {
    IntToStringChars(n);
  }

  /** Text free of brackets and commas. */
  predicate Plain(s: string) {
    '(' !in s && ')' !in s && ',' !in s
  }

  /** Text before the rewritten part that lacks the target passes through. */
  lemma ReplacePlainThen(a: string, rest: string, target: char, replacement: string)
    requires target !in a
    ensures Replace(a + rest, target, replacement) == a + Replace(rest, target, replacement)
  {
    ReplaceAppend(a, rest, target, replacement);
    ReplaceAbsent(a, target, replacement);
  }

  /** Removing `(` from `(a,b)` leaves `a,b)`. */
  lemma DropOpen(a: string, b: string)
    requires Plain(a) && Plain(b)
    ensures Replace("(" + a + "," + b + ")", '(', "") == a + "," + b + ")"
  {
    calc {
      Replace("(" + a + "," + b + ")", '(', "");
      { assert "(" + a + "," + b + ")" == "(" + (a + ("," + (b + ")"))); }
      Replace("(" + (a + ("," + (b + ")"))), '(', "");
      { assert ("(" + (a + ("," + (b + ")"))))[1..] == a + ("," + (b + ")")); }
      Replace(a + ("," + (b + ")")), '(', "");
      { ReplacePlainThen(a, "," + (b + ")"), '(', ""); }
      a + Replace("," + (b + ")"), '(', "");
      { ReplacePlainThen(",", b + ")", '(', ""); }
      a + ("," + Replace(b + ")", '(', ""));
      { ReplacePlainThen(b, ")", '(', ""); }
      a + ("," + (b + Replace(")", '(', "")));
      { assert Replace(")", '(', "") == ")"; }
      a + "," + b + ")";
    }
  }

  /** Turning `)` into `,` in `a,b)` gives `a,b,`. */
  lemma CloseToComma(a: string, b: string)
    requires Plain(a) && Plain(b)
    ensures Replace(a + "," + b + ")", ')', ",") == a + "," + b + ","
  {
    calc {
      Replace(a + "," + b + ")", ')', ",");
      { assert a + "," + b + ")" == a + ("," + (b + ")")); }
      Replace(a + ("," + (b + ")")), ')', ",");
      { ReplacePlainThen(a, "," + (b + ")"), ')', ","); }
      a + Replace("," + (b + ")"), ')', ",");
      { ReplacePlainThen(",", b + ")", ')', ","); }
      a + ("," + Replace(b + ")", ')', ","));
      { ReplacePlainThen(b, ")", ')', ","); }
      a + ("," + (b + Replace(")", ')', ",")));
      { assert Replace(")", ')', ",") == ","; }
      a + "," + b + ",";
    }
  }

  /** The rewritten text of two pairs is the four numbers, each followed by
      a comma. */
  lemma RewriteTwoPairs(a: string, b: string, c: string, d: string)
    requires Plain(a) && Plain(b) && Plain(c) && Plain(d)
    ensures Replace(Replace(("(" + a + "," + b + ")") + ("(" + c + "," + d + ")"), '(', ""), ')', ",")
         == Join([a, b, c, d, ""], ',')
  {
    var p, q := "(" + a + "," + b + ")", "(" + c + "," + d + ")";
    var p', q' := a + "," + b + ")", c + "," + d + ")";
    calc {
      Replace(p + q, '(', "");
      { ReplaceAppend(p, q, '(', ""); }
      Replace(p, '(', "") + Replace(q, '(', "");
      { DropOpen(a, b); DropOpen(c, d); }
      p' + q';
    }
    calc {
      Replace(p' + q', ')', ",");
      { ReplaceAppend(p', q', ')', ","); }
      Replace(p', ')', ",") + Replace(q', ')', ",");
      { CloseToComma(a, b); CloseToComma(c, d); }
      (a + "," + b + ",") + (c + "," + d + ",");
    }
    JoinFourThenEmpty(a, b, c, d);
  }

  /** Four pieces and an empty tail, joined by commas. */
  lemma JoinFourThenEmpty(a: string, b: string, c: string, d: string)
    ensures Join([a, b, c, d, ""], ',') == (a + "," + b + ",") + (c + "," + d + ",")
  {
    calc {
      Join([a, b, c, d, ""], ',');
      { assert [a, b, c, d, ""] == [a] + [b, c, d, ""]; JoinCons(a, [b, c, d, ""], ','); }
      a + "," + Join([b, c, d, ""], ',');
      { assert [b, c, d, ""] == [b] + [c, d, ""]; JoinCons(b, [c, d, ""], ','); }
      a + "," + (b + "," + Join([c, d, ""], ','));
      { assert [c, d, ""] == [c] + [d, ""]; JoinCons(c, [d, ""], ','); }
      a + "," + (b + "," + (c + "," + Join([d, ""], ',')));
      { assert [d, ""] == [d] + [""]; JoinCons(d, [""], ','); }
      a + "," + (b + "," + (c + "," + (d + "," + "")));
    }
  }

  /** Four integers read as the bounds they spell; later pieces are
      ignored. */
  lemma ReadFourParts(rs: seq<Result<int, ParseError>>, b: Bounds)
    requires |rs| >= 4
    requires rs[0] == Ok(b.left) && rs[1] == Ok(b.top) && rs[2] == Ok(b.right) && rs[3] == Ok(b.bottom)
    ensures ReadParts(rs, 0) == Ok([b.left, b.top, b.right, b.bottom])
  {
    assert ReadParts(rs, 4) == Ok([]);
    assert [b.bottom] + [] == [b.bottom];
    assert ReadParts(rs, 3) == Ok([b.bottom]);
    assert [b.right] + [b.bottom] == [b.right, b.bottom];
    assert ReadParts(rs, 2) == Ok([b.right, b.bottom]);
    assert [b.top] + [b.right, b.bottom] == [b.top, b.right, b.bottom];
    assert ReadParts(rs, 1) == Ok([b.top, b.right, b.bottom]);
    assert [b.left] + [b.top, b.right, b.bottom] == [b.left, b.top, b.right, b.bottom];
  }

  /** The pieces of formatted bounds are the four numbers' digits and an
      empty tail. */
  lemma BoundsPartsOfFormat(b: Bounds)
    ensures BoundsParts(FormatBounds(b))
         == [IntToString(b.left), IntToString(b.top), IntToString(b.right), IntToString(b.bottom), ""]
  {
    var s0, s1, s2, s3 := IntToString(b.left), IntToString(b.top), IntToString(b.right), IntToString(b.bottom);
    NoBracketsInInt(b.left);
    NoBracketsInInt(b.top);
    NoBracketsInInt(b.right);
    NoBracketsInInt(b.bottom);
    RewriteTwoPairs(s0, s1, s2, s3);
    SplitJoin([s0, s1, s2, s3, ""], ',');
  }

  /** Pieces that are the four numbers' digits parse back as the numbers. */
  lemma ParsedDigits(pieces: seq<string>, b: Bounds)
    requires |pieces| >= 4
    requires pieces[0] == IntToString(b.left) && pieces[1] == IntToString(b.top)
    requires pieces[2] == IntToString(b.right) && pieces[3] == IntToString(b.bottom)
    ensures var rs := ParsedParts(pieces);
      rs[0] == Ok(b.left) && rs[1] == Ok(b.top) && rs[2] == Ok(b.right) && rs[3] == Ok(b.bottom)
  {
    ParsedDigit(pieces, 0, b.left);
    ParsedDigit(pieces, 1, b.top);
    ParsedDigit(pieces, 2, b.right);
    ParsedDigit(pieces, 3, b.bottom);
  }

  lemma ParsedDigit(pieces: seq<string>, k: nat, n: int)
    requires k < |pieces| && pieces[k] == IntToString(n)
    ensures ParsedParts(pieces)[k] == Ok(n)
  {
    ParseIntOfIntToString(n);
  }

  /** Reading back formatted bounds gives the bounds. */
  lemma CameraBoundsRoundTrip(b: Bounds)
    ensures ParseCameraBounds(Value(FormatBounds(b))) == Ok(b)
  {
    var pieces := BoundsParts(FormatBounds(b));
    BoundsPartsOfFormat(b);
    ParsedDigits(pieces, b);
    ReadFourParts(ParsedParts(pieces), b);
  }

  /** Fewer than four pieces is an `IndexError` at the first missing one,
      unless an earlier piece already failed `int()`. */
  lemma {:induction false} ReadPartsTooFew(rs: seq<Result<int, ParseError>>, k: nat)
    requires k <= |rs| < 4
    requires forall j :: k <= j < |rs| ==> rs[j].Ok?
    ensures ReadParts(rs, k) == Err(MissingPart(|rs|))
    decreases 4 - k
  {
    if k < |rs| {
      ReadPartsTooFew(rs, k + 1);
    }
  }

  lemma BoundsTooFewParts(parts: seq<string>)
    requires |parts| < 4
    requires forall k :: 0 <= k < |parts| ==> ParseInt(parts[k]).Ok?
    ensures BoundsFromParts(parts) == Err(MissingPart(|parts|))
  {
    ReadPartsTooFew(ParsedParts(parts), 0);
  }

  /** A piece that `int()` rejects is reported, unless an earlier one was. */
  lemma {:induction false} ReadPartsBadPart(rs: seq<Result<int, ParseError>>, k: nat, i: nat)
    requires k <= i < 4 && i < |rs| && rs[i].Err?
    requires forall j :: k <= j < i ==> rs[j].Ok?
    ensures ReadParts(rs, k) == Err(NotAnIntegerPart(i))
    decreases 4 - k
  {
    if k < i {
      ReadPartsBadPart(rs, k + 1, i);
    }
  }

  lemma BoundsBadPart(parts: seq<string>, k: nat)
    requires k < 4 && k < |parts| && ParseInt(parts[k]).Err?
    requires forall j :: 0 <= j < k ==> ParseInt(parts[j]).Ok?
    ensures BoundsFromParts(parts) == Err(NotAnIntegerPart(k))
  {
    ReadPartsBadPart(ParsedParts(parts), 0, k);
  }

  /** Without a `camera_bounds` argument the `KeyError` default, no
      cropping, is used. */
  lemma CameraBoundsAbsent(argv: seq<string>)
    requires forall i :: 0 <= i < |argv| ==> Binding(argv[i]).0 != "camera_bounds"
    ensures CameraBounds(ParseArgs(argv)) == Ok(NoBounds)
  {
    ParseArgsHasKey(argv, "camera_bounds");
  }

  /** With one, the value of its last setter is parsed; a bare
      `camera_bounds` flag is `True`, which has no `replace`. */
  lemma CameraBoundsGiven(argv: seq<string>, i: nat)
    requires LastSetter(argv, "camera_bounds", i)
    ensures CameraBounds(ParseArgs(argv)) == ParseCameraBounds(Binding(argv[i]).1)
    ensures Binding(argv[i]).1 == Flag ==> CameraBounds(ParseArgs(argv)) == Err(NotText)
  {
    ParseArgsLastSetter(argv, "camera_bounds", i);
  }

  lemma FormatBoundsHasNoEquals(b: Bounds)
    ensures '=' !in FormatBounds(b)
  {
    IntToStringHasNoEquals(b.left);
    IntToStringHasNoEquals(b.top);
    IntToStringHasNoEquals(b.right);
    IntToStringHasNoEquals(b.bottom);
  }

  /** Bounds written in the documented format on the command line are the
      bounds the program uses. */
  lemma CameraBoundsFromArgv(b: Bounds)
    ensures CameraBounds(ParseArgs(["--camera_bounds=" + FormatBounds(b)])) == Ok(b)
  {
    var arg := "--camera_bounds=" + FormatBounds(b);
    FormatBoundsHasNoEquals(b);
    CameraBoundsSetting(arg, FormatBounds(b));
    CameraBoundsRoundTrip(b);
  }

  /** A lone `--camera_bounds=<value>` argument is the one parsed. */
  lemma CameraBoundsSetting(arg: string, value: string)
    requires arg == "--camera_bounds=" + value && '=' !in value
    ensures CameraBounds(ParseArgs([arg])) == ParseCameraBounds(Value(value))
  {
    var key := "camera_bounds";
    assert arg == "--" + (key + "=" + value);
    StripDashesOfDashed(key + "=" + value);
    BindingOfKeyValue(arg, key, value);
    assert LastSetter([arg], key, 0);
    CameraBoundsGiven([arg], 0);
  }

  /** No arguments at all give no cropping. */
  lemma CameraBoundsNoArgv()
    ensures CameraBounds(ParseArgs([])) == Ok(NoBounds)
  {
    CameraBoundsAbsent([]);
  }

  /** `--camera_bounds` with no value fails with `AttributeError`. */
  lemma CameraBoundsBareFlag()
    ensures CameraBounds(ParseArgs(["--camera_bounds"])) == Err(NotText)
  {
    var arg := "--camera_bounds";
    StripDashesOfDashed("camera_bounds");
    assert '=' !in "camera_bounds";
    BindingOfFlag(arg, "camera_bounds");
    assert LastSetter([arg], "camera_bounds", 0);
    CameraBoundsGiven([arg], 0);
  }
}

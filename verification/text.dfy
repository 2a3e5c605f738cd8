/** The Python string operations the program relies on: `str(int)`,
    `int(str)`, `str.split` and `str.replace` with one-character patterns. */
module Text {
  import opened Results

  // ---------------------------------------------------------------------
  // Characters

  predicate IsDigit(c: char) {
    '0' <= c <= '9'
  }

  function DigitValue(c: char): (d: nat)
    requires IsDigit(c)
    ensures d < 10
  {
    (c as int) - ('0' as int)
  }

  function DigitChar(d: nat): (c: char)
    requires d < 10
    ensures IsDigit(c) && DigitValue(c) == d
  {
    (('0' as int) + d) as char
  }

  /** The ASCII whitespace `int()` skips around a numeral: tab, line feed,
      vertical tab, form feed, carriage return and space. The separators
      0x1c-0x1f, which `str.isspace` also accepts, are not skipped. */
  predicate IsSpace(c: char) {
    (9 <= c as int <= 13) || c == ' '
  }

  // ---------------------------------------------------------------------
  // str(int)

  /** The decimal numeral of a natural number, without leading zeros. */
  function NatToString(n: nat): (s: string)
    ensures |s| > 0
    ensures forall i :: 0 <= i < |s| ==> IsDigit(s[i])
    decreases n
  {
    if n < 10 then [DigitChar(n)] else NatToString(n / 10) + [DigitChar(n % 10)]
  }

  /** Python's `str(n)` for an integer. */
  function IntToString(n: int): string {
    if n < 0 then "-" + NatToString(-n) else NatToString(n)
  }

  // ---------------------------------------------------------------------
  // int(str)

  /** The text without the whitespace `int()` skips at either end. */
  function Strip(s: string): string {
    StripEnd(StripStart(s))
  }

  function StripStart(s: string): (r: string)
    ensures |r| > 0 ==> !IsSpace(r[0])
    ensures |r| <= |s| && r == s[|s| - |r|..]
  {
    if |s| > 0 && IsSpace(s[0]) then StripStart(s[1..]) else s
  }

  function StripEnd(s: string): (r: string)
    ensures |r| > 0 ==> !IsSpace(r[|r| - 1])
    ensures |r| <= |s| && r == s[..|r|]
  {
    if |s| > 0 && IsSpace(s[|s| - 1]) then StripEnd(s[..|s| - 1]) else s
  }

  /** The digit part `int()` accepts in base 10: digits, with single
      underscores allowed between two digits. */
  predicate DigitGroups(s: string) {
    && DigitsOrUnderscores(s)
    && |s| > 0
    && IsDigit(s[0])
    && IsDigit(s[|s| - 1])
    && forall i :: 0 <= i < |s| - 1 ==> !(s[i] == '_' && s[i + 1] == '_')
  }

  predicate DigitsOrUnderscores(s: string) {
    forall i :: 0 <= i < |s| ==> IsDigit(s[i]) || s[i] == '_'
  }

  /** The value of the digits of `s`, read in base 10, underscores skipped. */
  function DigitsValue(s: string): nat
    requires DigitsOrUnderscores(s)
  {
    if |s| == 0 then 0
    else if s[|s| - 1] == '_' then DigitsValue(s[..|s| - 1])
    else 10 * DigitsValue(s[..|s| - 1]) + DigitValue(s[|s| - 1])
  }

  /** Why `int()` raises `ValueError`. */
  datatype ParseError = InvalidLiteral

  /** Python's `int(s)`: surrounding whitespace is ignored, then an optional
      sign and the digit part; anything else raises `ValueError`. */
  function ParseInt(s: string): Result<int, ParseError> {
    ParseNumeral(Strip(s))
  }

  /** `int()` on text without surrounding whitespace. */
  function ParseNumeral(t: string): Result<int, ParseError> {
    var negative := |t| > 0 && t[0] == '-';
    var body := if |t| > 0 && (t[0] == '-' || t[0] == '+') then t[1..] else t;
    if !DigitGroups(body) then Err(InvalidLiteral)
    else if negative then Ok(-(DigitsValue(body) as int))
    else Ok(DigitsValue(body))
  }

  lemma {:induction false} DigitsValueOfNatToString(n: nat)
    ensures DigitsValue(NatToString(n)) == n
    decreases n
  {
    if n >= 10 {
      DigitsValueOfNatToString(n / 10);
      var s := NatToString(n);
      assert s[..|s| - 1] == NatToString(n / 10);
    }
  }

  lemma StripNoSpaceEnds(s: string)
    requires |s| > 0 && !IsSpace(s[0]) && !IsSpace(s[|s| - 1])
    ensures Strip(s) == s
  {
  }

  /** Reading back a printed integer gives the integer: `int(str(n)) == n`. */
  lemma ParseIntOfIntToString(n: int)
    ensures ParseInt(IntToString(n)) == Ok(n)
  {
    StripIntToString(n);
    if n < 0 {
      NumeralOfNat(-n);
    } else {
      NumeralOfNat(n);
    }
  }

  lemma NumeralOfNat(m: nat)
    ensures ParseNumeral(NatToString(m)) == Ok(m)
    ensures ParseNumeral("-" + NatToString(m)) == Ok(-(m as int))
  {
    var digits := NatToString(m);
    DigitsValueOfNatToString(m);
    assert DigitGroups(digits);
    assert ("-" + digits)[1..] == digits;
  }

  lemma StripIntToString(n: int)
    ensures Strip(IntToString(n)) == IntToString(n)
  {
    var s := IntToString(n);
    assert s[0] == '-' || IsDigit(s[0]);
    assert IsDigit(s[|s| - 1]);
    StripNoSpaceEnds(s);
  }

  /** Every character of `t` is whitespace. */
  predicate AllSpaces(t: string) {
    forall i :: 0 <= i < |t| ==> IsSpace(t[i])
  }

  /** Whitespace runs around a numeral are ignored. */
  lemma ParseIntIgnoresSpaces(pre: string, s: string, suf: string)
    requires AllSpaces(pre) && AllSpaces(suf)
    ensures ParseInt(pre + s + suf) == ParseInt(s)
  {
    StripIgnoresSpaces(pre, s, suf);
  }

  lemma StripIgnoresSpaces(pre: string, s: string, suf: string)
    requires AllSpaces(pre) && AllSpaces(suf)
    ensures Strip(pre + s + suf) == Strip(s)
  {
    assert pre + s + suf == pre + (s + suf);
    StripStartSpacePrefix(pre, s + suf);
    StripStartAppendSpaces(s, suf);
    if StripStart(s) != [] {
      StripEndSpaceSuffix(StripStart(s), suf);
    }
  }

  /** Leading whitespace is dropped whatever follows it. */
  lemma {:induction false} StripStartSpacePrefix(pre: string, t: string)
    requires AllSpaces(pre)
    ensures StripStart(pre + t) == StripStart(t)
    decreases |pre|
  {
    if |pre| == 0 {
      assert pre + t == t;
    } else {
      assert (pre + t)[0] == pre[0];
      assert (pre + t)[1..] == pre[1..] + t;
      StripStartSpacePrefix(pre[1..], t);
    }
  }

  /** Trailing whitespace is dropped whatever precedes it. */
  lemma {:induction false} StripEndSpaceSuffix(t: string, suf: string)
    requires AllSpaces(suf)
    ensures StripEnd(t + suf) == StripEnd(t)
    decreases |suf|
  {
    if |suf| == 0 {
      assert t + suf == t;
    } else {
      var u := t + suf;
      assert u[|u| - 1] == suf[|suf| - 1];
      assert u[..|u| - 1] == t + suf[..|suf| - 1];
      StripEndSpaceSuffix(t, suf[..|suf| - 1]);
    }
  }

  /** Appending whitespace commutes with stripping the front, unless the
      string was whitespace only. */
  lemma {:induction false} StripStartAppendSpaces(s: string, suf: string)
    requires AllSpaces(suf)
    ensures StripStart(s) == [] ==> StripStart(s + suf) == []
    ensures StripStart(s) != [] ==> StripStart(s + suf) == StripStart(s) + suf
    decreases |s|
  {
    if |s| == 0 {
      assert s + suf == suf + [];
      StripStartSpacePrefix(suf, []);
    } else if IsSpace(s[0]) {
      assert (s + suf)[0] == s[0];
      assert (s + suf)[1..] == s[1..] + suf;
      StripStartAppendSpaces(s[1..], suf);
    } else {
      assert (s + suf)[0] == s[0];
    }
  }

  // ---------------------------------------------------------------------
  // str.split and str.replace

  /** Python's `s.split(sep)` for a one-character separator: the pieces
      between separators, empty ones included. */
  function Split(s: string, sep: char): (parts: seq<string>)
    ensures |parts| > 0
  {
    if |s| == 0 then [""]
    else
      var rest := Split(s[1..], sep);
      if s[0] == sep then [""] + rest else [[s[0]] + rest[0]] + rest[1..]
  }

  /** Python's `sep.join(parts)`. */
  function Join(parts: seq<string>, sep: char): string
    requires |parts| > 0
  {
    if |parts| == 1 then parts[0] else parts[0] + [sep] + Join(parts[1..], sep)
  }

  lemma JoinCons(x: string, rest: seq<string>, sep: char)
    requires |rest| > 0
    ensures Join([x] + rest, sep) == x + [sep] + Join(rest, sep)
  {
    assert ([x] + rest)[1..] == rest;
  }

  /** Joining the pieces with the separator gives back the string. */
  lemma {:induction false} JoinSplit(s: string, sep: char)
    ensures Join(Split(s, sep), sep) == s
  {
    if |s| > 0 {
      var rest := Split(s[1..], sep);
      JoinSplit(s[1..], sep);
      if s[0] != sep {
        var parts := Split(s, sep);
        assert parts[1..] == rest[1..];
        if |rest| > 1 {
          assert rest == [rest[0]] + rest[1..];
        }
      } else {
        assert Split(s, sep)[1..] == rest;
      }
    }
  }

  /** No piece contains the separator. */
  lemma {:induction false} SplitPiecesHaveNoSeparator(s: string, sep: char)
    ensures forall i :: 0 <= i < |Split(s, sep)| ==> sep !in Split(s, sep)[i]
  {
    if |s| > 0 {
      SplitPiecesHaveNoSeparator(s[1..], sep);
    }
  }

  /** Splitting a join of separator-free pieces gives back the pieces. */
  lemma {:induction false} SplitJoin(parts: seq<string>, sep: char)
    requires |parts| > 0
    requires forall i :: 0 <= i < |parts| ==> sep !in parts[i]
    ensures Split(Join(parts, sep), sep) == parts
    decreases |parts|, |parts[0]|
  {
    if |parts| == 1 {
      SplitNoSeparator(parts[0], sep);
    } else if |parts[0]| == 0 {
      SplitJoin(parts[1..], sep);
      assert Join(parts, sep) == [sep] + Join(parts[1..], sep);
      assert Join(parts, sep)[1..] == Join(parts[1..], sep);
      assert parts == [""] + parts[1..];
    } else {
      var shorter := [parts[0][1..]] + parts[1..];
      SplitJoin(shorter, sep);
      assert shorter[1..] == parts[1..];
      assert Join(parts, sep) == [parts[0][0]] + Join(shorter, sep);
      assert Join(parts, sep)[1..] == Join(shorter, sep);
      assert [parts[0][0]] + parts[0][1..] == parts[0];
      assert parts == [parts[0]] + shorter[1..];
    }
  }

  lemma {:induction false} SplitNoSeparator(s: string, sep: char)
    requires sep !in s
    ensures Split(s, sep) == [s]
  {
    if |s| > 0 {
      SplitNoSeparator(s[1..], sep);
      assert [s[0]] + s[1..] == s;
    }
  }

  /** Python's `s.replace(target, replacement)` for a one-character `target`. */
  function Replace(s: string, target: char, replacement: string): string {
    if |s| == 0 then ""
    else (if s[0] == target then replacement else [s[0]]) + Replace(s[1..], target, replacement)
  }

  lemma {:induction false} ReplaceAppend(a: string, b: string, target: char, replacement: string)
    ensures Replace(a + b, target, replacement) == Replace(a, target, replacement) + Replace(b, target, replacement)
  {
    if |a| > 0 {
      assert (a + b)[0] == a[0];
      assert (a + b)[1..] == a[1..] + b;
      ReplaceAppend(a[1..], b, target, replacement);
    } else {
      assert a + b == b;
    }
  }

  /** Replacing a character that does not occur changes nothing. */
  lemma {:induction false} ReplaceAbsent(s: string, target: char, replacement: string)
    requires target !in s
    ensures Replace(s, target, replacement) == s
  {
    if |s| > 0 {
      ReplaceAbsent(s[1..], target, replacement);
      assert [s[0]] + s[1..] == s;
    }
  }

  /** A printed integer holds only digits and possibly a leading minus. */
  lemma IntToStringChars(n: int)
    ensures forall c :: c in IntToString(n) ==> IsDigit(c) || c == '-'
  {
  }
}

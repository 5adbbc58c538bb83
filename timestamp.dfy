/**
 * SubRip timestamps (`SRTTime`): four integer fields that are never carried
 * into one another, parsed from and rendered as `HH:MM:SS,mmm`, ordered
 * field by field, and averaged through a total in milliseconds.
 */
module Timestamp {
  import opened Wrappers
  import opened Strings

  /** Fields are not range-checked: 65 minutes is a legal, un-normalised value. */
  datatype Time = Time(hours: int, minutes: int, seconds: int, milliseconds: int)

  /** Why a timestamp failed to parse. */
  datatype TimeError =
    | WrongFieldCount(text: string)  // the `:` split did not give three parts
    | NotANumber(text: string)       // a component `int()` or `float()` rejects

  /** Minutes, seconds and milliseconds inside their clock ranges (hours may be anything). */
  predicate Normalized(t: Time)
  {
    0 <= t.minutes < 60 && 0 <= t.seconds < 60 && 0 <= t.milliseconds < 1000
  }

  /** Fields that `ToString` renders in a form `Parse` reads back. */
  predicate Renderable(t: Time)
  {
    t.hours >= 0 && t.minutes >= 0 && t.seconds >= 0 && 0 <= t.milliseconds < 1000
  }

  function TotalMs(t: Time): int
  {
    t.hours * 3600000 + t.minutes * 60000 + t.seconds * 1000 + t.milliseconds
  }

  // ---------------------------------------------------------------- parse

  /** The millisecond digits: right-padded with `0` to three characters, then cut to three. */
  function MillisText(fraction: string): (r: string)
    ensures |r| == 3
    ensures |fraction| >= 3 ==> r == fraction[..3]
    ensures |fraction| < 3 ==> r == fraction + Zeros(3 - |fraction|)
  {
    PadRight(fraction, 3, '0')[..3]
  }

  /**
   * `SRTTime.parse`: three `:`-separated parts; the last is split on `,`, and
   * when that gives exactly two pieces the second is the millisecond fraction,
   * otherwise the first piece is read as a decimal number of seconds.
   */
  function Parse(s: string): (r: Result<Time, TimeError>)
    ensures r == Err(WrongFieldCount(s)) <==> |Split(s, ":")| != 3
    ensures r.Ok? && |Split(Split(s, ":")[2], ",")| != 2 ==> r.value.milliseconds == 0
  {
    var parts := Split(s, ":");
    if |parts| != 3 then Err(WrongFieldCount(s))
    else if ParseInt(parts[0]).None? then Err(NotANumber(parts[0]))
    else if ParseInt(parts[1]).None? then Err(NotANumber(parts[1]))
    else
      var secParts := Split(parts[2], ",");
      if |secParts| == 2 then
        if ParseInt(secParts[0]).None? then Err(NotANumber(secParts[0]))
        else if ParseInt(MillisText(secParts[1])).None? then Err(NotANumber(MillisText(secParts[1])))
        else Ok(Time(ParseInt(parts[0]).value, ParseInt(parts[1]).value,
                     ParseInt(secParts[0]).value, ParseInt(MillisText(secParts[1])).value))
      else
        if ParseTruncatedDecimal(secParts[0]).None? then Err(NotANumber(secParts[0]))
        else Ok(Time(ParseInt(parts[0]).value, ParseInt(parts[1]).value,
                     ParseTruncatedDecimal(secParts[0]).value, 0))
  }

  /**
   * When `Parse` fails and when it succeeds: each of the hours, the minutes,
   * the seconds and the milliseconds fails on its own when `int()` (or, for
   * seconds without a comma, `int(float())`) rejects it, and a success has the
   * padded-and-cut fraction as its milliseconds.
   */
  lemma ParseRules(s: string)
    ensures var p := Split(s, ":");
      |p| == 3 && ParseInt(p[0]).None? ==> Parse(s) == Err(NotANumber(p[0]))
    ensures var p := Split(s, ":");
      |p| == 3 && ParseInt(p[0]).Some? && ParseInt(p[1]).None? ==> Parse(s) == Err(NotANumber(p[1]))
    ensures var p := Split(s, ":");
      |p| == 3 && ParseInt(p[0]).Some? && ParseInt(p[1]).Some? ==>
        var q := Split(p[2], ",");
        (|q| == 2 && ParseInt(q[0]).None? ==> Parse(s) == Err(NotANumber(q[0]))) &&
        (|q| == 2 && ParseInt(q[0]).Some? && ParseInt(MillisText(q[1])).None? ==>
           Parse(s) == Err(NotANumber(MillisText(q[1])))) &&
        (|q| != 2 && ParseTruncatedDecimal(q[0]).None? ==> Parse(s) == Err(NotANumber(q[0])))
    ensures Parse(s).Ok? <==>
      var p := Split(s, ":");
      |p| == 3 && ParseInt(p[0]).Some? && ParseInt(p[1]).Some? &&
      var q := Split(p[2], ",");
      if |q| == 2 then ParseInt(q[0]).Some? && ParseInt(MillisText(q[1])).Some?
      else ParseTruncatedDecimal(q[0]).Some?
    ensures Parse(s).Ok? && |Split(Split(s, ":")[2], ",")| == 2 ==>
      ParseInt(MillisText(Split(Split(s, ":")[2], ",")[1])) == Some(Parse(s).value.milliseconds)
  {
  }

  /** A time whose fields are not numbers fails to parse, though it has three parts. */
  lemma ParseRejectsLetters()
    ensures |Split("a:b:c", ":")| == 3 && Parse("a:b:c") == Err(NotANumber("a"))
  {
    SplitLetters();
    LetterIsNotANumber();
  }

  lemma SplitLetters()
    ensures Split("a:b:c", ":") == ["a", "b", "c"]
  {
    var bc := "b" + ":" + "c";
    assert "a:b:c" == "a" + ":" + bc;
    SplitAbsent("c", ":");
    SplitAfter("b", ":", "c");
    SplitAfter("a", ":", bc);
  }

  lemma LetterIsNotANumber()
    ensures ParseInt("a") == None
  {
    StripNumberNoop("a");
    assert !IsDigit("a"[0]);
  }

  /** Milliseconds read from a fraction of digits lie in 0..999: "5" gives 500, "1234" gives 123. */
  lemma MillisFromDigits(fraction: string)
    requires AllDigits(fraction)
    ensures ParseInt(MillisText(fraction)).Some?
    ensures 0 <= ParseInt(MillisText(fraction)).value <= 999
    ensures |fraction| >= 3 ==> ParseInt(MillisText(fraction)).value == DigitsValue(fraction[..3])
    ensures |fraction| < 3 ==>
      ParseInt(MillisText(fraction)).value == DigitsValue(fraction + Zeros(3 - |fraction|))
  {
    var m := MillisText(fraction);
    assert AllDigits(m);
    ParseIntDigits(m);
    ThreeDigitsBelow1000(m);
  }

  lemma ThreeDigitsBelow1000(m: string)
    requires |m| == 3 && AllDigits(m)
    ensures DigitsValue(m) <= 999
  {
    assert m[..2][..1] == m[..1];
    assert DigitsValue(m[..1]) <= 9;
    assert DigitsValue(m[..2]) <= 99;
  }

  // ---------------------------------------------------------------- order

  /** `SRTTime.__lt__`: lexicographic comparison of (hours, minutes, seconds, milliseconds). */
  predicate Less(a: Time, b: Time): (r: bool)
    ensures r ==> a != b
    ensures a.hours != b.hours ==> (r <==> a.hours < b.hours)
    ensures a.hours == b.hours && a.minutes != b.minutes ==> (r <==> a.minutes < b.minutes)
  {
    a.hours < b.hours || (a.hours == b.hours &&
    (a.minutes < b.minutes || (a.minutes == b.minutes &&
    (a.seconds < b.seconds || (a.seconds == b.seconds &&
    a.milliseconds < b.milliseconds)))))
  }

  /** `Less` is a strict total order on the four fields. */
  lemma LessIsStrictTotalOrder()
    ensures forall a :: !Less(a, a)
    ensures forall a, b, c :: Less(a, b) && Less(b, c) ==> Less(a, c)
    ensures forall a, b :: Less(a, b) ==> !Less(b, a)
    ensures forall a, b :: Less(a, b) || a == b || Less(b, a)
  {
  }

  /** On normalised times the field order is the order of total milliseconds. */
  lemma LessMatchesTotalMs(a: Time, b: Time)
    requires Normalized(a) && Normalized(b)
    ensures Less(a, b) <==> TotalMs(a) < TotalMs(b)
  {
    var ra := a.minutes * 60000 + a.seconds * 1000 + a.milliseconds;
    var rb := b.minutes * 60000 + b.seconds * 1000 + b.milliseconds;
    assert 0 <= ra < 3600000 && 0 <= rb < 3600000;
    if a.hours < b.hours {
      assert a.hours * 3600000 + 3600000 <= b.hours * 3600000;
    } else if b.hours < a.hours {
      assert b.hours * 3600000 + 3600000 <= a.hours * 3600000;
    }
  }

  // ---------------------------------------------------------------- render

  /** `SRTTime.__str__`: zero-padded `HH:MM:SS,mmm`, with no range checks. */
  function ToString(t: Time): (r: string)
    ensures |r| >= 12
  {
    FormatInt(t.hours, 2) + ":" + FormatInt(t.minutes, 2) + ":" +
    FormatInt(t.seconds, 2) + "," + FormatInt(t.milliseconds, 3)
  }

  lemma FormatNatDigits(n: nat, width: nat)
    ensures AllDigits(FormatInt(n, width)) && |FormatInt(n, width)| >= 1
    ensures ':' !in FormatInt(n, width) && ',' !in FormatInt(n, width)
    ensures n < 1000 && width == 3 ==> |FormatInt(n, width)| == 3
    ensures n < 100 && width == 2 ==> |FormatInt(n, width)| == 2
  {
    var f := FormatInt(n, width);
    assert f == ZeroPad(NatToDigits(n), width);
  }

  /** A rendered timestamp contains no white space and no character of the ` --> ` arrow. */
  lemma ToStringShape(t: Time)
    requires Renderable(t)
    ensures |ToString(t)| >= 1 && !IsSpace(ToString(t)[0]) && !IsSpace(ToString(t)[|ToString(t)| - 1])
    ensures ' ' !in ToString(t) && '-' !in ToString(t) && '>' !in ToString(t) && NoSpace(ToString(t))
  {
    var h, m, s, ms := FormatInt(t.hours, 2), FormatInt(t.minutes, 2), FormatInt(t.seconds, 2), FormatInt(t.milliseconds, 3);
    FormatNatDigits(t.hours, 2);
    FormatNatDigits(t.minutes, 2);
    FormatNatDigits(t.seconds, 2);
    FormatNatDigits(t.milliseconds, 3);
    var r := ToString(t);
    assert r == h + ":" + m + ":" + s + "," + ms;
    forall k | 0 <= k < |r|
      ensures r[k] != ' ' && r[k] != '-' && r[k] != '>' && !IsSpace(r[k])
    {
      assert IsDigit(r[k]) || r[k] == ':' || r[k] == ',';
    }
  }

  /**
   * With two-digit hours, minutes and seconds a rendered timestamp is exactly
   * `HH:MM:SS,mmm`: twelve characters, the separators at positions 2, 5 and 8,
   * and each field zero-padded digits that read as its value.
   */
  lemma ToStringLayout(t: Time)
    requires Renderable(t) && t.hours < 100 && t.minutes < 100 && t.seconds < 100
    ensures var r := ToString(t);
      |r| == 12 && r[2] == ':' && r[5] == ':' && r[8] == ',' &&
      AllDigits(r[..2]) && AllDigits(r[3..5]) && AllDigits(r[6..8]) && AllDigits(r[9..]) &&
      ParseInt(r[..2]) == Some(t.hours) && ParseInt(r[3..5]) == Some(t.minutes) &&
      ParseInt(r[6..8]) == Some(t.seconds) && ParseInt(r[9..]) == Some(t.milliseconds)
  {
    var h, m, s, ms := FormatInt(t.hours, 2), FormatInt(t.minutes, 2), FormatInt(t.seconds, 2), FormatInt(t.milliseconds, 3);
    FormatNatDigits(t.hours, 2);
    FormatNatDigits(t.minutes, 2);
    FormatNatDigits(t.seconds, 2);
    FormatNatDigits(t.milliseconds, 3);
    ParseIntPadded(t.hours, 2);
    ParseIntPadded(t.minutes, 2);
    ParseIntPadded(t.seconds, 2);
    ParseIntPadded(t.milliseconds, 3);
    FieldPositions(h, m, s, ms);
  }

  /** Where the four fields and their separators sit in `h:m:s,ms` when the fields are 2, 2, 2 and 3 long. */
  lemma FieldPositions(h: string, m: string, s: string, ms: string)
    requires |h| == 2 && |m| == 2 && |s| == 2 && |ms| == 3
    ensures var r := h + ":" + m + ":" + s + "," + ms;
      |r| == 12 && r[2] == ':' && r[5] == ':' && r[8] == ',' &&
      r[..2] == h && r[3..5] == m && r[6..8] == s && r[9..] == ms
  {
  }

  /** Splitting `h:m:s,ms` on `:` and then on `,` gives back the four digit strings. */
  lemma SplitFields(h: string, m: string, s: string, ms: string)
    requires AllDigits(h) && AllDigits(m) && AllDigits(s) && AllDigits(ms)
    ensures Split(h + ":" + m + ":" + s + "," + ms, ":") == [h, m, s + "," + ms]
    ensures Split(s + "," + ms, ",") == [s, ms]
  {
    var tail := s + "," + ms;
    var rest := m + ":" + tail;
    assert h + ":" + m + ":" + s + "," + ms == h + ":" + rest;
    NoColonInSeconds(s, ms);
    SplitAbsent(tail, ":");
    SplitAfter(m, ":", tail);
    assert Split(rest, ":") == [m, tail];
    SplitAfter(h, ":", rest);
    assert Split(h + ":" + rest, ":") == [h, m, tail];
    SplitAbsent(ms, ",");
    SplitAfter(s, ",", ms);
  }

  lemma NoColonInSeconds(s: string, ms: string)
    requires AllDigits(s) && AllDigits(ms)
    ensures ':' !in s + "," + ms
  {
    var tail := s + "," + ms;
    forall k | 0 <= k < |tail| ensures tail[k] != ':' {
      if k < |s| { assert tail[k] == s[k]; }
      else if k > |s| { assert tail[k] == ms[k - |s| - 1]; }
    }
  }

  /** Parsing a rendered timestamp gives back the same four fields. */
  lemma ParseToString(t: Time)
    requires Renderable(t)
    ensures Parse(ToString(t)) == Ok(t)
  {
    var h, m, s, ms := FormatInt(t.hours, 2), FormatInt(t.minutes, 2), FormatInt(t.seconds, 2), FormatInt(t.milliseconds, 3);
    FormatNatDigits(t.hours, 2);
    FormatNatDigits(t.minutes, 2);
    FormatNatDigits(t.seconds, 2);
    FormatNatDigits(t.milliseconds, 3);
    SplitFields(h, m, s, ms);
    assert MillisText(ms) == ms;
    ParseIntPadded(t.hours, 2);
    ParseIntPadded(t.minutes, 2);
    ParseIntPadded(t.seconds, 2);
    ParseIntPadded(t.milliseconds, 3);
  }

  // ---------------------------------------------------------------- midpoint

  /**
   * `SRTTime.average`: the floor of the mean of the two totals, split back
   * into fields by successive division and remainder.
   */
  function Average(a: Time, b: Time): (r: Time)
    ensures Normalized(r)
    ensures TotalMs(r) == (TotalMs(a) + TotalMs(b)) / 2
  {
    var avg := (TotalMs(a) + TotalMs(b)) / 2;
    var h := avg / 3600000;
    var rest := avg % 3600000;
    var m := rest / 60000;
    var rest2 := rest % 60000;
    Time(h, m, rest2 / 1000, rest2 % 1000)
  }

  /** Averaging does not depend on the order of its operands. */
  lemma AverageSymmetric(a: Time, b: Time)
    ensures Average(a, b) == Average(b, a)
  {
  }

  /** The midpoint's total lies between the two totals. */
  lemma AverageBetween(a: Time, b: Time)
    ensures TotalMs(a) <= TotalMs(b) ==> TotalMs(a) <= TotalMs(Average(a, b)) <= TotalMs(b)
    ensures TotalMs(b) <= TotalMs(a) ==> TotalMs(b) <= TotalMs(Average(a, b)) <= TotalMs(a)
  {
  }

  /** For normalised operands the midpoint also lies between them in field order. */
  lemma AverageBetweenInOrder(a: Time, b: Time)
    requires Normalized(a) && Normalized(b) && Less(b, a)
    ensures !Less(Average(a, b), b) && !Less(a, Average(a, b))
  {
    LessMatchesTotalMs(b, a);
    LessMatchesTotalMs(Average(a, b), b);
    LessMatchesTotalMs(a, Average(a, b));
  }
}

/**
 * The few pieces of Python's `str` behaviour the subtitle code relies on:
 * `strip`, `split`, `join`, `in`, `replace`, `ljust`, `int(...)` and the
 * zero-padded integer formatting of f-strings.
 */
module Strings {
  import opened Wrappers

  /** Python's `str.isspace` for a single character (the characters `strip()` removes). */
  predicate IsSpace(c: char)
  {
    c == ' ' || ('\t' <= c <= '\r') || ('\U{1C}' <= c <= '\U{1F}') ||
    c == '\U{85}' || c == '\U{A0}' || c == '\U{1680}' ||
    ('\U{2000}' <= c <= '\U{200A}') || c == '\U{2028}' || c == '\U{2029}' ||
    c == '\U{202F}' || c == '\U{205F}' || c == '\U{3000}'
  }

  /**
   * The white space `int()` and `float()` skip around a number: that of
   * `str.isspace` except the separators U+001C to U+001F.
   */
  predicate IsNumberSpace(c: char)
  {
    IsSpace(c) && !('\U{1C}' <= c <= '\U{1F}')
  }

  predicate IsDigit(c: char)
  {
    '0' <= c <= '9'
  }

  predicate AllDigits(s: string)
  {
    forall k :: 0 <= k < |s| ==> IsDigit(s[k])
  }

  predicate NoSpace(s: string)
  {
    forall k :: 0 <= k < |s| ==> !IsSpace(s[k])
  }

  // ---------------------------------------------------------------- strip

  function TrimLeft(s: string): string
  {
    if s != [] && IsSpace(s[0]) then TrimLeft(s[1..]) else s
  }

  function TrimRight(s: string): string
  {
    if s != [] && IsSpace(s[|s| - 1]) then TrimRight(s[..|s| - 1]) else s
  }

  /** Python's `s.strip()`. */
  function Strip(s: string): string
  {
    TrimRight(TrimLeft(s))
  }

  lemma {:induction false} TrimLeftShape(s: string)
    ensures |TrimLeft(s)| <= |s| && TrimLeft(s) == s[|s| - |TrimLeft(s)|..]
    ensures TrimLeft(s) == [] || !IsSpace(TrimLeft(s)[0])
    decreases |s|
  {
    if s != [] && IsSpace(s[0]) {
      TrimLeftShape(s[1..]);
    }
  }

  lemma {:induction false} TrimRightShape(s: string)
    ensures |TrimRight(s)| <= |s| && TrimRight(s) == s[..|TrimRight(s)|]
    ensures TrimRight(s) == [] || !IsSpace(TrimRight(s)[|TrimRight(s)| - 1])
    decreases |s|
  {
    if s != [] && IsSpace(s[|s| - 1]) {
      TrimRightShape(s[..|s| - 1]);
    }
  }

  /** The strip of a string has no white space at either end. */
  lemma StripShape(s: string)
    ensures Strip(s) == [] || (!IsSpace(Strip(s)[0]) && !IsSpace(Strip(s)[|Strip(s)| - 1]))
  {
    TrimLeftShape(s);
    TrimRightShape(TrimLeft(s));
  }

  /** A string with no white space at either end is its own strip. */
  lemma StripNoop(s: string)
    requires s == [] || (!IsSpace(s[0]) && !IsSpace(s[|s| - 1]))
    ensures Strip(s) == s
  {
  }

  function TrimNumberLeft(s: string): string
  {
    if s != [] && IsNumberSpace(s[0]) then TrimNumberLeft(s[1..]) else s
  }

  function TrimNumberRight(s: string): string
  {
    if s != [] && IsNumberSpace(s[|s| - 1]) then TrimNumberRight(s[..|s| - 1]) else s
  }

  /** The white space `int()` and `float()` remove around a number. */
  function StripNumber(s: string): string
  {
    TrimNumberRight(TrimNumberLeft(s))
  }

  /** A string with no such white space at either end is left as it is. */
  lemma StripNumberNoop(s: string)
    requires s == [] || (!IsNumberSpace(s[0]) && !IsNumberSpace(s[|s| - 1]))
    ensures StripNumber(s) == s
  {
  }

  /** A separator in front of a number is not skipped. */
  lemma StripNumberKeepsSeparator(s: string)
    requires s != [] && '\U{1C}' <= s[0] <= '\U{1F}'
    ensures StripNumber(s) != [] && '\U{1C}' <= StripNumber(s)[0] <= '\U{1F}'
  {
    var t := TrimNumberLeft(s);
    assert t == s;
    TrimNumberRightPrefix(t);
  }

  lemma {:induction false} TrimNumberRightPrefix(s: string)
    requires s != [] && '\U{1C}' <= s[0] <= '\U{1F}'
    ensures TrimNumberRight(s) != [] && TrimNumberRight(s)[0] == s[0]
    decreases |s|
  {
    if IsNumberSpace(s[|s| - 1]) {
      TrimNumberRightPrefix(s[..|s| - 1]);
    }
  }

  lemma StripIdempotent(s: string)
    ensures Strip(Strip(s)) == Strip(s)
  {
    StripShape(s);
    StripNoop(Strip(s));
  }

  // ---------------------------------------------------------------- search

  predicate StartsWith(s: string, p: string)
  {
    |p| <= |s| && s[..|p|] == p
  }

  /** Python's `s.find(sub)`, as an option: the first index where `sub` occurs. */
  function Find(s: string, sub: string): (r: Option<nat>)
    ensures r.Some? ==> r.value + |sub| <= |s| && s[r.value..r.value + |sub|] == sub
    decreases |s|
  {
    if StartsWith(s, sub) then Some(0)
    else if s == [] then None
    else
      match Find(s[1..], sub)
      case None => None
      case Some(k) => Some(k + 1)
  }

  /** `Find` reports the first occurrence, and `None` only when there is none. */
  lemma {:induction false} FindIsFirst(s: string, sub: string)
    ensures Find(s, sub).Some? ==> forall k :: 0 <= k < Find(s, sub).value ==> !StartsWith(s[k..], sub)
    ensures Find(s, sub).None? ==> forall k :: 0 <= k <= |s| ==> !StartsWith(s[k..], sub)
    decreases |s|
  {
    if !StartsWith(s, sub) && s != [] {
      FindIsFirst(s[1..], sub);
      assert forall k :: 1 <= k <= |s| ==> s[k..] == s[1..][k - 1..];
    }
  }

  /** Python's `sub in s`. */
  predicate Contains(s: string, sub: string)
  {
    Find(s, sub).Some?
  }

  /** A string that contains `sub` contains each of its characters. */
  lemma ContainsChars(s: string, sub: string, k: nat)
    requires k < |sub|
    ensures Contains(s, sub) ==> sub[k] in s
  {
    if Contains(s, sub) {
      var p := Find(s, sub).value;
      assert s[p..p + |sub|][k] == s[p + k];
    }
  }

  /** A separator that starts with a character missing from `s` is not found in `s`. */
  lemma FindAbsent(s: string, sep: string)
    requires sep != [] && sep[0] !in s
    ensures Find(s, sep) == None
  {
  }

  /** The first occurrence of `sep` in `a + sep + b` is the one right after `a`. */
  lemma FindAfter(a: string, sep: string, b: string)
    requires sep != [] && sep[0] !in a
    ensures Find(a + sep + b, sep) == Some(|a|)
  {
    var s := a + sep + b;
    FindIsFirst(s, sep);
    assert StartsWith(s[|a|..], sep);
  }

  // ---------------------------------------------------------------- split, join

  /** Python's `s.split(sep)` for a non-empty separator. */
  function Split(s: string, sep: string): (parts: seq<string>)
    requires sep != []
    ensures |parts| >= 1
    decreases |s|
  {
    match Find(s, sep)
    case None => [s]
    case Some(k) => [s[..k]] + Split(s[k + |sep|..], sep)
  }

  lemma SplitAbsent(s: string, sep: string)
    requires sep != [] && sep[0] !in s
    ensures Split(s, sep) == [s]
  {
    FindAbsent(s, sep);
  }

  lemma SplitAfter(a: string, sep: string, b: string)
    requires sep != [] && sep[0] !in a
    ensures Split(a + sep + b, sep) == [a] + Split(b, sep)
  {
    FindAfter(a, sep, b);
    var s := a + sep + b;
    assert s[..|a|] == a;
    assert s[|a| + |sep|..] == b;
  }

  /** Python's `sep.join(parts)`. */
  function Join(parts: seq<string>, sep: string): string
  {
    if |parts| == 0 then ""
    else if |parts| == 1 then parts[0]
    else parts[0] + sep + Join(parts[1..], sep)
  }

  /** Splitting on a character that no part contains undoes joining with it. */
  lemma {:induction false} SplitJoin(parts: seq<string>, c: char)
    requires |parts| >= 1
    requires forall k :: 0 <= k < |parts| ==> c !in parts[k]
    ensures Split(Join(parts, [c]), [c]) == parts
  {
    if |parts| == 1 {
      SplitAbsent(parts[0], [c]);
    } else {
      SplitAfter(parts[0], [c], Join(parts[1..], [c]));
      SplitJoin(parts[1..], c);
    }
  }

  /** Joining two non-empty lists of parts puts one separator between their joins. */
  lemma {:induction false} JoinAppend(a: seq<string>, b: seq<string>, sep: string)
    requires |a| >= 1 && |b| >= 1
    ensures Join(a + b, sep) == Join(a, sep) + sep + Join(b, sep)
    decreases |a|
  {
    if |a| > 1 {
      assert (a + b)[1..] == a[1..] + b;
      JoinAppend(a[1..], b, sep);
    }
  }

  // ---------------------------------------------------------------- replace, ljust

  /** Python's `s.replace(from, to)` for a one-character `from`. */
  function ReplaceChar(s: string, from: char, to: string): (r: string)
    ensures from !in to ==> from !in r
    ensures from !in s ==> r == s
  {
    if s == [] then []
    else (if s[0] == from then to else [s[0]]) + ReplaceChar(s[1..], from, to)
  }

  /** Python's `s.ljust(width, fill)`. */
  function PadRight(s: string, width: nat, fill: char): (r: string)
    ensures |r| == if |s| < width then width else |s|
    ensures r[..|s|] == s
  {
    if |s| < width then s + seq(width - |s|, _ => fill) else s
  }

  // ---------------------------------------------------------------- integers

  function DigitChar(d: nat): (c: char)
    requires d < 10
    ensures IsDigit(c)
  {
    "0123456789"[d]
  }

  function DigitValue(c: char): (d: nat)
    requires IsDigit(c)
    ensures d < 10
  {
    (c as int - '0' as int) as nat
  }

  /** The value of a string of decimal digits, most significant first. */
  function DigitsValue(s: string): nat
    requires AllDigits(s)
  {
    if s == [] then 0 else DigitsValue(s[..|s| - 1]) * 10 + DigitValue(s[|s| - 1])
  }

  /** The decimal digits of `n`, without leading zeros. */
  function NatToDigits(n: nat): (r: string)
    ensures |r| >= 1 && AllDigits(r)
    ensures (n < 10 <==> |r| == 1) && (n < 100 ==> |r| <= 2) && (n < 1000 ==> |r| <= 3)
  {
    if n < 10 then [DigitChar(n)] else NatToDigits(n / 10) + [DigitChar(n % 10)]
  }

  lemma {:induction false} DigitsValueOfNat(n: nat)
    ensures DigitsValue(NatToDigits(n)) == n
  {
    if n >= 10 {
      var r := NatToDigits(n);
      assert r[..|r| - 1] == NatToDigits(n / 10);
      DigitsValueOfNat(n / 10);
    }
  }

  function Zeros(k: nat): (r: string)
    ensures |r| == k && AllDigits(r)
  {
    seq(k, _ => '0')
  }

  /** Leading zeros do not change the value of a digit string. */
  lemma {:induction false} DigitsValueLeadingZeros(k: nat, s: string)
    requires AllDigits(s)
    ensures AllDigits(Zeros(k) + s) && DigitsValue(Zeros(k) + s) == DigitsValue(s)
    decreases |s|
  {
    var z := Zeros(k) + s;
    if s == [] {
      assert z == Zeros(k);
      ZerosValue(k);
    } else {
      assert z[..|z| - 1] == Zeros(k) + s[..|s| - 1];
      DigitsValueLeadingZeros(k, s[..|s| - 1]);
    }
  }

  lemma {:induction false} ZerosValue(k: nat)
    ensures DigitsValue(Zeros(k)) == 0
  {
    if k > 0 {
      assert Zeros(k)[..k - 1] == Zeros(k - 1);
      ZerosValue(k - 1);
    }
  }

  /** Left-pads a digit string with zeros to `width` characters. */
  function ZeroPad(s: string, width: nat): (r: string)
    ensures |r| == if |s| < width then width else |s|
  {
    if |s| < width then Zeros(width - |s|) + s else s
  }

  /** Python's `f"{n:0{width}}"`: the sign first, then zeros up to `width` characters. */
  function FormatInt(n: int, width: nat): string
  {
    if n < 0 then "-" + ZeroPad(NatToDigits(-n), if width > 0 then width - 1 else 0)
    else ZeroPad(NatToDigits(n), width)
  }

  /** Python's `str(n)` for an integer. */
  function IntToString(n: int): string
  {
    FormatInt(n, 0)
  }

  /** A non-empty string of ASCII digits, read as a natural number. */
  function ParseNat(s: string): (r: Option<nat>)
    ensures r.Some? <==> s != [] && AllDigits(s)
  {
    if s != [] && AllDigits(s) then Some(DigitsValue(s)) else None
  }

  /**
   * Python's `int(s)` on the forms the model accepts: white space around an
   * optional sign and a non-empty run of ASCII digits.
   */
  function ParseInt(s: string): (r: Option<int>)
  {
    var t := StripNumber(s);
    if t != [] && (t[0] == '-' || t[0] == '+') then
      match ParseNat(t[1..])
      case None => None
      case Some(n) => var v: int := if t[0] == '-' then -(n as int) else n; Some(v)
    else
      match ParseNat(t)
      case None => None
      case Some(n) => Some(n)
  }

  /**
   * Python's `int(float(s))` on plain decimals: white space around an optional
   * sign, digits, and an optional fraction after a point (at least one digit in
   * all); the fraction is cut off, toward zero.
   */
  function ParseTruncatedDecimal(s: string): (r: Option<int>)
  {
    var t := StripNumber(s);
    var neg := t != [] && t[0] == '-';
    var u := if t != [] && (t[0] == '-' || t[0] == '+') then t[1..] else t;
    var p := Split(u, ".");
    if |p| > 2 || (|p| == 2 && p[0] == [] && p[1] == []) then None
    else if !AllDigits(p[0]) || (|p| == 2 && !AllDigits(p[1])) || (|p| == 1 && p[0] == []) then None
    else var v: int := if neg then -(DigitsValue(p[0]) as int) else DigitsValue(p[0]); Some(v)
  }

  lemma DigitsNoSpace(s: string)
    requires s != [] && AllDigits(s)
    ensures !IsSpace(s[0]) && !IsSpace(s[|s| - 1]) && s[0] != '-' && s[0] != '+'
  {
  }

  lemma ParseIntDigits(s: string)
    requires s != [] && AllDigits(s)
    ensures ParseInt(s) == Some(DigitsValue(s) as int)
  {
    DigitsNoSpace(s);
    StripNumberNoop(s);
    assert ParseNat(s) == Some(DigitsValue(s));
  }

  /** `int()` does not skip the separators U+001C to U+001F: a string starting with one is no number. */
  lemma ParseIntRejectsSeparator(s: string)
    requires s != [] && '\U{1C}' <= s[0] <= '\U{1F}'
    ensures ParseInt(s) == None
  {
    StripNumberKeepsSeparator(s);
  }

  /** Neither does `float()`: "\x1c5" is no decimal, though "\x1c" is white space to `strip()`. */
  lemma ParseTruncatedDecimalRejectsSeparator()
    ensures IsSpace('\U{1C}') && ParseTruncatedDecimal("\U{1C}5") == None
  {
    StripNumberNoop("\U{1C}5");
    SplitAbsent("\U{1C}5", ".");
    assert !IsDigit("\U{1C}5"[0]);
  }

  /** A zero-padded natural number reads back as itself. */
  lemma ParseIntPadded(n: nat, width: nat)
    ensures ParseInt(FormatInt(n, width)) == Some(n)
  {
    var d := NatToDigits(n);
    var s := FormatInt(n, width);
    var z := if |d| < width then width - |d| else 0;
    assert s == Zeros(z) + d;
    DigitsValueLeadingZeros(z, d);
    DigitsValueOfNat(n);
    ParseIntDigits(s);
  }

  /** `int(str(n))` is `n`. */
  lemma ParseIntToString(n: int)
    ensures ParseInt(IntToString(n)) == Some(n)
  {
    if n >= 0 {
      ParseIntPadded(n, 0);
    } else {
      var d := NatToDigits(-n);
      var s := IntToString(n);
      assert s == "-" + d;
      DigitsNoSpace(d);
      StripNumberNoop(s);
      assert s[1..] == d;
      DigitsValueOfNat(-n);
    }
  }

  /** `str(n)` is a non-empty run of digits, after a minus sign when `n` is negative. */
  lemma IntToStringShape(n: int)
    ensures |IntToString(n)| >= 1
    ensures forall k :: 0 <= k < |IntToString(n)| ==> IsDigit(IntToString(n)[k]) || IntToString(n)[k] == '-'
  {
    if n < 0 {
      assert IntToString(n) == "-" + NatToDigits(-n);
    } else {
      assert IntToString(n) == NatToDigits(n);
    }
  }

  /** Joining keeps the first character of the first part and the last character of the last part. */
  lemma {:induction false} JoinEnds(parts: seq<string>, sep: string)
    requires |parts| >= 1 && parts[0] != [] && parts[|parts| - 1] != []
    ensures Join(parts, sep) != []
    ensures Join(parts, sep)[0] == parts[0][0]
    ensures Join(parts, sep)[|Join(parts, sep)| - 1] == parts[|parts| - 1][|parts[|parts| - 1]| - 1]
  {
    if |parts| > 1 {
      var n := |parts|;
      assert parts == parts[..n - 1] + [parts[n - 1]];
      JoinAppend(parts[..n - 1], [parts[n - 1]], sep);
      assert Join(parts, sep) == parts[0] + sep + Join(parts[1..], sep);
    }
  }

  /** Stripping a string with no white space at either end, after which one line break may follow. */
  lemma StripBreak(x: string, brk: string)
    requires x != [] && !IsSpace(x[0]) && !IsSpace(x[|x| - 1])
    requires brk == "" || brk == "\n"
    ensures Strip(x + brk) == x
  {
    var s := x + brk;
    assert TrimLeft(s) == s;
    if brk == "\n" {
      assert s[..|s| - 1] == x;
      assert TrimRight(s) == TrimRight(x);
    }
    StripNoop(x);
  }
}

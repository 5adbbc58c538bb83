/**
 * The line grammar `SRTFile.parse` recognises, as functions: an ID line, a
 * time-range line and a block of text lines per entry, blank lines between
 * entries, under the `renumber` and `fix_errors` flags.  The imperative
 * parser in module Srt is proved to compute `Parse`.
 */
module Grammar {
  import opened Wrappers
  import opened Strings
  import Timestamp
  import opened Entries

  const Arrow := "-->"
  const UnicodeArrow := '\U{2192}'

  /** The lines the parser walks: the stripped content split at every newline. */
  function Lines(content: string): (r: seq<string>)
    ensures |r| >= 1
  {
    Split(Strip(content), "\n")
  }

  predicate Blank(line: string)
  {
    Strip(line) == []
  }

  /** A line that looks like a time range where an ID was expected. */
  predicate LooksLikeRange(l: string)
  {
    Contains(l, Arrow) || Contains(l, [UnicodeArrow])
  }

  /** What the ID line gives: the entry's id, where its time range is, the next fresh id. */
  datatype IdStep = IdStep(id: int, timeLine: nat, nextId: int, warnings: seq<Warning>)

  function ReadId(lines: seq<string>, i: nat, newId: int, renumber: bool, fix: bool): (r: Result<IdStep, ParseError>)
    requires i < |lines|
    ensures r.Ok? ==> i <= r.value.timeLine <= i + 1
    ensures r.Ok? && renumber ==> r.value.id == newId && r.value.nextId == newId + 1
    ensures r.Ok? && !renumber ==> r.value.nextId == newId
    ensures r.Ok? && !fix ==> r.value.warnings == []
  {
    if LooksLikeRange(Strip(lines[i])) then
      if !fix then Err(BadId(i + 1, lines[i]))
      else if renumber then Ok(IdStep(newId, i, newId + 1, [MissingId(i + 1, newId)]))
      else Err(MustRenumber(i + 1))
    else
      match ParseInt(lines[i])
      case None => Err(BadId(i + 1, lines[i]))
      case Some(n) =>
        if renumber then Ok(IdStep(newId, i + 1, newId + 1, []))
        else Ok(IdStep(n, i + 1, newId, []))
  }

  datatype RangeStep = RangeStep(start: Timestamp.Time, end: Timestamp.Time, warnings: seq<Warning>)

  /** The two times of a time-range line `line` (1-based number `n`), around ` --> `. */
  function ReadTimes(line: string, n: int): Result<(Timestamp.Time, Timestamp.Time), ParseError>
  {
    var parts := Split(line, " --> ");
    match Timestamp.Parse(Strip(parts[0]))
    case Err(e) => Err(BadTime(n, e))
    case Ok(start) =>
      if |parts| < 2 then Err(MissingSeparator(n))
      else
        match Timestamp.Parse(Strip(parts[1]))
        case Err(e) => Err(BadTime(n, e))
        case Ok(end) => Ok((start, end))
  }

  /**
   * The time-range line as the times are read from it, with its warnings:
   * the stripped line if it holds `-->`, in fix mode the line with `→`
   * replaced by `-->` otherwise.
   */
  function RangeLine(lines: seq<string>, i: nat, fix: bool): (r: Result<(string, seq<Warning>), ParseError>)
    ensures r.Ok? ==> i < |lines|
    ensures r.Ok? && !fix ==> r.value.1 == []
  {
    if i >= |lines| then Err(MissingLine(i + 1))
    else
      var l := Strip(lines[i]);
      if Contains(l, Arrow) then Ok((l, []))
      else if fix && Contains(l, [UnicodeArrow]) then
        Ok((ReplaceChar(l, UnicodeArrow, Arrow), [ReplacedArrow(i + 1)]))
      else Err(MissingTimeRange(i + 1, lines[i]))
  }

  /** The time-range line: `-->` (or, in fix mode, `→`), then two times around ` --> `. */
  function ReadRange(lines: seq<string>, i: nat, fix: bool): (r: Result<RangeStep, ParseError>)
    ensures r.Ok? ==> i < |lines|
    ensures r.Ok? && !fix ==> r.value.warnings == []
  {
    var line := RangeLine(lines, i, fix);
    if line.Err? then Err(line.error) else
    var times := ReadTimes(line.value.0, i + 1);
    if times.Err? then Err(times.error) else
    Ok(RangeStep(times.value.0, times.value.1, line.value.1))
  }

  /** A text line as the parser keeps it: stripped, not empty, without `-->`. */
  predicate CleanText(t: string)
  {
    t != [] && Strip(t) == t && !Contains(t, Arrow)
  }

  /** Every line of `ts` is a clean text line. */
  predicate AllClean(ts: seq<string>)
  {
    forall t :: t in ts ==> CleanText(t)
  }

  datatype TextStep = TextStep(text: seq<string>, next: nat)

  /** The text lines from `i` to the next blank line or the end, appended to `acc`. */
  function ReadText(lines: seq<string>, i: nat, acc: seq<string>): (r: Result<TextStep, ParseError>)
    requires i <= |lines|
    ensures r.Ok? ==> i <= r.value.next <= |lines|
    decreases |lines| - i
  {
    if i < |lines| && !Blank(lines[i]) then
      var l := Strip(lines[i]);
      if Contains(l, Arrow) then Err(UnexpectedTimeRange(i + 1, lines[i]))
      else ReadText(lines, i + 1, acc + [l])
    else Ok(TextStep(acc, i))
  }

  datatype Block = Block(entry: EntryData, next: nat, nextId: int, warnings: seq<Warning>)

  /** One entry, starting at the non-blank line `i`: its ID line first. */
  function ReadBlock(lines: seq<string>, i: nat, newId: int, renumber: bool, fix: bool): (r: Result<Block, ParseError>)
    requires i < |lines|
    ensures r.Ok? ==> i < r.value.next <= |lines|
    ensures r.Ok? && renumber ==> r.value.entry.id == newId && r.value.nextId == newId + 1
    ensures r.Ok? && !renumber ==> r.value.nextId == newId
    ensures r.Ok? && !fix ==> r.value.warnings == []
    ensures r.Ok? ==> r.value.entry.lineNumber == Some(i + 1) && AllClean(r.value.entry.text)
  {
    var ids := ReadId(lines, i, newId, renumber, fix);
    if ids.Err? then Err(ids.error) else ReadBlockAfterId(lines, i, ids.value, fix)
  }

  /** The rest of the entry at line `i` once its ID line has read as `ids`: the time-range line. */
  function ReadBlockAfterId(lines: seq<string>, i: nat, ids: IdStep, fix: bool): (r: Result<Block, ParseError>)
    requires i <= ids.timeLine
    ensures r.Ok? ==> i < r.value.next <= |lines|
    ensures r.Ok? ==> r.value.entry.id == ids.id && r.value.nextId == ids.nextId
    ensures r.Ok? && !fix ==> r.value.warnings == ids.warnings
    ensures r.Ok? ==> r.value.entry.lineNumber == Some(i + 1) && AllClean(r.value.entry.text)
  {
    var range := ReadRange(lines, ids.timeLine, fix);
    if range.Err? then Err(range.error) else ReadBlockText(lines, i, ids, range.value)
  }

  /** The rest of the entry at line `i` once its time range has read as `range`: the text lines. */
  function ReadBlockText(lines: seq<string>, i: nat, ids: IdStep, range: RangeStep): (r: Result<Block, ParseError>)
    requires i <= ids.timeLine < |lines|
    ensures r.Ok? ==> i < r.value.next <= |lines|
    ensures r.Ok? ==> r.value.entry.id == ids.id && r.value.nextId == ids.nextId
    ensures r.Ok? ==> r.value.warnings == ids.warnings + range.warnings
    ensures r.Ok? ==> r.value.entry.lineNumber == Some(i + 1) && AllClean(r.value.entry.text)
  {
    var text := ReadText(lines, ids.timeLine + 1, []);
    ReadTextClean(lines, ids.timeLine + 1, []);
    if text.Err? then Err(text.error) else
    Ok(Block(EntryData(ids.id, range.start, range.end, text.value.text, Some(i + 1)),
             text.value.next, ids.nextId, ids.warnings + range.warnings))
  }

  datatype Parsed = Parsed(entries: seq<EntryData>, warnings: seq<Warning>)

  /** The rest of the parse from line `i`, with the entries and warnings gathered so far. */
  function ParseFrom(lines: seq<string>, i: nat, newId: int, renumber: bool, fix: bool,
                     entries: seq<EntryData>, warnings: seq<Warning>): Result<Parsed, ParseError>
    decreases |lines| - i, 2
  {
    if i >= |lines| then Ok(Parsed(entries, warnings))
    else ParseLineFrom(lines, i, newId, renumber, fix, entries, warnings)
  }

  /** The rest of the parse from line `i`: a blank line is skipped, anything else starts an entry. */
  function ParseLineFrom(lines: seq<string>, i: nat, newId: int, renumber: bool, fix: bool,
                         entries: seq<EntryData>, warnings: seq<Warning>): Result<Parsed, ParseError>
    requires i < |lines|
    decreases |lines| - i, 1
  {
    if Blank(lines[i]) then ParseFrom(lines, i + 1, newId, renumber, fix, entries, warnings)
    else ParseEntryFrom(lines, i, newId, renumber, fix, entries, warnings)
  }

  /** The rest of the parse from the non-blank line `i`: one entry, then the lines after it. */
  function ParseEntryFrom(lines: seq<string>, i: nat, newId: int, renumber: bool, fix: bool,
                          entries: seq<EntryData>, warnings: seq<Warning>): Result<Parsed, ParseError>
    requires i < |lines|
    decreases |lines| - i, 0
  {
    var b := ReadBlock(lines, i, newId, renumber, fix);
    if b.Err? then Err(b.error)
    else ParseFrom(lines, b.value.next, b.value.nextId, renumber, fix,
                   entries + [b.value.entry], warnings + b.value.warnings)
  }

  /**
   * `SRTFile.parse` as a function of the file content and the two flags.
   * Without fix mode it never warns; with renumbering the `k`-th entry
   * (0-based, file order) has id `k + 1`, one fresh id per entry.
   */
  function Parse(content: string, renumber: bool, fix: bool): (r: Result<Parsed, ParseError>)
    ensures !fix && r.Ok? ==> r.value.warnings == []
    ensures renumber && r.Ok? ==> Numbered(r.value.entries)
  {
    var lines := Lines(content);
    StrictQuietFrom(lines, 0, 1, renumber, []);
    RenumberFrom(lines, 0, 1, fix, [], []);
    ParseFrom(lines, 0, 1, renumber, fix, [], [])
  }

  // Properties of the parse

  /** Entry `k` (0-based, file order) has id `k + 1`. */
  predicate Numbered(es: seq<EntryData>)
  {
    forall k :: 0 <= k < |es| ==> es[k].id == k + 1
  }

  /** With renumbering, entry `k` gets id `k + 1`: one fresh id per entry. */
  lemma {:induction false} RenumberFrom(lines: seq<string>, i: nat, newId: int, fix: bool,
                                        entries: seq<EntryData>, warnings: seq<Warning>)
    requires newId == |entries| + 1 && Numbered(entries)
    ensures var r := ParseFrom(lines, i, newId, true, fix, entries, warnings);
      r.Ok? ==> Numbered(r.value.entries)
    decreases |lines| - i
  {
    if i < |lines| {
      if Blank(lines[i]) {
        assert ParseFrom(lines, i, newId, true, fix, entries, warnings) ==
               ParseFrom(lines, i + 1, newId, true, fix, entries, warnings);
        RenumberFrom(lines, i + 1, newId, fix, entries, warnings);
      } else {
        assert ParseFrom(lines, i, newId, true, fix, entries, warnings) ==
               ParseEntryFrom(lines, i, newId, true, fix, entries, warnings);
        var b := ReadBlock(lines, i, newId, true, fix);
        if b.Ok? {
          var next := entries + [b.value.entry];
          assert Numbered(next) by {
            assert forall k :: 0 <= k < |entries| ==> next[k] == entries[k];
          }
          RenumberFrom(lines, b.value.next, b.value.nextId, fix, next, warnings + b.value.warnings);
        }
      }
    }
  }

  /** Without fix mode no warning is ever added. */
  lemma {:induction false} StrictQuietFrom(lines: seq<string>, i: nat, newId: int, renumber: bool,
                                           entries: seq<EntryData>)
    ensures var r := ParseFrom(lines, i, newId, renumber, false, entries, []);
      r.Ok? ==> r.value.warnings == []
    decreases |lines| - i
  {
    if i < |lines| {
      if Blank(lines[i]) {
        assert ParseFrom(lines, i, newId, renumber, false, entries, []) ==
               ParseFrom(lines, i + 1, newId, renumber, false, entries, []);
        StrictQuietFrom(lines, i + 1, newId, renumber, entries);
      } else {
        assert ParseFrom(lines, i, newId, renumber, false, entries, []) ==
               ParseEntryFrom(lines, i, newId, renumber, false, entries, []);
        var b := ReadBlock(lines, i, newId, renumber, false);
        if b.Ok? {
          assert [] + b.value.warnings == [];
          StrictQuietFrom(lines, b.value.next, b.value.nextId, renumber, entries + [b.value.entry]);
        }
      }
    }
  }

  /**
   * The text lines read from `i`: the non-blank lines up to the next blank
   * line or the end, each stripped, after `acc`.
   */
  lemma {:induction false} ReadTextShape(lines: seq<string>, i: nat, acc: seq<string>)
    requires i <= |lines|
    ensures var r := ReadText(lines, i, acc);
      r.Ok? ==> (r.value.next == |lines| || Blank(lines[r.value.next])) &&
                |r.value.text| == |acc| + (r.value.next - i) && r.value.text[..|acc|] == acc &&
                forall j :: i <= j < r.value.next ==>
                  !Blank(lines[j]) && r.value.text[|acc| + (j - i)] == Strip(lines[j])
    decreases |lines| - i
  {
    if i < |lines| && !Blank(lines[i]) {
      var l := Strip(lines[i]);
      if !Contains(l, Arrow) {
        ReadTextShape(lines, i + 1, acc + [l]);
        var r := ReadText(lines, i + 1, acc + [l]);
        assert ReadText(lines, i, acc) == r;
        if r.Ok? {
          var t := r.value.text;
          assert t[..|acc| + 1] == acc + [l];
          assert t[..|acc|] == (acc + [l])[..|acc|];
          forall j | i <= j < r.value.next
            ensures !Blank(lines[j]) && t[|acc| + (j - i)] == Strip(lines[j])
          {
            if j == i {
              assert t[|acc|] == (acc + [l])[|acc|];
            } else {
              assert |acc| + (j - i) == |acc + [l]| + (j - (i + 1));
            }
          }
        }
      }
    }
  }

  /** The text block fails only at a non-blank line holding `-->`. */
  lemma {:induction false} ReadTextFails(lines: seq<string>, i: nat, acc: seq<string>)
    requires i <= |lines|
    ensures var r := ReadText(lines, i, acc);
      r.Err? ==> exists j :: i <= j < |lines| && !Blank(lines[j]) && Contains(Strip(lines[j]), Arrow) &&
                             r.error == UnexpectedTimeRange(j + 1, lines[j])
    decreases |lines| - i
  {
    if i < |lines| && !Blank(lines[i]) && !Contains(Strip(lines[i]), Arrow) {
      ReadTextFails(lines, i + 1, acc + [Strip(lines[i])]);
    }
  }

  /** Every text line read is stripped, not empty and free of `-->`. */
  lemma {:induction false} ReadTextClean(lines: seq<string>, i: nat, acc: seq<string>)
    requires i <= |lines|
    requires AllClean(acc)
    ensures var r := ReadText(lines, i, acc);
      r.Ok? ==> AllClean(r.value.text)
    decreases |lines| - i
  {
    if i < |lines| && !Blank(lines[i]) {
      var l := Strip(lines[i]);
      if !Contains(l, Arrow) {
        StripIdempotent(lines[i]);
        assert CleanText(l);
        assert AllClean(acc + [l]);
        ReadTextClean(lines, i + 1, acc + [l]);
      }
    }
  }

  /** A `-->` in a text line is fatal, whatever the flags: the text block fails at the first one. */
  lemma {:induction false} ReadTextArrowFatal(lines: seq<string>, i: nat, j: nat, acc: seq<string>)
    requires i <= j < |lines|
    requires forall k :: i <= k <= j ==> !Blank(lines[k])
    requires Contains(Strip(lines[j]), Arrow)
    ensures ReadText(lines, i, acc).Err?
    decreases j - i
  {
    if !Contains(Strip(lines[i]), Arrow) {
      ReadTextArrowFatal(lines, i + 1, j, acc + [Strip(lines[i])]);
    }
  }

  /** Every text line of `es` is stripped, not empty and free of `-->`. */
  predicate CleanTexts(es: seq<EntryData>)
  {
    forall k :: 0 <= k < |es| ==> AllClean(es[k].text)
  }

  lemma {:induction false} CleanTextFrom(lines: seq<string>, i: nat, newId: int, renumber: bool, fix: bool,
                                         entries: seq<EntryData>, warnings: seq<Warning>)
    requires CleanTexts(entries)
    ensures var r := ParseFrom(lines, i, newId, renumber, fix, entries, warnings);
      r.Ok? ==> CleanTexts(r.value.entries)
    decreases |lines| - i
  {
    if i < |lines| {
      if Blank(lines[i]) {
        assert ParseFrom(lines, i, newId, renumber, fix, entries, warnings) ==
               ParseFrom(lines, i + 1, newId, renumber, fix, entries, warnings);
        CleanTextFrom(lines, i + 1, newId, renumber, fix, entries, warnings);
      } else {
        assert ParseFrom(lines, i, newId, renumber, fix, entries, warnings) ==
               ParseEntryFrom(lines, i, newId, renumber, fix, entries, warnings);
        var b := ReadBlock(lines, i, newId, renumber, fix);
        if b.Ok? {
          var next := entries + [b.value.entry];
          assert CleanTexts(next) by {
            assert forall k :: 0 <= k < |entries| ==> next[k] == entries[k];
          }
          CleanTextFrom(lines, b.value.next, b.value.nextId, renumber, fix, next, warnings + b.value.warnings);
        }
      }
    }
  }

  /** Every parsed text line is stripped, not empty and free of `-->`. */
  lemma ParseCleanText(content: string, renumber: bool, fix: bool)
    ensures var r := Parse(content, renumber, fix);
      r.Ok? ==> forall k, t :: 0 <= k < |r.value.entries| && t in r.value.entries[k].text ==> CleanText(t)
  {
    CleanTextFrom(Lines(content), 0, 1, renumber, fix, [], []);
  }

  /**
   * The entries carry 1-based line numbers below `bound`, strictly increasing
   * in file order.
   */
  predicate Ascending(es: seq<EntryData>, bound: int)
  {
    (forall k :: 0 <= k < |es| ==> es[k].lineNumber.Some? && 1 <= es[k].lineNumber.value < bound) &&
    (forall k, l :: 0 <= k < l < |es| ==> es[k].lineNumber.value < es[l].lineNumber.value)
  }

  lemma AscendingAppend(es: seq<EntryData>, e: EntryData, bound: int, newBound: int)
    requires Ascending(es, bound)
    requires e.lineNumber.Some? && 1 <= bound <= e.lineNumber.value < newBound
    ensures Ascending(es + [e], newBound)
  {
    var next := es + [e];
    forall k | 0 <= k < |next|
      ensures next[k].lineNumber.Some? && 1 <= next[k].lineNumber.value < newBound
    {
      if k < |es| {
        assert next[k] == es[k];
      }
    }
    forall k, l | 0 <= k < l < |next|
      ensures next[k].lineNumber.value < next[l].lineNumber.value
    {
      assert next[k] == es[k];
      if l < |es| {
        assert next[l] == es[l];
      }
    }
  }

  lemma AscendingWiden(es: seq<EntryData>, bound: int, newBound: int)
    requires Ascending(es, bound) && bound <= newBound
    ensures Ascending(es, newBound)
  {
  }

  lemma {:induction false} AscendingFrom(lines: seq<string>, i: nat, newId: int, renumber: bool, fix: bool,
                                         entries: seq<EntryData>, warnings: seq<Warning>)
    requires i <= |lines| && Ascending(entries, i + 1)
    ensures var r := ParseFrom(lines, i, newId, renumber, fix, entries, warnings);
      r.Ok? ==> Ascending(r.value.entries, |lines| + 1)
    decreases |lines| - i
  {
    if i < |lines| {
      if Blank(lines[i]) {
        assert ParseFrom(lines, i, newId, renumber, fix, entries, warnings) ==
               ParseFrom(lines, i + 1, newId, renumber, fix, entries, warnings);
        AscendingWiden(entries, i + 1, i + 2);
        AscendingFrom(lines, i + 1, newId, renumber, fix, entries, warnings);
      } else {
        assert ParseFrom(lines, i, newId, renumber, fix, entries, warnings) ==
               ParseEntryFrom(lines, i, newId, renumber, fix, entries, warnings);
        var b := ReadBlock(lines, i, newId, renumber, fix);
        if b.Ok? {
          var next := entries + [b.value.entry];
          AscendingAppend(entries, b.value.entry, i + 1, b.value.next + 1);
          AscendingFrom(lines, b.value.next, b.value.nextId, renumber, fix, next, warnings + b.value.warnings);
        }
      }
    } else {
      assert ParseFrom(lines, i, newId, renumber, fix, entries, warnings) == Ok(Parsed(entries, warnings));
      AscendingWiden(entries, i + 1, |lines| + 1);
    }
  }

  /**
   * Each entry's line number is the 1-based number of its ID line (of its
   * time-range line when a missing ID was recovered): within the file and
   * strictly increasing.
   */
  lemma ParseLineNumbers(content: string, renumber: bool, fix: bool)
    ensures var r := Parse(content, renumber, fix);
      r.Ok? ==> Ascending(r.value.entries, |Lines(content)| + 1)
  {
    AscendingFrom(Lines(content), 0, 1, renumber, fix, [], []);
  }

  /**
   * An ID line that looks like a time range: fatal in strict mode, fatal in
   * fix mode without renumbering; with both flags it takes a fresh id with a
   * warning and the same line is read again as the time-range line.
   */
  lemma MissingIdCases(lines: seq<string>, i: nat, newId: int, renumber: bool, fix: bool)
    requires i < |lines| && LooksLikeRange(Strip(lines[i]))
    ensures !fix ==> ReadBlock(lines, i, newId, renumber, fix) == Err(BadId(i + 1, lines[i]))
    ensures fix && !renumber ==> ReadBlock(lines, i, newId, renumber, fix) == Err(MustRenumber(i + 1))
    ensures fix && renumber ==>
      ReadBlock(lines, i, newId, renumber, fix) ==
      ReadBlockAfterId(lines, i, IdStep(newId, i, newId + 1, [MissingId(i + 1, newId)]), fix)
  {
  }

  /** Whatever strict mode reads as an entry, fix mode reads the same way. */
  lemma BlockFixConservative(lines: seq<string>, i: nat, newId: int, renumber: bool)
    requires i < |lines|
    ensures var b := ReadBlock(lines, i, newId, renumber, false);
      b.Ok? ==> ReadBlock(lines, i, newId, renumber, true) == b
  {
    var ids := ReadId(lines, i, newId, renumber, false);
    if ids.Ok? {
      assert ReadId(lines, i, newId, renumber, true) == ids;
      assert ReadBlock(lines, i, newId, renumber, false) == ReadBlockAfterId(lines, i, ids.value, false);
      assert ReadBlock(lines, i, newId, renumber, true) == ReadBlockAfterId(lines, i, ids.value, true);
      var t := ids.value.timeLine;
      var line := RangeLine(lines, t, false);
      if line.Ok? {
        assert RangeLine(lines, t, true) == line;
        assert ReadRange(lines, t, true) == ReadRange(lines, t, false);
      }
    }
  }

  lemma {:induction false} FixConservativeFrom(lines: seq<string>, i: nat, newId: int, renumber: bool,
                                               entries: seq<EntryData>, warnings: seq<Warning>)
    ensures var r := ParseFrom(lines, i, newId, renumber, false, entries, warnings);
      r.Ok? ==> ParseFrom(lines, i, newId, renumber, true, entries, warnings) == r
    decreases |lines| - i
  {
    if i < |lines| {
      if Blank(lines[i]) {
        assert ParseFrom(lines, i, newId, renumber, false, entries, warnings) ==
               ParseFrom(lines, i + 1, newId, renumber, false, entries, warnings);
        assert ParseFrom(lines, i, newId, renumber, true, entries, warnings) ==
               ParseFrom(lines, i + 1, newId, renumber, true, entries, warnings);
        FixConservativeFrom(lines, i + 1, newId, renumber, entries, warnings);
      } else {
        assert ParseFrom(lines, i, newId, renumber, false, entries, warnings) ==
               ParseEntryFrom(lines, i, newId, renumber, false, entries, warnings);
        assert ParseFrom(lines, i, newId, renumber, true, entries, warnings) ==
               ParseEntryFrom(lines, i, newId, renumber, true, entries, warnings);
        var b := ReadBlock(lines, i, newId, renumber, false);
        if b.Ok? {
          BlockFixConservative(lines, i, newId, renumber);
          FixConservativeFrom(lines, b.value.next, b.value.nextId, renumber,
                              entries + [b.value.entry], warnings + b.value.warnings);
        }
      }
    }
  }

  /** Fix mode accepts every file strict mode accepts, with the same entries and no warnings. */
  lemma ParseFixConservative(content: string, renumber: bool)
    ensures var r := Parse(content, renumber, false);
      r.Ok? ==> Parse(content, renumber, true) == r && r.value.warnings == []
  {
    FixConservativeFrom(Lines(content), 0, 1, renumber, [], []);
  }

  /** `b` is `a` with (possibly) other ids. */
  predicate SameButIds(a: seq<EntryData>, b: seq<EntryData>)
  {
    |a| == |b| && forall k :: 0 <= k < |a| ==> b[k] == a[k].(id := b[k].id)
  }

  lemma SameButIdsAppend(a: seq<EntryData>, b: seq<EntryData>, x: EntryData, y: EntryData)
    requires SameButIds(a, b) && y == x.(id := y.id)
    ensures SameButIds(a + [x], b + [y])
  {
    assert forall k :: 0 <= k < |a| ==> (a + [x])[k] == a[k] && (b + [y])[k] == b[k];
  }

  /** Whatever is read as an entry without renumbering is read with renumbering too, with the fresh id. */
  lemma BlockRenumber(lines: seq<string>, i: nat, keptId: int, newId: int, fix: bool)
    requires i < |lines|
    ensures var b := ReadBlock(lines, i, keptId, false, fix);
      b.Ok? ==> var c := ReadBlock(lines, i, newId, true, fix);
        c.Ok? && c.value == b.value.(entry := b.value.entry.(id := newId), nextId := newId + 1)
  {
    var ids := ReadId(lines, i, keptId, false, fix);
    if ids.Ok? {
      var numbered := ReadId(lines, i, newId, true, fix);
      assert numbered == Ok(ids.value.(id := newId, nextId := newId + 1));
      assert ReadBlock(lines, i, keptId, false, fix) == ReadBlockAfterId(lines, i, ids.value, fix);
      assert ReadBlock(lines, i, newId, true, fix) == ReadBlockAfterId(lines, i, numbered.value, fix);
      var range := ReadRange(lines, ids.value.timeLine, fix);
      if range.Ok? {
        assert ReadBlockAfterId(lines, i, ids.value, fix) == ReadBlockText(lines, i, ids.value, range.value);
        assert ReadBlockAfterId(lines, i, numbered.value, fix) == ReadBlockText(lines, i, numbered.value, range.value);
      }
    }
  }

  lemma {:induction false} RenumberOnlyIdsFrom(lines: seq<string>, i: nat, keptId: int, newId: int, fix: bool,
                                               kept: seq<EntryData>, renumbered: seq<EntryData>,
                                               warnings: seq<Warning>)
    requires SameButIds(kept, renumbered)
    ensures var r := ParseFrom(lines, i, keptId, false, fix, kept, warnings);
      r.Ok? ==> var q := ParseFrom(lines, i, newId, true, fix, renumbered, warnings);
        q.Ok? && SameButIds(r.value.entries, q.value.entries) && q.value.warnings == r.value.warnings
    decreases |lines| - i
  {
    if i < |lines| {
      if Blank(lines[i]) {
        assert ParseFrom(lines, i, keptId, false, fix, kept, warnings) ==
               ParseFrom(lines, i + 1, keptId, false, fix, kept, warnings);
        assert ParseFrom(lines, i, newId, true, fix, renumbered, warnings) ==
               ParseFrom(lines, i + 1, newId, true, fix, renumbered, warnings);
        RenumberOnlyIdsFrom(lines, i + 1, keptId, newId, fix, kept, renumbered, warnings);
      } else {
        assert ParseFrom(lines, i, keptId, false, fix, kept, warnings) ==
               ParseEntryFrom(lines, i, keptId, false, fix, kept, warnings);
        assert ParseFrom(lines, i, newId, true, fix, renumbered, warnings) ==
               ParseEntryFrom(lines, i, newId, true, fix, renumbered, warnings);
        var b := ReadBlock(lines, i, keptId, false, fix);
        if b.Ok? {
          BlockRenumber(lines, i, keptId, newId, fix);
          var c := ReadBlock(lines, i, newId, true, fix);
          SameButIdsAppend(kept, renumbered, b.value.entry, c.value.entry);
          RenumberOnlyIdsFrom(lines, b.value.next, keptId, newId + 1, fix, kept + [b.value.entry],
                              renumbered + [c.value.entry], warnings + b.value.warnings);
        }
      }
    }
  }

  /**
   * Renumbering accepts every file the plain parse accepts, with the same
   * entries, times, texts, line numbers and warnings; only the ids differ.
   */
  lemma ParseRenumberOnlyIds(content: string, fix: bool)
    ensures var r := Parse(content, false, fix);
      r.Ok? ==> var q := Parse(content, true, fix);
        q.Ok? && SameButIds(r.value.entries, q.value.entries) && q.value.warnings == r.value.warnings
  {
    RenumberOnlyIdsFrom(Lines(content), 0, 1, 1, fix, [], [], []);
  }
}

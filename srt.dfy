/**
 * The objects of the subtitle tool: `SRTEntry`, whose times the validator
 * reassigns in place, and `SRTFile`, which owns the entries in file order,
 * renders them, and parses SubRip text line by line.
 */
module Srt {
  import opened Wrappers
  import opened Strings
  import Timestamp
  import opened Entries
  import Grammar

  /** `SRTEntry`. */
  class Entry {
    var id: int
    var startTime: Timestamp.Time
    var endTime: Timestamp.Time
    var text: seq<string>
    var lineNumber: Option<int>

    constructor (id: int, startTime: Timestamp.Time, endTime: Timestamp.Time,
                 text: seq<string>, lineNumber: Option<int>)
      ensures Data() == EntryData(id, startTime, endTime, text, lineNumber)
    {
      this.id := id;
      this.startTime := startTime;
      this.endTime := endTime;
      this.text := text;
      this.lineNumber := lineNumber;
    }

    /** The entry's current fields as a value. */
    function Data(): EntryData
      reads this
    {
      EntryData(id, startTime, endTime, text, lineNumber)
    }
  }

  /** The current fields of a list of entries, in order. */
  function Snapshot(es: seq<Entry>): (r: seq<EntryData>)
    reads es
    ensures |r| == |es|
    ensures forall k :: 0 <= k < |es| ==> r[k] == es[k].Data()
  {
    if es == [] then [] else Snapshot(es[..|es| - 1]) + [es[|es| - 1].Data()]
  }

  /** No entry object occurs twice in the list. */
  predicate Distinct(es: seq<Entry>)
  {
    forall i, j :: 0 <= i < j < |es| ==> es[i] != es[j]
  }

  lemma {:induction false} SnapshotIs(es: seq<Entry>, data: seq<EntryData>)
    requires |es| == |data|
    requires forall k :: 0 <= k < |es| ==> es[k].Data() == data[k]
    ensures Snapshot(es) == data
  {
  }

  lemma DistinctAppend(es: seq<Entry>, e: Entry)
    requires Distinct(es) && e !in es
    ensures Distinct(es + [e])
  {
  }

  /** `SRTFile`: the entries in file order and the warnings of the parse that built it. */
  class SrtFile {
    var entries: seq<Entry>
    var warnings: seq<Warning>

    constructor (entries: seq<Entry>)
      ensures this.entries == entries && warnings == []
    {
      this.entries := entries;
      this.warnings := [];
    }

    function Contents(): seq<EntryData>
      reads this, entries
    {
      Snapshot(entries)
    }

    /** `SRTFile.add_entry`. */
    method AddEntry(e: Entry)
      modifies this
      ensures entries == old(entries) + [e] && warnings == old(warnings)
    {
      entries := entries + [e];
    }

    /** `SRTFile.__str__`. */
    function ToString(): (r: string)
      reads this, entries
      ensures entries == [] ==> r == ""
    {
      FileToString(Contents())
    }

    /**
     * `SRTFile.parse`: walks the lines of `content` with an index, a counter
     * for renumbered ids and a warning list, building one new entry per block.
     */
    static method Parse(content: string, renumber: bool, fixErrors: bool) returns (r: Result<SrtFile, ParseError>)
      ensures r.Err? ==> Grammar.Parse(content, renumber, fixErrors) == Err(r.error)
      ensures r.Ok? ==> Grammar.Parse(content, renumber, fixErrors) ==
                          Ok(Grammar.Parsed(r.value.Contents(), r.value.warnings))
      ensures r.Ok? ==> fresh(r.value) && Distinct(r.value.entries)
    {
      var lines := Grammar.Lines(content);
      var parsed := ReadEntries(lines, renumber, fixErrors);
      if parsed.Err? {
        return Err(parsed.error);
      }
      var (entries, warnings) := parsed.value;
      ghost var contents := Snapshot(entries);
      var f := new SrtFile(entries);
      f.warnings := warnings;
      assert f.Contents() == contents;
      return Ok(f);
    }

    /** The loop of `SRTFile.parse` over the lines, skipping blank lines between entries. */
    static method ReadEntries(lines: seq<string>, renumber: bool, fixErrors: bool)
      returns (r: Result<(seq<Entry>, seq<Warning>), ParseError>)
      ensures r.Err? ==> Grammar.ParseFrom(lines, 0, 1, renumber, fixErrors, [], []) == Err(r.error)
      ensures r.Ok? ==> Grammar.ParseFrom(lines, 0, 1, renumber, fixErrors, [], []) ==
                          Ok(Grammar.Parsed(Snapshot(r.value.0), r.value.1))
      ensures r.Ok? ==> Distinct(r.value.0)
    {
      var entries: seq<Entry> := [];
      var newId := 1;
      var warnings: seq<Warning> := [];
      var i := 0;
      ghost var data: seq<EntryData> := [];
      ghost var spec := Grammar.ParseFrom(lines, 0, 1, renumber, fixErrors, [], []);
      while i < |lines|
        invariant 0 <= i <= |lines|
        invariant spec == Grammar.ParseFrom(lines, i, newId, renumber, fixErrors, data, warnings)
        invariant |entries| == |data|
        invariant forall k :: 0 <= k < |entries| ==> entries[k].Data() == data[k]
        invariant Distinct(entries)
        decreases |lines| - i
      {
        var l := Strip(lines[i]);
        if |l| == 0 {
          i := i + 1;
        } else {
          var step := ReadBlock(lines, i, newId, renumber, fixErrors, data, warnings);
          if step.Err? {
            return Err(step.error);
          }
          var (entry, b) := step.value;
          DistinctAppend(entries, entry);
          entries := entries + [entry];
          data := data + [b.entry];
          warnings := warnings + b.warnings;
          newId := b.nextId;
          i := b.next;
        }
      }
      SnapshotIs(entries, data);
      return Ok((entries, warnings));
    }

    /** One entry of `SRTFile.parse`, as a new `SRTEntry`, and where the walk goes on. */
    static method ReadBlock(lines: seq<string>, i: nat, newId: int, renumber: bool, fixErrors: bool,
                            ghost data: seq<EntryData>, ghost warnings: seq<Warning>)
      returns (r: Result<(Entry, Grammar.Block), ParseError>)
      requires i < |lines| && !Grammar.Blank(lines[i])
      ensures r.Err? ==> Grammar.ParseEntryFrom(lines, i, newId, renumber, fixErrors, data, warnings) == Err(r.error)
      ensures r.Ok? ==> fresh(r.value.0) && r.value.0.Data() == r.value.1.entry && i < r.value.1.next <= |lines|
      ensures r.Ok? ==>
        Grammar.ParseEntryFrom(lines, i, newId, renumber, fixErrors, data, warnings)
        == Grammar.ParseFrom(lines, r.value.1.next, r.value.1.nextId, renumber, fixErrors,
                             data + [r.value.1.entry], warnings + r.value.1.warnings)
    {
      var block := ReadEntry(lines, i, newId, renumber, fixErrors);
      if block.Err? {
        return Err(block.error);
      }
      var b := block.value;
      var entry := new Entry(b.entry.id, b.entry.start, b.entry.end, b.entry.text, b.entry.lineNumber);
      return Ok((entry, b));
    }

    /** One entry of `SRTFile.parse`: its ID line, its time range and its text lines. */
    static method ReadEntry(lines: seq<string>, i: nat, newId: int, renumber: bool, fixErrors: bool)
      returns (r: Result<Grammar.Block, ParseError>)
      requires i < |lines|
      ensures r == Grammar.ReadBlock(lines, i, newId, renumber, fixErrors)
    {
      var idLine := ReadIdLine(lines, i, newId, renumber, fixErrors);
      if idLine.Err? {
        return Err(idLine.error);
      }
      var ids := idLine.value;
      assert Grammar.ReadBlock(lines, i, newId, renumber, fixErrors) == Grammar.ReadBlockAfterId(lines, i, ids, fixErrors);
      var rangeLine := ReadTimeRange(lines, ids.timeLine, fixErrors);
      if rangeLine.Err? {
        return Err(rangeLine.error);
      }
      var range := rangeLine.value;
      assert Grammar.ReadBlockAfterId(lines, i, ids, fixErrors) == Grammar.ReadBlockText(lines, i, ids, range);
      var textLines := ReadTextLines(lines, ids.timeLine + 1);
      if textLines.Err? {
        return Err(textLines.error);
      }
      var text := textLines.value;
      var entry := EntryData(ids.id, range.start, range.end, text.text, Some(i + 1));
      return Ok(Grammar.Block(entry, text.next, ids.nextId, ids.warnings + range.warnings));
    }

    /**
     * The ID line of `SRTFile.parse`: an integer, or (in fix mode with
     * renumbering) a time range standing where the ID should be, which is
     * then read again as the time range.
     */
    static method ReadIdLine(lines: seq<string>, i: nat, newId: int, renumber: bool, fixErrors: bool)
      returns (r: Result<Grammar.IdStep, ParseError>)
      requires i < |lines|
      ensures r == Grammar.ReadId(lines, i, newId, renumber, fixErrors)
    {
      var l := Strip(lines[i]);
      var lineNumber := i + 1;
      var id: int;
      var next := i;
      var nextId := newId;
      var warnings: seq<Warning> := [];
      if Contains(l, Grammar.Arrow) || Contains(l, [Grammar.UnicodeArrow]) {
        if !fixErrors {
          return Err(BadId(lineNumber, lines[i]));
        }
        if renumber {
          id := nextId;
          nextId := nextId + 1;
          warnings := warnings + [MissingId(lineNumber, id)];
          assert Grammar.LooksLikeRange(Strip(lines[i]));
          assert warnings == [MissingId(i + 1, newId)];
          assert Grammar.ReadId(lines, i, newId, renumber, fixErrors) == Ok(Grammar.IdStep(id, next, nextId, warnings));
        } else {
          return Err(MustRenumber(lineNumber));
        }
      } else {
        var parsed := ParseInt(lines[i]);
        if parsed.None? {
          return Err(BadId(next + 1, lines[i]));
        }
        id := parsed.value;
        next := next + 1;
        if renumber {
          id := nextId;
          nextId := nextId + 1;
          assert Grammar.ReadId(lines, i, newId, renumber, fixErrors) == Ok(Grammar.IdStep(id, next, nextId, warnings));
        } else {
          assert !Grammar.LooksLikeRange(Strip(lines[i]));
          assert ParseInt(lines[i]) == Some(id);
          assert Grammar.ReadId(lines, i, newId, renumber, fixErrors) == Ok(Grammar.IdStep(id, next, nextId, warnings));
        }
      }
      return Ok(Grammar.IdStep(id, next, nextId, warnings));
    }

    /** The time-range line of `SRTFile.parse`, with the `→` repair of fix mode. */
    static method ReadTimeRange(lines: seq<string>, i: nat, fixErrors: bool)
      returns (r: Result<Grammar.RangeStep, ParseError>)
      ensures r == Grammar.ReadRange(lines, i, fixErrors)
    {
      var line := FindTimeRange(lines, i, fixErrors);
      if line.Err? {
        return Err(line.error);
      }
      var times := ReadTimes(line.value.0, i + 1);
      if times.Err? {
        return Err(times.error);
      }
      return Ok(Grammar.RangeStep(times.value.0, times.value.1, line.value.1));
    }

    /** Locates the time-range line at `i`, replacing `→` by `-->` in fix mode. */
    static method FindTimeRange(lines: seq<string>, i: nat, fixErrors: bool)
      returns (r: Result<(string, seq<Warning>), ParseError>)
      ensures r == Grammar.RangeLine(lines, i, fixErrors)
    {
      if i >= |lines| {
        return Err(MissingLine(i + 1));
      }
      var l := Strip(lines[i]);
      if Contains(l, Grammar.Arrow) {
        return Ok((l, []));
      }
      if Contains(l, [Grammar.UnicodeArrow]) && fixErrors {
        var warnings := [ReplacedArrow(i + 1)];
        l := ReplaceChar(l, Grammar.UnicodeArrow, Grammar.Arrow);
        return Ok((l, warnings));
      }
      return Err(MissingTimeRange(i + 1, lines[i]));
    }

    /** Splits a time-range line at ` --> ` and parses the two times. */
    static method ReadTimes(line: string, lineNumber: int)
      returns (r: Result<(Timestamp.Time, Timestamp.Time), ParseError>)
      ensures r == Grammar.ReadTimes(line, lineNumber)
    {
      var timeRange := Split(line, " --> ");
      var startTime := Timestamp.Parse(Strip(timeRange[0]));
      if startTime.Err? {
        return Err(BadTime(lineNumber, startTime.error));
      }
      if |timeRange| < 2 {
        return Err(MissingSeparator(lineNumber));
      }
      var endTime := Timestamp.Parse(Strip(timeRange[1]));
      if endTime.Err? {
        return Err(BadTime(lineNumber, endTime.error));
      }
      return Ok((startTime.value, endTime.value));
    }

    /** The text lines of `SRTFile.parse`: up to the next blank line, none holding `-->`. */
    static method ReadTextLines(lines: seq<string>, start: nat) returns (r: Result<Grammar.TextStep, ParseError>)
      requires start <= |lines|
      ensures r == Grammar.ReadText(lines, start, [])
    {
      var i := start;
      var textLines: seq<string> := [];
      while i < |lines| && |Strip(lines[i])| != 0
        invariant start <= i <= |lines|
        invariant Grammar.ReadText(lines, start, []) == Grammar.ReadText(lines, i, textLines)
        decreases |lines| - i
      {
        var l := Strip(lines[i]);
        if Contains(l, Grammar.Arrow) {
          return Err(UnexpectedTimeRange(i + 1, lines[i]));
        }
        textLines := textLines + [l];
        i := i + 1;
      }
      return Ok(Grammar.TextStep(textLines, i));
    }
  }
}

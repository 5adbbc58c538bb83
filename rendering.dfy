/**
 * Printing and parsing agree: the SubRip text that `SRTFile.__str__` prints
 * for entries with printable fields is read back by `SRTFile.parse` as the
 * same entries, each with the number of the line its ID is printed on.
 */
module Rendering {
  import opened Wrappers
  import opened Strings
  import Timestamp
  import opened Entries
  import opened Grammar

  /** Fields the printer writes in a form the parser reads back unchanged. */
  predicate Printable(e: EntryData)
  {
    Timestamp.Renderable(e.start) && Timestamp.Renderable(e.end) &&
    AllClean(e.text) && NoNewlines(e.text)
  }

  predicate AllPrintable(es: seq<EntryData>)
  {
    forall k :: 0 <= k < |es| ==> Printable(es[k])
  }

  predicate NoNewlines(ls: seq<string>)
  {
    forall k :: 0 <= k < |ls| ==> '\n' !in ls[k]
  }

  /** The time-range line of a printed entry. */
  function RangeText(e: EntryData): string
  {
    Timestamp.ToString(e.start) + " --> " + Timestamp.ToString(e.end)
  }

  /** The lines a printed entry occupies: its ID, its time range, its text lines. */
  function BlockLines(e: EntryData): (r: seq<string>)
    ensures |r| == 2 + |e.text|
  {
    [IntToString(e.id), RangeText(e)] + e.text
  }

  /**
   * The blank lines after a printed entry that is not the last: one from the
   * separator, and one more when the entry has no text (its last line break
   * is then printed after the time range).
   */
  function Gap(e: EntryData): (r: seq<string>)
    ensures 1 <= |r| <= 2
  {
    if e.text == [] then ["", ""] else [""]
  }

  /** The lines of the printed file once the final line break (if any) is stripped. */
  function Layout(es: seq<EntryData>): (r: seq<string>)
    ensures |es| >= 1 ==> |r| >= 2
    decreases |es|
  {
    if |es| == 0 then []
    else if |es| == 1 then BlockLines(es[0])
    else BlockLines(es[0]) + (Gap(es[0]) + Layout(es[1..]))
  }

  /** The entries as the parser reads them back from a layout starting at (0-based) line `i`. */
  function LineNumbered(es: seq<EntryData>, i: nat): (r: seq<EntryData>)
    ensures |r| == |es|
    decreases |es|
  {
    if es == [] then []
    else [AtLine(es[0], i + 1)] + LineNumbered(es[1..], NextBlock(es[0], i))
  }

  /** The line after the text of entry `e` printed from line `i`. */
  function TextEnd(e: EntryData, i: nat): nat
  {
    i + 2 + |e.text|
  }

  /** The line where the entry after `e` (printed from line `i`) begins. */
  function NextBlock(e: EntryData, i: nat): nat
  {
    TextEnd(e, i) + |Gap(e)|
  }

  /** The entry as read back from a file, where its ID line is line `n`. */
  function AtLine(e: EntryData, n: int): EntryData
  {
    e.(lineNumber := Some(n))
  }

  // ---------------------------------------------------------------- printing

  /** The shape of `SRTEntry.__str__` for any ID text `a`, times `x`, `y` and text lines. */
  lemma EntryShape(a: string, x: string, y: string, text: seq<string>)
    ensures a + "\n" + x + " --> " + y + "\n" + Join(text, "\n") ==
            Join([a, x + " --> " + y] + text, "\n") + (if text == [] then "\n" else "")
  {
    var range := x + " --> " + y;
    assert a + "\n" + x + " --> " + y == a + "\n" + range;
    assert Join([range], "\n") == range;
    assert Join([a, range], "\n") == a + "\n" + Join([range], "\n");
    if text != [] {
      JoinAppend([a, range], text, "\n");
    }
  }

  /** `SRTEntry.__str__` joins the block lines, with a final line break when there is no text. */
  lemma EntryLines(e: EntryData)
    ensures EntryToString(e) == Join(BlockLines(e), "\n") + (if e.text == [] then "\n" else "")
  {
    EntryShape(IntToString(e.id), Timestamp.ToString(e.start), Timestamp.ToString(e.end), e.text);
  }

  /** The strings of the entries, in order, as `SRTFile.__str__` joins them. */
  lemma FileStrings(es: seq<EntryData>)
    requires |es| >= 2
    ensures FileToString(es) == EntryToString(es[0]) + "\n\n" + FileToString(es[1..])
  {
    var all := EntryStrings(es);
    assert all == [EntryToString(es[0])] + EntryStrings(es[1..]);
    assert all[1..] == EntryStrings(es[1..]);
  }

  lemma TwoBreaks(x: string, y: string, tail: string)
    ensures x + "\n" + "\n\n" + (y + tail) == x + "\n" + ("\n" + "\n" + y) + tail
  {
  }

  lemma OneBreak(x: string, y: string, tail: string)
    ensures x + "" + "\n\n" + (y + tail) == x + "\n" + ("" + "\n" + y) + tail
  {
  }

  lemma JoinBlanks()
    ensures Join([""], "\n") == "" && Join(["", ""], "\n") == "\n"
  {
    assert Join(["", ""], "\n") == "" + "\n" + Join([""], "\n");
  }

  /** Joining an entry's lines, its line break if it has no text, the separator and the rest. */
  lemma GapShape(b: seq<string>, l: seq<string>, noText: bool, tail: string)
    requires |b| >= 1 && |l| >= 1
    ensures Join(b, "\n") + (if noText then "\n" else "") + "\n\n" + (Join(l, "\n") + tail) ==
            Join(b + ((if noText then ["", ""] else [""]) + l), "\n") + tail
  {
    var g: seq<string> := if noText then ["", ""] else [""];
    var jb, jl := Join(b, "\n"), Join(l, "\n");
    JoinAppend(b, g + l, "\n");
    JoinAppend(g, l, "\n");
    assert Join(b + (g + l), "\n") == jb + "\n" + (Join(g, "\n") + "\n" + jl);
    if noText {
      JoinBlanks();
      TwoBreaks(jb, jl, tail);
    } else {
      JoinBlanks();
      OneBreak(jb, jl, tail);
    }
  }

  /** The line break printed after the last entry: one when it has no text. */
  function FinalBreak(es: seq<EntryData>): string
    requires |es| >= 1
  {
    if es[|es| - 1].text == [] then "\n" else ""
  }

  lemma FinalBreakRest(es: seq<EntryData>)
    requires |es| >= 2
    ensures FinalBreak(es[1..]) == FinalBreak(es)
  {
    assert es[1..][|es| - 2] == es[|es| - 1];
  }

  /** The printed file is its layout joined with line breaks, plus a line break after a last entry without text. */
  lemma {:induction false} PrintedLayout(es: seq<EntryData>)
    requires |es| >= 1
    ensures FileToString(es) == Join(Layout(es), "\n") + FinalBreak(es)
    decreases |es|
  {
    EntryLines(es[0]);
    if |es| == 1 {
      assert EntryStrings(es) == [EntryToString(es[0])];
    } else {
      FileStrings(es);
      PrintedLayout(es[1..]);
      FinalBreakRest(es);
      GapShape(BlockLines(es[0]), Layout(es[1..]), es[0].text == [], FinalBreak(es));
    }
  }

  // ---------------------------------------------------------------- lines of the printed file

  lemma NoNewlinesAppend(a: seq<string>, b: seq<string>)
    requires NoNewlines(a) && NoNewlines(b)
    ensures NoNewlines(a + b)
  {
    forall k | 0 <= k < |a + b|
      ensures '\n' !in (a + b)[k]
    {
      if k < |a| {
        assert (a + b)[k] == a[k];
      } else {
        assert (a + b)[k] == b[k - |a|];
      }
    }
  }

  /** Two strings without white space around the arrow form a line without a line break. */
  lemma ArrowLine(x: string, y: string)
    requires NoSpace(x) && NoSpace(y)
    ensures '\n' !in x + " --> " + y
  {
    var r := x + " --> " + y;
    forall k | 0 <= k < |r|
      ensures r[k] != '\n'
    {
      if k < |x| {
        assert r[k] == x[k];
      } else if k >= |x| + 5 {
        assert r[k] == y[k - |x| - 5];
      }
    }
  }

  lemma BlockNoNewlines(e: EntryData)
    requires Printable(e)
    ensures NoNewlines(BlockLines(e))
  {
    var id := IntToString(e.id);
    IntToStringShape(e.id);
    assert '\n' !in id by {
      forall k | 0 <= k < |id| ensures id[k] != '\n' {
        assert IsDigit(id[k]) || id[k] == '-';
      }
    }
    Timestamp.ToStringShape(e.start);
    Timestamp.ToStringShape(e.end);
    ArrowLine(Timestamp.ToString(e.start), Timestamp.ToString(e.end));
    var head := [id, RangeText(e)];
    assert NoNewlines(head);
    NoNewlinesAppend(head, e.text);
  }

  lemma {:induction false} LayoutNoNewlines(es: seq<EntryData>)
    requires AllPrintable(es)
    ensures NoNewlines(Layout(es))
    decreases |es|
  {
    if |es| >= 1 {
      BlockNoNewlines(es[0]);
      if |es| >= 2 {
        LayoutNoNewlines(es[1..]);
        NoNewlinesAppend(Gap(es[0]), Layout(es[1..]));
        NoNewlinesAppend(BlockLines(es[0]), Gap(es[0]) + Layout(es[1..]));
      }
    }
  }

  lemma LayoutFirst(es: seq<EntryData>)
    requires |es| >= 1
    ensures Layout(es)[0] == IntToString(es[0].id)
  {
    if |es| >= 2 {
      var b, g, l := BlockLines(es[0]), Gap(es[0]), Layout(es[1..]);
      assert Layout(es) == b + (g + l);
      assert (b + (g + l))[0] == b[0];
    }
  }

  /** The last of `ls` is a line that ends in a character other than white space. */
  predicate EndsClean(ls: seq<string>)
  {
    |ls| >= 1 && ls[|ls| - 1] != [] && !IsSpace(ls[|ls| - 1][|ls[|ls| - 1]| - 1])
  }

  lemma EndsCleanAppend(b: seq<string>, g: seq<string>, l: seq<string>)
    requires EndsClean(l)
    ensures EndsClean(b + (g + l))
  {
    assert (b + (g + l))[|b + (g + l)| - 1] == l[|l| - 1];
  }

  /** A printed entry ends with its last text line, or with its time range when it has no text. */
  lemma BlockEndsClean(e: EntryData)
    requires Printable(e)
    ensures EndsClean(BlockLines(e))
  {
    var b := BlockLines(e);
    if e.text == [] {
      var x, y := Timestamp.ToString(e.start), Timestamp.ToString(e.end);
      Timestamp.ToStringShape(e.end);
      assert b[|b| - 1] == x + " --> " + y;
    } else {
      var t := e.text[|e.text| - 1];
      assert b[|b| - 1] == t;
      assert t in e.text;
      StripShape(t);
    }
  }

  lemma {:induction false} LayoutEndsClean(es: seq<EntryData>)
    requires |es| >= 1 && AllPrintable(es)
    ensures EndsClean(Layout(es))
    decreases |es|
  {
    BlockEndsClean(es[0]);
    if |es| >= 2 {
      LayoutEndsClean(es[1..]);
      EndsCleanAppend(BlockLines(es[0]), Gap(es[0]), Layout(es[1..]));
    }
  }

  /** The lines `SRTFile.parse` splits a printed file into are exactly its layout. */
  lemma PrintedLines(es: seq<EntryData>)
    requires |es| >= 1 && AllPrintable(es)
    ensures Lines(FileToString(es)) == Layout(es)
  {
    var layout := Layout(es);
    var x := Join(layout, "\n");
    PrintedLayout(es);
    assert FileToString(es) == x + FinalBreak(es);
    StrippedLayout(es);
    StripBreak(x, FinalBreak(es));
    LayoutNoNewlines(es);
    SplitJoin(layout, '\n');
  }

  /** The joined layout starts and ends with a character other than white space. */
  lemma StrippedLayout(es: seq<EntryData>)
    requires |es| >= 1 && AllPrintable(es)
    ensures var x := Join(Layout(es), "\n"); x != [] && !IsSpace(x[0]) && !IsSpace(x[|x| - 1])
  {
    var layout := Layout(es);
    LayoutFirst(es);
    IntToStringShape(es[0].id);
    LayoutEndsClean(es);
    JoinEnds(layout, "\n");
  }

  // ---------------------------------------------------------------- reading the printed lines back

  /** A printed ID line is read as the entry's id. */
  lemma ReadPrintedId(lines: seq<string>, i: nat, newId: int, id: int)
    requires i < |lines| && lines[i] == IntToString(id)
    ensures !Blank(lines[i])
    ensures ReadId(lines, i, newId, false, false) == Ok(IdStep(id, i + 1, newId, []))
  {
    var s := IntToString(id);
    IntToStringShape(id);
    assert NoSpace(s) by {
      forall k | 0 <= k < |s| ensures !IsSpace(s[k]) {
        assert IsDigit(s[k]) || s[k] == '-';
      }
    }
    StripNoop(s);
    assert '>' !in s by {
      forall k | 0 <= k < |s| ensures s[k] != '>' {
        assert IsDigit(s[k]) || s[k] == '-';
      }
    }
    assert UnicodeArrow !in s by {
      forall k | 0 <= k < |s| ensures s[k] != UnicodeArrow {
        assert IsDigit(s[k]) || s[k] == '-';
      }
    }
    ContainsChars(s, Arrow, 2);
    ContainsChars(s, [UnicodeArrow], 0);
    ParseIntToString(id);
  }

  /** The two rendered times around the arrow: the line holds `-->` and splits at ` --> ` into the two times. */
  lemma ArrowSplit(x: string, y: string)
    requires x != [] && y != [] && NoSpace(x) && NoSpace(y) && '-' !in x
    ensures Strip(x + " --> " + y) == x + " --> " + y
    ensures Contains(x + " --> " + y, Arrow)
    ensures Split(x + " --> " + y, " --> ") == [x, y]
  {
    var r := x + " --> " + y;
    assert r[0] == x[0] && r[|r| - 1] == y[|y| - 1];
    StripNoop(r);
    assert r == (x + " ") + Arrow + (" " + y);
    assert '-' !in x + " ";
    FindAfter(x + " ", Arrow, " " + y);
    assert ' ' !in x && ' ' !in y;
    SplitAfter(x, " --> ", y);
    SplitAbsent(y, " --> ");
  }

  /** A printed time-range line is read as the entry's two times. */
  lemma ReadPrintedRange(lines: seq<string>, i: nat, e: EntryData)
    requires Printable(e)
    requires i < |lines| && lines[i] == RangeText(e)
    ensures ReadRange(lines, i, false) == Ok(RangeStep(e.start, e.end, []))
  {
    var x, y := Timestamp.ToString(e.start), Timestamp.ToString(e.end);
    Timestamp.ToStringShape(e.start);
    Timestamp.ToStringShape(e.end);
    ArrowSplit(x, y);
    StripNoop(x);
    StripNoop(y);
    Timestamp.ParseToString(e.start);
    Timestamp.ParseToString(e.end);
    assert RangeLine(lines, i, false) == Ok((lines[i], []));
    assert ReadTimes(lines[i], i + 1) == Ok((e.start, e.end));
  }

  /** Clean text lines followed by a blank line or the end are read as they are. */
  lemma {:induction false} ReadPrintedText(lines: seq<string>, j: nat, acc: seq<string>, ts: seq<string>)
    requires j + |ts| <= |lines| && AllClean(ts)
    requires forall k :: 0 <= k < |ts| ==> lines[j + k] == ts[k]
    requires j + |ts| == |lines| || Blank(lines[j + |ts|])
    ensures ReadText(lines, j, acc) == Ok(TextStep(acc + ts, j + |ts|))
    decreases |ts|
  {
    if ts == [] {
      assert acc + ts == acc;
    } else {
      var t := ts[0];
      assert lines[j] == t && t in ts;
      assert Strip(t) == t && t != [] && !Contains(t, Arrow);
      assert AllClean(ts[1..]) by {
        forall u | u in ts[1..] ensures CleanText(u) {
          assert u in ts;
        }
      }
      assert forall k :: 0 <= k < |ts[1..]| ==> lines[j + 1 + k] == ts[1..][k] by {
        forall k | 0 <= k < |ts[1..]| ensures lines[j + 1 + k] == ts[1..][k] {
          assert lines[j + (k + 1)] == ts[k + 1];
        }
      }
      ReadPrintedText(lines, j + 1, acc + [t], ts[1..]);
      assert acc + [t] + ts[1..] == acc + ts;
    }
  }

  /** The text of a printed entry, once its ID and range lines are read, completes the entry. */
  lemma PrintedBlockText(lines: seq<string>, i: nat, ids: IdStep, e: EntryData)
    requires ids == IdStep(e.id, i + 1, ids.nextId, []) && AllClean(e.text)
    requires TextEnd(e, i) <= |lines|
    requires forall k :: 0 <= k < |e.text| ==> lines[i + 2 + k] == e.text[k]
    requires TextEnd(e, i) == |lines| || Blank(lines[TextEnd(e, i)])
    ensures ReadBlockText(lines, i, ids, RangeStep(e.start, e.end, [])) ==
            Ok(Block(AtLine(e, i + 1), TextEnd(e, i), ids.nextId, []))
  {
    ReadPrintedText(lines, i + 2, [], e.text);
    assert [] + e.text == e.text;
    assert ids.warnings + [] == [];
  }

  /** A printed entry, once its ID line is read, is read back with its times and text. */
  lemma PrintedBlockAfterId(lines: seq<string>, i: nat, ids: IdStep, e: EntryData)
    requires AllClean(e.text) && ids == IdStep(e.id, i + 1, ids.nextId, [])
    requires TextEnd(e, i) <= |lines| && ReadRange(lines, i + 1, false) == Ok(RangeStep(e.start, e.end, []))
    requires forall k :: 0 <= k < |e.text| ==> lines[i + 2 + k] == e.text[k]
    requires TextEnd(e, i) == |lines| || Blank(lines[TextEnd(e, i)])
    ensures ReadBlockAfterId(lines, i, ids, false) ==
            Ok(Block(AtLine(e, i + 1), TextEnd(e, i), ids.nextId, []))
  {
    PrintedBlockText(lines, i, ids, e);
  }

  /** An entry whose ID and range lines read cleanly, followed by clean text, is read back whole. */
  lemma ReadPrintedBlock(lines: seq<string>, i: nat, newId: int, e: EntryData)
    requires i < |lines| && ReadId(lines, i, newId, false, false) == Ok(IdStep(e.id, i + 1, newId, []))
    requires ReadRange(lines, i + 1, false) == Ok(RangeStep(e.start, e.end, []))
    requires AllClean(e.text) && TextEnd(e, i) <= |lines|
    requires forall k :: 0 <= k < |e.text| ==> lines[i + 2 + k] == e.text[k]
    requires TextEnd(e, i) == |lines| || Blank(lines[TextEnd(e, i)])
    ensures ReadBlock(lines, i, newId, false, false) ==
            Ok(Block(AtLine(e, i + 1), TextEnd(e, i), newId, []))
  {
    PrintedBlockAfterId(lines, i, IdStep(e.id, i + 1, newId, []), e);
  }

  /** The lines from `i` on are exactly `ls`. */
  predicate At(lines: seq<string>, i: nat, ls: seq<string>)
  {
    i + |ls| == |lines| && forall k :: 0 <= k < |ls| ==> lines[i + k] == ls[k]
  }

  /** Where a printed entry and what follows it sit in the lines. */
  lemma SliceBlock(lines: seq<string>, i: nat, a: string, b: string, t: seq<string>, rest: seq<string>)
    requires At(lines, i, ([a, b] + t) + rest)
    ensures i + 2 + |t| <= |lines|
    ensures lines[i] == a && lines[i + 1] == b
    ensures forall k :: 0 <= k < |t| ==> lines[i + 2 + k] == t[k]
    ensures At(lines, i + 2 + |t|, rest)
  {
    var ls := ([a, b] + t) + rest;
    assert lines[i + 0] == ls[0] && lines[i + 1] == ls[1];
    forall k | 0 <= k < |t| ensures lines[i + 2 + k] == t[k] {
      assert lines[i + (2 + k)] == ls[2 + k];
    }
    forall k | 0 <= k < |rest| ensures lines[i + 2 + |t| + k] == rest[k] {
      assert lines[i + (2 + |t| + k)] == ls[2 + |t| + k];
    }
  }

  /** Blank lines are skipped by the parse. */
  lemma {:induction false} SkipBlanks(lines: seq<string>, j: nat, n: nat, newId: int, entries: seq<EntryData>)
    requires j + n <= |lines|
    requires forall k :: j <= k < j + n ==> Blank(lines[k])
    ensures ParseFrom(lines, j, newId, false, false, entries, []) ==
            ParseFrom(lines, j + n, newId, false, false, entries, [])
    decreases n
  {
    if n > 0 {
      assert Blank(lines[j]);
      assert ParseFrom(lines, j, newId, false, false, entries, []) ==
             ParseFrom(lines, j + 1, newId, false, false, entries, []);
      SkipBlanks(lines, j + 1, n - 1, newId, entries);
    }
  }

  /** The gap after an entry is blank lines. */
  lemma SliceGap(lines: seq<string>, j: nat, g: seq<string>, l: seq<string>)
    requires At(lines, j, g + l)
    requires g == [""] || g == ["", ""]
    ensures forall k :: j <= k < j + |g| ==> Blank(lines[k])
    ensures At(lines, j + |g|, l)
  {
    assert Strip("") == [];
    forall k | j <= k < j + |g| ensures Blank(lines[k]) {
      assert lines[j + (k - j)] == (g + l)[k - j];
    }
    forall k | 0 <= k < |l| ensures lines[j + |g| + k] == l[k] {
      assert lines[j + (|g| + k)] == (g + l)[|g| + k];
    }
  }

  /** An entry read without warnings at a non-blank line is added, and the parse goes on at line `next`. */
  lemma ParseStep(lines: seq<string>, i: nat, next: nat, newId: int, entries: seq<EntryData>, x: EntryData)
    requires i < |lines| && !Blank(lines[i])
    requires ReadBlock(lines, i, newId, false, false) == Ok(Block(x, next, newId, []))
    ensures ParseFrom(lines, i, newId, false, false, entries, []) ==
            ParseFrom(lines, next, newId, false, false, entries + [x], [])
  {
    var none: seq<Warning> := [];
    assert ParseFrom(lines, i, newId, false, false, entries, none) ==
           ParseLineFrom(lines, i, newId, false, false, entries, none);
    assert ParseLineFrom(lines, i, newId, false, false, entries, none) ==
           ParseEntryFrom(lines, i, newId, false, false, entries, none);
    assert none + none == none;
  }

  /** Where the lines of entry `e`, with ID line `a` and range line `b`, and what follows them sit. */
  lemma SliceHead(lines: seq<string>, i: nat, a: string, b: string, e: EntryData, rest: seq<string>)
    requires At(lines, i, ([a, b] + e.text) + rest)
    requires rest == [] || Blank(rest[0])
    ensures TextEnd(e, i) <= |lines|
    ensures lines[i] == a && lines[i + 1] == b
    ensures forall k :: 0 <= k < |e.text| ==> lines[i + 2 + k] == e.text[k]
    ensures TextEnd(e, i) == |lines| || Blank(lines[TextEnd(e, i)])
    ensures At(lines, TextEnd(e, i), rest)
  {
    SliceBlock(lines, i, a, b, e.text, rest);
    if rest != [] {
      assert lines[i + 2 + |e.text| + 0] == rest[0];
    }
  }

  /** The first entry of a printed layout is read back at line `i`, and `rest` begins after its text. */
  lemma ReadLayoutHead(lines: seq<string>, i: nat, newId: int, e: EntryData, rest: seq<string>)
    requires Printable(e)
    requires At(lines, i, BlockLines(e) + rest)
    requires rest == [] || Blank(rest[0])
    ensures At(lines, TextEnd(e, i), rest)
    ensures i < |lines| && !Blank(lines[i])
    ensures ReadBlock(lines, i, newId, false, false) == Ok(Block(AtLine(e, i + 1), TextEnd(e, i), newId, []))
  {
    SliceHead(lines, i, IntToString(e.id), RangeText(e), e, rest);
    ReadPrintedId(lines, i, newId, e.id);
    ReadPrintedRange(lines, i + 1, e);
    ReadPrintedBlock(lines, i, newId, e);
  }

  /** The blank lines of the gap after entry `e`, printed from line `i`. */
  lemma GapAfter(lines: seq<string>, i: nat, e: EntryData, later: seq<string>)
    requires At(lines, TextEnd(e, i), Gap(e) + later)
    ensures forall k :: TextEnd(e, i) <= k < NextBlock(e, i) ==> Blank(lines[k])
    ensures At(lines, NextBlock(e, i), later)
  {
    SliceGap(lines, TextEnd(e, i), Gap(e), later);
  }

  /** The parse skips the gap after entry `e`, printed from line `i`. */
  lemma SkipGap(lines: seq<string>, i: nat, e: EntryData, newId: int, entries: seq<EntryData>)
    requires NextBlock(e, i) <= |lines|
    requires forall k :: TextEnd(e, i) <= k < NextBlock(e, i) ==> Blank(lines[k])
    ensures ParseFrom(lines, TextEnd(e, i), newId, false, false, entries, []) ==
            ParseFrom(lines, NextBlock(e, i), newId, false, false, entries, [])
  {
    SkipBlanks(lines, TextEnd(e, i), |Gap(e)|, newId, entries);
  }

  lemma AllPrintableTail(es: seq<EntryData>)
    requires |es| >= 1 && AllPrintable(es)
    ensures Printable(es[0]) && AllPrintable(es[1..])
  {
    forall k | 0 <= k < |es[1..]| ensures Printable(es[1..][k]) {
      assert es[1..][k] == es[k + 1];
    }
  }

  /** Whatever was parsed before, the entry at line `i` parses as `x` and the parse goes on at line `next`. */
  ghost predicate StepsTo(lines: seq<string>, i: nat, next: nat, newId: int, x: EntryData)
  {
    forall entries: seq<EntryData> ::
      ParseFrom(lines, i, newId, false, false, entries, []) ==
      ParseFrom(lines, next, newId, false, false, entries + [x], [])
  }

  /**
   * From line `i` on, the lines are blocks that each parse, without
   * warnings, as the next of `es` (numbered with its ID line), separated by
   * the blank lines of `Gap`.
   */
  ghost predicate ReadsAs(lines: seq<string>, i: nat, newId: int, es: seq<EntryData>)
    decreases |es|
  {
    if es == [] then i == |lines|
    else
      StepsTo(lines, i, TextEnd(es[0], i), newId, AtLine(es[0], i + 1)) &&
      if |es| == 1 then TextEnd(es[0], i) == |lines|
      else
        NextBlock(es[0], i) <= |lines| &&
        (forall k :: TextEnd(es[0], i) <= k < NextBlock(es[0], i) ==> Blank(lines[k])) &&
        ReadsAs(lines, NextBlock(es[0], i), newId, es[1..])
  }

  /** An entry read back without warnings at a non-blank line is a parse step. */
  lemma StepFromRead(lines: seq<string>, i: nat, newId: int, e: EntryData)
    requires i < |lines| && !Blank(lines[i])
    requires ReadBlock(lines, i, newId, false, false) == Ok(Block(AtLine(e, i + 1), TextEnd(e, i), newId, []))
    ensures StepsTo(lines, i, TextEnd(e, i), newId, AtLine(e, i + 1))
  {
    forall entries: seq<EntryData>
      ensures ParseFrom(lines, i, newId, false, false, entries, []) ==
              ParseFrom(lines, TextEnd(e, i), newId, false, false, entries + [AtLine(e, i + 1)], [])
    {
      ParseStep(lines, i, TextEnd(e, i), newId, entries, AtLine(e, i + 1));
    }
  }

  /** The lines of a printed layout read back as its entries. */
  lemma {:induction false} LayoutReadsAs(lines: seq<string>, i: nat, newId: int, es: seq<EntryData>)
    requires |es| >= 1 && AllPrintable(es)
    requires At(lines, i, Layout(es))
    ensures ReadsAs(lines, i, newId, es)
    decreases |es|
  {
    var e := es[0];
    AllPrintableTail(es);
    var rest := if |es| == 1 then [] else Gap(e) + Layout(es[1..]);
    assert Layout(es) == BlockLines(e) + rest;
    assert rest != [] ==> Blank(rest[0]) by { assert Strip("") == []; }
    ReadLayoutHead(lines, i, newId, e, rest);
    StepFromRead(lines, i, newId, e);
    if |es| > 1 {
      GapAfter(lines, i, e, Layout(es[1..]));
      LayoutReadsAs(lines, NextBlock(e, i), newId, es[1..]);
    }
  }

  /** Lines that read back as `es` parse as `es`, each numbered with its ID line. */
  lemma {:induction false} ParseReadsAs(lines: seq<string>, i: nat, newId: int, es: seq<EntryData>, entries: seq<EntryData>)
    requires ReadsAs(lines, i, newId, es)
    ensures ParseFrom(lines, i, newId, false, false, entries, []) ==
            Ok(Parsed(entries + LineNumbered(es, i), []))
    decreases |es|
  {
    if es == [] {
      assert entries + [] == entries;
    } else {
      var e := es[0];
      var first := entries + [AtLine(e, i + 1)];
      var tail := LineNumbered(es[1..], NextBlock(e, i));
      assert LineNumbered(es, i) == [AtLine(e, i + 1)] + tail;
      assert ParseFrom(lines, i, newId, false, false, entries, []) ==
             ParseFrom(lines, TextEnd(e, i), newId, false, false, first, []);
      if |es| == 1 {
        assert tail == [];
        assert first == entries + ([AtLine(e, i + 1)] + tail);
      } else {
        SkipGap(lines, i, e, newId, first);
        ParseReadsAs(lines, NextBlock(e, i), newId, es[1..], first);
        assert first + tail == entries + ([AtLine(e, i + 1)] + tail);
      }
    }
  }

  /**
   * Printing a file and parsing it back, without renumbering or fixing,
   * gives back its entries, each numbered with the (1-based) line of its ID.
   */
  lemma ParsePrinted(es: seq<EntryData>)
    requires AllPrintable(es)
    ensures Parse(FileToString(es), false, false) == Ok(Parsed(LineNumbered(es, 0), []))
  {
    var none: seq<EntryData> := [];
    if es == [] {
      assert FileToString(es) == "";
      assert Strip("") == "";
      assert Lines("") == [""];
      assert Blank("");
    } else {
      var lines := Layout(es);
      PrintedLines(es);
      assert At(lines, 0, lines);
      LayoutReadsAs(lines, 0, 1, es);
      ParseReadsAs(lines, 0, 1, es, none);
      assert none + LineNumbered(es, 0) == LineNumbered(es, 0);
    }
  }

  /** Reading back changes nothing but the line numbers. */
  lemma {:induction false} LineNumberedKeeps(es: seq<EntryData>, i: nat)
    ensures forall k :: 0 <= k < |es| ==> LineNumbered(es, i)[k].(lineNumber := es[k].lineNumber) == es[k]
    decreases |es|
  {
    if es != [] {
      var r := LineNumbered(es, i);
      var tail := LineNumbered(es[1..], NextBlock(es[0], i));
      LineNumberedKeeps(es[1..], NextBlock(es[0], i));
      assert r == [AtLine(es[0], i + 1)] + tail;
      forall k | 1 <= k < |es| ensures r[k].(lineNumber := es[k].lineNumber) == es[k] {
        assert r[k] == tail[k - 1] && es[k] == es[1..][k - 1];
      }
    }
  }

  /**
   * In every mode a printed file parses back without warnings as its
   * entries, with only line numbers and, when renumbering, ids changed.
   */
  lemma ParsePrintedModes(es: seq<EntryData>, renumber: bool, fix: bool)
    requires AllPrintable(es)
    ensures var r := Parse(FileToString(es), renumber, fix);
      r.Ok? && r.value.warnings == [] && |r.value.entries| == |es| &&
      forall k :: 0 <= k < |es| ==>
        r.value.entries[k].(id := es[k].id, lineNumber := es[k].lineNumber) == es[k] &&
        r.value.entries[k].id == (if renumber then k + 1 else es[k].id)
  {
    var content := FileToString(es);
    var plain := LineNumbered(es, 0);
    ParsePrinted(es);
    LineNumberedKeeps(es, 0);
    ParseFixConservative(content, false);
    assert Parse(content, false, fix) == Ok(Parsed(plain, []));
    if renumber {
      ParseFixConservative(content, true);
      ParseRenumberOnlyIds(content, false);
      var q := Parse(content, true, fix);
      assert q == Parse(content, true, false);
      assert SameButIds(plain, q.value.entries);
      forall k | 0 <= k < |es|
        ensures q.value.entries[k].(id := es[k].id, lineNumber := es[k].lineNumber) == es[k]
      {
        assert q.value.entries[k] == plain[k].(id := q.value.entries[k].id);
      }
    }
  }
}

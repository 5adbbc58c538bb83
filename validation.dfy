/**
 * `verify_srt`: one forward pass over the entries of a file with a pointer to
 * the previous entry.  It reports entries whose start is not before their end
 * and entries that start before the previous one ends; in fix mode it moves
 * both sides of such an overlap to their midpoint instead of reporting it.
 *
 * Every check of the pass reads values the pass has not yet changed: entry
 * `j`'s start is only moved at step `j`, after its own checks, and entry
 * `j - 1`'s end only at step `j`, after entry `j - 1` was checked.  So the
 * findings and the repaired entries are functions of the entries as they were
 * before the pass, which is how they are specified here.
 */
module Validation {
  import opened Wrappers
  import opened Entries
  import Timestamp
  import Srt

  /** What one check of `verify_srt` reports about an entry. */
  datatype Finding =
    | InvalidRange(id: int, line: Option<int>, start: Timestamp.Time, end: Timestamp.Time)
    | Overlap(id: int, line: Option<int>, prevId: int, prevLine: Option<int>)

  /** Entry `j` starts before entry `j - 1` ends. */
  predicate Overlaps(es: seq<EntryData>, j: int)
  {
    1 <= j < |es| && Timestamp.Less(es[j].start, es[j - 1].end)
  }

  /** Entry `j`'s range is invalid: its start is not before its end (`>=` is the negation of `<`). */
  predicate InvalidAt(es: seq<EntryData>, j: int)
    requires 0 <= j < |es|
  {
    !Timestamp.Less(es[j].start, es[j].end)
  }

  /** The time both sides of the overlap at `j` are moved to. */
  function Midpoint(es: seq<EntryData>, j: int): Timestamp.Time
    requires 1 <= j < |es|
  {
    Timestamp.Average(es[j - 1].end, es[j].start)
  }

  /** What the checks of step `j` report, in the order the pass appends them. */
  function StepFindings(es: seq<EntryData>, j: int, fix: bool): seq<Finding>
    requires 0 <= j < |es|
  {
    (if InvalidAt(es, j) then [InvalidRange(es[j].id, es[j].lineNumber, es[j].start, es[j].end)] else []) +
    (if !fix && Overlaps(es, j) then [Overlap(es[j].id, es[j].lineNumber, es[j - 1].id, es[j - 1].lineNumber)] else [])
  }

  /** What the first `k` steps report. */
  function FindingsUpTo(es: seq<EntryData>, k: int, fix: bool): seq<Finding>
    requires 0 <= k <= |es|
  {
    if k == 0 then [] else FindingsUpTo(es, k - 1, fix) + StepFindings(es, k - 1, fix)
  }

  /**
   * What `verify_srt` returns for entries `es`: nothing exactly when every
   * range is valid and, outside fix mode, no entry overlaps the one before.
   */
  function Findings(es: seq<EntryData>, fix: bool): (r: seq<Finding>)
    ensures r == [] <==> forall j :: 0 <= j < |es| ==> !InvalidAt(es, j) && (fix || !Overlaps(es, j))
  {
    CleanUpTo(es, |es|, fix);
    FindingsUpTo(es, |es|, fix)
  }

  /**
   * Entry `j` after a fix pass: its start moved to the midpoint if it
   * overlaps the entry before it, its end moved to the midpoint if the entry
   * after it overlaps it; its ID, text and line number as they were.
   */
  function RepairedAt(es: seq<EntryData>, j: int): EntryData
    requires 0 <= j < |es|
  {
    es[j].(start := if Overlaps(es, j) then Midpoint(es, j) else es[j].start,
           end := if Overlaps(es, j + 1) then Midpoint(es, j + 1) else es[j].end)
  }

  /** The entries after a fix pass. */
  function Repaired(es: seq<EntryData>): (r: seq<EntryData>)
    ensures |r| == |es|
    ensures forall j :: 0 <= j < |es| ==> r[j] == RepairedAt(es, j)
  {
    RepairedPrefix(es, |es|)
  }

  /** The first `k` entries after a fix pass. */
  function RepairedPrefix(es: seq<EntryData>, k: int): (r: seq<EntryData>)
    requires 0 <= k <= |es|
    ensures |r| == k
    ensures forall j :: 0 <= j < k ==> r[j] == RepairedAt(es, j)
  {
    if k == 0 then [] else RepairedPrefix(es, k - 1) + [RepairedAt(es, k - 1)]
  }

  /**
   * Iteration `i` of the pass on the current values `a` of the entries: what
   * it reports and the values it leaves.  The range check comes first; an
   * overlap with entry `i - 1` is then reported, or in fix mode both sides are
   * moved to their midpoint.  Nothing else changes.
   */
  function Step(a: seq<EntryData>, i: int, fix: bool): (r: (seq<Finding>, seq<EntryData>))
    requires 0 <= i < |a|
    ensures |r.1| == |a|
  {
    var e := a[i];
    var invalid := if !Timestamp.Less(e.start, e.end) then [InvalidRange(e.id, e.lineNumber, e.start, e.end)] else [];
    if i == 0 || !Timestamp.Less(e.start, a[i - 1].end) then (invalid, a)
    else if fix then
      var midpoint := Timestamp.Average(a[i - 1].end, e.start);
      (invalid, a[i - 1 := a[i - 1].(end := midpoint)][i := e.(start := midpoint)])
    else
      (invalid + [Overlap(e.id, e.lineNumber, a[i - 1].id, a[i - 1].lineNumber)], a)
  }

  /** The values of the entries after the first `k` iterations. */
  function Pass(es: seq<EntryData>, k: int, fix: bool): (r: seq<EntryData>)
    requires 0 <= k <= |es|
    ensures |r| == |es|
  {
    if k == 0 then es else Step(Pass(es, k - 1, fix), k - 1, fix).1
  }

  /** A strict pass changes nothing. */
  lemma {:induction false} PassStrict(es: seq<EntryData>, k: int)
    requires 0 <= k <= |es|
    ensures Pass(es, k, false) == es
    decreases k
  {
    if k > 0 {
      PassStrict(es, k - 1);
    }
  }

  /**
   * After `k` iterations of a fix pass, entry `j` has its start moved if it
   * overlaps and was already visited, and its end moved if the next entry
   * overlaps and was already visited.  So every check of the pass reads an
   * original value.
   */
  lemma {:induction false} PassAt(es: seq<EntryData>, k: int, j: int)
    requires 0 <= k <= |es| && 0 <= j < |es|
    ensures Pass(es, k, true)[j] ==
      es[j].(start := if j < k && Overlaps(es, j) then Midpoint(es, j) else es[j].start,
             end := if j + 1 < k && Overlaps(es, j + 1) then Midpoint(es, j + 1) else es[j].end)
    decreases k
  {
    if k > 0 {
      var i := k - 1;
      var a := Pass(es, i, true);
      var b := Pass(es, k, true);
      PassAt(es, i, i);
      if i > 0 {
        PassAt(es, i, i - 1);
      }
      if j == i {
        assert b[j] == es[j].(start := if Overlaps(es, j) then Midpoint(es, j) else es[j].start);
      } else if j == i - 1 {
        assert b[j] == a[j].(end := if Overlaps(es, i) then Midpoint(es, i) else es[j].end);
      } else {
        PassAt(es, i, j);
        assert b[j] == a[j];
      }
    }
  }

  /** A whole fix pass leaves the entries `Repaired`. */
  lemma PassRepairs(es: seq<EntryData>)
    ensures Pass(es, |es|, true) == Repaired(es)
  {
    forall j | 0 <= j < |es|
      ensures Pass(es, |es|, true)[j] == Repaired(es)[j]
    {
      PassAt(es, |es|, j);
    }
  }

  /** Iteration `i`, run on the entries the first `i` iterations left, reports `StepFindings(es, i, fix)`. */
  lemma PassFindings(es: seq<EntryData>, i: int, fix: bool)
    requires 0 <= i < |es|
    ensures Step(Pass(es, i, fix), i, fix).0 == StepFindings(es, i, fix)
  {
    if fix {
      PassAt(es, i, i);
      if i > 0 {
        PassAt(es, i, i - 1);
      }
    } else {
      PassStrict(es, i);
    }
  }

  /** The entry objects currently hold the values `data`. */
  ghost predicate Mirrors(entries: seq<Srt.Entry>, data: seq<EntryData>)
    reads entries
  {
    |entries| == |data| && forall j :: 0 <= j < |entries| ==> entries[j].Data() == data[j]
  }

  /**
   * One iteration of `verify_srt` on `entry`, the `i`-th of `entries`, with
   * `prev` the one before it (`null` for the first): it reports and changes
   * what `Step` says of their values.
   */
  method CheckEntry(prev: Srt.Entry?, entry: Srt.Entry, fixErrors: bool,
                    ghost entries: seq<Srt.Entry>, ghost i: int, ghost data: seq<EntryData>)
    returns (found: seq<Finding>)
    requires Srt.Distinct(entries) && Mirrors(entries, data) && 0 <= i < |entries|
    requires entry == entries[i] && prev == if i == 0 then null else entries[i - 1]
    modifies entry, prev
    ensures found == Step(data, i, fixErrors).0
    ensures Mirrors(entries, Step(data, i, fixErrors).1)
  {
    found := [];
    if !Timestamp.Less(entry.startTime, entry.endTime) {
      found := found + [InvalidRange(entry.id, entry.lineNumber, entry.startTime, entry.endTime)];
    }
    if prev != null {
      if Timestamp.Less(entry.startTime, prev.endTime) {
        if fixErrors {
          var midpoint := Timestamp.Average(prev.endTime, entry.startTime);
          prev.endTime := midpoint;
          entry.startTime := midpoint;
        } else {
          found := found + [Overlap(entry.id, entry.lineNumber, prev.id, prev.lineNumber)];
        }
      }
    }
  }

  /**
   * The loop of `verify_srt` over `entries`: it reports what the first
   * `|entries|` iterations report and leaves the entries as they leave them.
   */
  method VerifyEntries(entries: seq<Srt.Entry>, fixErrors: bool) returns (errors: seq<Finding>)
    requires Srt.Distinct(entries)
    modifies entries
    ensures errors == Findings(old(Srt.Snapshot(entries)), fixErrors)
    ensures Srt.Snapshot(entries) == Pass(old(Srt.Snapshot(entries)), |entries|, fixErrors)
  {
    ghost var es := Srt.Snapshot(entries);
    ghost var data := es;
    errors := [];
    var prev: Srt.Entry? := null;
    var i := 0;
    while i < |entries|
      invariant 0 <= i <= |entries| == |es|
      invariant prev == if i == 0 then null else entries[i - 1]
      invariant errors == FindingsUpTo(es, i, fixErrors)
      invariant data == Pass(es, i, fixErrors)
      invariant Mirrors(entries, data)
    {
      var entry := entries[i];
      PassFindings(es, i, fixErrors);
      var found := CheckEntry(prev, entry, fixErrors, entries, i, data);
      errors := errors + found;
      data := Step(data, i, fixErrors).1;
      prev := entry;
      i := i + 1;
    }
    Srt.SnapshotIs(entries, data);
  }

  /**
   * `verify_srt`: returns the findings for the entries as they were, and in
   * fix mode leaves them repaired.  The entry objects must be distinct, as
   * they are in a parsed file.
   */
  method VerifySrt(srt: Srt.SrtFile, fixErrors: bool) returns (errors: seq<Finding>)
    requires Srt.Distinct(srt.entries)
    modifies srt.entries
    ensures errors == Findings(old(srt.Contents()), fixErrors)
    ensures srt.Contents() == if fixErrors then Repaired(old(srt.Contents())) else old(srt.Contents())
  {
    ghost var es := srt.Contents();
    errors := VerifyEntries(srt.entries, fixErrors);
    if fixErrors {
      PassRepairs(es);
    } else {
      PassStrict(es, |es|);
    }
  }

  // ---------------------------------------------------------------- properties

  /** After a fix pass no entry starts before the previous one ends: both sides of an overlap meet at its midpoint. */
  lemma RepairRemovesOverlaps(es: seq<EntryData>)
    ensures forall j :: !Overlaps(Repaired(es), j)
  {
    var r := Repaired(es);
    forall j | 1 <= j < |es|
      ensures !Overlaps(r, j)
    {
      if Overlaps(es, j) {
        assert r[j].start == r[j - 1].end == Midpoint(es, j);
      } else {
        assert r[j].start == es[j].start && r[j - 1].end == es[j - 1].end;
      }
    }
  }

  /** Entries without overlaps are left as they are. */
  lemma RepairWithoutOverlaps(es: seq<EntryData>)
    requires forall j :: !Overlaps(es, j)
    ensures Repaired(es) == es
  {
    var r := Repaired(es);
    forall j | 0 <= j < |es|
      ensures r[j] == es[j]
    {
      assert !Overlaps(es, j) && !Overlaps(es, j + 1);
    }
  }

  /** A second fix pass changes nothing. */
  lemma RepairIdempotent(es: seq<EntryData>)
    ensures Repaired(Repaired(es)) == Repaired(es)
  {
    RepairRemovesOverlaps(es);
    RepairWithoutOverlaps(Repaired(es));
  }

  /**
   * For normalised times the new boundary of a repaired overlap lies between
   * the two original times: no earlier than the later entry's old start and
   * no later than the earlier entry's old end.
   */
  lemma RepairBetween(es: seq<EntryData>, j: int)
    requires Overlaps(es, j)
    requires Timestamp.Normalized(es[j - 1].end) && Timestamp.Normalized(es[j].start)
    ensures Repaired(es)[j].start == Repaired(es)[j - 1].end
    ensures !Timestamp.Less(Repaired(es)[j].start, es[j].start)
    ensures !Timestamp.Less(es[j - 1].end, Repaired(es)[j].start)
  {
    assert Overlaps(es, (j - 1) + 1);
    Timestamp.AverageBetweenInOrder(es[j - 1].end, es[j].start);
  }

  /** The invalid-range findings of `fs`, in order. */
  function RangeFindings(fs: seq<Finding>): (r: seq<Finding>)
    ensures |r| <= |fs|
  {
    if fs == [] then []
    else (if fs[0].InvalidRange? then [fs[0]] else []) + RangeFindings(fs[1..])
  }

  /** Every finding `RangeFindings` keeps is an invalid-range finding of `fs`. */
  lemma {:induction false} RangeFindingsSound(fs: seq<Finding>, f: Finding)
    requires f in RangeFindings(fs)
    ensures f.InvalidRange? && f in fs
    decreases |fs|
  {
    var head := if fs[0].InvalidRange? then [fs[0]] else [];
    assert RangeFindings(fs) == head + RangeFindings(fs[1..]);
    if f !in head {
      RangeFindingsSound(fs[1..], f);
    }
  }

  lemma {:induction false} RangeFindingsAppend(a: seq<Finding>, b: seq<Finding>)
    ensures RangeFindings(a + b) == RangeFindings(a) + RangeFindings(b)
    decreases |a|
  {
    if a != [] {
      var head := if a[0].InvalidRange? then [a[0]] else [];
      assert (a + b)[0] == a[0];
      assert (a + b)[1..] == a[1..] + b;
      assert RangeFindings(a + b) == head + RangeFindings(a[1..] + b);
      RangeFindingsAppend(a[1..], b);
    } else {
      assert a + b == b;
    }
  }

  /** One step in fix mode reports the invalid range the strict step reports, and nothing else. */
  lemma FixStepFindings(es: seq<EntryData>, j: int)
    requires 0 <= j < |es|
    ensures StepFindings(es, j, true) == RangeFindings(StepFindings(es, j, false))
  {
    var invalid := if InvalidAt(es, j) then [InvalidRange(es[j].id, es[j].lineNumber, es[j].start, es[j].end)] else [];
    assert StepFindings(es, j, true) == invalid;
    if Overlaps(es, j) {
      var overlap := Overlap(es[j].id, es[j].lineNumber, es[j - 1].id, es[j - 1].lineNumber);
      assert StepFindings(es, j, false) == invalid + [overlap];
      RangeFindingsAppend(invalid, [overlap]);
      assert RangeFindings([overlap]) == [];
    } else {
      assert StepFindings(es, j, false) == invalid;
    }
    assert RangeFindings(invalid) == invalid;
  }

  /** The first `k` steps in fix mode report the invalid ranges the strict steps report, and nothing else. */
  lemma {:induction false} FixFindingsUpTo(es: seq<EntryData>, k: int)
    requires 0 <= k <= |es|
    ensures FindingsUpTo(es, k, true) == RangeFindings(FindingsUpTo(es, k, false))
    decreases k
  {
    if k > 0 {
      FixFindingsUpTo(es, k - 1);
      RangeFindingsAppend(FindingsUpTo(es, k - 1, false), StepFindings(es, k - 1, false));
      FixStepFindings(es, k - 1);
    }
  }

  /** Fix mode reports exactly the invalid-range findings of strict mode: overlaps are repaired, not reported. */
  lemma FixReportsRanges(es: seq<EntryData>)
    ensures Findings(es, true) == RangeFindings(Findings(es, false))
  {
    FixFindingsUpTo(es, |es|);
  }

  /** The first `k` steps report nothing exactly when none of them sees an invalid range or (in strict mode) an overlap. */
  lemma {:induction false} CleanUpTo(es: seq<EntryData>, k: int, fix: bool)
    requires 0 <= k <= |es|
    ensures FindingsUpTo(es, k, fix) == [] <==>
      forall j :: 0 <= j < k ==> !InvalidAt(es, j) && (fix || !Overlaps(es, j))
    decreases k
  {
    if k > 0 {
      CleanUpTo(es, k - 1, fix);
    }
  }

  /** Strict mode reports nothing exactly when every range is valid and no entry overlaps its predecessor. */
  lemma StrictClean(es: seq<EntryData>)
    ensures Findings(es, false) == [] <==>
      (forall j :: 0 <= j < |es| ==> !InvalidAt(es, j)) && (forall j :: !Overlaps(es, j))
  {
    CleanUpTo(es, |es|, false);
  }

  /** Without overlaps the two modes report the same. */
  lemma {:induction false} ModesAgreeUpTo(es: seq<EntryData>, k: int)
    requires 0 <= k <= |es|
    requires forall j :: !Overlaps(es, j)
    ensures FindingsUpTo(es, k, false) == FindingsUpTo(es, k, true)
    decreases k
  {
    if k > 0 {
      ModesAgreeUpTo(es, k - 1);
    }
  }

  /** Checking repaired entries again, in either mode, reports only their invalid ranges. */
  lemma RecheckRepaired(es: seq<EntryData>)
    ensures Findings(Repaired(es), false) == Findings(Repaired(es), true)
    ensures forall f :: f in Findings(Repaired(es), false) ==> f.InvalidRange?
  {
    var r := Repaired(es);
    RepairRemovesOverlaps(es);
    ModesAgreeUpTo(r, |r|);
    FixReportsRanges(r);
    forall f | f in Findings(r, false)
      ensures f.InvalidRange?
    {
      RangeFindingsSound(Findings(r, false), f);
    }
  }

  /**
   * The range check runs before the repair, so a fix pass can leave an
   * invalid range it never reports: entries 0s-10s and 1s-2s meet at 5.5s,
   * and the second becomes 5.5s-2s.
   */
  lemma RepairCanInvalidate()
    ensures var es := [EntryData(1, Timestamp.Time(0, 0, 0, 0), Timestamp.Time(0, 0, 10, 0), ["a"], Some(1)),
                       EntryData(2, Timestamp.Time(0, 0, 1, 0), Timestamp.Time(0, 0, 2, 0), ["b"], Some(5))];
      Findings(es, true) == [] && InvalidAt(Repaired(es), 1)
  {
    var es := [EntryData(1, Timestamp.Time(0, 0, 0, 0), Timestamp.Time(0, 0, 10, 0), ["a"], Some(1)),
               EntryData(2, Timestamp.Time(0, 0, 1, 0), Timestamp.Time(0, 0, 2, 0), ["b"], Some(5))];
    assert Midpoint(es, 1) == Timestamp.Time(0, 0, 5, 500);
    assert Repaired(es)[1].start == Timestamp.Time(0, 0, 5, 500);
  }

  // ---------------------------------------------------------------- the check after a fix run

  /**
   * What `main` reports after validating, as written: a fix run is checked
   * again, strictly, on the repaired entries, but only when the fix pass
   * itself reported something.  In fix mode every reported finding is an
   * invalid range.
   */
  function Reported(es: seq<EntryData>, fix: bool): (r: seq<Finding>)
    ensures fix ==> forall f :: f in r ==> f.InvalidRange?
  {
    FixFindingsAreRanges(es);
    RecheckRepaired(es);
    var first := Findings(es, fix);
    if first != [] && fix then Findings(Repaired(es), false) else first
  }

  /** A fix pass reports only invalid ranges. */
  lemma FixFindingsAreRanges(es: seq<EntryData>)
    ensures forall f :: f in Findings(es, true) ==> f.InvalidRange?
  {
    FixReportsRanges(es);
    forall f | f in Findings(es, true)
      ensures f.InvalidRange?
    {
      RangeFindingsSound(Findings(es, false), f);
    }
  }

  /**
   * A fix run can end with nothing reported and an invalid range left: the
   * fix pass reports nothing for 0s-10s followed by 1s-2s, so the check
   * again is skipped, yet the repair leaves the second entry at 5.5s-2s.
   */
  lemma FixRunCanEndSilent()
    ensures var es := [EntryData(1, Timestamp.Time(0, 0, 0, 0), Timestamp.Time(0, 0, 10, 0), ["a"], Some(1)),
                       EntryData(2, Timestamp.Time(0, 0, 1, 0), Timestamp.Time(0, 0, 2, 0), ["b"], Some(5))];
      Reported(es, true) == [] && InvalidAt(Repaired(es), 1)
  {
    RepairCanInvalidate();
  }

  /**
   * The check after a fix run as evidently intended: a fix run is always
   * checked again on the repaired entries.  Nothing is reported exactly when
   * the entries left behind have valid ranges and no overlaps.
   */
  function Rechecked(es: seq<EntryData>, fix: bool): (r: seq<Finding>)
    ensures var final := if fix then Repaired(es) else es;
      r == [] <==> (forall j :: 0 <= j < |final| ==> !InvalidAt(final, j)) && (forall j :: !Overlaps(final, j))
  {
    if fix then
      RepairRemovesOverlaps(es);
      StrictClean(Repaired(es));
      Findings(Repaired(es), false)
    else
      StrictClean(es);
      Findings(es, false)
  }

  /** The two differ only for a fix run whose fix pass reported nothing. */
  lemma ReportedIsRechecked(es: seq<EntryData>, fix: bool)
    requires !fix || Findings(es, true) != []
    ensures Reported(es, fix) == Rechecked(es, fix)
  {
  }
}

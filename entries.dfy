/**
 * The value view of a subtitle entry (`SRTEntry`), the parser's warnings and
 * failures, and the SubRip rendering of entries and whole files.
 */
module Entries {
  import opened Wrappers
  import opened Strings
  import Timestamp

  /** The fields of one `SRTEntry` at one moment. */
  datatype EntryData = EntryData(
    id: int,
    start: Timestamp.Time,
    end: Timestamp.Time,
    text: seq<string>,
    lineNumber: Option<int>)

  /** Non-fatal findings of a parse in fix mode. */
  datatype Warning =
    | MissingId(line: int, newId: int)   // an ID line was missing and `newId` was given instead
    | ReplacedArrow(line: int)               // a `→` was replaced by `-->`

  /** Why a parse failed; every tag names the 1-based line it is about. */
  datatype ParseError =
    | BadId(line: int, raw: string)                 // no integer ID (or, in strict mode, a time range instead)
    | MustRenumber(line: int)                       // a missing ID is only recovered with renumbering on
    | MissingTimeRange(line: int, raw: string)      // the line after the ID has no arrow
    | UnexpectedTimeRange(line: int, raw: string)   // a text line holds `-->`
    | MissingLine(line: int)                        // the file ends where a time range was due
    | MissingSeparator(line: int)                   // the time range has no ` --> ` between its times
    | BadTime(line: int, error: Timestamp.TimeError)

  /** `SRTEntry.__str__`: the id, the time range, then the text lines, one per line. */
  function EntryToString(e: EntryData): (r: string)
    ensures |r| > |IntToString(e.id)| && r[..|IntToString(e.id)|] == IntToString(e.id)
    ensures r[|IntToString(e.id)|] == '\n'
  {
    IntToString(e.id) + "\n" + Timestamp.ToString(e.start) + " --> " + Timestamp.ToString(e.end) +
    "\n" + Join(e.text, "\n")
  }

  /** `str(entry)` for each entry, in order. */
  function EntryStrings(es: seq<EntryData>): (r: seq<string>)
    ensures |r| == |es|
    ensures forall k :: 0 <= k < |es| ==> r[k] == EntryToString(es[k])
  {
    if es == [] then [] else [EntryToString(es[0])] + EntryStrings(es[1..])
  }

  /** `SRTFile.__str__`: the entries in order, separated by one blank line. */
  function FileToString(es: seq<EntryData>): (r: string)
    ensures es == [] ==> r == ""
    ensures |es| == 1 ==> r == EntryToString(es[0])
  {
    Join(EntryStrings(es), "\n\n")
  }
}

# srt_verify in Dafny

A model of `srt_verify.py`, a checker and repairer for SubRip (`.srt`)
subtitle files, with proofs about it. The model covers:

- **Timestamps** (`SRTTime`): four un-normalised integer fields. They are
  parsed from `HH:MM:SS,mmm` (or `HH:MM:SS[.f]`), ordered field by field,
  printed zero-padded, and averaged through a total in milliseconds.
  Module `Timestamp`.
- **Entries and files** (`SRTEntry`, `SRTFile`): classes whose fields the
  code reassigns, in module `Srt`. Their values (`Entries.EntryData`) are
  printed by `Entries.EntryToString` / `Entries.FileToString`.
- **The parser** (`SRTFile.parse`): a line-by-line state machine with the
  `renumber` and `fix_errors` flags.
  - `Grammar.Parse` and its staged helpers specify it as functions.
  - `Srt.SrtFile.Parse` and the methods under it are the loops of the source,
    each proved to compute that specification.
  - Errors are a `Result` carrying a `ParseError` tag that names the 1-based
    line.
- **The validator** (`verify_srt`): one forward pass with a pointer to the
  previous entry. In fix mode it moves both sides of an overlap to their
  midpoint, in place.
  - `Validation.VerifySrt` is the loop over the entry objects.
  - Each check of the pass reads a value the pass has not yet changed. So the
    findings (`Validation.Findings`) and the repaired entries
    (`Validation.Repaired`) are proved to be functions of the entries as they
    were before the pass.
- **Print and parse agree** (module `Rendering`): a file of printable
  entries printed by `SRTFile.__str__` is parsed back, in every mode, as the
  same entries in order. Only the line numbers change, and the ids when
  renumbering.

Supporting modules:

- `Strings` models the parts of Python's `str` the code uses: `strip`,
  `split`, `join`, `in`, `replace`, `ljust`, `int()` and zero-padded
  f-string formatting.
- `Wrappers` holds `Option` and `Result`.

Python's `//` and `%` with a positive divisor are Dafny's `/` and `%`.
`>=` on `SRTTime` is the negation of `__lt__`.

A single forward pass that fixes each adjacent pair once might be expected
to leave chained overlaps. As written it does not: every check reads
original values, and each repaired boundary becomes one midpoint shared by
both entries. So one pass leaves no overlap at all
(`Validation.RepairRemovesOverlaps`). A repair can still create an invalid
range (`Validation.RepairCanInvalidate`). `main` checks again only when the
fix pass itself reported something (srt_verify.py:376). So a fix run can end
with nothing reported and an invalid range left (see "## Findings").

## Model

| member | source | states |
|---|---|---|
| Timestamp.Parse | srt_verify.py:36-62 | parsing fails with the wrong-field-count error exactly when the `:` split does not give 3 parts; without a 2-piece comma split a parsed time has 0 milliseconds (the rest is in `Timestamp.ParseRules`) |
| Strings.ParseIntRejectsSeparator | srt_verify.py:52-57 | `int()` does not skip the separators U+001C to U+001F, though `strip()` does: a string starting with one is no integer |
| Strings.ParseTruncatedDecimalRejectsSeparator | srt_verify.py:60 | neither does `float()`: `"\x1c5"` is no number, though `\x1c` is white space to `str.isspace` |
| Timestamp.MillisText | srt_verify.py:57 | the millisecond text always has 3 characters: the first three of the fraction, or the fraction right-padded with `0` |
| Timestamp.ParseRules | srt_verify.py:49-62 | with 3 parts, parsing fails naming the hours or the minutes text when `int()` rejects it, the seconds text when `int()` rejects it (comma form) or `int(float())` rejects it (otherwise), and the fraction when the padded-and-cut milliseconds do not parse; it succeeds exactly when there are 3 parts and every component parses; with a 2-piece comma split the milliseconds are the padded-and-cut fraction |
| Timestamp.ParseRejectsLetters | srt_verify.py:49-52 | `"a:b:c"` splits into 3 parts and still fails, naming `"a"` as not a number |
| Timestamp.MillisFromDigits | srt_verify.py:54-57 | for a digit-only fraction the milliseconds parse and lie in 0..999: the value of the first three digits, or of the fraction padded with zeros ("5" gives 500, "1234" gives 123) |
| Timestamp.Less | srt_verify.py:64-79 | `a < b` never holds for equal times; different hours decide by the hours, equal hours and different minutes by the minutes (the rest is in `Timestamp.LessIsStrictTotalOrder`, `Timestamp.LessMatchesTotalMs`) |
| Timestamp.LessIsStrictTotalOrder | srt_verify.py:64-79 | field-wise `<` is irreflexive, transitive, asymmetric and total on the four fields |
| Timestamp.LessMatchesTotalMs | srt_verify.py:64-79 | when minutes < 60, seconds < 60 and ms < 1000, `<` holds exactly when the total milliseconds are smaller |
| Timestamp.ToString | srt_verify.py:81-88 | a printed timestamp has at least 12 characters (its layout, characters and round trip are `Timestamp.ToStringLayout`, `Timestamp.ToStringShape`, `Timestamp.ParseToString`) |
| Timestamp.ToStringLayout | srt_verify.py:81-88 | with hours, minutes and seconds in 0..99 and milliseconds in 0..999 the printed time is exactly `HH:MM:SS,mmm`: 12 characters, `:` at positions 2 and 5, `,` at 8, and each field a zero-padded run of 2, 2, 2 or 3 digits that reads as its value |
| Timestamp.ToStringShape | srt_verify.py:81-88 | a printed timestamp with non-negative fields is non-empty and contains no white space, `-` or `>`, so it never looks like an arrow |
| Timestamp.ParseToString | srt_verify.py:36-62 | parsing a printed timestamp (non-negative fields, ms < 1000) gives back the same four fields |
| Timestamp.Average | srt_verify.py:90-119 | the midpoint's total is the floor of the mean of the two totals, and its minutes, seconds and milliseconds lie in their clock ranges |
| Timestamp.AverageSymmetric | srt_verify.py:90-119 | `a.average(b)` equals `b.average(a)` field by field |
| Timestamp.AverageBetween | srt_verify.py:90-119 | the midpoint's total lies between the two operands' totals |
| Timestamp.AverageBetweenInOrder | srt_verify.py:90-119 | for normalised operands with b < a, the midpoint is neither before b nor after a in field order |
| Entries.EntryToString | srt_verify.py:154-162 | a printed entry starts with its id in decimal followed by a line break (the full layout is `Rendering.EntryLines`) |
| Entries.EntryStrings | srt_verify.py:195-202 | the strings `SRTFile.__str__` joins are `str()` of each entry, one per entry, in order |
| Entries.FileToString | srt_verify.py:195-202 | a file without entries prints as the empty string, a file of one entry as that entry (the full layout is `Rendering.PrintedLayout`) |
| Srt.SrtFile.ToString | srt_verify.py:195-202 | printing a file object without entries gives the empty string; it prints the values of its entry objects as `Entries.FileToString` does |
| Rendering.EntryLines | srt_verify.py:154-162 | an entry prints as its ID line, range line and text lines joined by line breaks, with a trailing break when it has no text |
| Rendering.PrintedLayout | srt_verify.py:195-202 | a file prints as the lines of its entries in order, separated by one blank line (two when an entry has no text) |
| Rendering.PrintedLines | srt_verify.py:195-202 | splitting the stripped printed file at line breaks, as the parser does, gives back exactly that line layout |
| Rendering.ReadPrintedId | srt_verify.py:237-259 | a printed ID line is not blank and reads, in strict mode, as the entry's ID, with the range on the next line and no warning |
| Rendering.ReadPrintedRange | srt_verify.py:265-280 | a printed range line reads as the entry's two times, without warnings |
| Rendering.ReadPrintedText | srt_verify.py:282-291 | clean text lines followed by a blank line or the end are read as they are, and reading stops after them |
| Rendering.ReadPrintedBlock | srt_verify.py:234-292 | ID, range and clean text lines ending at a blank line or the end read back as one whole entry, numbered with its ID line |
| Rendering.LayoutReadsAs | srt_verify.py:228-292 | the printed lines of printable entries read, block by block, as those entries, with the gaps skipped as blank lines |
| Rendering.ParseReadsAs | srt_verify.py:228-296 | lines that read block by block as some entries parse, without warnings, as exactly those entries |
| Rendering.LineNumberedKeeps | srt_verify.py:235 | reading back changes only each entry's line number |
| Rendering.ParsePrinted | srt_verify.py:195-296 | printing any entries with printable fields and parsing the text back, with no flags, gives the same entries in order, no warnings, each numbered with the line of its ID |
| Rendering.ParsePrintedModes | srt_verify.py:204-296 | in every flag combination a printed file parses without warnings as its entries; only line numbers change, and ids become 1..n when renumbering |
| Grammar.ReadId | srt_verify.py:234-264 | the ID line step leaves the range at the same or the next line; with renumbering it takes the fresh id and advances the counter by one, without it the counter is untouched; without fix mode it adds no warning |
| Grammar.RangeLine | srt_verify.py:265-276 | the range line is found only inside the file; without fix mode no `→` replacement warning is added |
| Grammar.ReadText | srt_verify.py:282-291 | the text block ends within the file, at or after its first line |
| Grammar.ReadTextShape | srt_verify.py:282-291 | the text block is the stripped non-blank lines up to the next blank line or the end, in order |
| Grammar.ReadTextFails | srt_verify.py:286-289 | the text block fails only at a non-blank line holding `-->`, reporting that line |
| Grammar.ReadTextArrowFatal | srt_verify.py:286-289 | a `-->` in a text line before the next blank line always fails the block, whatever the flags |
| Grammar.MissingIdCases | srt_verify.py:237-252 | an ID line that looks like a range fails in strict mode, fails with "must renumber" in fix mode without renumbering, and with both flags takes a fresh id with a warning and re-reads the same line as the range |
| Grammar.Parse | srt_verify.py:204-296 | without fix mode a successful parse has no warnings; with renumbering the k-th parsed entry (0-based, file order) has id k + 1 (accepted files and entries are characterised by the `Rendering` and `Grammar.Parse*` lemmas) |
| Grammar.ParseCleanText | srt_verify.py:282-292 | every parsed text line is stripped, non-empty and free of `-->` |
| Grammar.ParseLineNumbers | srt_verify.py:235 | every parsed entry has a line number inside the file, and the line numbers strictly increase in file order |
| Grammar.BlockFixConservative | srt_verify.py:237-280 | an entry strict mode reads is read the same way in fix mode |
| Grammar.ParseFixConservative | srt_verify.py:204-296 | fix mode accepts every file strict mode accepts, with the same entries and no warnings |
| Grammar.BlockRenumber | srt_verify.py:242-263 | an entry read without renumbering is read with renumbering too, the same except that it takes the fresh id and the counter advances by one |
| Grammar.ParseRenumberOnlyIds | srt_verify.py:242-263 | renumbering accepts every file the plain parse accepts, with the same times, texts, line numbers and warnings; only ids differ |
| Srt.Entry.constructor | srt_verify.py:130-152 | a new entry holds exactly the given fields |
| Srt.SrtFile.constructor | srt_verify.py:176-184 | a new file holds the given entries and no warnings |
| Srt.SrtFile.AddEntry | srt_verify.py:186-193 | the entry is appended at the end; nothing else changes |
| Srt.SrtFile.Parse | srt_verify.py:204-296 | the loop-based parse fails with exactly the error `Grammar.Parse` gives, or returns a fresh file whose entries and warnings are those of `Grammar.Parse`, with distinct entry objects |
| Srt.SrtFile.ReadEntries | srt_verify.py:226-293 | the `while` loop over the lines (blank lines skipped) computes the specified parse from line 0 |
| Srt.SrtFile.ReadBlock | srt_verify.py:234-292 | one entry becomes a fresh entry object whose fields are the specified entry, and the parse continues where the specification does |
| Srt.SrtFile.ReadEntry | srt_verify.py:234-292 | ID line, range line and text lines compute the specified block |
| Srt.SrtFile.ReadIdLine | srt_verify.py:234-264 | the ID-line branch computes `Grammar.ReadId` |
| Srt.SrtFile.ReadTimeRange | srt_verify.py:265-280 | the range-line branch computes `Grammar.ReadRange` |
| Srt.SrtFile.FindTimeRange | srt_verify.py:266-276 | the arrow check and the `→` replacement compute `Grammar.RangeLine` |
| Srt.SrtFile.ReadTimes | srt_verify.py:277-279 | splitting at ` --> ` and parsing both times computes `Grammar.ReadTimes` |
| Srt.SrtFile.ReadTextLines | srt_verify.py:283-291 | the nested text loop computes `Grammar.ReadText` |
| Validation.Findings | srt_verify.py:299-341 | a pass reports nothing exactly when every range is valid and, in strict mode, no entry overlaps its predecessor |
| Validation.Repaired | srt_verify.py:328-338 | a fix pass keeps the count of entries and repairs each one independently, from the original entries around it (its effect is `Validation.RepairRemovesOverlaps`, `Validation.RepairWithoutOverlaps`, `Validation.RepairIdempotent`, `Validation.RepairBetween`) |
| Validation.PassStrict | srt_verify.py:328-338 | a pass without fix mode changes no entry |
| Validation.PassAt | srt_verify.py:317-339 | after k iterations of a fix pass, an entry's start has moved only if it overlapped and was visited, and its end only if the next entry overlapped and was visited |
| Validation.PassRepairs | srt_verify.py:317-339 | a whole fix pass leaves the entries as `Repaired` describes |
| Validation.PassFindings | srt_verify.py:322-338 | each iteration reports what its checks find on the original entries |
| Validation.CheckEntry | srt_verify.py:318-339 | one iteration reports an invalid range, then either reports the overlap with the previous entry or moves both sides to the midpoint; nothing else changes |
| Validation.VerifyEntries | srt_verify.py:315-341 | the `for` loop reports the findings of the original entries and leaves the entries as the iterations do |
| Validation.VerifySrt | srt_verify.py:299-341 | `verify_srt` returns the findings for the entries as they were. Without fix mode it leaves them unchanged; with fix mode it leaves them repaired. Count and order never change |
| Validation.RepairRemovesOverlaps | srt_verify.py:328-338 | after a fix pass no entry starts before the previous one ends |
| Validation.RepairWithoutOverlaps | srt_verify.py:328-338 | entries without overlaps are left unchanged by a fix pass |
| Validation.RepairIdempotent | srt_verify.py:328-338 | a second fix pass changes nothing |
| Validation.RepairBetween | srt_verify.py:328-333 | a repaired boundary is shared by both entries and lies between the later entry's old start and the earlier entry's old end (normalised times) |
| Validation.FixStepFindings | srt_verify.py:322-338 | one fix-mode step reports the strict step's invalid-range finding and no overlap |
| Validation.FixReportsRanges | srt_verify.py:322-338 | fix mode reports exactly the invalid-range findings of strict mode, in order |
| Validation.StrictClean | srt_verify.py:322-338 | strict mode reports nothing exactly when every range is valid and no entry overlaps its predecessor |
| Validation.RecheckRepaired | srt_verify.py:375-378 | re-checking repaired entries, in either mode, reports only invalid ranges |
| Validation.RepairCanInvalidate | srt_verify.py:322-333 | a fix pass can report nothing yet leave an invalid range (0s-10s and 1s-2s meet at 5.5s) |
| Validation.FixFindingsAreRanges | srt_verify.py:322-338 | a fix pass reports only invalid ranges |
| Validation.Reported | srt_verify.py:375-378 | what `main` reports after validating, as written (the check again runs only when a fix pass reported something); in fix mode it is only invalid ranges |
| Validation.FixRunCanEndSilent | srt_verify.py:375-378 | for 0s-10s followed by 1s-2s with fixing, `main` reports nothing, yet the repaired second entry has an invalid range |
| Validation.Rechecked | srt_verify.py:375-378 | with the check again after every fix run, nothing is reported exactly when the final entries have valid ranges and no overlaps |
| Validation.ReportedIsRechecked | srt_verify.py:375-378 | the as-written report and the corrected one agree except for a fix run whose fix pass reported nothing |

## Left out

- `main` (srt_verify.py:344-388) is not modelled: argument parsing, file reading and printing. Its validation at 375-378, a second strict check run only `if result and args.fix`, is the function `Validation.Reported` of the entries (with `Validation.RecheckRepaired`); it is not a method over the file object.
- The check for a missing start or end time (srt_verify.py:318-321) is not modelled. It cannot fire for an `SRTTime`, which defines no truth value; timestamps are always present here.
- Message texts are modelled as tags (`ParseError`, `Warning`, `Finding`). Each tag carries the line, ids, times or raw line the message names. `BadTime`, `MissingLine` and `MissingSeparator` also carry a line number, which the source's `ValueError` from `SRTTime.parse` and its `IndexError`s (srt_verify.py:46-62, 266, 277-279) do not name: the model adds it.
- Python's exception types are not distinguished. Where the source raises `IndexError` (an ID line as the last line, a range line without an exact ` --> `), the model returns `MissingLine` / `MissingSeparator`. Every failure is a `Result.Err` that aborts the parse.
- Timestamp.Parse: the seconds fallback `int(float(...))` is modelled as exact decimal truncation toward zero (sign, digits, optional fraction). Floating-point rounding is not modelled, even for plain decimals: Python gives 2 for `int(float("1.99999999999999999"))`, the model 1; and integers above 2^53 lose precision in Python but not in the model. Exponents, `inf`, `nan` and underscores are not accepted. A decimal too large for a double makes `float()` give infinity, so Python's `int()` raises `OverflowError`; the model accepts it.
- Strings.ParseInt: `int()` is modelled as white space (that of `str.isspace` except U+001C to U+001F, as `int()` and `float()` skip), an optional sign and ASCII digits. Underscore separators and non-ASCII digits are not accepted. CPython's limit on integer conversion (by default a `ValueError` for more than 4300 digits) is not modelled: the model reads any number of digits.
- Strings.IsSpace: models `str.isspace` for `strip()` by its fixed character list; it has no Unicode database.
- Rendering.ParsePrinted: the round trip holds for entries whose times have non-negative fields and milliseconds below 1000, and whose text lines are clean and have no line break. Nothing is claimed for other entries, and some of them read back differently: milliseconds of 1000 or more, or of -100 or less, are cut to three characters; a text line that is empty, not stripped or holds `-->` is dropped, changed or fails the parse; a text line holding a line break is read as several lines. Some non-printable entries still read back unchanged (a negative hour prints as `-1` and parses as -1), but the model does not prove it.
- Validation.VerifySrt: requires the file's entry objects to be distinct. The source does not check this; a parsed file always satisfies it (`Srt.SrtFile.Parse` ensures it). The behaviour of a file holding one entry object twice is not modelled.
- Srt.SrtFile.constructor: the source stores the caller's list object itself (srt_verify.py:183), not a copy. The model's `entries` is a sequence value, so the file and the caller share no list.
- Srt.SrtFile.AddEntry: `append` on that shared list (srt_verify.py:193) also changes the caller's list and every other `SRTFile` built from it. The model appends to this file's sequence only, so "nothing else changes" holds in the model but not for such aliases. Nothing in `parse` or `verify_srt` depends on this sharing.
- `SRTFile.__init__` with no argument is `new SrtFile([])`; `Optional` is not modelled separately.
- `==`, `>` and `<=` on `SRTTime` (derived by `@total_ordering` from identity equality) are not modelled; the code only uses `<` and `>=`.
- `SRTFile.__str__` and `SRTEntry.__str__` are the functions `Entries.FileToString` / `Entries.EntryToString`. Their properties are the `Rendering` lemmas.
- Integer widths: Python integers are unbounded, as Dafny's are, so no arithmetic in the model overflows. Only the conversions have limits the model leaves out: the digit limit of `int()` (Strings.ParseInt) and the `float()` overflow in the seconds fallback (Timestamp.Parse), both named above.

## Findings

| source | as written | input that shows it | evidently intended | confidence | as-written member | corrected member |
|---|---|---|---|---|---|---|
| srt_verify.py:375-378 | with `--fix`, the file is checked again only if the fix pass reported something | entries 1 at 0s-10s and 2 at 1s-2s with `--fix`: the fix pass reports nothing, the repair makes entry 2 run 5.5s-2s, and nothing is reported | check again after every fix run, so an invalid range the repair created is reported | medium, not executed | Validation.Reported, Validation.FixRunCanEndSilent | Validation.Rechecked |

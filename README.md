# CengageScraper ingestion core, in Dafny

CengageScraper is a desktop tool that merges a course roster (Section, Email,
Cadet Name) with an assignment export of two-row student blocks, producing one
row for each identity/score row pair whose e-mail is in the roster. A rostered
student without such a pair gets no row, and one with two pairs gets two. This
project models the core of that pipeline as
values and proves properties of it. The core covers:

- name normalisation of `process_names`;
- the roster filter and normalise step of `setup_roster`;
- the strip and header/body split of `load_data_file`;
- `process_header`: points line, assignment name, question codes and the
  last-match-wins code loop;
- `parse_data`: the alternating identity/score row loop and the e-mail join
  with the roster;
- the column header, and the table construction;
- the two cell-fitting helpers of the spreadsheet export.

Both programs are modelled:

- `main.py`, the scoring variant: the total at column 3, then each score
  bucketed into `'-'`, `1.0` or `0.5`, and the comment and documentation texts
  written over the last one or two cells.
- `main_refactor.py`, the raw variant: every field from column 3 on is copied
  as a number, and the comment and statement texts are written at their own
  column index.

The pair loop is shared; `Pairing.Variant` selects the row builder. The
refactor's `statementCode`/`statement_idx` are the model's
`documentationCode`/`documentationIdx`.

Modules:

- `Results`: Option and Result.
- `Text`: Python's `strip`, one-character `split`, `split('@usafa')[0]`,
  `isdecimal` and `process_names`.
- `Roster`: filtering, projection and the e-mail lookup.
- `Header`: `Settings`, the split, and `process_header`.
- `Records`: cells, identities, errors, truthiness, tail overwrites and the
  table.
- `Scored` and `Unscored`: the two row and column layouts.
- `Pairing`: the `parse_data` loop and its specification.
- `Load`: `load_data_file` after the file read.
- `Report`: `_truncate_string` and `_truncate_or_pad_string`.

How the model treats the source's operations:

- Every Python exception the header, body and table steps can raise becomes
  an `Err` value, and the first one raised decides the error. These are an `IndexError` on a short
  line or row, a `ValueError` from `float`, a missing point total, an
  overwrite index past the row, a column count mismatch, and the lookup on a
  roster that was never loaded.
- Python truthiness of an index (`None` and `0` are both false) is
  `Records.Truthy`.
- The loops of `process_header` and `parse_data` are methods. Each one is
  proved equal to a specification function, and the lemmas are stated about
  those functions.

## Model

| member | source | states |
|---|---|---|
| Text.StripLeft | main.py:259 | the result is a suffix of the input, everything dropped is whitespace, and it does not start with whitespace |
| Text.StripRight | main.py:259 | the result is a prefix of the input, everything dropped is whitespace, and it does not end with whitespace |
| Text.Strip | main.py:259 | `x.strip()` is never longer than `x`, and neither starts nor ends with whitespace |
| Text.Split | main.py:272 | `split(',')` returns at least one field and no field contains the separator |
| Text.JoinSplit | main.py:272 | joining the fields of a split with the separator gives back the line |
| Text.SplitJoin | main.py:272 | splitting a join of separator-free fields gives back the fields |
| Text.SplitCount | main.py:273 | the number of fields is one more than the number of separators, so field 1 of the name line exists exactly when it has a comma |
| Text.BeforeMarker | main.py:323 | `split('@usafa')[0]` is a prefix of the text; it is the whole text exactly when the marker does not occur; otherwise the marker starts right after it, and nowhere in the text before that point, so the cut is at the first occurrence; the marker never occurs in it |
| Text.FirstCommaRun | main.py:212 | the leftmost position where `,[^ ]+` can match, none exactly when no comma is followed by a non-space |
| Text.RunEnd | main.py:212 | the greedy `[^ ]+` run ends at the first space or at the end of the text |
| Text.ProcessNames | main.py:211-215 | the result is a prefix of the name; without a match it is the whole name; with a match at `i` it ends at the first space after `i + 1` or at the end, and keeps at least the comma and one character |
| Text.ProcessNamesUnchanged | main.py:211-215 | a name in which every comma is followed by a space ("Doe, John") is returned unchanged |
| Text.ProcessNamesIdempotent | main_refactor.py:198-202 | normalising a normalised name changes nothing |
| Text.IsDecimal | main.py:274 | `x.isdecimal()`: a non-empty field made only of decimal digits |
| Text.NatToString | main.py:328 | the decimal rendering used in `Q{x + 1}` is non-empty, made of digits, has no leading zero unless the number is 0, and its decimal value is the number |
| Roster.Project | main.py:242-243 | a prepared entry keeps Section and Email and holds the stripped and normalised Cadet Name |
| Roster.PrepareRoster | main.py:241-243 | the roster, the rows of the course filtered and then projected, never has more entries than the spreadsheet has rows |
| Roster.PrepareRosterSound | main.py:241-243 | every roster entry is the projection of a spreadsheet row whose stripped Course Number is the configured one |
| Roster.PrepareRosterKeeps | main.py:241-243 | every row of the configured course appears, projected, in the roster |
| Roster.PrepareRosterAppend | main_refactor.py:228-230 | the roster of two row blocks is the concatenation of their rosters, so original order is kept |
| Roster.SetupRoster | main.py:224-243 | without a configured course number nothing is built and the roster already in force stays; with one the roster in force becomes the prepared one |
| Roster.SetupRosterDefault | main.py:21-29 | the default settings configure no course, so the roster step leaves the roster as it was |
| Roster.HasEmail | main.py:300-301 | `students['Email'].isin([email]).any()`: some roster entry has exactly this e-mail |
| Roster.FirstSection | main.py:300-302 | a section is found exactly when some entry has the e-mail, and it is the section of the first such entry |
| Roster.JoinKeys | main.py:300-302 | the (Email, Section) pairs of the roster, one per entry in order |
| Roster.FirstSectionIgnoresNames | main.py:300-302 | two rosters with the same e-mails and sections in the same order give the same lookup, whatever their names |
| Header.StripAll | main.py:259 | every line is stripped and none is dropped |
| Header.SplitHeaderBody | main_refactor.py:245-248 | header and body together are the stripped file, and the header has `header_length` lines unless the file is shorter |
| Header.PointFields | main.py:272 | the kept fields are the points-line fields other than `''` and `'Points'` (each kept field occurs in the line and every such field is kept) |
| Header.PointFieldsAppend | main.py:272 | filtering distributes over concatenation, so field order is kept |
| Header.ParsePoints | main.py:272 | the points parse exactly when every kept field is numeric, in order and one value per field; otherwise the first rejected field is the error |
| Header.QCodesFrom | main.py:274 | the (code, position) pairs from a position on: exactly the decimal fields, at their positions, in increasing position order |
| Header.QCodes | main.py:274 | the question codes are exactly the decimal fields of the code line, with their positions, in order |
| Header.LastPosition | main.py:276-280 | the index left by the code loop is unset exactly when no code equals the configured one, and is otherwise the position of the last code that does |
| Header.LastPositionOnLine | main.py:274-280 | on the code line itself the index is the last position holding the configured decimal code, and unset exactly when no position holds it |
| Header.HeaderOf | main.py:269-287 | a header without the points line fails naming that line; a processed header had all three lines, and has one question per kept points field |
| Header.HeaderOutcome | main.py:269-274 | the header processes exactly when the points line exists and all its kept fields are numeric, the name line exists and holds a comma, and the code line exists; otherwise the first failing step gives its error: the first non-numeric field, the missing name line, the missing name field, or the missing code line |
| Header.HeaderPoints | main.py:272 | a non-numeric kept points field makes processing fail; otherwise the points are the values of the kept fields in order |
| Header.HeaderCodes | main.py:273-280 | the name is field 1 of the name line, the codes are those of the code line, and the comment and documentation indices are the last positions holding their configured codes, unset exactly when none does |
| Header.ProcessHeader | main.py:269-287 | the processing method computes exactly `HeaderOf` |
| Header.CodeIndices | main_refactor.py:262-266 | the loop over the codes leaves the last matching position for each configured code |
| Records.TextOrEmpty | main.py:317 | `text if text else ''` gives the text when there is one and `''` otherwise |
| Records.TailOverwrite | main.py:316-319 | the overwrite keeps the length, puts the last value in the last cell, puts the comment in the last or second-to-last cell, and leaves every cell before the tail unchanged |
| Records.TailOverwriteNoIndices | main.py:316-319 | with no truthy index (unset or 0) nothing is overwritten |
| Records.QNames | main.py:328 | `Q1 .. Qn`, one name per question, name `k` being `Q` and the digits of `k + 1` |
| Records.QNamesDistinct | main.py:328 | no two question names are equal |
| Records.MaxWidth | main.py:335 | the widest row's width: it bounds every row and is attained by one |
| Records.Pad | main.py:335 | a short row keeps its cells and is filled with missing values to the width |
| Records.BuildTable | main.py:335 | the table is built exactly when there are no rows or the widest row has one cell per column; each row keeps its cells and is padded with missing values; otherwise the mismatch is the error |
| Records.BuildTableExact | main.py:335 | rows exactly as wide as the column header go into the table unchanged |
| Scored.Bucket | main.py:309-314 | a zero answer is `'-'`; a non-zero answer equal to the question's points is `1.0`, any other non-zero answer is `0.5`; a non-zero answer with no point total fails, and a zero answer needs none |
| Scored.CellAt | main.py:305-314 | column 3 holds the total itself, and every later column the bucket of question `j - 4`; a field `float` rejects fails at that column |
| Scored.ScoredFrom | main.py:305-314 | the cells succeed exactly when every column does, one cell per column in order; otherwise the error is the first failing column's |
| Scored.ScoreCell | main.py:306-314 | one pass of the inner loop for a column from 3 on computes exactly that column's cell |
| Scored.ScoreCells | main.py:305-314 | the enumeration loop computes exactly the column-by-column cells |
| Scored.Row | main.py:302-319 | an emitted row is as wide as the score row (at least 3); documentation goes in the last cell and comment in the last or second-to-last; name, e-mail and section lead; every other cell is its column's scored cell |
| Scored.BuildRow | main.py:302-321 | the row built by statements is exactly `Row` |
| Scored.Columns | main.py:328-333 | the header names are Name, Email, Section, Total and one Q name per question, with the last one or two renamed Documentation and Comment by the row rule |
| Scored.LabelsMatchCells | main.py:316-333 | in a row as wide as the header, the column named Comment holds the comment text and the one named Documentation the documentation text |
| Unscored.NumberAt | main_refactor.py:292-293 | a field is copied as its `float` value, or fails at its column |
| Unscored.CopiedFrom | main_refactor.py:291-293 | copying succeeds exactly when every field from column 3 on is numeric, one number per field in order; otherwise the first rejected column is the error |
| Unscored.CopyCells | main_refactor.py:291-293 | the enumeration loop computes exactly the copied numbers |
| Unscored.PlaceText | main_refactor.py:295-298 | writing succeeds exactly when each truthy index is inside the row; the statement lands at its index and wins a tie; the comment lands at its own; every other cell stays; the length never changes |
| Unscored.PlaceTextNoIndices | main_refactor.py:295-298 | with neither index truthy, the row is unchanged |
| Unscored.Row | main_refactor.py:287-298 | a row is emitted exactly when its fields are numeric and the indices fit; it is as wide as the score row; the name is cell 0, and the e-mail and section are cells 1 and 2 unless a text index overwrites them; each text is at its absolute index; every other cell from column 3 holds that column's number |
| Unscored.BuildRow | main_refactor.py:287-300 | the row built by statements is exactly `Row` |
| Unscored.Columns | main_refactor.py:307-312 | the header names are Name, Email, Section and n+1 Q names, with the last one or two renamed Statement and Comment |
| Unscored.StatementLabelAgreement | main_refactor.py:295-312 | the last column is named Statement; it holds the statement text when the statement index is that column, and a number when neither text index is that column |
| Pairing.TextField | main_refactor.py:304-305 | `row[idx] if idx else None` is none for an unset or 0 index, the field when the index is in the row, and fails naming the index otherwise |
| Pairing.IdentityOf | main.py:322-326 | an identity row is read exactly when it has two fields and every truthy text index fits; the e-mail is cut before `@usafa`, the name normalised, and the texts are read at their indices |
| Pairing.ReadIdentity | main.py:322-326 | the identity branch computes exactly `IdentityOf` |
| Pairing.Emit | main.py:299-321 | without a roster a score row fails; a score row whose e-mail is in no roster entry is skipped without reading its fields; otherwise it emits one row, built with the first matching section, or that row's error |
| Pairing.ScoreRow | main.py:299-321 | the score branch computes exactly `Emit` |
| Pairing.Paired | main.py:298-326 | the pair-by-pair specification of the loop: each even row is read as an identity, the row after it is emitted with that identity, and the first error ends the pairing |
| Pairing.PairedBound | main.py:298-326 | there are at most half as many output rows as body rows |
| Pairing.PairedAppend | main.py:298-326 | pairing a body cut after an even number of rows is pairing the two parts in sequence, so rows pair only with their neighbour, output keeps input order, and the first error wins |
| Pairing.PairedOnePair | main.py:298-321 | one identity row and its score row give one output row exactly when the e-mail is in the roster, and it is the row built with the first matching section |
| Pairing.PairedTrailing | main.py:322-326 | a trailing unpaired identity row adds no output, but a malformed one still fails |
| Pairing.PairedIgnoresNames | main.py:300-302 | rosters that differ only in names give the same output: the join is by e-mail only |
| Pairing.PairedWidths | main.py:298-321 | every output row is as wide as some score row of the body |
| Pairing.ParseRows | main.py:289-326 | the carried-state loop over the body computes exactly the pair-by-pair specification |
| Pairing.ColumnsOf | main_refactor.py:307-312 | the column header has four more names than there are questions in either variant |
| Pairing.ParseSpec | main.py:289-337 | a pairing error is the result; otherwise the result is the table built from the paired rows under the variant's column header, which succeeds exactly when there are no output rows or the widest has 4 + n cells, and holds one table row per output row |
| Pairing.TableFits | main.py:328-335 | when every score row has 4 + n fields, the table is the paired rows under the column header |
| Pairing.ParseData | main.py:289-337 | `parse_data` computes exactly `ParseSpec` |
| Load.LoadSpec | main.py:257-264 | a header error is reported as such; otherwise the result is the table or the error `parse_data` gives for the body, with one column per point value plus four and one table row per output row |
| Load.LoadDataFile | main.py:257-264 | the load method computes exactly `LoadSpec` |
| Load.LoadFits | main_refactor.py:244-251 | a file whose header processes, whose body pairs and whose score rows have 4 + n fields loads into exactly the paired rows |
| Report.PyPrefix | main.py:373 | Python's `s[:k]` is a prefix: of length `k` when that fits, the whole string past the end, and counted from the end for negative `k` |
| Report.Spaces | main.py:373 | `n` spaces |
| Report.LeftJustify | main.py:373 | `ljust` keeps the string as a prefix and pads it with spaces to the width, never shortening it |
| Report.TruncateString | main.py:369-370 | a string within the limit (20 by default) is kept; a longer one becomes its first `max_length` characters plus `...` |
| Report.TruncateStringIdempotent | main.py:369-370 | truncating twice is truncating once |
| Report.TruncateOrPad | main.py:372-373 | a string within the width (70 by default) is padded with spaces to exactly the width; a longer one ends in `...` after `s[:max_length - 3]` |
| Report.TruncateOrPadWidth | main.py:372-373 | for a width of at least 3 the result has exactly that width and starts with as much of the string as fits |
| Report.TruncateOrPadIdempotent | main.py:372-373 | for a width of at least 3, fitting a fitted text changes nothing |
| Report.TruncateOrPadTruncates | main.py:372-373 | over the width, fitting is truncating to three less |
| Report.DefaultWidths | main.py:369-373 | with the default widths a truncated text has at most 23 characters and a fitted text exactly 70 |
| Report.TruncateOrPadNarrow | main.py:372-373 | below a width of 3 the result is wider than the width; a string of at most `3 - width` characters becomes `...` |

## Left out

- The Qt GUI: dialogs, buttons, the data view and the `Settings` pickle
  persistence. The roster and settings in force are parameters.
- File I/O. `load_data_file` starts from the file's lines, and the roster
  spreadsheet from its rows, as read by `pd.read_excel(skiprows=1)`.
- `csv.reader` is the parameter `readCsv`. Quoting and the dialect are not
  modelled.
- Python's `float` is the parameter `toFloat`, which gives `None` where
  `float` raises. Scores are exact reals, so NaN, infinities and rounding in
  the comparisons are not modelled.
- The export (`export`, `generate_excel_table`, the openpyxl styling and
  `_pixel_to_pt`) is not modelled; only its two string helpers are.
- Text.IsDecimal: only the ASCII digits count as decimal. Python's
  `isdecimal` also accepts other Unicode decimal digits.
- Text.IsSpace: Python's whitespace set is listed explicitly.
  `splitlines`-style line ends are not relevant, since lines arrive already
  split.
- Text.ProcessNames: computed directly from the regular expression's meaning
  (leftmost match, greedy run); no regex engine is modelled.
- Header.Settings: the indices are naturals. A negative `header_length` or
  line index from an edited settings file, which Python would count from the
  end, is not modelled.
- Roster.SetupRoster: every roster cell is taken to be a string, so the
  exceptions of the roster step are not modelled. An all-numeric Course
  Number column makes `.str.strip()` raise, and a non-string Cadet Name makes
  `process_names` raise; `setup_roster` then shows the error and keeps the
  roster it had. A mixed Course Number column, whose non-string cells become
  NaN and never match, is not modelled either.
- Roster.FirstSection: compares e-mails as exact strings. Neither program
  falls back to a name match or keeps unmatched records: the join is by
  e-mail only, as `Pairing.PairedIgnoresNames` states, and an unmatched
  score row is dropped.
- Records.BuildTable: pandas' other inputs (dtype inference, object cells of
  other types) are not modelled; only the padding and the width check of a
  list of lists are.

## Findings

None.

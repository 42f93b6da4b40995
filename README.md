# Heat-sheet generator: a verified model

`gen.py` turns a meet's configuration into a LaTeX heat sheet. The configuration is a list of
event definitions (name, duration, kind, maximum heat size, seed-time average and
spread), a roster, and a CSV sheet of entries. The program does three things:

1. It reads the entry sheet. Every row names an athlete and a comma-separated list of
   event labels. Labels and names are stripped and lower-cased, then looked up. Each
   resolved athlete is appended to the list kept under the event's lower-cased name.
   Lookups that miss print a diagnostic. The lists then replace the entries of the
   configured events.
2. It schedules the events in their configured order. Each event starts at the meet's
   start time plus every earlier event's duration and the gap between events. The start
   is shown as `%-I:%M %p`. The entries are sliced into consecutive heats of at most
   the maximum heat size.
3. It renders each event's table. Each heat gets one random seed value per athlete,
   floored at zero and sorted. The values are paired with the athletes in heat order
   and rows are numbered from 1. When an event has several heats, a heat column shows
   each heat's number on its first row.

The Dafny modules follow that structure:

- `Wrappers`: `Option` and `Result`.
- `Arith`: facts about Euclidean division.
- `Text`: Python's `strip`, `lower` and `split`, and decimal digits.
- `Meet`: teams, event kinds, athletes, the mutable `EventDef` class and the scheduled `Event`.
- `Heats`: `make_heats`.
- `Entries`: `parse_entries`.
- `Schedule`: the scheduling loop and the clock text.
- `Render`: `render_heat`, mark text and the table of an event.

Some units change in the model:

- Decimal quantities are integer hundredths: an event's average, its spread and every seed
  value. So the source's `average < 60` seconds becomes `average < 6000`.
- Times are integer minutes from midnight of the meet's first day.

The loops that update state are methods proved against specification functions:

- `MakeHeats` is proved against `Chunks`.
- `ParseEntries` and its three loops are proved against `Outcomes`, `Collect`, `EntriesFor` and `Messages`.
- `ScheduleEvents` is proved against `StartOf` and `Scheduled`.

The properties are lemmas about those functions.

Seed values are sorted ascending for every kind of event, field events included
(gen.py:84); `Render.RenderHeat` and `Render.RenderHeatRows` follow that.

## Model

| member | source | states |
|---|---|---|
| Meet.TeamName | gen.py:14-16 | each team's display value, printed in a row's team cell (`Render.RowCells`) |
| Meet.IsRun | gen.py:25-26 | `is_run`: track and relay are timed kinds (its property is in `Meet.KindChoices`) |
| Meet.PositionLabel | gen.py:112 | the position header, "Lane" for track and "Order" otherwise (`Meet.KindChoices`, `Render.HeaderLabels`) |
| Meet.MarkLabel | gen.py:114 | the mark header, "Seed Time" for track and relay and "Mark" otherwise, which agrees with `is_run` (`Meet.KindChoices`) |
| Meet.KindChoices | gen.py:25-26 | exactly track and relay are timed; the mark header is "Seed Time" exactly for timed kinds; the position header is "Lane" exactly for track |
| Meet.EventDef.constructor | gen.py:35-43 | an event definition holds the given name, duration, entries, kind, maximum heat size, average and spread |
| Text.Strip | gen.py:214 | `str.strip()`; its characterisation is in `Text.StripUnique`, `Text.StripEnds` and `Text.StripIdempotent` |
| Text.Lower | gen.py:216 | `str.lower()`; it folds case (`Text.LowerFoldsCase`), keeps whitespace (`Text.LowerKeepsSpace`) and commutes with `strip` (`Text.LowerStrip`) |
| Text.TrimLeftSpec | gen.py:214 | `lstrip` removes a whitespace prefix of its input and leaves a text that is empty or starts with a non-space |
| Text.TrimRightSpec | gen.py:214 | `rstrip` removes a whitespace suffix of its input and leaves a text that is empty or ends with a non-space |
| Text.StripUnique | gen.py:214 | the stripped text is the unique core with no whitespace at either end that is surrounded only by whitespace |
| Text.StripEnds | gen.py:214 | a stripped text is empty or has a non-space at both ends |
| Text.StripWithin | gen.py:214 | stripping introduces no character that was not there |
| Text.StripIdempotent | gen.py:216 | stripping an already stripped label changes nothing |
| Text.LowerKeepsSpace | gen.py:216 | lower-casing keeps the length and the whitespace positions, and doing it twice is doing it once |
| Text.LowerFoldsCase | gen.py:216 | no ASCII or Latin-1 capital survives lower-casing; each ASCII capital becomes its small letter and every other ASCII character is kept |
| Text.LowerTrimLeft | gen.py:216-217 | lower-casing then `lstrip` is `lstrip` then lower-casing |
| Text.LowerTrimRight | gen.py:216-217 | lower-casing then `rstrip` is `rstrip` then lower-casing |
| Text.LowerStrip | gen.py:216-217 | `strip().lower()` is `lower().strip()` |
| Text.Split | gen.py:214 | `split(",")` yields at least one piece and no piece contains the separator |
| Text.JoinSplit | gen.py:214 | joining the pieces with the separator gives back the split text |
| Text.SplitJoin | gen.py:214 | splitting a join of separator-free pieces gives back the pieces, empty ones included |
| Text.SplitNoSeparator | gen.py:214 | a text without a comma is a single label |
| Text.SplitAfterPiece | gen.py:214 | a comma after a comma-free prefix ends the first label |
| Text.DecimalText | gen.py:77 | `str(n)` is a non-empty digit string with no leading zero unless it is "0" |
| Text.DecimalRoundTrip | gen.py:77 | the decimal text of a number reads back as that number |
| Text.TwoDigits | gen.py:151 | a zero-padded field is two digits |
| Text.TwoDigitsValue | gen.py:151 | a zero-padded field reads back as its number |
| Heats.Chunks | gen.py:129-133 | the slices `entries[i:i+m]` for `i` in `range(0, n, m)`; its properties are in `Heats.ChunksFlatten`, `Heats.ChunksCount`, `Heats.ChunksSizes` and `Heats.ChunksPosition` |
| Heats.HeatsOf | gen.py:129-133 | what `make_heats` returns when it does not raise; `Heats.MakeHeats` is proved equal to it |
| Heats.MakeHeats | gen.py:129-133 | fails exactly when the heat size is zero (`range` raises); otherwise returns the consecutive chunks for a positive size and no heats for a negative one |
| Heats.ChunksFlatten | gen.py:129-133 | concatenating the heats in order gives back the entry list |
| Heats.ChunksCount | gen.py:131 | there are ceil(n / size) heats, and none exactly when there are no entries |
| Heats.ChunksSizes | gen.py:132 | every heat is non-empty and holds at most `size` athletes; all but the last hold exactly `size`; the last holds the remainder |
| Heats.ChunksPosition | gen.py:131-132 | entry `p` is in heat `p / size` at place `p % size` |
| Entries.Key | gen.py:223 | the key an event's entries are gathered and looked up under, its lower-cased name (lines 223 and 230; `Entries.AliasesMerge`, `Entries.AssignEntries`) |
| Entries.Collect | gen.py:209-223 | the `entry_map` dictionary built from the outcomes; it equals the reference lists (`Entries.CollectIsEntries`) |
| Entries.Normalize | gen.py:216-217 | `strip().lower()` of a label or a name (`Entries.NormalizeIdempotent`, `Entries.CaseInsensitiveName`) |
| Entries.Labels | gen.py:214-216 | a row's labels: the stripped list split at commas, each piece normalised (`Entries.SingleLabelResult`, `Entries.NormalizeLabels`) |
| Entries.Resolve | gen.py:219-227 | the event lookup first, then the athlete lookup; only a full resolution enters the athlete under the event's lower-cased name (`Entries.SingleLabelRow`, `Entries.UnknownAthleteRow`) |
| Entries.Step | gen.py:223 | `setdefault(key, []).append(athlete)` for an entered pairing (`Entries.CollectIsEntries`) |
| Entries.MissingEvents | gen.py:229-234 | one "no entries" message per configured event without a gathered list, in event order (`Entries.AssignEntries`) |
| Entries.CollectIsEntries | gen.py:223 | the dictionary has a key exactly when some athlete was entered under it, and then holds exactly the reference list of those athletes in order |
| Entries.CollectedLists | gen.py:229-232 | the same, for the key of every configured event |
| Entries.RowOutcomesPointwise | gen.py:218-227 | each label of a row yields exactly one outcome, its own lookup, in label order |
| Entries.EntriesForAppend | gen.py:213-227 | lists and diagnostics over two blocks of outcomes are the first block's followed by the second's |
| Entries.EntriesInRowOrder | gen.py:213-227 | entries and diagnostics accumulate in row order; a later row's athletes come after an earlier row's and nothing is merged or removed |
| Entries.SkippedOnly | gen.py:224-227 | outcomes that are all misses enter nobody and report one message each, in order |
| Entries.UnknownAthleteRow | gen.py:221-225 | a row with an unknown athlete enters nobody and reports, label by label, the unknown event or else the unknown athlete |
| Entries.UnknownAthleteAddsNothing | gen.py:221-225 | appending a row with an unknown athlete leaves every event's list as it was |
| Entries.SingleLabelResult | gen.py:214-216 | a row with one label has that label, normalised, as its only label and its lookup as its only outcome |
| Entries.SingleLabelRow | gen.py:218-227 | a one-label row appends its athlete to the end of the key's list exactly when event and athlete both resolve, and reports the unknown event, or else the unknown athlete, otherwise |
| Entries.AliasesMerge | gen.py:223 | two labels resolving to events with the same lower-cased name feed one list, holding both athletes in row order; if the rows are equal, the duplicate is kept |
| Entries.CaseInsensitive | gen.py:216-217 | two spellings that differ only in case, with the same surrounding whitespace, normalise alike |
| Entries.CaseInsensitivePadded | gen.py:216-217 | two spellings whose cores differ only in case normalise alike, whatever whitespace pads either one |
| Entries.NormalizeIdempotent | gen.py:216-217 | normalising twice is normalising once |
| Entries.CaseInsensitiveName | gen.py:217 | "Sean" and " sean " both look up "sean" |
| Entries.NormalizeLabels | gen.py:215-216 | every split label is replaced by its stripped, lower-cased form, in place and in order |
| Entries.EnterRow | gen.py:218-227 | the dictionary and diagnostics after a row are those of the earlier outcomes followed by this row's lookups |
| Entries.AssignEntries | gen.py:229-234 | every configured event whose key was gathered gets that list; every other event keeps its old entries and yields one "no entries" message, in event order |
| Entries.ParseEntries | gen.py:203-235 | the diagnostics are the lookup misses in row and label order, then one message per configured event with no entries, then the final message; an event with entries gets exactly the athletes entered under its key in row order, and an event without keeps its old entries |
| Schedule.FormatClock | gen.py:151 | `strftime("%-I:%M %p")` of a minute of the day; its properties are in `Schedule.ClockShape`, `Schedule.ClockRoundTrip`, `Schedule.ClockExamples` and `Schedule.ClockTwelve` |
| Schedule.Scheduled | gen.py:149-156 | the event built for a definition at a start time; `Schedule.ScheduleOne` and `Schedule.ScheduleEvents` are proved against it |
| Schedule.HourText | gen.py:151 | `%-I` is one or two digits with no leading zero |
| Schedule.ClockShape | gen.py:151 | the clock text has 7 or 8 characters, starts with a non-zero digit, and ends in AM before noon and PM from noon on |
| Schedule.HourRoundTrip | gen.py:151 | the hour text reads back as the hour |
| Schedule.ClockRoundTrip | gen.py:151 | parsing the clock text gives back the minute of the day, so distinct minutes of a day show distinct texts |
| Schedule.ClockExamples | gen.py:151 | 18:00, 18:10 and 18:20 show as 6:00 PM, 6:10 PM and 6:20 PM |
| Schedule.ClockTwelve | gen.py:151 | midnight and noon show hour 12 (12:00 AM and 12:00 PM) |
| Schedule.ElapsedIsSum | gen.py:158 | event k starts at the first start plus the sum of the earlier durations plus k gaps |
| Schedule.NextStart | gen.py:158 | each start is the previous start plus the previous duration plus the gap |
| Schedule.StartsIncrease | gen.py:158 | when every duration plus the gap is positive, later events start strictly later |
| Schedule.ScheduleOne | gen.py:148-157 | one pass of the loop fails exactly when the heat size is zero; otherwise it yields the definition's name, kind, average and spread, its heats and the clock text of its start |
| Schedule.ScheduleEvents | gen.py:145-158 | fails exactly when some definition has heat size zero; otherwise yields one event per definition, in order, event k at the start plus the earlier durations and gaps, with its heats |
| Schedule.MeetStarts | gen.py:255-388 | with the configured 18:00 start and 3-minute gap (lines 387-388) and the first durations 7, 7 and 10 (lines 255-276), the first three events show 6:00 PM, 6:10 PM and 6:20 PM |
| Render.ClampAll | gen.py:82 | one floored draw per athlete |
| Render.Sort | gen.py:84 | sorting keeps the number of seeds |
| Render.SortSpec | gen.py:84 | the sorted seeds are ascending and a permutation of the floored draws |
| Render.AscendingUnique | gen.py:84 | an ascending arrangement of a multiset is unique, so the seed column does not depend on the sorting algorithm |
| Render.Fixed2 | gen.py:75 | `f"{v:.2f}"` of a value in hundredths (also the field mark at line 88); it reads back as the value (`Render.Fixed2RoundTrip`) |
| Render.MinSec | gen.py:76-77 | the `m:ss.t` text; it reads back as the value truncated to tenths (`Render.MinSecRoundTrip`) |
| Render.FormatSeedTime | gen.py:73-77 | `format_seed_time`: two decimals under a one-minute average, else minutes and seconds truncated to tenths (`Render.MarkRoundTrip`) |
| Render.FormatMark | gen.py:85-88 | a row's mark: the seed time for timed kinds, else two decimals and "m" (`Render.MarkRoundTrip`) |
| Render.Fixed2RoundTrip | gen.py:75 | a two-decimal mark reads back as its seed value |
| Render.MinSecArith | gen.py:76-77 | minutes, whole seconds and tenths add up to the seed truncated to tenths |
| Render.MinSecRoundTrip | gen.py:76-77 | a minutes-and-seconds mark reads back as its seed truncated to tenths |
| Render.MarkRoundTrip | gen.py:85-88 | every mark reads back as its seed, exactly, or truncated to tenths for timed events averaging a minute or more |
| Render.ShownMonotone | gen.py:76 | truncation to tenths keeps the sorted order and loses less than a tenth |
| Render.HeatCellAt | gen.py:91 | `heat_number if i == 0 else ''`, or no heat column at all (`Render.RenderHeatRows`) |
| Render.RenderHeat | gen.py:80-98 | one row per athlete |
| Render.PairRows | gen.py:90-97 | `zip` of equal-length columns gives one row per pair |
| Render.PairRowsAt | gen.py:90-97 | row i pairs athlete i with seed i, at position i + 1, with the heat cell of index i and the seed's mark text |
| Render.RenderHeatRows | gen.py:80-98 | the rows list the heat's athletes in order, at positions 1..n, with each seed's mark text; the heat number appears only on row 0, and the heat column only for numbered heats; the seeds are the floored draws, ascending, and are the only ascending arrangement of them |
| Render.MarksReadBackAscending | gen.py:84-88 | the marks of a heat read back in non-decreasing order from the first row to the last |
| Render.SeedsFloored | gen.py:82 | every seed is non-negative and at least its draw |
| Render.HeatNumbersShown | gen.py:91 | a numbered non-empty heat shows its number exactly once; an unnumbered one shows none |
| Render.HeatsRows | gen.py:117-121 | the rows of consecutive heats rendered in order (`Render.HeatsRowsAthletes`, `Render.HeatsRowsNumbers`, `Render.HeatsRowsCells`) |
| Render.EventRows | gen.py:117-121 | the body of an event's table, with heat numbers exactly when it has several heats (`Render.EventRowsSpec`) |
| Render.HeatsRowsAthletes | gen.py:117-121 | the rows of consecutive heats list every athlete once, heat after heat |
| Render.HeatsRowsNumbers | gen.py:119 | numbered non-empty heats starting at `first` show first, first + 1, ... in order; unnumbered heats show none |
| Render.EventRowsSpec | gen.py:117-121 | an event's table lists its athletes in heat order, and shows heat numbers 1..k exactly when there are k > 1 non-empty heats |
| Render.Header | gen.py:109-115 | the column headers of an event's table (`Render.HeaderLabels`, `Render.RowsFitHeader`) |
| Render.ColumnCount | gen.py:106 | the number of declared columns (`Render.RowsFitHeader`) |
| Render.RowCells | gen.py:91-96 | the text cells of a row (`Render.HeatsRowsCells`, `Render.RowsFitHeader`) |
| Render.RowsFitHeader | gen.py:106-115 | every row has one cell per header, and the declared column count is the headers plus the trailing empty cell, for an event with at least one heat |
| Render.HeatsRowsCells | gen.py:91-96 | numbered rows have five text cells and unnumbered rows four |
| Render.HeaderLabels | gen.py:109-115 | the header starts with "Heat" exactly for several heats; its position label is "Lane" only for track and its mark label is "Seed Time" exactly for timed kinds |

## Left out

- LaTeX assembly (`gen_event_list`, the document preamble, the table markup in `render_event_heat`) is not modelled. Only the cells, their order and the column count are.
- File and CSV I/O: the entry sheet is given as a sequence of (name, list of events) rows.
- Malformed entry sheets are not modelled: every row has both fields. In the source, a column missing from the header raises `KeyError` (lines 214 and 217). A short row has `None` for its missing fields, and `.strip()` then raises `AttributeError`.
- `print` calls become a returned sequence of diagnostics, in printing order.
- `random.gauss` is an input: the draws for each heat are a parameter, in hundredths.
- Floating point is not modelled: decimal quantities are integer hundredths. Rounding by `.2f` of values finer than a hundredth, and binary rounding inside `floor(x % 60 * 10)`, are outside the model.
- `datetime` and `timedelta` are reduced to integer minutes. The clock shows the minute modulo a day, and the date part is not modelled. The `OverflowError` the source raises when a start leaves years 1-9999, or when a `timedelta` exceeds 999999999 days, is not modelled, so `Schedule.ScheduleEvents` fails only on a zero heat size.
- Schedule.ScheduleEvents: a negative duration plus gap is allowed, as in the source. Strictly increasing starts are proved only when every duration plus the gap is positive (`Schedule.StartsIncrease`).
- `str.lower()` is modelled for ASCII and Latin-1 capitals only. Other Unicode case mappings are not modelled.
- `list.sort()` is a library call and sorts in place. It is modelled by value, as an insertion-sort specification function whose result is proved to be the unique ascending permutation.
- The `__main__` block is not modelled: the roster, the configured events, and the writing of `heat_sheet.tex` with its closing message. From its data, the start time, the gap and the first three durations appear in `Schedule.MeetStarts`.
- Render.RowsFitHeader: for an event with no heats, the source declares six columns under four headers. The lemma states the column count only when there is at least one heat.
- Render.HeatsRowsNumbers: an empty heat renders no row, so it shows no number. The lemma therefore assumes non-empty heats, which is what `make_heats` produces (`Heats.ChunksSizes`).

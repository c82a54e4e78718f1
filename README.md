# Boss tracker core in Dafny

A model of the core logic of a Discord bot that tracks boss respawns. The bot
reads its data from a published spreadsheet. The core, all in
`boss-tracker-bot.js`, has four parts:

- **CSV ingestion** (`parseCSV`). The document is split into lines and the header
  line is skipped. Each remaining line is trimmed and split by a left-to-right
  scan: a `"` toggles an "inside quotes" flag, and a `,` outside quotes ends a
  field. Rows with at least ten fields become boss records.
- **Status** (`getTimeRemaining`). Each boss gets a countdown: `READY NOW`, an
  `h m s` breakdown classed `soon` or `long`, `Invalid Date`, `Fixed Schedule` or
  `Unknown`.
- **Queries**. `getReadyBosses` lists the ready bosses. `getNextBosses` lists
  the next two to spawn, sorted by time remaining. `findBossByName` finds a boss
  by a case-insensitive substring of its name.
- **Pagination** of the `!list` command: ten bosses a page, with the requested
  page clamped to the pages that exist.

Modules, one per file:

| file | module | what |
|---|---|---|
| `wrappers.dfy` | `Wrappers` | `Option` |
| `text.dfy` | `Text` | `trim`, `toLowerCase`, `includes`, `parseInt`, decimal rendering |
| `csv_line.dfy` | `CsvLine` | the quote-toggling field scan, as a method and as a specification |
| `records.dfy` | `Records` | `split('\n')`, one row to one record, `parseCSV` |
| `status.dfy` | `Status` | `getTimeRemaining` |
| `queries.dfy` | `Queries` | `getReadyBosses`, `getNextBosses` (with an in-place sort), `findBossByName` |
| `pagination.dfy` | `Pagination` | the `!list` page arithmetic |

The clock and the date parse are parameters. `now: int` is the current instant
in milliseconds. `parseDate: string -> Option<int>` turns a respawn text into an
instant, and `None` stands for an invalid date, whose difference with now is
`NaN`.

Each loop in the source is a method. Three of them are proved equal to a
recursive specification function, and the properties are lemmas about those
functions:

- `CsvLine.ParseLine` is proved equal to `CsvLine.SplitLine`.
- `Records.ParseCSV` is proved equal to `Records.Records`.
- The collecting loop of `Queries.GetNextBosses` is proved equal to `Queries.UpcomingOf`.

The sort of `getNextBosses` is an in-place insertion sort on an array,
`Queries.SortByTime`. It is proved against the properties of
`Array.prototype.sort` with that comparator: the result is sorted, is a
permutation of the input, and is stable (entries with equal time remaining
keep their order, `Queries.SameTies`). These three properties fix the result,
so the algorithm chosen does not matter.

The field scan also has an independent description. A comma is a separator
exactly when an even number of quotes precede it (`CsvLine.Separators`). Field
`k` is the text between separators `k-1` and `k`, with its quotes removed and
then trimmed (`CsvLine.FieldOf`). `CsvLine.SplitLineSegments` proves that the
scan produces exactly these fields.

Some behaviour of the code worth knowing:

- A row becomes a record only when it has at least ten fields (line 54).
- The note column is stored in the record, and no status ever reads it.
- The status comes from the respawn time alone. The last kill and the cooldown
  are stored and not used.
- A regular boss whose respawn text does not parse gets `Invalid Date`.
- `Unknown` and `Invalid Date` are classed `long`.
- A ready boss has no `totalMs`.
- The regular-boss branch is tested before the fixed one. The two are disjoint.

## Model

| member | source | states |
|---|---|---|
| Text.TrimShape | boss-tracker-bot.js:32 | a trimmed text is the slice of the original between two positions with only whitespace outside them; it neither starts nor ends with whitespace, holds only characters of the original, and is empty exactly when the original is all whitespace |
| Text.TrimSlice | boss-tracker-bot.js:32 | the trimmed text is a slice of the original with only whitespace outside it |
| Text.TrimStartShape | boss-tracker-bot.js:32 | dropping leading whitespace keeps a suffix; what was dropped is whitespace and what is kept does not start with it |
| Text.TrimEndShape | boss-tracker-bot.js:32 | dropping trailing whitespace keeps a prefix; what was dropped is whitespace and what is kept does not end with it |
| Text.ToLower | boss-tracker-bot.js:176 | lowercasing keeps the length, leaves no ASCII capital, turns each capital into its small letter and keeps every other character |
| Text.ToLowerIdempotent | boss-tracker-bot.js:176 | lowercasing twice is lowercasing once |
| Text.IncludesAt | boss-tracker-bot.js:176 | `includes` holds exactly when the query occurs at some index of the text |
| Text.LeadingDigits | boss-tracker-bot.js:65 | the digits `parseInt` reads are a prefix of decimal digits, and they stop at the first non-digit |
| Text.NatToString | boss-tracker-bot.js:110 | the decimal rendering of a number is a non-empty digit string with no leading zero |
| Text.NatToStringValue | boss-tracker-bot.js:110 | the decimal rendering of `n` has value `n` |
| Text.ParseIntNatToString | boss-tracker-bot.js:65 | `parseInt` reads back the decimal rendering of a number and of its negation |
| Text.ParseIntNeedsDigit | boss-tracker-bot.js:65 | `parseInt` gives a number only for a text that holds a digit, and a negative number only for one that holds a minus sign |
| Text.ParseIntPrefix | boss-tracker-bot.js:65 | `parseInt` of a rendered number followed by any text not starting with a digit reads that number, with or without a leading minus sign |
| Text.ParseIntDigits | boss-tracker-bot.js:65 | a digit string followed by a non-digit reads as its value, and as its negation after a minus sign |
| Text.ParseIntUnsigned | boss-tracker-bot.js:65 | a text whose leading digits are non-empty reads as their value |
| Text.ParseIntNegative | boss-tracker-bot.js:65 | a minus sign before such a text reads as the negated value |
| Text.LeadingDigitsThen | boss-tracker-bot.js:65 | the digits read from a digit string followed by a non-digit are that digit string |
| CsvLine.ParseLine | boss-tracker-bot.js:36-52 | the scan loop returns the fields of the specification, one more than the commas outside quotes |
| CsvLine.ScanMeaning | boss-tracker-bot.js:39-50 | after any prefix, the quote flag is the parity of quotes read, one field is finished per separator, and the current field is the unquoted text after the last separator |
| CsvLine.SplitLineSegments | boss-tracker-bot.js:40-52 | a line with k separators has exactly k+1 fields, and field i is the trimmed, unquoted text between separators i-1 and i, however unbalanced the quoting |
| CsvLine.SeparatorIff | boss-tracker-bot.js:42-45 | a comma ends a field exactly when an even number of quotes precede it, so a comma inside quotes is content |
| CsvLine.SeparatorsShape | boss-tracker-bot.js:42-45 | separators are commas preceded by an even number of quotes, in strictly increasing order |
| CsvLine.SeparatorsComplete | boss-tracker-bot.js:42-45 | every comma preceded by an even number of quotes is a separator |
| CsvLine.NoQuoteInFields | boss-tracker-bot.js:42-43 | no field ever contains a quote character |
| CsvLine.FieldsTrimmed | boss-tracker-bot.js:45-51 | no field starts or ends with whitespace |
| Records.SplitOn | boss-tracker-bot.js:27 | splitting on a character always gives at least one piece |
| Records.SplitOnJoin | boss-tracker-bot.js:27 | joining the pieces with `\n` gives the document back, and no piece holds a `\n` |
| Records.ParseCSV | boss-tracker-bot.js:26-77 | the loop returns the records of the specification, fewer than there are lines |
| Records.HeaderOnly | boss-tracker-bot.js:27-30 | a document with no newline yields no record |
| Records.HeaderIgnored | boss-tracker-bot.js:30 | two documents that differ only in the header line yield the same records |
| Records.RecordsLength | boss-tracker-bot.js:30 | there are at most as many records as lines after the header |
| Records.CollectLength | boss-tracker-bot.js:30-55 | each line gives at most one record |
| Records.CollectAppend | boss-tracker-bot.js:30-74 | records keep line order: the records of two runs of lines are those of the first, then those of the second |
| Records.RowContribution | boss-tracker-bot.js:31-63 | a line that is blank once trimmed or has fewer than ten fields contributes nothing, and any other line contributes exactly its own record at its own place |
| Records.CollectAround | boss-tracker-bot.js:30-74 | a line's records sit between those of the lines before and after it |
| Records.CollectSource | boss-tracker-bot.js:55-72 | every record comes from some data line with at least ten fields |
| Records.RecordFields | boss-tracker-bot.js:57-71 | the record of a data line: map, name, cooldown and note are columns 0, 2, 5 and 9; `fixed` exactly when column 3 is `Fixed`; last kill and respawn time join two columns with a space only when both are non-empty and are the first column otherwise; the level is what `parseInt` reads from column 1, or 0 when it reads nothing |
| Status.Breakdown | boss-tracker-bot.js:100-102 | hours, minutes and seconds with minutes and seconds below 60 and `h*3600000 + m*60000 + s*1000 <= diff < that + 1000` |
| Status.BreakdownUnique | boss-tracker-bot.js:100-102 | the breakdown is the only triple with those bounds |
| Status.CountdownHours | boss-tracker-bot.js:110 | reading the countdown text back with `parseInt` gives its hours |
| Status.GetTimeRemaining | boss-tracker-bot.js:80-120 | fixed gives `Fixed Schedule`; no respawn time gives `Unknown`/long; an unparsable one gives `Invalid Date`/long; ready exactly when the respawn instant is not after now; a countdown exactly when it is after now, with `totalMs` the difference, the `h m s` text, and `soon` exactly below one hour |
| Queries.GetReadyBossesMembers | boss-tracker-bot.js:141-148 | the ready bosses are exactly the listed bosses that are not fixed and are classed ready |
| Queries.GetReadyBossesAppend | boss-tracker-bot.js:141-148 | the filter keeps list order |
| Queries.GetReadyBosses | boss-tracker-bot.js:141-148 | the filter never yields more bosses than it is given |
| Queries.IsReadyMeaning | boss-tracker-bot.js:142-146 | a boss passes the filter exactly when it is regular with a respawn time that parses to an instant not after now |
| Queries.UpcomingOf | boss-tracker-bot.js:154-164 | the collected entries are exactly the non-fixed, non-ready bosses with a countdown, each paired with its `totalMs` |
| Queries.UpcomingMeaning | boss-tracker-bot.js:154-164 | each collected entry is a regular boss with a positive time remaining, equal to its respawn instant minus now, classed soon or long |
| Queries.ReadyAndUpcomingDisjoint | boss-tracker-bot.js:141-164 | no boss is both ready and among the upcoming entries |
| Queries.SortByTime | boss-tracker-bot.js:167 | the in-place sort leaves the array sorted ascending by time remaining, a permutation of its old contents, with entries of equal time in their old order |
| Queries.InsertLast | boss-tracker-bot.js:167 | one insertion step sorts the first `i + 1` entries, permutes only them, leaves the entries after them unchanged and keeps the order of ties |
| Queries.SwapAdjacent | boss-tracker-bot.js:167 | exchanges two neighbouring entries and changes nothing else |
| Queries.InsertStart | boss-tracker-bot.js:167 | before the step, a sorted prefix is the insertion state with the moved entry at `i` |
| Queries.InsertStep | boss-tracker-bot.js:167 | swapping the moved entry with a larger left neighbour keeps the insertion state, one place lower |
| Queries.InsertStepOrder | boss-tracker-bot.js:167 | that swap keeps the order facts of the insertion state |
| Queries.InsertDone | boss-tracker-bot.js:167 | once the left neighbour is not larger, the first `i + 1` entries are sorted, permuted among themselves, the rest unchanged and ties in order |
| Queries.SuffixMultiset | boss-tracker-bot.js:167 | two permutations that agree after index `n` permute the first `n` entries among themselves |
| Queries.WithTimeAppend | boss-tracker-bot.js:167 | the entries of one time in a concatenation are those of each part, in turn |
| Queries.SwapKeepsTies | boss-tracker-bot.js:167 | exchanging neighbours with different times keeps the order of every tie |
| Queries.PrefixTies | boss-tracker-bot.js:170 | the first entries of a stably sorted sequence list, for every time, a prefix of its entries of that time in list order |
| Queries.GetNextBosses | boss-tracker-bot.js:151-171 | the result has min(2, n) entries for n upcoming entries, is sorted ascending, is drawn from the upcoming entries, every upcoming entry left out has at least the time of every entry kept, and among entries of equal time the ones kept are the first in list order |
| Queries.SortedPrefixSmallest | boss-tracker-bot.js:167-170 | the first entries of a sorted sequence are sorted and are its smallest entries |
| Queries.FindBossByName | boss-tracker-bot.js:174-178 | none exactly when no name contains the query ignoring case; otherwise the earliest boss whose name does |
| Queries.FindIgnoresQueryCase | boss-tracker-bot.js:176 | a lowercased query finds the same boss |
| Queries.FindEmptyQuery | boss-tracker-bot.js:176 | the empty query finds the first boss |
| Pagination.PageCount | boss-tracker-bot.js:289 | the page count is the ceiling of the count over ten |
| Pagination.RequestedPage | boss-tracker-bot.js:292 | a page is requested only when there is a first argument and it holds a digit |
| Pagination.RequestedPageFirst | boss-tracker-bot.js:292 | arguments after the first do not change the requested page |
| Pagination.ListPage | boss-tracker-bot.js:283-297 | none exactly for an empty list; otherwise `1 <= page <= pages`, `0 <= startIndex < endIndex <= count`, at most ten entries and a full page unless it is the last, page 1 for a missing or non-numeric request, and an integer request clamped into `[1, pages]` |
| Pagination.PageEntries | boss-tracker-bot.js:298 | the page is empty exactly when the list is, holds at most ten entries, and they are the list's entries from `startIndex` to `endIndex` |
| Pagination.PageEntriesOfIndex | boss-tracker-bot.js:288-298 | asking for page `i/10 + 1` lists the entry at index `i` in position `i % 10` |
| Pagination.PageEntryAt | boss-tracker-bot.js:298 | position `k` of a page is the entry `k` places after its start |
| Pagination.PageOfIndex | boss-tracker-bot.js:288-297 | asking for page `i/10 + 1` shows the entry at index `i` |
| Pagination.OnlyPageOfIndex | boss-tracker-bot.js:296-297 | no other page shows the entry at index `i` |

## Left out

- The Discord client is left out: login, message dispatch, command and argument splitting, the admin check and all replies (lines 1-16, 209-361). These are I/O.
- `formatBossInfo` and the message embeds (lines 181-206, 300-315) are left out. They are rendering through a library.
- `fetchBossData` and the `bossData`/`lastUpdated` state it replaces (lines 21-23, 123-138) are left out. They are a network fetch. The queries take the list as a parameter.
- The refresh timer, `keep_alive.js` and `dotenv` are left out. They are timers and process configuration.
- The clock and JavaScript `Date` parsing, including the `DD/MM/YYYY` rewrite before `new Date` (lines 83-93), are left out. They are the parameters `now` and `parseDate`. The source reads the clock once per boss (line 92), so the bosses of one query may see slightly different instants; the model uses one `now` for a whole query.
- `toLocaleString` is left out. It is locale-dependent output.
- The per-entry status fields of the `!list` reply are left out. They are embed rendering; each one is `getTimeRemaining` of a listed boss.
- Text.ParseInt: does not model hexadecimal (`0x`) prefixes, and does not model the loss of precision for numbers past 2^53. Only decimal digits are read, as integers of any size.
- Text.ToLower: maps only the ASCII letters, not the full Unicode case mapping of `toLowerCase`.
- Text.IsWhitespace: strings are sequences of Unicode code points and not of UTF-16 code units. Lengths and indexes therefore differ for characters outside the Basic Multilingual Plane.
- Status.GetTimeRemaining: a respawn instant is an integer of milliseconds. Floating-point and out-of-range dates are not modelled.

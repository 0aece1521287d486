# WhatsApp chat manager: the chat-log pipeline in Dafny

The application (`index.js`) lets a user upload an exported chat log. It keeps
every line of the form `date, time[ ][am|pm] - sender: message` in a
`messages` table, and it serves a search and a full listing over that table.
This project models that pipeline and proves properties about it:

- **Line grammar** (`line_grammar.dfy`, module `LineGrammar`). `Parse` is a
  hand-written matcher for the anchored regular expression of `index.js:34`. It
  splits a line into day, month, year, hour, minute, the optional white-space
  gap, the optional meridiem, the sender and the message. `Matches(line, f)`
  says declaratively that the line is exactly the concatenation of these fields
  and the fixed separators. The matcher is proved sound and complete against it,
  so the cut is unique.
- **Normalisation** (`normalise.dfy`, module `Normaliser`). The date capture is
  split at `/`, day first, and written `year-MM-DD`. The hour follows the am/pm
  rule. The time is written `HH:MM:00`.
- **Ingestion** (`store.dfy`, module `Store`). `MessageStore` is the table: its
  rows plus an id counter. `Upload` splits the file text at `\n`, deletes every
  row, then inserts one row per matching line, in file order.
- **Queries** (`query.dfy`, `like.dfy`, modules `Query` and `Like`). Search
  trims the query and returns nothing when it is blank. Otherwise it keeps the
  rows where `%q%` matches, under `ILIKE`, the id as text, the date, the sender
  or the message. The listing sorts by ascending id.

Supporting modules: `Wrappers` (an `Option` usable with `:-`) and `Text` (the
JavaScript string operations involved: `\d`, `\s`, `split`, `trim`, `parseInt`,
`toString`, `padStart`, lower-casing).

Some behaviour one might expect is absent from `index.js`. The model follows
the code in each case:

- A two-digit year is not widened: for `12/5/23` the INSERT is given the date
  text `23-05-12` (`Normaliser.TwoDigitYearKept`). Whether PostgreSQL then
  rejects it or reads it as 2023-05-12 depends on DateStyle, which is not
  modelled (see "Left out").
- No transaction surrounds the DELETE and the INSERTs. When an INSERT fails,
  the table keeps the rows inserted before it (`Store.MessageStore.ReplaceAll`).
- A trailing carriage return is not stripped. So no line of a CRLF file that
  ends in a line break matches, and such a file leaves the table empty
  (`Store.CarriageReturnLinesIngestNothing`). When the last line has no line
  break, it carries no carriage return, and it is the only line that can be
  stored (`Store.CrlfFileIngestsOnlyLastLine`).
- The search has no `ORDER BY`, so it promises no order.
- The separator before the meridiem is any one JavaScript white-space
  character, not only a space.

Assumptions standing for code that is not part of this model:

- Ids come from a counter that only grows and that a DELETE does not reset.
  This is assumed of the table's id column, whose definition is not shown.
  A failing INSERT is assumed to use up no id. A PostgreSQL sequence may advance
  on a failed INSERT. Then the counter after a failure is larger than the
  contracts of `ReplaceAll` and `Upload` state, though the stored rows are the
  same.
- The date column's text is taken to be the string that was inserted.
- A failure of the upload's statements is an input. `Fault` says whether the
  DELETE fails, or which INSERT fails, or neither. Failures of the two SELECTs
  are not modelled (see "Left out").
- The table that exists when the application connects may hold any rows, as
  long as their ids increase in table order and lie below the counter.

## Model

| member | source | states |
|---|---|---|
| `Text.Split` | index.js:32 | `data.split('\n')` gives at least one piece, and no piece contains the separator |
| `Text.JoinSplit` | index.js:32 | joining the pieces with the separator gives back the original text, so splitting loses nothing |
| `Text.SplitJoin` | index.js:44 | splitting a join of separator-free pieces returns exactly those pieces |
| `Text.TrimStart` | index.js:69 | the result is a suffix of the text; everything dropped is white space; the result does not start with white space |
| `Text.TrimEnd` | index.js:69 | the result is a prefix of the text; everything dropped is white space; the result does not end with white space |
| `Text.TrimBlank` | index.js:69-75 | `Trim` (`q.trim()`, index.js:69) gives the empty text exactly when the query is blank, which is the `!q` test of index.js:73 |
| `Text.TrimSlice` | index.js:69 | `Trim` (`q.trim()`) returns a contiguous slice of the query with white space at neither end; with `TrimStart` and `TrimEnd` this fixes it |
| `Text.Lower` | index.js:49 | ASCII upper-case letters map to their lower-case letters; every other character is unchanged |
| `Text.LowerText` | index.js:49 | lower-cases character by character and keeps the length |
| `Text.Decimal` | index.js:51 | `n.toString()` is a non-empty digit string with no leading zero; it has one digit exactly when n < 10 and at most two when n < 100 |
| `Text.DecimalRoundTrip` | index.js:48-51 | `DecimalValue` (`parseInt` of a digit string, index.js:48) of the numeral `Decimal` (`toString`) writes is the number |
| `Text.PadStart` | index.js:45 | `padStart` reaches the width, keeps the text as a suffix, and fills the front with the pad character |
| `Text.LeadingZeros` | index.js:45 | leading zeros do not change the value of a digit string |
| `Text.PadTwoDigits` | index.js:45 | zero-padding a one- or two-digit numeral to two digits keeps its value |
| `Text.TwoDigitsBelowHundred` | index.js:48 | an hour of at most two digits is below 100 |
| `LineGrammar.Span` | index.js:34 | the longest run of characters of a class, and the rest: they concatenate to the input, and the rest does not start with the class |
| `LineGrammar.Drop` | index.js:34 | a literal separator is removed exactly when the text starts with it |
| `LineGrammar.SpanOf` | index.js:34 | a run followed by a character outside its class is taken whole, which is why backtracking into `\d{1,2}` or `[^:]+` never helps |
| `LineGrammar.ParseDateSound` | index.js:34 | whatever the date stage accepts is `\d{1,2}/\d{1,2}/\d{2,4}, ` followed by the rest |
| `LineGrammar.ParseDateComplete` | index.js:34 | every well-formed date with its `, ` separator is accepted with exactly its fields |
| `LineGrammar.ParseTimeSound` | index.js:34 | whatever the time stage accepts is `\d{1,2}:\d{2}` followed by the rest |
| `LineGrammar.ParseTimeComplete` | index.js:34 | every well-formed time is accepted with exactly its hour and minute |
| `LineGrammar.ParseAfterGapSound` | index.js:34 | what follows the gap is an optional case-insensitive am/pm, ` - `, a non-empty colon-free sender, `: ` and a non-empty message without line terminators |
| `LineGrammar.ParseAfterGapComplete` | index.js:34 | every such tail is accepted with exactly its fields |
| `LineGrammar.ParseTailSound` | index.js:34 | the tail stage, with its greedy `\s?` and backtracking, accepts only well-formed tails and reassembles them |
| `LineGrammar.ParseTailComplete` | index.js:34 | every well-formed tail, with or without a white-space gap, is accepted with exactly its fields |
| `LineGrammar.ParseSound` | index.js:34-42 | when `Parse` (`line.match(regex)`, index.js:34 and 40) succeeds, the fields are well-formed and concatenate back to the whole line (`Matches`) |
| `LineGrammar.ParseComplete` | index.js:34-42 | when a line is a concatenation of well-formed fields and the separators (`Matches`), `Parse` returns exactly those fields |
| `LineGrammar.ParseIffMatches` | index.js:40-41 | `Parse` finds a match for a line if and only if the line has some well-formed cut |
| `LineGrammar.UniqueCut` | index.js:34 | a matching line has only one cut, so the captures `Parse` returns are determined by the line |
| `LineGrammar.AssembleEndsInMessage` | index.js:34 | an assembled line ends with the last character of the message |
| `LineGrammar.MatchEndsInMessage` | index.js:34 | a matching line never ends with a line terminator (`.` excludes them and `$` is the end of input) |
| `LineGrammar.CarriageReturnLineDoesNotMatch` | index.js:32-41 | a line that ends in `\r` (from CRLF text split at `\n`) never matches |
| `Normaliser.SplitDateCapture` | index.js:44 | `date.split('/')` is exactly day, month and year |
| `Normaliser.SplitTimeCapture` | index.js:47 | `time.split(':')` is exactly hour and minute |
| `Normaliser.IsoDate` | index.js:45 | `year-MM-DD` is the year verbatim, then `-`, the month, `-` and the day, each as two digits of unchanged value; its length is the year's plus 6 |
| `Normaliser.DateLayout` | index.js:45 | where each part sits in `year-MM-DD` |
| `Normaliser.FormatDate` | index.js:44-45 | the stored date is IsoDate of the year, month and day read day-first from the capture |
| `Normaliser.ConvertHour` | index.js:48-50 | with `IsPm` and `IsAm` the tests `meridiem?.toLowerCase() === 'pm'` / `'am'` of index.js:49-50: pm with hour < 12 adds 12; am with hour 12 gives 0; in every other case, no meridiem included, the hour is kept |
| `Normaliser.TwelveHourReading` | index.js:48-50 | for a 12-hour reading (1 to 12 with am/pm, any case), the result is below 24, is before noon exactly for am, and equals the reading modulo 12 |
| `Normaliser.TwelveHour` | index.js:48-50 | the 12-hour reading of a 24-hour hour is 1 to 12 with `am` or `pm` |
| `Normaliser.TwelveHourRoundTrip` | index.js:48-50 | converting the 12-hour reading of any hour 0 to 23 gives that hour back |
| `Normaliser.HourField` | index.js:51 | `hour.toString().padStart(2, '0')` of an hour below 100 is two digits whose value is the hour |
| `Normaliser.TimeLayout` | index.js:51 | where the hour, the minute and the `:00` seconds sit in the eight-character time |
| `Normaliser.FormatTime` | index.js:47-51 | the stored time has exactly 8 characters: the converted hour as two digits, `:`, the minute as written, and `:00` |
| `Normaliser.Normalise` | index.js:42-55 | the INSERT's four values: the date is `IsoDate(year, month, day)`, read day-first; the time is two digits whose value is the converted hour, `:`, the minute as written and `:00`; the sender and message are the captures unchanged |
| `Normaliser.Ingest` | index.js:40-56 | a line yields an entry exactly when it matches |
| `Normaliser.TwoDigitYearKept` | index.js:44-45 | the INSERT is given the date text `23-05-12` for `12/5/23`, with the year not widened |
| `Like.PercentMatchesAll` | index.js:83 | the pattern `%` matches every text |
| `Like.PlainPrefix` | index.js:79-83 | for a query without `%`, `_` or `\`, the pattern `t%` matches exactly the texts that start with t, ignoring ASCII case |
| `Like.LeadingPercent` | index.js:83 | `%p` matches exactly the texts that have a suffix matched by p |
| `Like.PlainSubstring` | index.js:79-83 | `ILike` models `ILIKE` (`%`, `_`, the `\` escape, ASCII case folding); for a query without `%`, `_` or `\`, `ILike(s, "%" + t + "%")` holds exactly when t occurs in s, ignoring ASCII case |
| `Query.Filter` | index.js:76-84 | the kept rows are exactly the table's rows that satisfy `Hit`, the WHERE clause of index.js:79-82 (`ILike` of `%t%` against the id as text, the date, the sender or the message); no row is kept twice when the ids are distinct |
| `Query.Search` | index.js:69-85 | a blank query gives no rows; otherwise the result holds exactly the rows the trimmed query hits, each at most once |
| `Query.SearchPlainQuery` | index.js:69-85 | for a plain query, a row is found exactly when the trimmed query occurs, ignoring case, in its id text, date, sender or message |
| `Query.InsertById` | index.js:96 | inserting into an id-sorted list adds exactly that row and keeps the list sorted |
| `Query.SortById` | index.js:96 | `ORDER BY id ASC` returns a permutation of the rows, sorted by id |
| `Query.SortSortedIsIdentity` | index.js:96 | sorting rows that are already in id order leaves them as they are |
| `Query.ListAll` | index.js:94-97 | the listing holds every row (same multiset), ascending by id, and is the table itself when the table is in id order |
| `Store.FilterMap` | index.js:39-58 | the loop's result has at most one entry per line |
| `Store.FilterMapAppend` | index.js:39-58 | processing two parts of the lines in turn is processing all of them |
| `Store.FilterMapPrefix` | index.js:39-58 | what has been inserted after any number of lines is a prefix of the whole result |
| `Store.FilterMapFrom` | index.js:39-58 | every entry produced comes from some line |
| `Store.FilterMapKeeps` | index.js:39-58 | every line that yields an entry contributes it |
| `Store.FilterMapNone` | index.js:39-58 | lines that yield nothing produce no entries |
| `Store.IngestedAppend` | index.js:39-58 | `Ingested(lines)`, what the loop of index.js:39-58 inserts, of two parts of a file in turn is `Ingested` of the file |
| `Store.IngestedFromLines` | index.js:39-58 | every entry of `Ingested(lines)` is the normalised form of some matching line of the file |
| `Store.MatchingLineIngested` | index.js:39-58 | every matching line's entry is in `Ingested(lines)` |
| `Store.CrlfPieceDoesNotMatch` | index.js:32-41 | a piece of CRLF text split at `\n`, whether it ends in `\r` or is the empty piece after the final line break, never matches |
| `Store.CarriageReturnLinesIngestNothing` | index.js:32-58 | a CRLF file that ends in a line break, whose pieces all end in `\r` or are empty, stores nothing |
| `Store.CrlfFileIngestsOnlyLastLine` | index.js:32-58 | in a CRLF file whose last line has no line break, only that last line can be stored: the upload stores exactly what that line alone would give |
| `Store.EntriesOf` | index.js:53-56 | the inserted values of the rows, in table order |
| `Store.MessageStore.constructor` | index.js:16-23 | connecting to the existing table keeps whatever rows it holds, with ids increasing in table order and below the id counter; nothing is created or reset |
| `Store.MessageStore.DeleteAll` | index.js:37 | `DELETE FROM messages` empties the table and leaves the id counter alone |
| `Store.MessageStore.Insert` | index.js:53-56 | an INSERT appends one row with the next id and advances the counter |
| `Store.MessageStore.ReplaceAll` | index.js:36-65 | after the loop the table's entries are the ingested entries of the lines, in order, and nothing of the old table remains; when the k-th INSERT fails, the table is the first k of them; when the DELETE fails, nothing changes; ids are consecutive from the counter |
| `Store.MessageStore.Upload` | index.js:29-66 | the same, for the file text split at `\n`: the table ends up holding the normalised matching lines in file order, cut short at a failing INSERT |
| `Store.MessageStore.Search` | index.js:68-92 | reads without changing the table, returns `Query.Search` of the rows, and has no duplicate ids |
| `Store.MessageStore.ListAll` | index.js:94-102 | reads without changing the table and returns every row in ascending id order, which is the table as stored |

## Left out

- The Express routes, the multer upload, reading and deleting the temporary file, EJS rendering, dotenv and the pg client (index.js:1-28, 60-61, 104-106). These are framework and I/O plumbing. `Upload` takes the file's text as a string.
- The temporary file is not deleted when ingestion fails (index.js:60-64). This is file I/O and is not modelled.
- A missing `q` parameter makes `req.query.q.trim()` throw (index.js:69). The model's `q` is always a string.
- async/await and the single shared connection. Requests are modelled one at a time, so there is no interleaving.
- Why PostgreSQL rejects an INSERT (its DATE input rejects impossible dates and, depending on DateStyle, some `year-MM-DD` texts) is not modelled. The failing INSERT is an input (`Fault`).
- How `message_date::TEXT` renders under DateStyle is not modelled. The date text is the inserted string.
- ILIKE's case folding is limited to ASCII lower-casing. Locale-dependent folding of other letters is not modelled.
- Strings are sequences of Unicode scalar values. JavaScript's UTF-16 code units, and lone surrogates in particular, are not modelled.
- The white-space set used for `\s` and `trim` is the ECMAScript WhiteSpace and LineTerminator set under current Unicode. Older Unicode versions (U+180E) are not modelled.
- Store.MessageStore.Search: the source promises no row order. The model returns rows in table order, which is one order PostgreSQL may use.
- Store.MessageStore.Search and Store.MessageStore.ListAll: the SELECTs of `/search` and `/all` can fail and answer status 500 (index.js:88-91, 98-101). The model does not include these read failures; both methods always return rows. A failure would leave the table unchanged, as both methods already do.

# kitt timesheet core in Dafny

kitt is a small mobile timesheet: once a day it asks the user how the day's
eight hours were spent across a configured list of tasks, resolves each
task's issue-tracker ticket, and stores the answers as CSV text. This project
models the logic underneath, and proves properties of it:

- **The hour-slot engine** of the quiz screen (`components/Quizz.tsx`). The
  day is eight slots. Each slot holds a task index. The slots are seeded from
  the tasks' `percent` fields. A touch on the strip of slots paints the slot
  under the finger with the selected task. Submitting counts slots per task.
  The component's state (`hours`, `x`, `width`, `currentTaskIndex`) is the
  class `Quizz.QuizzState`, whose methods are the component's handlers.
- **The CSV codec** (`api/csv.ts`): `parse` turns text into one record per
  line after the header, `format` writes a sorted header and one line per
  record. JavaScript's `split`, `join` and default string `sort` are in
  module `Text`. The round trip `parse(format(rows)) == rows` is proved for
  rows that share one non-empty key set, whose keys and values hold no `,` or line
  break, and that have no `__proto__` key.
- **Ticket resolution** (`utils/jira.ts`, `components/TaskItem.tsx`): which
  ticket a task resolves to, which search that takes and with which
  credentials, the search's query parameters, and the worklog record posted to
  the worklog service. The search itself is a function parameter: the issues
  it finds, or the error it raises.

Files: `wrappers.dfy` (Option, Result), `model.dfy` (the configuration and
result records), `quizz.dfy`, `text.dfy`, `csv.dfy`, `jira.dfy`.

Representation choices:

- `percent` is an exact fraction `Ratio(num, den)` with a positive
  denominator, not a floating-point number.
- Layout positions and touch coordinates are integers. The slot under a touch
  is `floor((pageX - x) * slots / width)`.
- A CSV record is a `map<string, string>`. A CSV text and a key are
  `seq<char>`.

The code neither rounds nor clamps, and the model follows it in these places:

- The seeding loop runs while `i < percent * 8`. So a task seeds
  `ceil(percent * 8)` slots, not the rounded number.
- Every zero-valued or absent `percent` seeds nothing (JavaScript falsiness).
- A touch sample off the strip is dropped, not clamped to the nearest slot.
- Tasks with the same `id` are reported as separate entries, one per index.
- A CSV line with more fields than the header stores the extra fields under
  the key `"undefined"`, the last one winning.
- An empty CSV text parses to no records, because its one line is the header.
  The `lines.length == 0` branch can never run: `split` always yields at
  least one piece.

## Model

| member | source | states |
|---|---|---|
| Quizz.SeedCount | components/Quizz.tsx:71-76 | an absent, zero or negative percent seeds no slot; a positive one seeds the least `c` with `percent * 8 <= c`, i.e. `ceil(percent * 8)` |
| Quizz.Seeded | components/Quizz.tsx:68-84 | the initial slots are exactly eight; slot `k` is the `k`-th slot the tasks ask for, in task order, or 0 past their end |
| Quizz.DefaultHours | components/Quizz.tsx:68-84 | the counting loops, the cut to eight and the padding loop compute `Seeded` |
| Quizz.Layout | components/Quizz.tsx:69-79 | every slot the tasks ask for, before the cut, names a task of the list, and the slots come in task order (non-decreasing indices); exact counts in `LayoutCount` |
| Quizz.SeededInRange | components/Quizz.tsx:68-84 | with at least one task, every initial slot holds a valid task index |
| Quizz.LayoutCount | components/Quizz.tsx:69-79 | before the cut, task `i`'s index occurs exactly `SeedCount(percent_i)` times |
| Quizz.SeedOverflowExample | components/Quizz.tsx:68-84 | two tasks of 90% ask for 16 slots; the first fills all eight and the second gets none |
| Quizz.SetHourValue | components/Quizz.tsx:91-98 | an in-range index has its slot replaced by the value and nothing else changes; an out-of-range index changes nothing |
| Quizz.SetHourValueIdempotent | components/Quizz.tsx:91-98 | setting the same slot to the same value twice equals setting it once |
| Quizz.SetHourValueLastWins | components/Quizz.tsx:91-98 | of two writes to one slot, the second wins |
| Quizz.SlotAt | components/Quizz.tsx:105-111 | a found slot is below the slot count and is the floor of `(pageX - x) / width * slots`; a slot is found exactly when the width is positive and the touch lies on the strip |
| Quizz.Paint | components/Quizz.tsx:105-111 | one touch sample keeps the slot count and changes at most one slot, and only to the selected task; which slot is in `PaintHit` and `PaintMiss` |
| Quizz.PaintHit | components/Quizz.tsx:105-111 | a touch whose relative position falls in slot `i` sets exactly slot `i` to the selected task |
| Quizz.PaintMiss | components/Quizz.tsx:105-111 | a touch before layout (width not positive) or off the strip changes no slot |
| Quizz.PaintIdempotent | components/Quizz.tsx:105-111 | repeating a touch sample at the same point changes nothing more |
| Quizz.Count | components/Quizz.tsx:117-118 | a task's slot count is never more than the number of slots |
| Quizz.TimeOf | components/Quizz.tsx:116-123 | task `i`'s entry carries its id and title and a time between 0 and the number of slots |
| Quizz.AllTimes | components/Quizz.tsx:115-124 | one entry per task, in task order, each with the task's id and a time between 0 and the number of slots |
| Quizz.Positive | components/Quizz.tsx:125 | the filter keeps at most all entries, each one of the input's with a positive time; the converse in `PositiveMembers` |
| Quizz.Aggregate | components/Quizz.tsx:115-125 | at most one entry per task, each with a time between 1 and the number of slots; order, membership and total in `AggregateStep`, `AggregateMembers`, `AggregateTotal` |
| Quizz.PositiveMembers | components/Quizz.tsx:125 | an entry survives the filter exactly when it was there and has positive time |
| Quizz.PositiveTotal | components/Quizz.tsx:125 | dropping the zero-time entries keeps the total of the times |
| Quizz.AggregateStep | components/Quizz.tsx:115-125 | entries come in task order: one more task adds at most that task's entry at the end, exactly when it holds a slot |
| Quizz.AggregateMembers | components/Quizz.tsx:115-125 | every reported entry is some task's `{id, title, time}` with time > 0, and every task holding a slot is reported |
| Quizz.AggregateTotal | components/Quizz.tsx:114-126 | when every slot holds a valid task index, the reported times add up to the number of slots |
| Quizz.AggregateExample | components/Quizz.tsx:114-126 | tasks A, B, C over slots `[0,0,1,1,1,2,2,2]` report A 2, B 3, C 3, in that order |
| Quizz.QuizzState.constructor | components/Quizz.tsx:68-89 | the quiz of a date under a configuration starts with the configuration's tasks and default credentials, the seeded slots, no layout (x and width 0) and the first task selected; with a non-empty task list every slot and the selection are valid indices |
| Quizz.QuizzState.OnLayout | components/Quizz.tsx:100-103 | the strip's position and width are recorded, nothing else changes |
| Quizz.QuizzState.Select | components/Quizz.tsx:89 | the selected task becomes the given index; the slots stay valid whatever the index, and a valid index keeps the selection valid |
| Quizz.QuizzState.OnTouchMove | components/Quizz.tsx:105-112 | the slots become the old slots painted by this touch; there are still eight, valid slots stay valid when the selected task is valid, and a valid state stays valid |
| Quizz.QuizzState.TicketOf | components/Quizz.tsx:134-135 | the task list's lookup for a task: an unlinked task makes no search, and every search uses the task's own credentials or else the configuration's default ones |
| Quizz.QuizzState.Submit | components/Quizz.tsx:114-127 | the result carries the quiz's date and the per-task counts with zero entries dropped; when every slot holds a valid task index (whatever the selection) the times add up to eight |
| Text.Join | api/csv.ts:36-44 | a join starts with the first part, followed by the separator when there is a second part, and has at least one character per separator |
| Text.Split | api/csv.ts:4 | splitting always yields at least one piece, so the parser's empty-lines branch is dead |
| Text.SplitPiecesFree | api/csv.ts:4 | no piece of a split holds the separator; with `JoinSplit`, the pieces are exactly the separator-free runs of the text |
| Text.JoinSplit | api/csv.ts:4 | joining the pieces of a split with the same separator gives the text back |
| Text.SplitJoin | api/csv.ts:36-44 | splitting the join of separator-free parts (at least one) gives the parts back |
| Text.Below | api/csv.ts:34-35 | the order `sort()` uses relates only different strings; `BelowTransitive` and `BelowTotal` make it a strict total order |
| Text.BelowTransitive | api/csv.ts:34-35 | the sort order is transitive |
| Text.BelowTotal | api/csv.ts:34-35 | of two different strings one sorts before the other |
| Text.SortKeys | api/csv.ts:34-35 | the key set sorted: strictly ascending in string order, and holding exactly the set's keys |
| Text.InsertSorted | api/csv.ts:34-35 | inserting a new key into an ascending sequence keeps it strictly ascending |
| Text.SortedUnique | api/csv.ts:34-35 | two strictly ascending sequences of the same keys are equal, so the header order is determined by the key set |
| Csv.ColumnAt | api/csv.ts:15 | the name of field `j` is the `j`-th header column, or `"undefined"` past the header's end |
| Csv.ParseRecord | api/csv.ts:13-17 | every field position's column is a key of the record, and the last field is stored under its column (later fields win) |
| Csv.Parse | api/csv.ts:3-21 | the loops return `Parsed(content)`: one record per line after the header |
| Csv.ParseEmpty | api/csv.ts:3-11 | the empty text parses to no records |
| Csv.ParseCount | api/csv.ts:4-19 | there are as many records as lines after the header, a trailing empty line included |
| Csv.ParseRecordFields | api/csv.ts:12-17 | with distinct columns and no more fields than columns, a record holds exactly the first fields' columns, each mapped to its field |
| Csv.ParseLongLine | api/csv.ts:14-17 | a line longer than the header stores its last field under `"undefined"` |
| Csv.Field | api/csv.ts:40 | a column the row has gives its value, a column it lacks gives "" |
| Csv.Fields | api/csv.ts:39-41 | one field per column, in column order: the row's value, or "" for a missing column |
| Csv.AllKeys | api/csv.ts:27-32 | every key of every row is gathered; the converse in `AllKeysMembers` |
| Csv.Format | api/csv.ts:23-45 | the loops return `Formatted(content)`: "" for no rows, else the sorted header line and one line per row |
| Csv.FormatRow | api/csv.ts:37-42 | a row's line is its fields in column order, missing ones as "", joined by "," |
| Csv.GatherKeys | api/csv.ts:27-32 | the key loops gather exactly `AllKeys` of the rows |
| Csv.AddKeys | api/csv.ts:28-32 | the key loop adds exactly the row's keys to the set |
| Csv.FormatEmpty | api/csv.ts:24-26 | no rows format to the empty text |
| Csv.AllKeysMembers | api/csv.ts:27-32 | a key is gathered exactly when some row has it |
| Csv.HeaderSortedUnion | api/csv.ts:27-36 | the header is strictly ascending and holds exactly the keys of all rows |
| Csv.LineFree | api/csv.ts:42 | a line of fields without line breaks holds no line break |
| Csv.FormatLines | api/csv.ts:33-44 | for plain rows, the formatted text splits into the header line plus one line per row, `rows + 1` lines |
| Csv.FieldsParseBack | api/csv.ts:12-17 | a row's fields, parsed under the row's own distinct columns, give the row back |
| Csv.RowRoundTrip | api/csv.ts:12-17 | a plain row parsed back from its own line, under its own columns, is the row |
| Csv.UniformHeader | api/csv.ts:8-9 | for rows sharing one non-empty key set, the header is those keys, distinct, and splits back into itself |
| Csv.EmptyKeysNoRoundTrip | api/csv.ts:3-45 | rows with no keys are not recovered: one empty row formats to "\n", which parses back as one record mapping "" to "" |
| Csv.RoundTrip | api/csv.ts:3-45 | `parse(format(rows)) == rows` for rows sharing one non-empty key set with no "," or line break in keys or values and no `__proto__` key |
| Jira.GetJiraTicket | utils/jira.ts:4-17 | at most one search; a ticket found is the fixed ticket or the search's first issue; an error is only ever the search's error |
| Jira.NoLinkNoTicket | utils/jira.ts:5-7 | a task without a link has no ticket and makes no search |
| Jira.FixedTicketWins | utils/jira.ts:8-9 | a non-empty fixed ticket is the answer with no search, whatever the status |
| Jira.StatusSearch | utils/jira.ts:10-15 | otherwise a non-empty status makes exactly one search, capped at one result: its error passes on, no issues gives no ticket, else the first issue |
| Jira.NeitherNoTicket | utils/jira.ts:8-16 | with neither a usable ticket nor a usable status there is no ticket and no search |
| Jira.OnlyRecordedSearches | utils/jira.ts:4-17 | the lookup depends on the search only through the searches it records |
| Jira.EffectiveConfig | components/TaskItem.tsx:34 | the task's own credentials when present, the default ones otherwise |
| Jira.TaskTicket | components/TaskItem.tsx:32-39 | an unlinked task has no ticket and makes no search; a linked one makes at most one, and an error is only ever that search's error |
| Jira.TaskSearchUsesEffectiveConfig | components/TaskItem.tsx:32-39 | any search made for a task is for a linked task's status, with its effective credentials, capped at one result |
| Jira.Jql | utils/jira.ts:27 | the query is the fixed prefix, the status verbatim, then the fixed suffix |
| Jira.JqlInjective | utils/jira.ts:27 | different statuses give different queries |
| Jira.SearchParams | utils/jira.ts:26-31 | the query, the `summary` field, and `maxResults` exactly when `keep` is present and non-zero, equal to it |
| Jira.RequestParams | utils/jira.ts:11 | the one search of `getJiraTicket` asks for the status's query with `maxResults` 1 |
| Jira.TempoWorklog | utils/jira.ts:45-52 | the posted record carries the given date, start time, ticket and duration, authored by the worklog account |

## Left out

- HTTP, authentication and JSON: the search request and the worklog POST
  (utils/jira.ts:25, 32-42, 53-65) are not performed. A search is a function
  parameter, and an HTTP error is an opaque error string.
- The Base64 credentials, `encodeURIComponent` and `keep.toString()`: the
  query is kept as text and `maxResults` as a number.
- utils/tasks.ts, the `FromDate`/`ToDate` helpers of api/quizz.ts and
  storage are not part of this model (`QuizzDate` is kept as a value
  datatype).
- Rendering: the JSX, date formatting, the "no quiz left" branch
  (components/Quizz.tsx:62-66), HourBox, the task and file lists and App.
- React hook semantics: `useState` updates are modelled as immediate field
  assignments. `useCallback`'s stale closures (`submit` lists only `hours` as
  a dependency) and the asynchronous `useEffect` in TaskItem are not modelled.
- Quizz.SeedCount: `percent` is an exact fraction. In the source a decimal
  `percent` is stored as the nearest binary double (multiplying it by 8 is
  then exact). That storage can change `ceil(percent * 8)` only for a percent
  within one ulp of a multiple of 1/8; this effect is not modelled.
- Quizz.SlotAt: the touch position is an integer and the slot is computed
  exactly, so floating-point error at a slot boundary is not modelled.
- Quizz.QuizzState.Select: any integer may be selected, as in the source;
  validity is kept only for indices the task list offers.
- Text.SortKeys: strings are compared by Unicode scalar value. JavaScript
  compares UTF-16 code units, which differs only for characters outside the
  Basic Multilingual Plane.
- Csv.Format: records are string-to-string maps. Inherited properties seen by
  `for...in`, non-string values, and `row[column] || ""` on other falsy values
  are not modelled.
- Csv.Parse / Csv.Format / Csv.RoundTrip: JavaScript object prototypes are
  not modelled. Assigning a string to `obj["__proto__"]` (api/csv.ts:16)
  stores nothing, but Csv.ParseRecord stores it; Csv.RoundTrip therefore
  excludes that key. `row[column]` for a column the row lacks but that names
  an `Object.prototype` member (`toString`, `constructor`, ...) yields the
  inherited function, whose text `join` prints (api/csv.ts:40); Csv.Field
  gives "".
- Csv.RoundTrip: it holds only for rows sharing one non-empty key set with
  plain keys and values (rows with no keys at all format to "\n", which parses
  back as one record mapping "" to "", as Csv.EmptyKeysNoRoundTrip shows). The codec has no quoting, so other rows are not recovered.
- Jira.GetJiraTicket: the search cap is always 1; `JiraTask.keep` is carried
  in the data model but unused, as in the source.
- The submission queue, the archive writer and the worklog reconciliation
  are not part of these files and are not modelled.

# Starbucks offers: event-log attribution and membership seniority

This project models the data preparation of a Starbucks rewards analysis
(`process_data.py`) and proves properties of that model. It covers three
steps:

- **Normalising the event log** (`transform_transcript`). Each record's
  payload mapping is replaced by its first value. Exact duplicate rows are
  dropped. Each row gets the person-offer key `person + "-" + value`.
- **Attributing completed offers to views** (`get_transaction_from_offer`).
  The function walks the keys that have both a view and a completion, sorted
  by person. For each key it sorts that key's rows by time. It compares the
  first view time with the last completion time and keeps the key when the
  completion is no earlier.
- **Membership seniority** (`transform_profile`). The integer
  `became_member_on` value YYYYMMDD is cut into `YYYY/MM/DD` text and read
  as a date. Each row's seniority is the number of days from its date to the
  latest date in the table.

Modules:

- `Lex`: Python's string order.
- `Unique`: first-occurrence duplicate removal (`drop_duplicates`, `unique`)
  and subsequences.
- `Transcript`: the normalised log.
- `Sorting`: `sort_values` on one column.
- `Attribution`: the attribution loop.
- `Decimal`: `str` of a natural number and reading digits back.
- `Calendar`: proleptic Gregorian day numbers counted from 1970-01-01.
- `Profile`: the seniority column.

The attribution is proved equal to a reference rule. Key k is attributed
exactly when some view of k happens no later than some completion of k. The
main result is `Attribution.GetTransactionFromOffer`: the loop returns exactly
the keys satisfying that rule, each key once.

## Model

| member | source | states |
|---|---|---|
| `Transcript.FlattenValue` | process_data.py:39 | Takes the value of the payload's first entry. `Transcript.TransformTranscript` states this for the whole log through its normalisation clauses. |
| `Transcript.MakeKey` | process_data.py:41 | Builds the `person-value` key. `Transcript.SplitMakeKey` states when the key can be split back into person and value, and `Transcript.KeyCollision` states when it cannot. |
| `Transcript.TransformTranscript` | process_data.py:39-41 | Every output row is the first-value normalisation of some raw record, and every raw record is represented by some output row. No row occurs twice. Rows keep the order in which they first occur. Each key is the person, a dash, and the value. |
| `Unique.Dedup` | process_data.py:40 | The result has no repeats. It holds exactly the values of the input, in order of their first occurrence. |
| `Unique.DedupUnique` | process_data.py:40 | Any sequence without repeats that holds exactly the input's values in first-occurrence order is the result of `Dedup`, so those three properties determine the output. |
| `Unique.DedupIdempotent` | process_data.py:40 | Dropping duplicates a second time changes nothing. |
| `Unique.DedupMembership` | process_data.py:59 | `unique()` keeps exactly the values that occur. |
| `Transcript.SplitKey` | process_data.py:41 | Splitting a key at its first dash gives a person part without a dash. When the key holds a dash, the parts rejoin to the key. |
| `Transcript.SplitMakeKey` | process_data.py:41 | When the person id has no dash, the key splits back into the person and the value. |
| `Transcript.KeyCollision` | process_data.py:41 | Without that condition two different person-offer pairs can produce the same key. |
| `Lex.LexLeTotal` | process_data.py:59 | Any two person ids are comparable in string order. |
| `Lex.LexLeTransitive` | process_data.py:59 | String order is transitive. |
| `Lex.LexLeAntisymmetric` | process_data.py:59 | Two ids that each sort no later than the other are equal. |
| `Sorting.Sort` | process_data.py:59 | Sorting on a column returns a permutation of the rows that is in order on that column. |
| `Sorting.Insert` | process_data.py:62 | Inserting a row into a sorted sequence keeps it sorted and adds exactly that row. |
| `Sorting.FirstIsLeast` | process_data.py:65 | `iloc[0]` of a sorted sequence is no greater than any of its rows. |
| `Sorting.LastIsGreatest` | process_data.py:68 | `iloc[-1]` of a sorted sequence is no less than any of its rows. |
| `Attribution.ViewedKeys` | process_data.py:53 | A key is among the viewed keys exactly when the log has a view with that key. |
| `Attribution.Candidates` | process_data.py:55-56 | A row is kept exactly when it is a completion of a viewed key. |
| `Attribution.OffersToScan` | process_data.py:59 | The keys the loop visits, in visiting order. `Attribution.OffersToScanIff` states which keys they are, and `Attribution.ScanRowOrder` states their person order. |
| `Attribution.OffersToScanIff` | process_data.py:53-59 | The loop visits exactly the keys that have both a view and a completion. |
| `Attribution.OfferTiming` | process_data.py:62 | A key's timing table holds exactly that key's rows, sorted by time. |
| `Attribution.ViewsByTime` | process_data.py:62-65 | Holds exactly the views of the key, sorted by time. |
| `Attribution.CompletionsByTime` | process_data.py:62-68 | Holds exactly the completions of the key, sorted by time. |
| `Attribution.TimeViewed` | process_data.py:62-65 | The first view in time order carries the earliest view time of the key. |
| `Attribution.TimeCompleted` | process_data.py:62-68 | The last completion in time order carries the latest completion time of the key. |
| `Attribution.LeadsToTransaction` | process_data.py:70 | The loop's test for one key. `Attribution.LeadsIffAttributable` states that it is equivalent to the reference rule. |
| `Attribution.LeadsIffAttributable` | process_data.py:70 | The loop's test (latest completion no earlier than first view) holds exactly when some view is no later than some completion. |
| `Attribution.ScanOffers` | process_data.py:58-71 | The loop's output is a subsequence of the keys it visits. |
| `Attribution.InScanOffers` | process_data.py:58-71 | The loop keeps a visited key exactly when its test holds. |
| `Attribution.GetTransactionFromOffer` | process_data.py:46-73 | A key is returned exactly when some view of it is no later than some completion of it. No key is returned twice. |
| `Attribution.OutputInPersonOrder` | process_data.py:59 | Every returned key comes from a completion row of the log with that key. Those rows appear in non-decreasing person order. |
| `Attribution.ScanRowIsCompletion` | process_data.py:55-59 | The row a visited key is taken from is a completion of the log with that key. |
| `Attribution.ScanRowOrder` | process_data.py:59 | Keys visited earlier come from rows no later in person order. |
| `Attribution.OnlyViewsAndCompletionsMatter` | process_data.py:53-68 | Two logs with the same views and completions in the same order give the same output. Received-offer and transaction rows never change it. |
| `Attribution.SameRelevantSameRule` | process_data.py:53-70 | The reference rule depends only on views and completions. |
| `Attribution.SameTimeIsAttributed` | process_data.py:70 | A view and a completion at the same time are attributed, because the test is `>=`. |
| `Attribution.LatestCompletionDecides` | process_data.py:68-70 | A completion before the view does not block attribution when a later completion follows the view. |
| `Attribution.CompletionBeforeViewIsNot` | process_data.py:65-70 | A single completion strictly before the only view is not attributed. |
| `Attribution.OneSidedKeysAreNotAttributed` | process_data.py:53-56 | A key with no view, or no completion, is never returned. |
| `Decimal.Show` | process_data.py:88 | `str(x)` of a natural number: a non-empty run of decimal digits. `Decimal.ParseShow` states that reading it back gives the number. |
| `Decimal.ParseShow` | process_data.py:88 | Reading back the decimal text of n gives n. |
| `Decimal.EightDigitText` | process_data.py:88 | An eight-digit value has an eight-character text. |
| `Profile.MemberOnText` | process_data.py:87-89 | The `YYYY/MM/DD` text cut from the value's digits. `Profile.SlicingMatchesDivision` and `Profile.MemberOnExample` state what it reads as. |
| `Profile.ReadSlashDate` | process_data.py:91 | Reads the year, month and day fields of a `YYYY/MM/DD` text. `Profile.SlicingMatchesDivision` states which date results. |
| `Profile.SlicingMatchesDivision` | process_data.py:87-89 | Cutting the text of an eight-digit value into four, two and two digits reads as year `x / 10000`, month `x / 100 % 100` and day `x % 100`. |
| `Profile.MemberOnExample` | process_data.py:87-89 | The value 20170812 becomes the text `2017/08/12`. |
| `Calendar.DayNumber` | process_data.py:91 | A date as a count of days from 1970-01-01. `Calendar.EpochIsDayZero`, `Calendar.NextDayAddsOne` and `Calendar.DayNumberOrder` state that it is exactly that count. |
| `Profile.ToDatetime` | process_data.py:91 | `pd.to_datetime` of one value, as the day number of its date. |
| `Profile.Datetimes` | process_data.py:91 | The converted column. `Profile.LatestDates` and `Profile.TransformProfile` state what its order and differences mean. |
| `Calendar.EpochIsDayZero` | process_data.py:91 | The day number of 1970-01-01 is 0. |
| `Calendar.NextDayAddsOne` | process_data.py:91-94 | The next calendar day is a valid date, its day number is one more, and it is later. |
| `Calendar.DayNumberOrder` | process_data.py:91-94 | One date is no later than another exactly when its day number is no greater. Two dates are equal exactly when their day numbers are. |
| `Profile.MaxOf` | process_data.py:93 | The maximum of a non-empty column is one of its values and no value exceeds it. |
| `Profile.DaysToLatest` | process_data.py:93-94 | Each row's day count lies between 0 and the `Timedelta` limit. Any two rows' counts differ by the reverse of their datetimes' difference. A count is 0 exactly when its row has the latest datetime. |
| `Profile.LatestDates` | process_data.py:91-93 | A row has the latest datetime exactly when no other row has a later calendar date. |
| `Profile.TransformProfile` | process_data.py:76-96 | There is one seniority per row. Each lies between 0 and the `Timedelta` limit. Any two rows' seniorities differ by the reverse of their dates' day difference. A row's seniority is 0 exactly when no row has a later date. |

## Left out

- `load_data`: reading JSON files and `dropna` are I/O and cleaning that come before the core. The model starts from records without missing values.
- `main`: these are outside the core and are not modelled:
  - the offer-share computation, which is floating point;
  - the hard-coded offer names;
  - the joins with the profile table;
  - `get_dummies` and `to_csv`.
- The `transcript[:10]` slice in `main` is left out. The attribution takes the whole log.
- The global pandas option and the progress messages have no effect on the data and are not modelled.
- `Transcript.TransformTranscript`: the payload values are taken as already rendered by `astype(str)`. The model does not render numbers to text (for example, transaction amounts as floats).
- `Transcript.TransformTranscript`: duplicates are dropped on the rendered values, whereas the source drops them on the raw objects (line 40) before rendering (line 41). The two agree only when rendering is injective. For example, amounts `0.0` and `-0.0`, or `1` and `1.0`, are equal in the source but render differently, so two records that differ only in those amounts leave one row in the source and two in the model. Attribution is unaffected: only views and completions matter to it (`Attribution.OnlyViewsAndCompletionsMatter`), and their values are offer id strings.
- `Transcript.TransformTranscript`: the model requires every payload to have at least one entry. On an empty mapping the source fails with an index error.
- `Transcript.TransformTranscript`: the model takes the first entry of a payload of any size. A check that the payload has exactly one entry is not in the code, so it is not in the model.
- The code has no check that ids are free of the `-` separator. `Transcript.KeyCollision` shows the collision that can result. The output order is therefore stated through the witness row of each key (`Attribution.OutputInPersonOrder`), not through splitting the key.
- `Sorting.Sort`: only the result is specified: a permutation, in order on the column. pandas' default sort is not stable, so the relative order of equal rows is left open. The proofs about the first view and the last completion use only that contract, so they hold for any arrangement of equal rows.
- The ten fixed offer labels: assigning them as a column raises `ValueError` in pandas (line 121) unless the frame has exactly ten rows. This is in `main`, outside the modelled core.
- `Profile.TransformProfile`: the model requires an eight-digit value whose digits form a valid calendar date inside pandas' timestamp range (1677-09-22 to 2262-04-11), with all dates no more than 106751 days apart. Outside those bounds `pd.to_datetime` raises or the `Timedelta` overflows. pandas' lenient parsing of other text shapes is not modelled.
- `Profile.TransformProfile`: the text pipeline of line 88 is modelled by `MemberOnText` and `ReadSlashDate`. `ToDatetime` uses the division form of the date, which `Profile.SlicingMatchesDivision` proves equal for every eight-digit value. Time-of-day and time zones do not arise with date-only text, so datetimes are whole day numbers.
- `Profile.TransformProfile`: on an empty table the source's `max()` is `NaT` and no row is computed. The model returns the empty column.
- Both functions also change the caller's data frame in place, and the model does not:
  - line 39 overwrites the argument's `value` column before line 40 rebinds the frame, so the caller's frame ends up flattened but still holds its duplicates;
  - lines 87, 91 and 94 rewrite `became_member_on` and add `seniority` on the argument itself.
  `main` rebinds both results, so the core does not depend on these updates.
- `Profile.TransformProfile`: returns only the `seniority` column. The rewritten `became_member_on` column is `Profile.Datetimes`, which is not returned with it.
- The other columns of the data frames are not modelled. Each operation works on the columns it reads and writes.

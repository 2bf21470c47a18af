# Problem history of the practice-problem generator, in Dafny

`problems.js` generates randomised practice problems. Each problem type has a
`generate()` that draws the random parameters `q` of an instance. To avoid
serving the same instance twice in one day, the script keeps a process-wide
`history` object: problem id, then day key `YYYYMMDD`, then the list of `q`
values served that day.

This project models that history and the code around it:

- `tryAddToHistory` admits `q` unless today's bucket already holds it, comparing
  `JSON.stringify` texts.
- `newProblem` retries the generator until a candidate is admitted or 200 calls
  have been made.
- `cleanHistory` deletes the day buckets whose day began more than three weeks
  before now.
- `dateToString` and `stringToDate` convert between dates and day keys.

Layout:

- `decimal.dfy` (module `Decimal`): decimal numerals as template strings write
  them and `parseInt` reads them back.
- `json.dfy` (module `Json`): `JSON.stringify` on arrays of integers. It is
  proved injective, so comparing serialisations is comparing arrays.
- `day_key.dfy` (module `DayKey`): the day-key codec and the day count behind
  JavaScript timestamps. This includes `new Date(y, m, d)` carrying an
  out-of-range month or day into the next field, and reading years 0..99 as
  1900..1999.
- `history.dfy` (module `History`): the history as a value. It holds the
  functions that say what admission, the retry loop and the cleanup do to the
  value, and the lemmas about them.
- `problems.dfy` (module `Problems`): class `ProblemStore`, whose field
  `history` is the global object. Its methods update the field in place with the
  loops of the source, and each is proved to leave exactly the store that the
  matching `History` function prescribes.

The clock and the generator are inputs:

- The calendar day that `new Date()` reports in `tryAddToHistory` is a `Date`
  parameter.
- The instant `new Date()` reports in `cleanHistory` is a millisecond count.
- The generator is a sequence `gen`. `gen[k]` is what the k-th call produces,
  counting from 0.

The retry and cleanup behaviour is modelled as the code has it:

- The duplicate check reads today's bucket only.
- Nothing evicts entries to respect a per-type limit.

## Model

| member | source | states |
|---|---|---|
| Problems.ProblemStore.constructor | problems.js:41 | The history starts as the empty object and satisfies the store invariant. |
| Problems.ProblemStore.TryAddToHistory | problems.js:65-88 | On day `now`, the store becomes the admission of `q` under `dateToString(now)`. The result is true exactly when the candidate was appended. |
| History.ScanBucket | problems.js:77-84 | The loop comparing JSON texts finds a match exactly when `q` is already in the bucket. |
| Json.Stringify | problems.js:78-80 | The JSON text of an integer array is bracketed by `[` and `]`. |
| Json.StringifyInjective | problems.js:78-80 | Two integer arrays have the same JSON text iff they are equal. |
| History.Admit | problems.js:65-88 | Admission succeeds iff `q` is not in today's bucket. A refusal leaves the store unchanged. A success makes today's bucket its old contents followed by `q`. |
| History.AdmitFrame | problems.js:67-86 | Admission changes only the bucket (`id`, today). On success the id and the day exist afterwards, and no other id or day changes. |
| History.AdmitPreservesWellFormed | problems.js:77-86 | Admission under an eight-digit key keeps every bucket free of repeats and every key eight digits. |
| History.SameDayRepeatRefused | problems.js:79-83 | Once admitted, the same candidate is refused for the rest of that day and leaves the store unchanged. |
| History.EarlierDayDoesNotBlock | problems.js:72-79 | A candidate stored under an earlier day but not today is admitted again, and is then stored under both days. |
| History.Retry | problems.js:53-57 | The loop makes between 1 and 200 calls. It stops early only after an admission. |
| History.RetryOutcome | problems.js:53-57 | Every call before the last produced a repeat of today's bucket. The last call was admitted iff it was new. The store changed only by admitting it. |
| History.RetryPreservesWellFormed | problems.js:53-57 | However the loop ends, the store invariant still holds. |
| Problems.ProblemStore.GenerateUntilAdded | problems.js:52-57 | The do-while loop leaves the store, the call count and the last verdict that `Retry` prescribes. `data` is the last candidate generated. |
| History.AsWrittenResult | problems.js:58-61 | `null` iff the count reached 200. Otherwise the result is the last candidate generated. |
| Problems.ProblemStore.NewProblem | problems.js:51-62 | `newProblem` as written: the store and the call count of the loop, with the result `AsWrittenResult`. |
| History.AsWrittenResultMeaning | problems.js:51-61 | A problem is returned iff an attempt before the 200th was admitted. It is then new, and it ends today's bucket. `null` means 200 calls were made. |
| History.AllRepeatsExhaust | problems.js:53-60 | If every candidate is already in today's bucket, the generator is called exactly 200 times, nothing is stored, and the result is `null`. |
| History.LastAttemptAdmittedYetNull | problems.js:57-60 | If 199 repeats are followed by a new 200th candidate, that candidate is admitted and stored, yet the result is `null`. |
| History.LastAttemptAdmittedExample | problems.js:57-60 | A concrete store and generator for which this happens. |
| History.IntendedResult | problems.js:49-50 | `null` iff no attempt was admitted. Otherwise the result is the last candidate. |
| Problems.ProblemStore.NewProblemIntended | problems.js:49-62 | `newProblem` with the test its comment describes: the same loop, with the result `IntendedResult`. |
| History.IntendedResultMeaning | problems.js:49-61 | A returned problem is the first new candidate and ends today's bucket. `null` means all 200 candidates were repeats and the store is unchanged. |
| History.Expired | problems.js:96 | For a key naming a real date of a four-digit year, the bucket is expired iff `now` is more than three weeks past the midnight that starts that date. |
| History.FreshDays | problems.js:94-98 | A day survives iff it is present and not more than three weeks old. Survivors keep their buckets. |
| History.Cleaned | problems.js:91-101 | Every id is kept. Each id keeps exactly its buckets that are not more than three weeks old, unchanged. |
| Problems.ProblemStore.CleanHistory | problems.js:91-101 | The nested deletion loops leave exactly `Cleaned(old history, now)`, and the store invariant holds. |
| Problems.ProblemStore.CleanDays | problems.js:94-99 | The inner loop replaces one id's buckets by its fresh ones and changes no other id. |
| History.PartlyFreshStep | problems.js:94-98 | Visiting one more day key deletes it exactly when it has expired. |
| History.PartlyCleanedStep | problems.js:93-100 | Visiting one more id replaces its buckets by the fresh ones. |
| History.CleanedWellFormed | problems.js:91-101 | Cleanup keeps the store invariant. |
| History.CleanIdempotent | problems.js:91-101 | A second cleanup at the same instant removes nothing more. |
| History.CleanLaterSubsumes | problems.js:91-101 | Cleaning at one instant and then at a later one equals cleaning at the later one. |
| History.FreshLaterSubsumes | problems.js:94-98 | The same, for the buckets of one id. |
| History.ExpiredStaysExpired | problems.js:96 | A day older than three weeks at one instant is older at every later one. |
| DayKey.DateToString | problems.js:103-107 | The key is all digits: the year's numeral followed by four more digits. |
| DayKey.DateToStringFields | problems.js:103-107 | The key has exactly 8 characters iff the year is 1000..9999. Month and day can be read back from the last four digits, and the year from the first four. |
| Decimal.Digits | problems.js:104-106 | The numeral an integer interpolates to is at least one digit, all digits, and starts with '0' only for zero. |
| Decimal.ParseDecimal | problems.js:110-112 | `parseInt` of a digit string gives a value below 10 to the power of its length. |
| Decimal.Pad2 | problems.js:104-105 | The padded month or day has two digits and reads back as its value. |
| Decimal.ParseDigits | problems.js:106-112 | `parseInt` of an integer's numeral gives the integer back. |
| DayKey.StringToDate | problems.js:109-114 | For a key with no leading zero that names a real date, the timestamp is the midnight that starts that date. |
| DayKey.MakeDay | problems.js:113 | With a month index from 0 to 11, `new Date(y, m, d)` is the civil day count of (y, m + 1, d), where years 0..99 mean 1900..1999. Month index -1, from month "00", is December of the year before. A day past the month's end carries on linearly. |
| DayKey.KeyFields | problems.js:110-112 | The three slices of a key read as year ≤ 9999, month ≤ 99 and day ≤ 99. The year is at least 1000 iff the key does not start with '0'. |
| DayKey.DayKeyRoundTrip | problems.js:103-112 | A date with a four-digit year encodes to an eight-digit key whose fields decode back to the date. |
| DayKey.DayKeyReencode | problems.js:103-112 | An eight-digit key with no leading zero that names a real date is exactly that date's key. |
| DayKey.StringToDateOfKey | problems.js:103-114 | `stringToDate(dateToString(d))` is the timestamp of midnight at the start of `d`. |
| DayKey.MakeDayOfDate | problems.js:113 | For a real date with a year past 99, `new Date(y, m - 1, d)` needs no carrying: its day count is the civil one. |
| DayKey.MakeDayCarries | problems.js:111-113 | Month index 12 is January of the next year, and day 0 is December 31 of the year before. |
| DayKey.EpochIsDayZero | problems.js:96 | The day count is 0 at 1970-01-01, the epoch of timestamps. |
| DayKey.NextDayStartsOneDayLater | problems.js:96 | Consecutive days of one month start exactly one day apart. |
| DayKey.MonthBoundary | problems.js:96 | The day after the last day of a month is the first of the next month or year, one day later. |
| DayKey.YearStep | problems.js:96 | From 1 March of one year to 1 March of the next is 366 days iff the next year is a leap year. |

## Left out

- Problem generators (problems.js:4-14, 28-32): they use `Math.random` and floating point. Their candidates are the input sequence `gen`.
- `format` (problems.js:15-22, 33-38): display text only. `NewProblem` returns the admitted candidate in place of the formatted problem.
- `logProblem` (problems.js:43-47): console output.
- `problems[id]` for an unknown id throws a `TypeError` in JavaScript. The model accepts any id, since the generator is an input.
- Candidates are arrays of integers. The `dummy` type's scalar `q` (problems.js:31) and numbers beyond what JSON prints as plain integers (exponent notation above 10^21, non-integers) are not modelled.
- The local time zone and daylight saving time are not modelled. Day counts and timestamps are UTC. The calendar day of `new Date()` and the instant of `cleanHistory` are independent parameters.
- `parseInt` on keys that are not eight digits is not modelled. The store invariant holds only eight-digit keys, and `cleanHistory` never meets any other.
- Problems.ProblemStore.NewProblem and Problems.ProblemStore.NewProblemIntended require a year from 1000 to 9999. Other years give keys that are not eight digits, and `stringToDate` misreads them. `TryAddToHistory` itself accepts any year.
- Problems.ProblemStore.TryAddToHistory does not restate the store invariant in its own contract. `History.AdmitPreservesWellFormed` and `History.RetryPreservesWellFormed` state its preservation.
- Problems.ProblemStore.GenerateUntilAdded, Problems.ProblemStore.NewProblem and Problems.ProblemStore.NewProblemIntended use one calendar day for all calls of the loop. The source reads the clock again in every `tryAddToHistory`. A loop running across midnight would compare its later candidates against the next day's bucket, and that is not modelled.
- Problems.ProblemStore.TryAddToHistory and Problems.ProblemStore.CleanHistory assume ids are keys of `problems`, that is own property names that are not members of `Object.prototype`. For an id such as `"constructor"` or `"__proto__"`, `id in history` finds the inherited member. The source then writes the bucket into that inherited object rather than an own entry, and `for…in` never visits it for cleanup. The model gives every id an own entry. `newProblem` cannot reach such ids, because `problems[id].generate()` throws first.
- `for…in` iteration order is not modelled. Each loop picks an arbitrary key not yet visited; only the visited key is ever deleted, so the order does not change the outcome.
- Per-type turnover and eviction of the oldest entries, and a duplicate check across all days: the code has neither.

## Findings

| source | as written | input that shows it | evidently intended | confidence | as-written member | corrected member |
|---|---|---|---|---|---|---|
| problems.js:58 | `if (count == 200) return null` tests the call count, not whether the last call was admitted. | The first 199 generated candidates are already in today's bucket and the 200th is new. It is admitted and stored, and `newProblem` returns `null`. | Return `null` only when no candidate was admitted, as the comment at problems.js:50 says. | high; not executed | History.LastAttemptAdmittedYetNull | Problems.ProblemStore.NewProblemIntended |

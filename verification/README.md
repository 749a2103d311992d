# Mood tracker core, in Dafny

This project models the logic of a mood tracker web application. Users
record one mood entry per day: a score from 1 to 10 and an optional
comment. They browse the entries in week and month calendar views, and
administrators read yearly statistics per user. Three parts are modelled:

- **The calendar helpers** of `resources/js/utils/dateUtils.js`. They find a
  week's Monday and Sunday, build the seven days of a week and the Monday-to-Sunday
  grid of a month, compare days, apply the leap-year rule and count the days of a month.
  This is module `DateUtils`, over module `Civil`.
- **The mood entry API** of `app/Http/Controllers/Api/MoodEntryController.php`.
  `store` is an upsert keyed on (user, day). `update` and `destroy` are guarded
  by ownership. `index` lists one user's entries of one year by date. This is
  module `MoodStore`.
- **The admin read-outs** of `app/Http/Controllers/Api/AdminController.php`.
  `users` lists each non-admin user with their average score, days tracked and
  tracking rate for the year. `userMoods` lists one user's entries of a year. This
  is module `Admin`.

A `Date` is a whole day: a day number counted from 1 January 1970. `Civil`
derives the year, month, day of the month and weekday from it by the
algorithms of section 21.4.1 of ECMA-262: DayFromYear, YearFromTime,
MonthFromTime, DateFromTime, WeekDay and MakeDay. `new Date(y, m, d)` is
`MakeDay(ConstructorYear(y), m, d)`. The constructor reads a year from 0 to 99
as 1900 + year (section 21.4.2.1 of ECMA-262), and `MakeDay` carries an
out-of-range month into the year and an out-of-range date into the month.

`getDaysInWeek` and `getDaysInMonth` build their arrays in loops, so they
are methods. `GetDaysInMonth` keeps getDaysInMonth's `while` loop with its early
`break`, in `CollectWeeks`. Each method is proved equal to a specification function
(`WeekDays`, `MonthGrid`), and the lemmas about the grid are stated on that function.

The entry table is a class, `MoodEntryTable`. Its fields are the rows, in insertion
order, and the next auto-increment id. `Store`, `Update` and `Destroy` change the
fields in place. Each is proved to produce exactly the table and response of a
specification function (`AfterStore`, `AfterUpdate`, `AfterDestroy`), and to keep
the table invariant `TableValid`:
- ids are unique and below the next id;
- scores lie in 1..10;
- there is at most one entry per user and day.

The lemmas about the three requests are stated on those functions. The
authenticated user is a parameter. A failed request is a value of `ApiError`:
`ValidationFailed` (422), `Forbidden` (403) or `ServerError` (500).

The admin read-outs are pure functions of the user list and the rows. The
current year is a parameter. The average and the tracking rate are exact rationals.

## Model

| member | source | states |
|---|---|---|
| DateUtils.ConstructorYear | resources/js/utils/dateUtils.js:57-58 | `new Date(year, ...)` reads a year from 0 to 99 as 1900 + year and every other year as itself |
| DateUtils.GetWeekStart | resources/js/utils/dateUtils.js:10-17 | the result is a Monday, on or before the date and at most six days earlier; a Sunday goes back exactly six days |
| DateUtils.GetWeekEnd | resources/js/utils/dateUtils.js:24-31 | the result is a Sunday, on or after the date and at most six days later; a Sunday maps to itself |
| DateUtils.WeekStartUnique | resources/js/utils/dateUtils.js:12-14 | the week start is the only Monday at most six days before the date |
| DateUtils.GetDaysInWeek | resources/js/utils/dateUtils.js:38-46 | the loop returns seven days, the i-th being weekStart + i |
| DateUtils.WeekBounds | resources/js/utils/dateUtils.js:10-46 | the week end is six days after the week start, the date lies in the week built from its start, and that week's last day is the week end |
| DateUtils.WeekDaysFromMonday | resources/js/utils/dateUtils.js:38-46 | the week built from a Monday runs Monday, Tuesday, ..., Sunday |
| DateUtils.MonthBoundsAsDates | resources/js/utils/dateUtils.js:57-58 | `new Date(year, month, 1)` is the month's first day and `new Date(year, month + 1, 0)` its last |
| DateUtils.WeekHasMonthDays | resources/js/utils/dateUtils.js:69 | the scan answers whether some day of the week falls in the month |
| DateUtils.CollectWeeks | resources/js/utils/dateUtils.js:60-81 | the loop, early break included, returns exactly the weeks from the first day's week to the last day's week |
| DateUtils.GetDaysInMonth | resources/js/utils/dateUtils.js:56-82 | the result is the grid of weeks covering the month |
| DateUtils.MonthDays | resources/js/utils/dateUtils.js:57-58 | a day is in the month exactly when it lies between the first and the last day |
| DateUtils.WeeksCoveringShape | resources/js/utils/dateUtils.js:61-73 | a grid of weeks from a first to a last day is non-empty, each week is seven consecutive days from a Monday, and consecutive weeks start seven days apart |
| DateUtils.WeeksCoveringDistinct | resources/js/utils/dateUtils.js:61-73 | no day appears at two positions of such a grid |
| DateUtils.WeeksCoveringCovers | resources/js/utils/dateUtils.js:61-73 | every day from first to last lies in exactly one week |
| DateUtils.WeeksCoveringMeet | resources/js/utils/dateUtils.js:64-76 | every week starts by the last day and ends no earlier than the first |
| DateUtils.MonthGridShape | resources/js/utils/dateUtils.js:56-82 | getDaysInMonth is non-empty, each week is seven consecutive days from a Monday, and weeks start seven days apart |
| DateUtils.MonthGridDistinct | resources/js/utils/dateUtils.js:56-82 | no day appears twice in getDaysInMonth |
| DateUtils.MonthGridCovers | resources/js/utils/dateUtils.js:56-82 | every day of the month lies in exactly one week of getDaysInMonth |
| DateUtils.MonthGridWeeksMeetMonth | resources/js/utils/dateUtils.js:61-77 | every week getDaysInMonth returns holds a day of month `month` of the year the constructor reads, and so passes the loop's `getMonth() === month` test |
| DateUtils.BreakSubsumed | resources/js/utils/dateUtils.js:64-78 | the early break fires after a week exactly when the loop guard would fail anyway |
| DateUtils.ToDateString | resources/js/utils/dateUtils.js:92 | the printed fields are a weekday, a month 0..11 and a date within that month's length, and they rebuild the day they were printed from |
| DateUtils.IsSameDay | resources/js/utils/dateUtils.js:90-93 | true exactly when both dates are present and are the same day |
| DateUtils.JsRemainder | resources/js/utils/dateUtils.js:153 | JavaScript's `%`: a remainder of a by b (a minus it is a multiple of b), with the sign of the dividend and smaller than the divisor in size |
| DateUtils.JsRemainderZero | resources/js/utils/dateUtils.js:153 | JavaScript's sign-of-dividend remainder is zero exactly when the Euclidean one is |
| DateUtils.IsLeapYear | resources/js/utils/dateUtils.js:152-154 | true exactly when (y divisible by 4 and not by 100) or by 400, for negative years too, and exactly when the calendar gives the year 366 days |
| DateUtils.GetDaysInMonthCount | resources/js/utils/dateUtils.js:162-164 | the date of day 0 of the next month is the length of the month in the constructor's year |
| DateUtils.DaysInMonthCountTable | resources/js/utils/dateUtils.js:162-164 | months 0, 2, 4, 6, 7, 9 and 11 count 31 days and months 3, 5, 8 and 10 count 30; February counts 29 exactly when isLeapYear and 28 otherwise, for every year but 0 |
| DateUtils.YearZeroFebruary | resources/js/utils/dateUtils.js:152-164 | for year 0, isLeapYear holds and February still counts 28 days, because the constructor reads year 0 as 1900 |
| DateUtils.GetDayNames | resources/js/utils/dateUtils.js:143-145 | seven names, column i naming weekday (i + 1) mod 7 |
| DateUtils.DayNamesMatchWeek | resources/js/utils/dateUtils.js:143-145 | column i of the headings names the weekday of day i of every week that getWeekStart begins |
| Civil.LastDayOfMonth | resources/js/utils/dateUtils.js:58 | day 0 of the next month is the month's last day, December included |
| Civil.DateOfLastDay | resources/js/utils/dateUtils.js:163 | the date of day 0 of the next month equals the month's length |
| MoodStore.ValidScore | app/Http/Controllers/Api/MoodEntryController.php:34 | the rule `integer, min:1, max:10` on an integer score: 1 to 10 inclusive (the same rule at line 64) |
| MoodStore.EmptyTable | app/Models/MoodEntry.php:8-26 | the empty entry table satisfies the table invariant |
| MoodStore.FindKey | app/Http/Controllers/Api/MoodEntryController.php:41-47 | the key lookup of updateOrCreate finds the first row with that user and day, or reports that there is none |
| MoodStore.FindId | app/Http/Controllers/Api/MoodEntryController.php:57 | `find` returns the first row with that id, or none when no row has it |
| MoodStore.ApplyComment | app/Http/Controllers/Api/MoodEntryController.php:35-46 | a submitted comment (null included) replaces the old one; an omitted one keeps it |
| MoodStore.AfterStore | app/Http/Controllers/Api/MoodEntryController.php:30-50 | store fails exactly when the date or score is missing or the score is outside 1..10, and then fails with a validation error and leaves the table unchanged |
| MoodStore.AfterUpdate | app/Http/Controllers/Api/MoodEntryController.php:55-71 | a missing id is a server error and another user's entry is forbidden, both leaving the table unchanged; an invalid score changes nothing |
| MoodStore.AfterDestroy | app/Http/Controllers/Api/MoodEntryController.php:76-87 | a missing entry or another user's entry is forbidden, and every refusal leaves the table unchanged |
| MoodStore.UserYearRows | app/Http/Controllers/Api/MoodEntryController.php:19-20 | the query keeps exactly the rows of that user dated in that year |
| MoodStore.InsertByDate | app/Http/Controllers/Api/MoodEntryController.php:21 | inserting adds exactly the one entry to the multiset |
| MoodStore.InsertByDateSorted | app/Http/Controllers/Api/MoodEntryController.php:21 | inserting into a date-sorted sequence keeps it sorted |
| MoodStore.SortByDate | app/Http/Controllers/Api/MoodEntryController.php:21 | orderBy('date') yields a date-sorted permutation of its input |
| MoodStore.EntriesInYear | app/Http/Controllers/Api/MoodEntryController.php:19-22 | the listing is sorted by date and holds exactly the user's entries of the year |
| MoodStore.MoodEntryTable.constructor | app/Models/MoodEntry.php:8-26 | a new entry table is empty, its next id is 1, and it satisfies the invariant |
| MoodStore.MoodEntryTable.Store | app/Http/Controllers/Api/MoodEntryController.php:30-50 | the new state and the response are those of AfterStore, and the invariant holds |
| MoodStore.MoodEntryTable.Update | app/Http/Controllers/Api/MoodEntryController.php:55-71 | the new state and the response are those of AfterUpdate, and the invariant holds |
| MoodStore.MoodEntryTable.Destroy | app/Http/Controllers/Api/MoodEntryController.php:76-87 | the new state and the response are those of AfterDestroy, and the invariant holds |
| MoodStore.MoodEntryTable.Index | app/Http/Controllers/Api/MoodEntryController.php:15-25 | index returns the caller's entries of the year, sorted by date, and no others |
| MoodStore.StorePreservesValid | app/Http/Controllers/Api/MoodEntryController.php:30-50 | store keeps unique ids, scores in 1..10 and at most one entry per user and day |
| MoodStore.UpdatePreservesValid | app/Http/Controllers/Api/MoodEntryController.php:55-71 | update keeps the table invariant |
| MoodStore.DestroyPreservesValid | app/Http/Controllers/Api/MoodEntryController.php:76-87 | destroy keeps the table invariant |
| MoodStore.StoreUpserts | app/Http/Controllers/Api/MoodEntryController.php:38-47 | after a valid store, exactly one entry has the key: the returned one, with the submitted score and comment, or the old comment when none was sent; an existing entry keeps its id, and entries with other keys are unchanged |
| MoodStore.StoreTwice | app/Http/Controllers/Api/MoodEntryController.php:40-47 | a second store for the same user and day adds no row and keeps the id; the later score wins |
| MoodStore.StoreIdempotent | app/Http/Controllers/Api/MoodEntryController.php:30-50 | repeating a store request leaves table and response as the first one left them |
| MoodStore.NonOwnersChangeNothing | app/Http/Controllers/Api/MoodEntryController.php:57-61 | on another user's entry, update and destroy are refused with 403 and change nothing |
| MoodStore.StoreKeepsOtherUsersRows | app/Http/Controllers/Api/MoodEntryController.php:38-47 | store neither removes nor adds a row of any other user |
| MoodStore.UpdateChangesScoreAndComment | app/Http/Controllers/Api/MoodEntryController.php:57-68 | update succeeds exactly for the owner with a valid score, and then changes only that entry's score and comment, keeping its id, user and date and every other row |
| MoodStore.IdsUnique | app/Http/Controllers/Api/MoodEntryController.php:57 | in a valid table, an id identifies one row |
| MoodStore.KeysUnique | app/Http/Controllers/Api/MoodEntryController.php:41-47 | in a valid table, (user, day) identifies one row |
| MoodStore.RemoveRow | app/Http/Controllers/Api/MoodEntryController.php:84 | deleting a row removes exactly the rows with its id |
| MoodStore.DestroyRemovesExactly | app/Http/Controllers/Api/MoodEntryController.php:78-84 | destroy succeeds exactly when the caller owns an entry with that id, and then removes exactly that entry; otherwise nothing changes |
| MoodStore.OneUserRowsDistinctDates | app/Http/Controllers/Api/MoodEntryController.php:41-47 | one user's rows of a valid table fall on pairwise different days |
| MoodStore.IndexStrictlyAscending | app/Http/Controllers/Api/MoodEntryController.php:19-22 | the index listing has strictly ascending dates |
| Admin.TotalDaysInYear | app/Http/Controllers/Api/AdminController.php:26 | the 0-based day of the year of 31 December, plus one, is the length of the year: 366 in leap years, else 365 |
| Admin.MinScore | app/Http/Controllers/Api/AdminController.php:32 | the smallest score of the entries |
| Admin.MaxScore | app/Http/Controllers/Api/AdminController.php:32 | the largest score of the entries |
| Admin.NonAdmins | app/Http/Controllers/Api/AdminController.php:22 | a user is in the filtered list exactly when they are in the user list and not an admin |
| Admin.NonAdminsCount | app/Http/Controllers/Api/AdminController.php:22 | the filter keeps each non-admin user as many times as the user list holds them, and no admin |
| Admin.NonAdminsAppend | app/Http/Controllers/Api/AdminController.php:22 | the filter keeps the order of the user list: filtering a concatenation concatenates the filtered parts |
| Admin.NonAdminsDistinctIds | app/Http/Controllers/Api/AdminController.php:22 | users with distinct ids keep distinct ids through the filter |
| Admin.SumScores | app/Http/Controllers/Api/AdminController.php:32 | the sum of the scores, with no contract of its own; its bounds are SumScoresBounds |
| Admin.Average | app/Http/Controllers/Api/AdminController.php:32 | `avg('score') ?? 0`: 0 for no entries, otherwise the number that times the count gives the sum of the scores |
| Admin.UserStats | app/Http/Controllers/Api/AdminController.php:25-34 | the average and the count of the user's entries dated in the year, and that count over the days of the year times 100 |
| Admin.Summary | app/Http/Controllers/Api/AdminController.php:36-45 | an item of the listing carries the user's id, name and email and their statistics |
| Admin.Users | app/Http/Controllers/Api/AdminController.php:15-49 | one summary per non-admin user, in order, each with that user's statistics |
| Admin.UsersAreNonAdmins | app/Http/Controllers/Api/AdminController.php:17-24 | with distinct user ids, a user's id appears in the listing exactly when they are not an admin, and at one position only |
| Admin.UserMoods | app/Http/Controllers/Api/AdminController.php:54-71 | the response carries the user's id, name and email and exactly their entries of the year, sorted by date |
| Admin.SumScoresBounds | app/Http/Controllers/Api/AdminController.php:32 | with every score between two bounds, the sum lies between count times each bound |
| Admin.AverageBetweenMinAndMax | app/Http/Controllers/Api/AdminController.php:32 | the average is 0 with no entries and otherwise lies between the lowest and the highest score |
| Admin.AverageInScoreRange | app/Http/Controllers/Api/AdminController.php:32 | in a valid table, every average is 0 or lies in 1..10 |
| Admin.Dates | app/Http/Controllers/Api/AdminController.php:28-33 | the set of days of a sequence of entries |
| Admin.DatesCount | app/Http/Controllers/Api/AdminController.php:33 | entries on pairwise different days have as many days as entries |
| Admin.DaysTrackedAreDistinctDays | app/Http/Controllers/Api/AdminController.php:28-33 | days_tracked is the number of the user's entries of the year, and the number of distinct days they tracked |
| Admin.TrackingRateBounds | app/Http/Controllers/Api/AdminController.php:34 | the tracking rate is days tracked over the days of the year times 100, and lies in [0, 100] |

`users` and `userMoods` are functions, so neither can change an entry.

## Left out

- Time of day, time zones and daylight saving time: `setHours` in getWeekStart and getWeekEnd is not modelled. Dates are whole days, and comparing two dates compares day numbers.
- Invalid dates (`NaN` time values) and date objects outside the `Date` range are not modelled. `isSameDay`'s falsy arguments (null, undefined) are `None`.
- `isToday` reads the clock; `isSameDay` with explicit arguments covers its logic.
- `formatWeekRange` depends on the locale call `toLocaleDateString('es-ES', ...)`.
- `getMonthName` is a table lookup with nothing to state.
- DateUtils.GetDaysInMonthCount: requires a month in 0..11. JavaScript normalises any month, and the model's calendar functions are stated for the twelve months only.
- DateUtils.GetDaysInMonth: requires a month in 0..11, for the same reason. For other months getDaysInMonth's `getMonth() === month` test never holds, and the loop guard alone ends the loop.
- Rounding to one decimal (`round(..., 1)`) of the average and the tracking rate: both are exact rationals.
- `date('Y')` and the `year` request parameter: the year is a parameter. Parsing the year out of a request string, and PHP's parsing of `"$year-12-31"` for years that are not four digits, are not modelled.
- The `withCount('moodEntries')` and `selectRaw(AVG ...)` eager loads of `users`: their results never reach the response.
- Request validation is reduced to its outcome. The date and the score are present or absent, the score is an integer, and the comment is omitted, null or a string. A score string that is not an integer, and a comment that is not a string, are not modelled.
- The PHP runtime error of `update` on a missing id (reading a property of null) is the value `ServerError`. The error message text is not modelled.
- Concurrent requests: every request is modelled as atomic and one at a time. `updateOrCreate` in store (app/Http/Controllers/Api/MoodEntryController.php:41-47) is a lookup followed by a separate insert or update, and no unique index on (user_id, date) appears among the files modelled. So two concurrent store requests for the same user and day can both miss the row and both insert. The invariant clause "at most one entry per user and day" (`TableValid`, kept by `StorePreservesValid`) holds only under that assumption or under a database uniqueness constraint. The same goes for every result that rests on it: `OneUserRowsDistinctDates`, `IndexStrictlyAscending`, `DaysTrackedAreDistinctDays` and the [0, 100] bound of `TrackingRateBounds`.
- HTTP status codes, JSON encoding, authentication (`auth()`) and the admin route middleware.
- The `date` column's time part: entries are keyed on a whole day.
- `database/seeders/MoodEntrySeeder.php` (random demo data), `routes/api.php` (routing) and `tests/dns.php` (a DNS lookup script).

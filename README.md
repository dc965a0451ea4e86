# Fringe festival scheduler, modelled in Dafny

`fringe.rb` reads a catalog of shows, each with several showtimes, and looks
for a plan that sees every show once. It does this greedily:

- Shows with fewer showtimes come first.
- The first show takes its first available showtime.
- On every show after it in the array, every available showtime on the same
  day and within half an hour of it (before or after) is closed.
- The array is re-sorted by how many showtimes each show still has, and the
  scheduler recurses on the next position.
- It returns `false` when the show at the current position has no showtime
  left, and `true` when it passes the last position.

This project models that program as follows.

- **Classes.** `Showtime` and `Show` (module `Shows`) are classes whose
  methods change their fields in place. Each `Show` has a ghost footprint
  `Repr` and a `State()` view as a value.
- **Value vocabulary.** Module `Timetable` holds the value-level terms: a
  showtime snapshot (`Slot`), the 30-minute conflict window, one
  invalidation pass (`Invalidate`), and the available-showtime counter.
  Times are minutes since midnight.
- **Sorting.** Module `Ordering` holds the sort by counter, `SortBy`. It is a
  permutation with non-decreasing keys.
- **Value-level run.** Module `Plan` specifies the recursive scheduler as a
  function, `Run`, on a map from shows to their states. It proves what one
  step does and what the whole run preserves.
- **Imperative scheduler.** Module `Scheduler` is the recursive scheduler over
  the `Show` objects. It is proved to compute exactly `Plan.Run`.
- **Top level.** Module `Catalog` covers the top-level script. It groups
  already-split CSV records into a hash of shows keyed by title, takes the
  values in order of first appearance, sorts them, and runs the scheduler
  from position 0.
- **Finding.** Module `Findings` exhibits the defect described under
  "Findings".
- **Correction.** Module `SuffixResort` gives the corrected scheduler, in which
  only the not yet scheduled suffix is re-sorted, and proves what a
  successful run then guarantees.

Two facts about the code shape the model:

- There is no repair or backtracking step: a dead end returns `false`
  (fringe.rb:84). The comment at fringe.rb:78 says failure handling is still
  to come.
- `mark_attended` sets only `attended`. The attended showtime stays
  `available` (fringe.rb:21-23).

## Model

| member | source | states |
|---|---|---|
| Timetable.ConflictsSymmetric | fringe.rb:69 | The half-hour, same-day conflict test is symmetric in its two showtimes. |
| Timetable.Clear | fringe.rb:69-71 | One iteration of the invalidation loop on a value: an available showtime on the same day within 30 minutes becomes unavailable; any other is returned unchanged. |
| Timetable.Invalidate | fringe.rb:67-74 | The invalidation loop over a whole list of showtimes, one `Clear` per position, in order; its length equals the input's. Its meaning is stated by InvalidateMeaning. |
| Timetable.CountAvailable | fringe.rb:31 | The number of showtimes still available, which `num_avail` is meant to hold. |
| Timetable.CountFlipped | fringe.rb:69-71 | The number of showtimes one pass closes: available and in the window, i.e. how often the loop decrements the counter. |
| Timetable.Appended | fringe.rb:45-48 | A show after `add_showtime`: one available, unattended showtime at the end and the counter one higher. |
| Timetable.Invalidated | fringe.rb:67-74 | A show after `mark_time_unavailable`: the list invalidated and the counter lowered by the number of showtimes closed. |
| Timetable.Attend | fringe.rb:87-88 | A show after lines 87-88: the k-th showtime and the show become attended; availability and the counter are untouched. |
| Timetable.FirstAvailable | fringe.rb:60-65 | The result is the position of the first available showtime in list order: it is available, every earlier one is not, and it is None exactly when no showtime is available. |
| Timetable.InvalidateMeaning | fringe.rb:67-74 | After one pass each showtime is available exactly when it was before and is outside the window. Day, time, attendance, length and order are unchanged. |
| Timetable.InvalidateKeepsOutside | fringe.rb:69 | A showtime on another day, or more than 30 minutes away, is left exactly as it was. |
| Timetable.InvalidateIdempotent | fringe.rb:67-74 | A second identical pass over the showtimes changes nothing. |
| Timetable.NothingLeftToFlip | fringe.rb:69-71 | After one pass, no showtime is left for a second pass to close. |
| Timetable.InvalidateCount | fringe.rb:69-71 | The number of available showtimes falls by exactly the number the pass closes. |
| Timetable.InvalidatedIdempotent | fringe.rb:67-74 | Calling mark_time_unavailable twice with the same time leaves the show, counter included, as after one call. |
| Timetable.InvalidatedCounted | fringe.rb:69-71 | If the counter equals the number of available showtimes before the call, it still does after. |
| Timetable.CountAvailableAppend | fringe.rb:45-48 | Appending a showtime raises the available count by one exactly when that showtime is available. |
| Timetable.AppendedCounted | fringe.rb:45-48 | Adding a showtime keeps the counter equal to the number of available showtimes. |
| Timetable.CountAvailableClose | fringe.rb:25-27 | Closing one available showtime lowers the available count by exactly one. |
| Timetable.CountAvailableIgnoresAttendance | fringe.rb:21-23 | Marking a showtime attended does not change the available count. |
| Timetable.NoneAvailableIffZero | fringe.rb:60-65 | get_available finds nothing exactly when the available count is zero. |
| Shows.Showtime.constructor | fringe.rb:14-19 | A new showtime has the given day and time, is available and is not attended. |
| Shows.Showtime.MarkAttended | fringe.rb:21-23 | Only the attended flag changes, and it becomes true. |
| Shows.Showtime.MarkUnavailable | fringe.rb:25-27 | Only the available flag changes, and it becomes false. |
| Shows.Show.constructor | fringe.rb:37-43 | A new show has the given title and venue, no showtimes, counter 0, is not attended, and is valid. |
| Shows.Show.AddShowtime | fringe.rb:45-48 | The old showtimes are kept and one fresh, available, unattended showtime is appended. The counter rises by one and stays equal to the number of available showtimes. |
| Shows.Show.GetAvailable | fringe.rb:60-65 | Returns the showtime at the first available position, or null when none is available. Nothing changes. |
| Shows.Show.MarkTimeUnavailable | fringe.rb:67-74 | The show becomes its invalidated state: showtimes in the window are closed, the counter drops by the number closed, and the list and the footprint stay the same. |
| Shows.Show.SweepAt | fringe.rb:68-72 | One loop iteration closes the i-th showtime exactly when it is available and in the window, and keeps the counter in step with the list. |
| Ordering.SortBy | fringe.rb:102 | The result is a permutation of the input whose counters never decrease. |
| Ordering.DistinctPermuted | fringe.rb:102 | Re-sorting an array with no repeated show gives an array with no repeated show. |
| Plan.Propagate | fringe.rb:91-94 | The propagation loop on values: each show of the later part, in turn, becomes its `Invalidated` state; the same shows are keyed. Its meaning is stated by PropagateAt. |
| Plan.Step | fringe.rb:81-94 | One call without its recursion: None when the current show has no available showtime, otherwise the state after attending its first available showtime and propagating the window over the later shows. |
| Plan.AvailKeys | fringe.rb:102 | The counter of each show of the array, which the re-sort compares. |
| Plan.Resort | fringe.rb:102 | The re-sort on values: the whole array sorted by counter; a permutation of the array. |
| Plan.Run | fringe.rb:79-105 | The whole recursion on values: false and no change at a show without an available showtime, true after the last position, otherwise the run on the re-sorted array at the next position. The imperative scheduler is proved equal to it. |
| Plan.NoShowtimeFails | fringe.rb:81-84 | If the current show has no available showtime, the run returns false and changes nothing. |
| Plan.StepFailsIffExhausted | fringe.rb:81-84 | When the counter is right, the step fails exactly when the current show's counter is zero. The run then returns false and changes nothing. |
| Plan.PropagateAt | fringe.rb:91-94 | After the propagation loop, each show of the later part is invalidated once, even if it appears more than once, and every other show is unchanged. |
| Plan.StepEffect | fringe.rb:86-94 | With no repeated shows, the current show attends its first available showtime. Every later show is invalidated around that showtime, and every earlier show, and every show not in the array, is unchanged. |
| Plan.StepKeeps | fringe.rb:81-94 | One step keeps every counter equal to its count of available showtimes and keeps a show attended exactly when one of its showtimes is. It only closes or attends showtimes. |
| Plan.RunKeeps | fringe.rb:79-105 | The whole recursion keeps every counter right and every show's flag in agreement with its showtimes. Showtimes are never reopened, dropped or un-attended. |
| Plan.RunFailure | fringe.rb:79-105 | A run that returns false leaves some show of the array with no available showtime. |
| Plan.RunAfterStep | fringe.rb:96-104 | After a successful step the run returns true at the last position, and otherwise continues on the re-sorted array at the next position. |
| Scheduler.MarkOne | fringe.rb:92-93 | Invalidating the show at position j extends the propagation by exactly that show. |
| Scheduler.MarkLaterUnavailable | fringe.rb:91-94 | After the loop, the shows are the value-level propagation of the window over every show after the position. |
| Scheduler.Permuted | fringe.rb:102 | Two arrays holding the same shows in any order describe the same shows in the same states. |
| Scheduler.Choose | fringe.rb:87-88 | The chosen showtime and its show become attended, and nothing else changes. |
| Scheduler.ChooseInFleet | fringe.rb:87-88 | Seen from the whole array, only the current show's state changes, to its attended state. |
| Scheduler.CountersAre | fringe.rb:102 | The counters the re-sort reads from the objects are the counters of the shows' states. |
| Scheduler.FirstFree | fringe.rb:81 | Returns the first available showtime of the current show, or null if it has none. Nothing changes. |
| Scheduler.AttendAndClose | fringe.rb:86-94 | The shows after the call are exactly the value-level successful step. |
| Scheduler.Counters | fringe.rb:102 | The `num_avail` of every show of the array, read from the objects; every show has a key. |
| Scheduler.ScheduleNextShow | fringe.rb:79-105 | The returned boolean and the final shows are exactly those of the value-level run on the initial shows. |
| Catalog.Titles | fringe.rb:109-122 | The keys of the hash in insertion order: each title once, at its first record; the result has no repeats. |
| Catalog.SlotsOf | fringe.rb:116-118 | The showtimes a title receives: one available, unattended showtime per record of that title, in arrival order. |
| Catalog.FirstVenue | fringe.rb:115 | The venue of the first record of a title, which the `Show.new` on line 115 keeps. |
| Catalog.Grouping | fringe.rb:109-119 | Every title with the show it should become after the loop; its keys are exactly the titles. |
| Catalog.InOrder | fringe.rb:122 | `shows.values`: the show of each title, in the order the titles were inserted into the hash. |
| Catalog.TitlesComplete | fringe.rb:109-119 | A title becomes a key of the hash exactly when some record carries it. |
| Catalog.SlotsOfAppend | fringe.rb:112-118 | Records in two parts give the showtimes of the first part followed by those of the second. |
| Catalog.SlotsOfMeaning | fringe.rb:115-118 | A title has a showtime exactly when it is in the hash, and its counter equals its number of available showtimes. |
| Catalog.FirstVenueSnoc | fringe.rb:115 | A title's venue is that of its first record, and a later record never changes it. |
| Catalog.GroupingSnoc | fringe.rb:115-118 | One more record gives its title one more available showtime at the end of its list. |
| Catalog.Append | fringe.rb:118 | Adding to an existing title's show changes only that title's entry, and only by appending one showtime. |
| Catalog.AddRecord | fringe.rb:113-118 | After i+1 records, the hash holds exactly what the first i+1 records describe. |
| Catalog.AddFirst | fringe.rb:115 | A new title opens a fresh show with the record's venue, and that show receives the record's showtime. |
| Catalog.NewShow | fringe.rb:115-118 | A fresh, valid show with the given title and venue and one available showtime. |
| Catalog.Group | fringe.rb:109-122 | One distinct show per title, in order of first appearance. Each show has the venue of its title's first record and one available showtime per record, in arrival order, with a correct counter. |
| Catalog.BuildSchedule | fringe.rb:109-125 | The grouped shows sorted by counter: every title present exactly once, every show as grouping left it, and the counters non-decreasing. |
| Catalog.Rearranged | fringe.rb:125 | Sorting the values keeps exactly the same shows and titles, with no title twice. |
| Catalog.Initial | fringe.rb:109-119 | The shows of an array as values, each as grouping leaves it. |
| Catalog.ScheduleFestival | fringe.rb:109-128 | The array holds every title exactly once, each show with its first record's venue, sorted so that the grouped counters never decrease. The returned boolean and the final shows are the value-level run from position 0 on the shows as grouping built them. |
| SuffixResort.RunRest | fringe.rb:79-105 | The corrected recursion on values: as Plan.Run, but each re-sort keeps positions up to the index and sorts only the rest. |
| SuffixResort.ResortRest | fringe.rb:102 | The corrected re-sort keeps the scheduled prefix in place and rearranges only the rest. |
| SuffixResort.StepProgress | fringe.rb:81-94 | A successful step moves the current show from "untouched" to "booked on one showtime". It clashes with no earlier booking, and nothing still available elsewhere clashes with it. |
| SuffixResort.ResortRestProgress | fringe.rb:102 | The corrected re-sort keeps the array free of repeats and keeps that progress at the next position. |
| SuffixResort.RunRestBooks | fringe.rb:79-105 | From any point of progress, a corrected run that returns true has booked every show without clashes. |
| SuffixResort.ResortRestSchedulesAll | fringe.rb:79-105 | On untouched shows with no repeats, a corrected run that returns true books every show on exactly one showtime, and no two bookings are within half an hour on the same day. |
| SuffixResort.SortedRest | fringe.rb:102 | The re-sort of the suffix computed from the objects' own counters is the value-level corrected re-sort, and leaves every show's state unchanged. |
| SuffixResort.ScheduleRemaining | fringe.rb:79-105 | The corrected imperative scheduler computes exactly the corrected value-level run. |
| SuffixResort.ScheduleAll | fringe.rb:128 | Started at 0 on untouched, distinct shows, a true result means every show is booked once without clashes. |
| Findings.WholeResortSkipsAShow | fringe.rb:102 | For the three-show catalog below, the as-written run returns true although show B is never attended, so the shows are not timetabled. |

## Left out

- Input and output are not modelled: reading `shows.txt` (fringe.rb:111-112) and printing (fringe.rb:50-58, 131-134). `print_showtimes` is output only.
- Splitting a CSV line (fringe.rb:114) is not modelled. `Catalog.Record` is an already-split line, and a line with missing fields, where the source fails, is not represented.
- Times are whole minutes since midnight, not the source's floating-point hours (fringe.rb:116-117). The window `abs <= 0.5` becomes `-30 <= difference <= 30`. Float rounding at exactly 30 minutes apart is not modelled. For some pairs the double-precision difference is exactly 0.5 (10:20 against 10:50) and Ruby agrees with the model; for others it is slightly larger (15:32 against 16:02 gives 0.5000000000000018), so Ruby leaves the later showtime open where the model closes it.
- Ordering.SortBy: Ruby's `sort` with a comparator that never reports a tie leaves the order of equal counters unspecified. The model uses one deterministic stable order and promises only a permutation with non-decreasing counters. Consequences that depend on a particular tie order are therefore not modelled.
- Catalog.ScheduleFestival requires at least one record. On an empty file `schedule[0]` is nil and the source fails with an exception.
- Catalog.ScheduleFestival: the source ignores the returned `success` and prints the array in its pre-recursion order, because the recursion re-binds only its own local `schedule`. The model returns the same array and the boolean, without the printing.
- The object footprint `fp` of the scheduler methods is ghost: it frames what may change and has no counterpart in the source.
- The recursion depth (one call per show) and Ruby's stack limit are not modelled.

## Findings

| source | as written | input that shows it | evidently intended | confidence | as-written member | corrected member |
|---|---|---|---|---|---|---|
| fringe.rb:102 | After each step the whole array is re-sorted by counter, already-scheduled shows included. A scheduled show can move behind the index and be scheduled again, while a show it displaced is never reached, and the run still returns true. | A: Fri 10:00, Fri 20:00. B: Fri 10:00, Fri 10:15, Sat 10:00. C: Sun 10:00, 12:00, 14:00. Initial order A, B, C. A takes Fri 10:00, which closes B's Friday showtimes (B: 1 left, A: 2). The re-sort gives B, A, C; A is scheduled again at index 1 and C at index 2; the result is true with B unattended. | Re-sort only the shows not yet scheduled, so that `true` means every show has exactly one attended showtime and no two attended showtimes clash. | not executed | Findings.WholeResortSkipsAShow | SuffixResort.ResortRestSchedulesAll |

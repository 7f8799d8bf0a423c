# sybau time reconciliation, modelled in Dafny

The program reports the current UTC date and time. It asks three remote time
sources (A, B and C, in a fixed order) and reconciles their answers. When they
are missing or disagree, it falls back to a software clock that was seeded from
the host time and ticks once per second in the background.

This project models the two parts of `src/main.rs` that hold logic:

- `SoftClock` and its `tick` (module `Clock`, file `clock.dfy`). A reading holds
  `sec`, `min`, `hour`, `day` and `month` as `u8`, and `year` as `u16`. These
  fixed-width types are the newtypes of `ints.dfy`, so every `+ 1` is checked not
  to overflow. The tick is written twice. `Clock.Next` is a function on readings,
  used by the lemmas. `Clock.SoftClock.Tick` is a class method that updates the
  six fields in place, as the source does, and is proved equal to `Next`. The
  reference that both are specified against is `Clock.Seconds`: the reading read
  as a mixed-radix number (60 s, 60 min, 24 h, 31 days, 12 months). Its key fact
  is that a tick adds exactly one to that number. Days roll over after 31 in
  every month: there is no month-length or leap-year rule, and the model proves
  that 30 February is reachable.
- The deviation checks and the decision block of `get_date_time` (modules
  `Deviation` and `Reconciler`). `Reconciler.Reconcile` takes the three optional
  samples `(day, month, year, hour, minute)` and a snapshot of the software
  clock. It returns the reported tuple, plus a flag saying which branch produced
  it. The source shows only one of these branches, the fallback, through its
  printed notice.

The model follows the code as written, including two behaviours that differ
from a reading of the algorithm as "average only samples that agree on date and
hour":

- The pairwise step (lines 163-164) sits outside the test that date and hour
  agree (lines 152-161). So it runs whenever the sequential step has not
  returned, including when the samples disagree on date or hour. In that case
  the code, and so the model, return a reconciled time rather than the fallback (`Reconciler.PairStepAverages`,
  `Reconciler.PairBCReportsDateOfA`).
- The pairwise step always reports A's day, month, year and hour, even when the
  winning pair is B-C.

The source's standard-library sort of three values (line 119) is modelled as
three compare-exchanges on a three-element array. Only its result, a sorted
rearrangement, matters.

## Model

| member | source | states |
|---|---|---|
| `Clock.Next` | src/main.rs:32-54 | From an in-range reading, a tick gives an in-range reading whose seconds count is exactly one more. No u8 or u16 step overflows. The only start that is excluded is 31/12 23:59:59 of year 65535, whose year increment would overflow. |
| `Clock.NextDefinedBelowMaxYear` | src/main.rs:46-48 | Any in-range reading with year below 65535 can be ticked without overflow. |
| `Clock.SoftClock.Tick` | src/main.rs:32-54 | The in-place update of the six fields leaves them in range. The new reading is exactly `Next` of the old one, one second later. |
| `Clock.SoftClock.constructor` | src/main.rs:20-30 | The clock holds the in-range seed it is given. The seed stands in for the host time. |
| `Clock.SecondsInjective` | src/main.rs:10-17 | Two in-range readings with the same seconds count are equal. So advancing the count determines the new state completely. |
| `Clock.Ticks` | src/main.rs:70-76 | n ticks from an in-range reading give an in-range reading exactly n seconds later. This is a snapshot of the background clock after n seconds. |
| `Clock.TicksCharacterized` | src/main.rs:32-54 | n ticks give the unique in-range reading whose count is n more. |
| `Clock.TicksAdd` | src/main.rs:72-76 | m ticks followed by n ticks equal m + n ticks. |
| `Clock.TickOnlySeconds` | src/main.rs:33-34 | Below 59 seconds, a tick increments `sec` and changes no other field. |
| `Clock.TickCarriesIntoMinute` | src/main.rs:33-37 | At 59 seconds and below 59 minutes, a tick resets `sec` to 0, increments `min`, and changes nothing else. |
| `Clock.SixtyTicksAdvanceMinute` | src/main.rs:33-37 | From a minute below 59, sixty ticks increase `min` by one. `sec`, hour, day, month and year are unchanged. |
| `Clock.DayOfTicksAdvancesDay` | src/main.rs:40-49 | 86400 ticks advance the reading by one day of the 31-day rule (`NextDay`). Time of day is unchanged. Day 31 goes to day 1 of the next month, and 31 December to 1 January of the next year. |
| `Clock.MidnightRollover` | src/main.rs:40-49 | At 23:59:59 a tick goes to 00:00:00 of the next day. After day 31 this is day 1 and month + 1 for every month. After 31/12 it is 1/1 and year + 1. |
| `Clock.ThirtiethOfFebruaryReachable` | src/main.rs:42-44 | 29 February 23:59:59 ticks to 30 February: months have no length rule. |
| `Deviation.Sort3` | src/main.rs:118-119 | The result is ascending and is a rearrangement of the three inputs. |
| `Deviation.SortedUnique` | src/main.rs:119 | Two ascending rearrangements of the same three values are equal. So the sorted buffer is determined by the inputs. |
| `Deviation.SortInPlace` | src/main.rs:119 | Sorting the three-element buffer in place leaves it ascending and a rearrangement of its old contents. |
| `Deviation.CheckSequentialLowDeviation` | src/main.rs:117-121 | Building the buffer, sorting it in place and testing both gaps gives exactly `SequentialLowDeviation`. The two u8 subtractions cannot underflow, because they come after the sort. |
| `Deviation.SequentialLowDeviationIff` | src/main.rs:117-121 | The check holds if and only if both gaps of the ascending arrangement (middle minus smallest, largest minus middle) are at most 10. |
| `Deviation.SequentialLowDeviationSymmetric` | src/main.rs:117-121 | The result does not depend on the order of the arguments. |
| `Deviation.SequentialLowDeviationBoundary` | src/main.rs:120 | Gaps of exactly 10 are accepted. A gap of 11 is rejected. |
| `Deviation.Dist` | src/main.rs:124 | The i16 difference of two u8 values stays within the i16 range, so it cannot overflow. Being within 10 means lying in the interval from x - 10 to x + 10. The result is below 256. |
| `Deviation.DistSymmetric` | src/main.rs:124 | The distance does not depend on the order of the pair. |
| `Deviation.Mean2` | src/main.rs:125 | The rounded-down mean of a pair lies between the two values, so narrowing it back to u8 is exact. |
| `Deviation.PairDeviationAndAverage` | src/main.rs:123-133 | The result is None if and only if all three pairs differ by more than 10. |
| `Deviation.FirstClose` | src/main.rs:123-133 | This is a reference search. A found pair is the first close pair in the list: every earlier pair is far apart. None means that no pair in the list is close. |
| `Deviation.PairIsFirstClosePair` | src/main.rs:123-133 | The pairwise check returns the mean of the first close pair in the order A-B, A-C, B-C. |
| `Deviation.PairAverageBetween` | src/main.rs:124-129 | A returned mean lies between the smallest and the largest of the three minutes. |
| `Deviation.PairAverageExamples` | src/main.rs:123-132 | (5, 50, 8) gives 6 through pair A-C. A difference of 10 is close and 11 is not. |
| `Reconciler.Mean3` | src/main.rs:158 | The u16 sum of three minutes divided by 3 is the rounded-down mean. |
| `Reconciler.Reconcile` | src/main.rs:147-170 | The fallback is taken if and only if a sample is absent, or the sequential step does not fire and no pair is close. The fallback reports the snapshot's (day, month, year, hour, min). Every other report carries A's day, month, year and hour. |
| `Reconciler.AbsentSampleFallsBack` | src/main.rs:147-170 | Any absent sample gives the fallback projection of the snapshot. |
| `Reconciler.AllEqualReportsA` | src/main.rs:148-149 | Three identical samples are reported unchanged. |
| `Reconciler.SequentialStepAverages` | src/main.rs:152-159 | Suppose date and hour agree and the sequential check passes. The report is A's date and hour, with minute floor((a + b + c) / 3). |
| `Reconciler.PairStepAverages` | src/main.rs:163-164 | Suppose the sequential step does not fire and a pair is close. The report is A's date and hour with the pair's mean, even when dates or hours disagree. |
| `Reconciler.NoAgreementFallsBack` | src/main.rs:157-170 | Suppose all samples are present but neither step fires. The report is the fallback projection. |
| `Reconciler.ReconciledMinuteWithinSamples` | src/main.rs:152-165 | A reconciled minute lies between the smallest and largest sample minute. |
| `Reconciler.FallbackSnapshotInRange` | src/main.rs:168-170 | A fallback taken from a clock that was seeded in range and then ticked has an in-range date and time. |
| `Reconciler.ExactMatchExample` | src/main.rs:148-149 | (1, 1, 2024, 10, 30) from all three sources is reported exactly. |
| `Reconciler.SequentialExample` | src/main.rs:152-159 | Minutes 20, 25 and 28 on a common date and hour give minute 24. |
| `Reconciler.PairExample` | src/main.rs:163-164 | Minutes 5, 50 and 8 give minute 6 through the A-C pair. |
| `Reconciler.PairBCReportsDateOfA` | src/main.rs:163-164 | When only B-C is close, the report carries A's date and hour with the B-C mean. |
| `Reconciler.PairOrderMatters` | src/main.rs:124-129 | When both A-B and A-C are close, A-B wins. Swapping B and C changes the report. |

## Left out

- `SoftClock::from_system_time` (lines 20-30) reads the host clock. The model takes an arbitrary in-range seed instead.
- `ClockHandle::start`, `is_ready` and `get_time` (lines 63-88) are a background thread, a mutex, an atomic flag and a one-second sleep: concurrency and real time. A snapshot is modelled as `Ticks(seed, n)` for some n.
- The readiness busy-wait in `get_date_time` (lines 139-141) is left out: it is timing and concurrency.
- `fetch_time_from_url` (lines 98-113) uses HTTP, JSON decoding and the RFC 3339 timestamp parser. Its three results are arbitrary `Option<Sample>` inputs of `Reconcile`.
- `main` and the printed fallback notice and result line (lines 169, 173-181) are output only. The notice is represented by the `Fallback` path flag.
- Clock.Next: requires an in-range reading. The source never creates an out-of-range one, because it seeds from the host clock. Its type would also admit field values such as `sec` = 255, whose increment overflows.
- Clock.SoftClock.Tick: requires an in-range reading, for the same reason as `Clock.Next`.

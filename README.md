# Cartoland hourly scheduler and birthday index, in Dafny

This project models the core of Cartoland's `TimerHandle` and the validation in
`BirthdayCommand`:

- **Calendar codec** (module `Calendar`, `calendar.dfy`). `getDaysReachMonth` and
  `getDateOfYear` map a (month, day) pair to a day of year on a fixed 366-day
  calendar in which February always has 29 days. The decode loop of
  `getBirthday` maps a day of year back to (month, day). The table is checked
  against an independent definition, `DaysBefore`, which sums month lengths.
  The loop is checked against a second reference, `MonthAndDay`, which scans
  the months downwards. Round trips are proved in both directions.
- **Birthday index** (module `Birthdays`, class `BirthdayIndex`). It holds
  `birthdayMap` (user to day of year) and the 366 buckets `birthdayArray`.
  `Valid()` is the two-way consistency between them. The start-up rebuild
  establishes it, and `setBirthday` and `deleteBirthday` preserve it.
  `BirthdaysOn` is the bucket lookup done by the midnight greeting.
- **Timer registry and tick** (module `Timer`, class `Scheduler`). It holds the
  24 hour buckets, the named events, the deferred-removal set, `nowHour` and
  `hoursFrom1970`. `Tick` is the body of the job the executor runs every hour. It advances both
  counters, drains the pending removals, and returns the set of actions fired.
  Then it runs the temporary-ban sweep `UnbanMembers`. Actions are opaque ids
  (`ActionId`), compared by identity as the Java `HashSet` compares
  `Runnable`s. The four start-up actions are constants.
  `HasScheduledEvent`, `ScheduledEventsNames` and `GetHoursFrom1970` read the
  state. The contracts of `RegisterScheduledEvent` and `UnregisterScheduledEvent` use `HasScheduledEvent`; the other two are accessors.
- **Birthday command** (module `BirthdayCommand`). `SetGuard` is the guard
  chain of the `set` subcommand, and `IsWrongDate` is its month-length check.
  `SetSubCommand`, `GetSubCommand` and `DeleteSubCommand` show how each
  subcommand uses the index.
- **Scenarios** (module `Scenarios`). These are call sequences whose results
  follow from the contracts alone: the full life of one birthday, a re-set
  that moves a user between buckets, and an event that fires, or stops firing
  once unregistered.

Some behaviour of the code is narrower than a general scheduler would be. The
model follows the code:

- `registerScheduledEvent` overwrites an existing name. It does not reject it,
  and the old action stays in its bucket.
- `unregisterScheduledEvent` has no check of its own for an unknown name: it
  queues `null`, and the next tick then throws on it and stops the timer.
  Here it requires the name to be present.
- The named events loaded at start-up are not put back into the hour buckets.
- The ban sweep removes an expired record even when its server is gone, and
  nothing retries.
- An action that throws is not isolated.
- `getDateOfYear` does not check the day, so (2, 31) gives day 62.

## Model

| member | source | states |
|---|---|---|
| `Calendar.ToShort` | src/main/java/cartoland/utilities/TimerHandle.java:141 | the `(short)` cast keeps values in -32768..32767 unchanged, always lands in that range, and differs from its input by a multiple of 65536 |
| `Calendar.DaysReachMonth` | src/main/java/cartoland/utilities/TimerHandle.java:144-162 | succeeds exactly for months 1..12, and then equals the sum of the lengths of the earlier months of a 29-day-February year; fails (the thrown exception) for every other month |
| `Calendar.DateOfYear` | src/main/java/cartoland/utilities/TimerHandle.java:139-142 | fails exactly when the month is outside 1..12; every valid date maps to days-before-month plus day, which lies in 1..366 |
| `Calendar.CalendarEndpoints` | src/main/java/cartoland/utilities/TimerHandle.java:129-142 | (1,1) is day 1, (2,29) is day 60, (12,31) is day 366, and the twelve months total 366 days |
| `Calendar.DaysBeforeIncreasing` | src/main/java/cartoland/utilities/TimerHandle.java:146-161 | the days-before-month table is strictly increasing |
| `Calendar.MonthOfUnique` | src/main/java/cartoland/utilities/TimerHandle.java:276-283 | a day of year lies between the start of exactly one month and the start of the next, so the month found by any scan is that one |
| `Calendar.DecodeEncode` | src/main/java/cartoland/utilities/TimerHandle.java:261-283 | decoding the day of year of any valid date, 31st-of-month and December dates included, gives the same (month, day) back |
| `Calendar.EncodeDecode` | src/main/java/cartoland/utilities/TimerHandle.java:271-283 | every day of year 1..366 decodes to a valid date whose day of year is that day |
| `Calendar.DecodeDayOfYear` | src/main/java/cartoland/utilities/TimerHandle.java:271-283 | the ascending scan over months 2..12 returns the same month and day as the reference downward scan; for 1..366 the result is a valid date that encodes back to the input |
| `Birthdays.BirthdayIndex.constructor` | src/main/java/cartoland/utilities/TimerHandle.java:54-58 | after the start-up rebuild the map is the loaded map and every bucket holds exactly the users recorded on its day |
| `Birthdays.BirthdayIndex.BucketMembership` | src/main/java/cartoland/utilities/TimerHandle.java:39-41 | under the index invariant, u is in bucket k-1 exactly when the map records day k for u |
| `Birthdays.BirthdayIndex.SetBirthday` | src/main/java/cartoland/utilities/TimerHandle.java:256-264 | keeps the index consistent; on a valid date the map gains or updates only this user's entry, set to that date's day of year, and the user moves to that day's bucket; repeating the same call changes nothing; a date the codec rejects changes nothing (corrected order, see Findings) |
| `Birthdays.BirthdayIndex.GetBirthday` | src/main/java/cartoland/utilities/TimerHandle.java:266-284 | returns null exactly when the user has no entry; otherwise returns a valid date whose day of year is the recorded day |
| `Birthdays.BirthdayIndex.DeleteBirthday` | src/main/java/cartoland/utilities/TimerHandle.java:286-291 | keeps the index consistent, removes exactly this user's entry, leaves the user in no bucket, and changes no bucket when the user had no entry |
| `Birthdays.BirthdayIndex.BirthdaysOn` | src/main/java/cartoland/utilities/TimerHandle.java:66-71 | the bucket read for today's date holds exactly the users whose recorded day is today's day of year |
| `Birthdays.SetBirthdayAsWritten` | src/main/java/cartoland/utilities/TimerHandle.java:256-264 | the code as written: it throws exactly when the codec rejects the date or the day falls outside the buckets; the map is then unchanged while a previously recorded user is in no bucket; when it does not throw, a consistent index stays consistent and the map records the new day for this user only |
| `Birthdays.SetBirthdayAsWrittenCorrupts` | src/main/java/cartoland/utilities/TimerHandle.java:258-261 | from a consistent index, re-setting a user to month 13 throws and leaves the user recorded in the map but in no bucket |
| `Timer.UnbanMembers` | src/main/java/cartoland/utilities/TimerHandle.java:179-198 | keeps exactly the records whose expiry hour is still ahead, with their multiplicity; unbans every other record whose server still exists; a record expiring at the current hour is removed whether or not its server exists |
| `Timer.Scheduler.constructor` | src/main/java/cartoland/utilities/TimerHandle.java:60-97 | 24 buckets that hold only the default actions at hours 0, 3 and 12; the loaded named events; nothing pending; the hour of day and the hour count as read at start-up, which is also the floor the hour count never goes below |
| `Timer.Scheduler.GetHoursFrom1970` | src/main/java/cartoland/utilities/TimerHandle.java:124-127 | the hour count never falls below the count read at start-up: the invariant keeps it there, `Tick` adds exactly one and no other operation changes it |
| `Timer.Scheduler.HasScheduledEvent` | src/main/java/cartoland/utilities/TimerHandle.java:211-214 | true exactly when a named event is recorded under the name; a recorded event always has an hour in 0..23 |
| `Timer.Scheduler.ScheduledEventsNames` | src/main/java/cartoland/utilities/TimerHandle.java:216-219 | holds exactly the names for which `HasScheduledEvent` is true, and every listed name's event has an hour in 0..23, so unregistering it never makes the tick index outside the buckets |
| `Timer.Scheduler.RegisterTimerEvent` | src/main/java/cartoland/utilities/TimerHandle.java:200-203 | adds the action to the bucket of its hour and changes no other bucket (set semantics, so registering twice adds nothing); an hour outside 0..23 throws and changes nothing |
| `Timer.Scheduler.RegisterScheduledEvent` | src/main/java/cartoland/utilities/TimerHandle.java:205-209 | registers the event and records it under the name, overwriting any previous event of that name; pending removals and counters are unchanged |
| `Timer.Scheduler.UnregisterTimerEvent` | src/main/java/cartoland/utilities/TimerHandle.java:221-224 | only adds the event to the pending removals; no bucket changes |
| `Timer.Scheduler.UnregisterScheduledEvent` | src/main/java/cartoland/utilities/TimerHandle.java:211-229 | the name is gone at once, so `HasScheduledEvent` turns false; the event joins the pending removals; no bucket changes |
| `Timer.Scheduler.Tick` | src/main/java/cartoland/utilities/TimerHandle.java:104-122 | the hour count grows by 1, the hour of day becomes (hour + 1) mod 24, so 23 wraps to 0; each bucket loses exactly the actions pending for its hour, and nothing stays pending; the fired set is the bucket of the new hour after those removals; named events are unchanged; the ban sweep runs against the new hour count |
| `BirthdayCommand.IsWrongDate` | src/main/java/cartoland/commands/BirthdayCommand.java:102-112 | for months 1..12 and dates up to 31 it is true exactly when the date exceeds the month's length in a 29-day-February year; it can only be true for months 2, 4, 6, 9 and 11 |
| `BirthdayCommand.SetGuard` | src/main/java/cartoland/commands/BirthdayCommand.java:64-93 | accepts exactly the pairs that are valid dates of the leap-year calendar (so February 29 always); rejects a missing option, then a month outside 1..12, then a date outside 1..31, each with its own reply |
| `BirthdayCommand.GuardedSetIsSafe` | src/main/java/cartoland/commands/BirthdayCommand.java:74-99 | on every pair the guards accept, `setBirthday` as written does not throw, keeps the index consistent and stores the date's day of year, the same result as the corrected `SetBirthday` |
| `BirthdayCommand.SetSubCommand` | src/main/java/cartoland/commands/BirthdayCommand.java:62-100 | the index changes only when every guard passes, and then the caller's entry becomes the day of year of the given date; otherwise the map and all buckets are unchanged |
| `BirthdayCommand.GetSubCommand` | src/main/java/cartoland/commands/BirthdayCommand.java:25-43 | the target defaults to the caller; "not set" is replied exactly when the target has no entry, otherwise a valid date whose day of year is the recorded day |
| `BirthdayCommand.DeleteSubCommand` | src/main/java/cartoland/commands/BirthdayCommand.java:44-49 | deletes the caller's entry unconditionally; afterwards the caller is in no bucket |
| `Scenarios.BirthdayLifecycle` | src/main/java/cartoland/utilities/TimerHandle.java:256-291 | from an empty index, user 42 set on (2, 29) reads back as (2, 29) and is the only user on day 60; after deletion day 60 is empty and user 42 reads back as not set |
| `Scenarios.ResetMovesRecord` | src/main/java/cartoland/utilities/TimerHandle.java:256-264 | after re-setting a user to a different date, the user is no longer on the old day and is on the new one |
| `Scenarios.RegisteredEventFires` | src/main/java/cartoland/utilities/TimerHandle.java:105-119 | an action registered for the coming hour, with no removal pending, fires at the next tick |
| `Scenarios.UnregisteredEventStops` | src/main/java/cartoland/utilities/TimerHandle.java:111-119 | an action unregistered before a tick is gone from its bucket after that tick and does not fire even when the tick reaches its hour |

## Left out

- Messages, channel and guild lookups, `retrieveUserById` and `unban` are Discord client calls. The model returns the fired action ids and the records to unban instead. Replies and localised text in `BirthdayCommand` are left out for the same reason.
- The executor, `scheduleAtFixedRate`, `stopTimer` and `secondsUntil` are thread and clock scheduling. One tick is one call of `Scheduler.Tick`.
- `LocalTime.now`, `LocalDate.now`, `System.currentTimeMillis`, `getTimeString` and `getDateString` read the wall clock. The starting hour, the starting hour count and today's date are parameters.
- Loading and saving the two maps goes through `FileHandle`, which is file I/O. The loaded maps are constructor arguments.
- The bodies of the default actions (log flush, greeting messages, the 3 a.m. images, the forum sweep) are left out. They are ids. The greeting's one use of the index is `BirthdayIndex.BirthdaysOn`.
- Actions cannot call back into the scheduler during `Tick`, because they are opaque ids. In the code an action that registers an event into the bucket being iterated can throw a `ConcurrentModificationException` (the iterator throws on its next step after a new element is added). Unregistering from inside an action is safe in the code, because it only touches the pending set, and the model's deferred removal covers it.
- Exceptions raised inside an action are not modelled. In the code such an exception aborts the rest of the tick and stops all later ticks.
- `AdminCommand.tempBanSet` belongs to another class. It is passed to `UnbanMembers` and `Tick` as a multiset, and the updated multiset is returned, so the update is not in place.
- Iteration order of the Java hash sets is not modelled. Loops take an arbitrary element, and every result is independent of the order.
- `hoursFrom1970` and user ids are unbounded integers. Overflow of a Java `long` is not modelled.
- `ScheduledEventsNames` returns the key set as a value. The code returns a live view of the map's keys.
- The `short[]` result of `getBirthday` and the `int[]` read by the `get` subcommand disagree in type. Both are modelled as a pair of integers.
- Calendar.DecodeDayOfYear: the `(short)` casts on its results are not written out. For every `short` input both results already fit in a `short`.
- Timer.Scheduler.UnregisterTimerEvent: requires an hour in 0..23. In the code a bad hour would throw at the next tick's bucket access and stop the timer.
- Timer.Scheduler.UnregisterScheduledEvent: requires the name to be registered. In the code an unknown name queues `null`, which makes the next tick throw.
- Birthdays.BirthdayIndex.SetBirthday: returns `false` and changes nothing where the code throws. It follows the corrected order described under Findings.

## Findings

| source | as written | input that shows it | evidently intended | confidence | as-written member | corrected member |
|---|---|---|---|---|---|---|
| src/main/java/cartoland/utilities/TimerHandle.java:258-262 | `setBirthday` removes the user from the old bucket before `getDateOfYear` runs, so a month outside 1..12, or a day of year outside 1..366, throws after the removal. The map keeps the old day while no bucket holds the user. | user 7 recorded on day 1, then `setBirthday(7, 13, 1)` | compute and check the day of year first, so that a rejected date leaves both structures unchanged | not executed; `BirthdayCommand` validates every date first, so only a caller that skips that validation reaches it | `Birthdays.SetBirthdayAsWritten`, `Birthdays.SetBirthdayAsWrittenCorrupts` | `Birthdays.BirthdayIndex.SetBirthday` |

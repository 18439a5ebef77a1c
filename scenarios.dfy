/** Sequences of calls on the index and the scheduler, with what a caller can
    conclude from the contracts alone. */
module Scenarios {
  import opened Wrappers
  import opened Calendar
  import opened Birthdays
  import opened Timer

  /** From an empty index: user 42 set to February 29 reads back as (2, 29) and is
      the only user greeted on day 60; after deletion nobody is, and the user
      reads back as not set. */
  method BirthdayLifecycle()
    returns (got: Option<(int, int)>, today: set<UserId>, afterDelete: set<UserId>, gotAfterDelete: Option<(int, int)>)
    ensures got == Some((2, 29))
    ensures today == {42}
    ensures afterDelete == {}
    ensures gotAfterDelete == None
  {
    var index := new BirthdayIndex(map[]);
    var stored := index.SetBirthday(42, 2, 29);
    got := index.GetBirthday(42);
    DecodeEncode(2, 29);
    today := index.BirthdaysOn(2, 29);
    assert forall u :: u in today <==> u == 42;
    index.DeleteBirthday(42);
    afterDelete := index.BirthdaysOn(2, 29);
    assert forall u :: u !in afterDelete;
    gotAfterDelete := index.GetBirthday(42);
  }

  /** Setting a new date for a user moves the user out of the old day's bucket
      and into the new one's (the days differ because decoding inverts encoding). */
  method ResetMovesRecord(index: BirthdayIndex, u: UserId, month1: int, date1: int, month2: int, date2: int)
    returns (onFirst: set<UserId>, onSecond: set<UserId>)
    requires index.Valid()
    requires ValidDate(month1, date1) && ValidDate(month2, date2)
    requires (month1, date1) != (month2, date2)
    modifies index, index.birthdayArray
    ensures u !in onFirst && u in onSecond
  {
    DecodeEncode(month1, date1);
    DecodeEncode(month2, date2);
    var first := index.SetBirthday(u, month1, date1);
    var second := index.SetBirthday(u, month2, date2);
    onFirst := index.BirthdaysOn(month1, date1);
    onSecond := index.BirthdaysOn(month2, date2);
  }

  /** An event registered for the coming hour, with no removal pending, fires
      at the next tick. */
  method RegisteredEventFires(s: Scheduler, e: TimerEvent) returns (fired: set<ActionId>)
    requires s.Valid()
    requires e.hour == (s.nowHour + 1) % HOURS
    requires e !in s.toBeRemoved
    modifies s, s.hourRunFunctions
    ensures e.action in fired
  {
    var ok := s.RegisterTimerEvent(e);
    var remaining, unbanned;
    fired, remaining, unbanned := s.Tick(multiset{}, {});
  }

  /** An event unregistered before a tick no longer fires at that tick, even
      when the tick reaches its hour. */
  method UnregisteredEventStops(s: Scheduler, e: TimerEvent) returns (fired: set<ActionId>)
    requires s.Valid()
    requires ValidHour(e.hour)
    modifies s, s.hourRunFunctions
    ensures e.action !in s.hourRunFunctions[e.hour]
    ensures e.hour == s.nowHour ==> e.action !in fired
  {
    s.UnregisterTimerEvent(e);
    var remaining, unbanned;
    fired, remaining, unbanned := s.Tick(multiset{}, {});
  }
}

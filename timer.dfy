/** The hourly scheduler of `TimerHandle`: 24 hour buckets of actions, the named
    (persisted) events, the deferred-removal set, the two hour counters, and the
    temporary-ban sweep run at the end of every tick. */
module Timer {

  const HOURS := 24

  /** A registered `Runnable`, compared by identity, as the buckets compare it. */
  type ActionId = nat

  /** The four actions registered at start-up. */
  const FLUSH_LOG: ActionId := 0
  const BIRTHDAY_GREETING: ActionId := 1
  const THREE_AM_MESSAGE: ActionId := 2
  const IDLE_QUESTION_POSTS: ActionId := 3

  /** `TimerEvent(hour, function)`: a record, so equal hour and equal action make
      equal events. */
  datatype TimerEvent = TimerEvent(hour: int, action: ActionId)

  /** One entry of the temporary-ban set: (user id, server id, expiry as an hour
      count since 1970). */
  datatype BanRecord = BanRecord(userId: int, serverId: int, bannedTime: int)

  predicate ValidHour(hour: int) {
    0 <= hour < HOURS
  }

  /** The bucket contents registered at start-up. */
  function DefaultBucket(hour: int): set<ActionId> {
    if hour == 0 then {FLUSH_LOG, BIRTHDAY_GREETING}
    else if hour == 3 then {THREE_AM_MESSAGE}
    else if hour == 12 then {IDLE_QUESTION_POSTS}
    else {}
  }

  /** The actions that pending removals take out of the bucket of `hour`. */
  function RemovedAt(pending: set<TimerEvent>, hour: int): set<ActionId> {
    set e | e in pending && e.hour == hour :: e.action
  }

  lemma RemovedAtAdd(done: set<TimerEvent>, e: TimerEvent, hour: int)
    ensures RemovedAt(done + {e}, hour) ==
              RemovedAt(done, hour) + (if e.hour == hour then {e.action} else {})
  {
  }

  /** `unbanMembers`: every record whose expiry hour has been reached leaves the
      set, whether or not its server still exists; the released records whose
      server exists are unbanned. Records are counted with multiplicity, since
      two `long[]` entries with equal values are distinct set members. */
  method UnbanMembers(tempBanSet: multiset<BanRecord>, hoursFrom1970: int, guilds: set<int>)
    returns (remaining: multiset<BanRecord>, unbanned: multiset<BanRecord>)
    ensures forall r :: remaining[r] == if hoursFrom1970 < r.bannedTime then tempBanSet[r] else 0
    ensures forall r :: unbanned[r] ==
              if hoursFrom1970 < r.bannedTime || r.serverId !in guilds then 0 else tempBanSet[r]
  {
    remaining, unbanned := tempBanSet, multiset{};
    if |tempBanSet| == 0 {
      return;
    }
    var bannedMembers := tempBanSet;
    while bannedMembers != multiset{}
      invariant bannedMembers <= tempBanSet
      invariant forall r :: remaining[r] ==
                  if hoursFrom1970 < r.bannedTime then tempBanSet[r] else bannedMembers[r]
      invariant forall r :: unbanned[r] ==
                  if hoursFrom1970 < r.bannedTime || r.serverId !in guilds then 0
                  else tempBanSet[r] - bannedMembers[r]
      decreases |bannedMembers|
    {
      var bannedMember :| bannedMember in bannedMembers;
      bannedMembers := bannedMembers - multiset{bannedMember};
      if hoursFrom1970 < bannedMember.bannedTime {
        continue;
      }
      if bannedMember.serverId in guilds {
        unbanned := unbanned + multiset{bannedMember};
      }
      remaining := remaining - multiset{bannedMember};
    }
  }

  class Scheduler {
    const hourRunFunctions: array<set<ActionId>>
    var scheduledEvents: map<string, TimerEvent>
    var toBeRemoved: set<TimerEvent>
    var nowHour: int
    var hoursFrom1970: int
    /** The hour count read at start-up; the counter never falls below it. */
    ghost const startCount: int

    /** 24 buckets, a current hour of day, an hour count no smaller than at
        start-up, and only valid hours in the pending removals and in the named
        events (so that draining never indexes outside the buckets). */
    ghost predicate Valid()
      reads this
    {
      && hourRunFunctions.Length == HOURS
      && ValidHour(nowHour)
      && startCount <= hoursFrom1970
      && (forall e :: e in toBeRemoved ==> ValidHour(e.hour))
      && (forall name :: name in scheduledEvents ==> ValidHour(scheduledEvents[name].hour))
    }

    /** Start-up: 24 empty buckets, then the default actions (log flush and the
        birthday greeting at 0, the 3 a.m. message at 3, the question-forum sweep at
        12). The named events are the persisted map, which only ever received
        events of valid hours; they are not re-registered into the buckets. The
        hour of day and the hour count are read from the clock by the caller. */
    constructor (startHour: int, startHoursFrom1970: int, loadedEvents: map<string, TimerEvent>)
      requires ValidHour(startHour)
      requires forall name :: name in loadedEvents ==> ValidHour(loadedEvents[name].hour)
      ensures Valid() && fresh(hourRunFunctions)
      ensures forall h :: 0 <= h < HOURS ==> hourRunFunctions[h] == DefaultBucket(h)
      ensures scheduledEvents == loadedEvents && toBeRemoved == {}
      ensures nowHour == startHour && hoursFrom1970 == startHoursFrom1970 && startCount == startHoursFrom1970
    {
      var buckets := new set<ActionId>[HOURS];
      for i := 0 to HOURS
        invariant forall j :: 0 <= j < i ==> buckets[j] == {}
      {
        buckets[i] := {};
      }
      buckets[0] := buckets[0] + {FLUSH_LOG};
      buckets[0] := buckets[0] + {BIRTHDAY_GREETING};
      buckets[3] := buckets[3] + {THREE_AM_MESSAGE};
      buckets[12] := buckets[12] + {IDLE_QUESTION_POSTS};
      hourRunFunctions := buckets;
      scheduledEvents := loadedEvents;
      toBeRemoved := {};
      nowHour := startHour;
      hoursFrom1970 := startHoursFrom1970;
      startCount := startHoursFrom1970;
    }

    /** `getHoursFrom1970`: the hour count, which only grows (every tick adds
        one, nothing else changes it), so it is never below the count read at
        start-up. */
    function GetHoursFrom1970(): (r: int)
      requires Valid()
      reads this
      ensures r >= startCount
    {
      hoursFrom1970
    }

    /** `hasScheduledEvent`: whether a named event is recorded; a recorded event
        always has an hour of day, so unregistering it can never index outside
        the buckets. */
    function HasScheduledEvent(name: string): (r: bool)
      requires Valid()
      reads this
      ensures r <==> name in scheduledEvents
      ensures r ==> ValidHour(scheduledEvents[name].hour)
    {
      name in scheduledEvents
    }

    /** `scheduledEventsNames`: exactly the names for which `HasScheduledEvent`
        holds, and each listed name's event has an hour in 0..23, so the
        tick that later removes it indexes inside the buckets. */
    function ScheduledEventsNames(): (r: set<string>)
      requires Valid()
      reads this
      ensures forall name :: name in r <==> HasScheduledEvent(name)
      ensures forall name :: name in r ==> name in scheduledEvents && ValidHour(scheduledEvents[name].hour)
    {
      scheduledEvents.Keys
    }

    /** `registerTimerEvent`: the action joins the bucket of its hour (a set, so
        registering it twice adds nothing). An hour outside 0..23 makes the bucket
        access throw before anything changes. */
    method RegisterTimerEvent(timerEvent: TimerEvent) returns (ok: bool)
      requires Valid()
      modifies hourRunFunctions
      ensures Valid()
      ensures ok <==> ValidHour(timerEvent.hour)
      ensures forall h :: 0 <= h < HOURS ==>
                hourRunFunctions[h] == (if ok && h == timerEvent.hour
                                        then old(hourRunFunctions[h]) + {timerEvent.action}
                                        else old(hourRunFunctions[h]))
    {
      if !ValidHour(timerEvent.hour) {
        return false;
      }
      hourRunFunctions[timerEvent.hour] := hourRunFunctions[timerEvent.hour] + {timerEvent.action};
      ok := true;
    }

    /** `registerScheduledEvent`: registers the event and records it under `name`,
        overwriting any event already recorded there (whose action stays in its
        bucket). */
    method RegisterScheduledEvent(name: string, timerEvent: TimerEvent) returns (ok: bool)
      requires Valid()
      modifies this, hourRunFunctions
      ensures Valid()
      ensures ok <==> ValidHour(timerEvent.hour)
      ensures forall h :: 0 <= h < HOURS ==>
                hourRunFunctions[h] == (if ok && h == timerEvent.hour
                                        then old(hourRunFunctions[h]) + {timerEvent.action}
                                        else old(hourRunFunctions[h]))
      ensures scheduledEvents == if ok then old(scheduledEvents)[name := timerEvent] else old(scheduledEvents)
      ensures ok ==> HasScheduledEvent(name)
      ensures toBeRemoved == old(toBeRemoved)
      ensures nowHour == old(nowHour) && hoursFrom1970 == old(hoursFrom1970)
    {
      ok := RegisterTimerEvent(timerEvent);
      if ok {
        scheduledEvents := scheduledEvents[name := timerEvent];
      }
    }

    /** `unregisterTimerEvent`: only records the event for removal at the next
        tick; the buckets are untouched until then. */
    method UnregisterTimerEvent(timerEvent: TimerEvent)
      requires Valid()
      requires ValidHour(timerEvent.hour)
      modifies this`toBeRemoved
      ensures Valid()
      ensures toBeRemoved == old(toBeRemoved) + {timerEvent}
    {
      toBeRemoved := toBeRemoved + {timerEvent};
    }

    /** `unregisterScheduledEvent`: the name is dropped at once, the event's
        removal from its bucket is deferred to the next tick. */
    method UnregisterScheduledEvent(name: string)
      requires Valid()
      requires HasScheduledEvent(name)
      modifies this`scheduledEvents, this`toBeRemoved
      ensures Valid()
      ensures !HasScheduledEvent(name)
      ensures scheduledEvents == old(scheduledEvents) - {name}
      ensures toBeRemoved == old(toBeRemoved) + {old(scheduledEvents)[name]}
    {
      var timerEvent := scheduledEvents[name];
      scheduledEvents := scheduledEvents - {name};
      UnregisterTimerEvent(timerEvent);
    }

    /** One hourly tick: both counters advance (23 wraps to 0), every pending
        removal is applied to its bucket and the pending set is emptied, then the
        bucket of the new hour fires, each action once; last, the temporary-ban
        sweep runs against the new hour count. */
    method Tick(tempBanSet: multiset<BanRecord>, guilds: set<int>)
      returns (fired: set<ActionId>, remainingBans: multiset<BanRecord>, unbanned: multiset<BanRecord>)
      requires Valid()
      modifies this, hourRunFunctions
      ensures Valid()
      ensures hoursFrom1970 == old(hoursFrom1970) + 1
      ensures nowHour == (old(nowHour) + 1) % HOURS
      ensures toBeRemoved == {}
      ensures forall h :: 0 <= h < HOURS ==>
                hourRunFunctions[h] == old(hourRunFunctions[h]) - RemovedAt(old(toBeRemoved), h)
      ensures fired == hourRunFunctions[nowHour]
      ensures scheduledEvents == old(scheduledEvents)
      ensures forall r :: remainingBans[r] == if hoursFrom1970 < r.bannedTime then tempBanSet[r] else 0
      ensures forall r :: unbanned[r] ==
                if hoursFrom1970 < r.bannedTime || r.serverId !in guilds then 0 else tempBanSet[r]
    {
      hoursFrom1970 := hoursFrom1970 + 1;
      nowHour := nowHour + 1;
      if nowHour == HOURS {
        nowHour := 0;
      }

      if toBeRemoved != {} {
        var pending := toBeRemoved;
        while pending != {}
          modifies hourRunFunctions
          invariant pending <= toBeRemoved
          invariant forall h :: 0 <= h < HOURS ==>
                      hourRunFunctions[h] == old(hourRunFunctions[h]) - RemovedAt(toBeRemoved - pending, h)
          decreases pending
        {
          var removeTimerEvent :| removeTimerEvent in pending;
          ghost var done := toBeRemoved - pending;
          hourRunFunctions[removeTimerEvent.hour] :=
            hourRunFunctions[removeTimerEvent.hour] - {removeTimerEvent.action};
          pending := pending - {removeTimerEvent};
          assert toBeRemoved - pending == done + {removeTimerEvent};
          forall h | 0 <= h < HOURS
            ensures hourRunFunctions[h] == old(hourRunFunctions[h]) - RemovedAt(toBeRemoved - pending, h)
          {
            RemovedAtAdd(done, removeTimerEvent, h);
          }
        }
        toBeRemoved := {};
      }

      fired := hourRunFunctions[nowHour];
      remainingBans, unbanned := UnbanMembers(tempBanSet, hoursFrom1970, guilds);
    }
  }
}

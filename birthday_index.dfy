/** The birthday index of `TimerHandle`: `birthdayMap` (user -> day of year) and
    `birthdayArray` (366 buckets of user ids, bucket k holding day k + 1). */
module Birthdays {
  import opened Wrappers
  import opened Calendar

  /** A Discord user id (a Java `long`, used only for equality). */
  type UserId = int

  /** A snapshot of the two structures, used to state `setBirthday` as written. */
  datatype IndexSnapshot = IndexSnapshot(birthdayMap: map<UserId, int>, birthdayArray: seq<set<UserId>>)

  /** The index invariant: every recorded user sits in the bucket of its day,
      and every bucket member is recorded on that day. */
  ghost predicate Consistent(s: IndexSnapshot) {
    && |s.birthdayArray| == DAYS
    && (forall u :: u in s.birthdayMap ==>
          1 <= s.birthdayMap[u] <= DAYS && u in s.birthdayArray[s.birthdayMap[u] - 1])
    && (forall k, u :: 0 <= k < DAYS && u in s.birthdayArray[k] ==>
          u in s.birthdayMap && s.birthdayMap[u] == k + 1)
  }

  class BirthdayIndex {
    var birthdayMap: map<UserId, int>
    const birthdayArray: array<set<UserId>>

    /** The two structures describe the same birthdays (see `Consistent`). */
    ghost predicate Valid()
      reads this, birthdayArray
    {
      Consistent(IndexSnapshot(birthdayMap, birthdayArray[..]))
    }

    /** Start-up: empty buckets, then every loaded (user, day) entry is added to
        the bucket of its day. The loaded map was written by `setBirthday`, so
        every day in it lies in 1..366. */
    constructor (loaded: map<UserId, int>)
      requires forall u :: u in loaded ==> 1 <= loaded[u] <= DAYS
      ensures Valid() && fresh(birthdayArray)
      ensures birthdayMap == loaded
    {
      var buckets := new set<UserId>[DAYS];
      for i := 0 to DAYS
        invariant forall j :: 0 <= j < i ==> buckets[j] == {}
      {
        buckets[i] := {};
      }
      var entries := loaded.Keys;
      while entries != {}
        invariant entries <= loaded.Keys
        invariant forall u :: u in loaded && u !in entries ==> u in buckets[loaded[u] - 1]
        invariant forall k, u :: 0 <= k < DAYS && u in buckets[k] ==>
                    u in loaded && u !in entries && loaded[u] == k + 1
        decreases entries
      {
        // a witness for the `:|` below: a non-empty set has a member
        if forall v :: v !in entries { assert false; }
        var u :| u in entries;
        buckets[loaded[u] - 1] := buckets[loaded[u] - 1] + {u};
        entries := entries - {u};
      }
      birthdayMap := loaded;
      birthdayArray := buckets;
    }

    /** The index invariant in both directions: u is in bucket k - 1 exactly when
        its recorded day is k. */
    lemma BucketMembership(u: UserId, k: int)
      requires Valid()
      requires 1 <= k <= DAYS
      ensures u in birthdayArray[k - 1] <==> u in birthdayMap && birthdayMap[u] == k
    {
    }

    /** `setBirthday`, corrected so that the day is computed before anything is
        changed: a date that `getDateOfYear` rejects, or that falls outside the
        buckets, leaves the index untouched. Otherwise the user leaves its old
        bucket, joins the bucket of the new day, and the map records the day. */
    method SetBirthday(userID: UserId, month: int, date: int) returns (ok: bool)
      requires Valid()
      modifies this, birthdayArray
      ensures Valid()
      ensures ok <==> DateOfYear(month, date).Success? && 1 <= DateOfYear(month, date).value <= DAYS
      ensures ok ==> birthdayMap == old(birthdayMap)[userID := DateOfYear(month, date).value]
      ensures !ok ==> birthdayMap == old(birthdayMap)
      ensures !ok ==> forall k :: 0 <= k < DAYS ==> birthdayArray[k] == old(birthdayArray[k])
      ensures ValidDate(month, date) ==> ok && birthdayMap[userID] == DaysBefore(month) + date
      ensures ok && old(userID in birthdayMap && birthdayMap[userID] == DateOfYear(month, date).value) ==>
                birthdayMap == old(birthdayMap) &&
                forall k :: 0 <= k < DAYS ==> birthdayArray[k] == old(birthdayArray[k])
    {
      var dateOfYear := DateOfYear(month, date);
      if dateOfYear.Failure? || !(1 <= dateOfYear.value <= DAYS) {
        return false;
      }
      var day := dateOfYear.value;
      if userID in birthdayMap {
        var oldBirthday := birthdayMap[userID];
        birthdayArray[oldBirthday - 1] := birthdayArray[oldBirthday - 1] - {userID};
      }
      birthdayArray[day - 1] := birthdayArray[day - 1] + {userID};
      birthdayMap := birthdayMap[userID := day];
      ok := true;
    }

    /** `getBirthday`: null when no birthday is recorded, otherwise the recorded
        day decoded into the (month, day) that encodes to it. */
    method GetBirthday(userID: UserId) returns (r: Option<(int, int)>)
      requires Valid()
      ensures r.None? <==> userID !in birthdayMap
      ensures r.Some? ==> r.value == MonthAndDay(birthdayMap[userID])
      ensures r.Some? ==> ValidDate(r.value.0, r.value.1)
      ensures r.Some? ==> DateOfYear(r.value.0, r.value.1) == Success(birthdayMap[userID])
    {
      if userID !in birthdayMap {
        return None;
      }
      var month, date := DecodeDayOfYear(birthdayMap[userID]);
      return Some((month, date));
    }

    /** `deleteBirthday`: the user's entry leaves the map and its bucket; a user
        without an entry changes nothing. */
    method DeleteBirthday(memberID: UserId)
      requires Valid()
      modifies this, birthdayArray
      ensures Valid()
      ensures birthdayMap == old(birthdayMap) - {memberID}
      ensures forall k :: 0 <= k < DAYS ==> memberID !in birthdayArray[k]
      ensures old(memberID !in birthdayMap) ==>
                forall k :: 0 <= k < DAYS ==> birthdayArray[k] == old(birthdayArray[k])
    {
      if memberID in birthdayMap {
        var oldBirthday := birthdayMap[memberID];
        birthdayMap := birthdayMap - {memberID};
        birthdayArray[oldBirthday - 1] := birthdayArray[oldBirthday - 1] - {memberID};
      }
    }

    /** The midnight action's lookup: the bucket of today's date holds exactly the
        users whose recorded birthday is today. */
    method BirthdaysOn(month: int, day: int) returns (ids: set<UserId>)
      requires Valid()
      requires ValidDate(month, day)
      ensures forall u :: u in ids <==> u in birthdayMap && birthdayMap[u] == DaysBefore(month) + day
    {
      ids := birthdayArray[DateOfYear(month, day).value - 1];
    }
  }

  /** `setBirthday` as written: the user is removed from its old bucket first,
      and only then is the day computed; a month outside 1..12 throws there, and
      a day outside 1..366 throws at the bucket access. The result is the state
      left behind and whether an exception escaped. */
  function SetBirthdayAsWritten(s: IndexSnapshot, userID: UserId, month: int, date: int): (r: (IndexSnapshot, bool))
    requires |s.birthdayArray| == DAYS
    requires forall u :: u in s.birthdayMap ==> 1 <= s.birthdayMap[u] <= DAYS
    ensures |r.0.birthdayArray| == DAYS
    ensures r.1 <==> DateOfYear(month, date).Failure? || !(1 <= DateOfYear(month, date).value <= DAYS)
    ensures r.1 ==> r.0.birthdayMap == s.birthdayMap
    ensures Consistent(s) && r.1 && userID in s.birthdayMap ==>
              forall k :: 0 <= k < DAYS ==> userID !in r.0.birthdayArray[k]
    ensures Consistent(s) && !r.1 ==>
              Consistent(r.0) && r.0.birthdayMap == s.birthdayMap[userID := DateOfYear(month, date).value]
  {
    var removed :=
      if userID in s.birthdayMap then
        var k := s.birthdayMap[userID] - 1;
        IndexSnapshot(s.birthdayMap, s.birthdayArray[k := s.birthdayArray[k] - {userID}])
      else s;
    match DateOfYear(month, date)
    case Failure(_) => (removed, true)
    case Success(day) =>
      if !(1 <= day <= DAYS) then (removed, true)
      else
        (IndexSnapshot(removed.birthdayMap[userID := day],
                       removed.birthdayArray[day - 1 := removed.birthdayArray[day - 1] + {userID}]),
         false)
  }

  /** Counterexample: user 7, born on day 1, re-set to month 13. The exception
      escapes after 7 has left bucket 0, so the map still says day 1 while no
      bucket holds 7, and the midnight lookup would miss 7 on January 1. */
  lemma SetBirthdayAsWrittenCorrupts()
    ensures var s := IndexSnapshot(map[7 := 1], [{7}] + seq(DAYS - 1, _ => {}));
      Consistent(s) &&
      var (t, thrown) := SetBirthdayAsWritten(s, 7, 13, 1);
      thrown && !Consistent(t) && 7 in t.birthdayMap && 7 !in t.birthdayArray[0]
  {
    var s := IndexSnapshot(map[7 := 1], [{7}] + seq(DAYS - 1, _ => {}));
    assert forall k :: 1 <= k < DAYS ==> s.birthdayArray[k] == {};
  }
}

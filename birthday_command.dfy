/** The `/birthday` command: the guard chain of `set` that decides which
    (month, date) pairs reach the index, and the `get` and `delete` subcommands. */
module BirthdayCommand {
  import opened Wrappers
  import opened Calendar
  import opened Birthdays

  /** The reply chosen by the `set` subcommand. */
  datatype SetReply =
    | Required                                // a required option is missing
    | WrongMonth                              // month outside 1..12
    | WrongDate                               // date outside 1..31
    | WrongDateInMonth(month: int, date: int) // the month has fewer days
    | SetResult(month: int, date: int)        // accepted and stored

  /** The reply of the `get` subcommand about `target`. */
  datatype GetReply =
    | SetOn(target: UserId, month: int, date: int)
    | NoSet(target: UserId)

  /** `isWrongDate`: too many days for a 30-day month or for February; never
      wrong for any other month, whose range 1..31 was checked before. */
  function IsWrongDate(month: int, date: int): (r: bool)
    ensures 1 <= month <= MONTHS && date <= 31 ==> (r <==> date > MonthLength(month))
    ensures r ==> month in {2, 4, 6, 9, 11}
  {
    match month
    case 4 | 6 | 9 | 11 => date > 30
    case 2 => date > 29
    case _ => false
  }

  /** The guards of `set`, in order. A pair is accepted exactly when it is a date
      of the fixed leap-year calendar, so February 29 is always accepted. */
  function SetGuard(monthBox: Option<int>, dateBox: Option<int>): (r: SetReply)
    ensures r.SetResult? <==> monthBox.Some? && dateBox.Some? && ValidDate(monthBox.value, dateBox.value)
    ensures r.SetResult? ==> r == SetResult(monthBox.value, dateBox.value)
    ensures r.Required? <==> monthBox.None? || dateBox.None?
    ensures r.WrongMonth? <==> monthBox.Some? && dateBox.Some? && !(1 <= monthBox.value <= MONTHS)
    ensures r.WrongDate? <==>
              monthBox.Some? && dateBox.Some? && 1 <= monthBox.value <= MONTHS && !(1 <= dateBox.value <= 31)
  {
    if monthBox.None? || dateBox.None? then Required
    else
      var month, date := monthBox.value, dateBox.value;
      if month < 1 || month > 12 then WrongMonth
      else if date < 1 || date > 31 then WrongDate
      else if IsWrongDate(month, date) then WrongDateInMonth(month, date)
      else SetResult(month, date)
  }

  /** Every pair the guards accept is one on which `setBirthday`, in the order it
      is written, neither throws nor breaks the index, and stores the same day
      as the corrected `BirthdayIndex.SetBirthday`: the ordering flaw cannot be
      reached through this command. */
  lemma GuardedSetIsSafe(s: IndexSnapshot, userID: UserId, monthBox: Option<int>, dateBox: Option<int>)
    requires Consistent(s)
    requires SetGuard(monthBox, dateBox).SetResult?
    ensures var r := SetBirthdayAsWritten(s, userID, monthBox.value, dateBox.value);
      !r.1 && Consistent(r.0) &&
      r.0.birthdayMap == s.birthdayMap[userID := DaysBefore(monthBox.value) + dateBox.value]
  {
  }

  /** `SetSubCommand.commandProcess`: the index changes only when every guard
      passes, and then the caller's birthday becomes the day of the given date. */
  method SetSubCommand(index: BirthdayIndex, userID: UserId, monthBox: Option<int>, dateBox: Option<int>)
    returns (reply: SetReply)
    requires index.Valid()
    modifies index, index.birthdayArray
    ensures index.Valid()
    ensures reply == SetGuard(monthBox, dateBox)
    ensures reply.SetResult? ==>
              index.birthdayMap == old(index.birthdayMap)[userID := DaysBefore(reply.month) + reply.date]
    ensures !reply.SetResult? ==> index.birthdayMap == old(index.birthdayMap)
    ensures !reply.SetResult? ==>
              forall k :: 0 <= k < DAYS ==> index.birthdayArray[k] == old(index.birthdayArray[k])
  {
    reply := SetGuard(monthBox, dateBox);
    if reply.SetResult? {
      var stored := index.SetBirthday(userID, reply.month, reply.date);
    }
  }

  /** The `get` subcommand: the target defaults to the caller; "not set" is
      reported exactly when the index has no entry for the target. */
  method GetSubCommand(index: BirthdayIndex, userID: UserId, target: Option<UserId>) returns (reply: GetReply)
    requires index.Valid()
    ensures reply.target == target.GetOr(userID)
    ensures reply.NoSet? <==> reply.target !in index.birthdayMap
    ensures reply.SetOn? ==> ValidDate(reply.month, reply.date)
    ensures reply.SetOn? ==> DateOfYear(reply.month, reply.date) == Success(index.birthdayMap[reply.target])
  {
    var who := target.GetOr(userID);
    var birthday := index.GetBirthday(who);
    if birthday.Some? {
      reply := SetOn(who, birthday.value.0, birthday.value.1);
    } else {
      reply := NoSet(who);
    }
  }

  /** The `delete` subcommand: deletes the caller's entry unconditionally. */
  method DeleteSubCommand(index: BirthdayIndex, userID: UserId)
    requires index.Valid()
    modifies index, index.birthdayArray
    ensures index.Valid()
    ensures index.birthdayMap == old(index.birthdayMap) - {userID}
    ensures forall k :: 0 <= k < DAYS ==> userID !in index.birthdayArray[k]
  {
    index.DeleteBirthday(userID);
  }
}

/**
 * Daily check-in and check-out (app.py, the bodies of the check_in and
 * check_out routes). Each acts on the first attendance row of the user for
 * today: check-in sets its time in, method and status `present` (creating
 * the row when there is none); check-out sets its time out. Repeated or
 * out-of-order attempts are rejected and leave the table as it was.
 */
module AttendanceLog {
  import opened StaffModels

  /** Outcome of a check-in attempt. */
  datatype CheckInResult = CheckInOk | AlreadyCheckedIn

  /** Outcome of a check-out attempt. */
  datatype CheckOutResult = CheckOutOk | NoCheckIn | AlreadyCheckedOut

  /** Where a user stands on a day, judged by the row that check-in and check-out act on. */
  datatype DayPhase = NotCheckedIn | CheckedIn | CheckedOut

  predicate IsDayOf(a: AttendanceRecord, userId: nat, today: Date) {
    a.userId == userId && a.date == today
  }

  /** The index of the first row of `userId` dated `today` (`filter_by(user_id, date).first()`). */
  function FindRecord(records: seq<AttendanceRecord>, userId: nat, today: Date): (r: Option<nat>)
    ensures r.Some? ==> r.value < |records| && IsDayOf(records[r.value], userId, today)
    ensures r.Some? ==> forall j :: 0 <= j < r.value ==> !IsDayOf(records[j], userId, today)
    ensures r.None? ==> forall j :: 0 <= j < |records| ==> !IsDayOf(records[j], userId, today)
  {
    if |records| == 0 then None
    else if IsDayOf(records[0], userId, today) then Some(0)
    else match FindRecord(records[1..], userId, today)
      case None => None
      case Some(i) => Some(i + 1)
  }

  /** Replacing today's first row by another row of the same user and day keeps it the first. */
  lemma FindAfterUpdate(records: seq<AttendanceRecord>, userId: nat, today: Date, i: nat, row: AttendanceRecord)
    requires FindRecord(records, userId, today) == Some(i)
    requires IsDayOf(row, userId, today)
    ensures FindRecord(records[i := row], userId, today) == Some(i)
  {
    var updated := records[i := row];
    assert IsDayOf(updated[i], userId, today);
  }

  /** A row appended when the user has none for the day becomes the day's first row. */
  lemma FindAfterAppend(records: seq<AttendanceRecord>, userId: nat, today: Date, row: AttendanceRecord)
    requires FindRecord(records, userId, today).None?
    requires IsDayOf(row, userId, today)
    ensures FindRecord(records + [row], userId, today) == Some(|records|)
  {
    var extended := records + [row];
    assert IsDayOf(extended[|records|], userId, today);
  }

  /** The day's state: no usable row, checked in (time in only), or checked out (time in and time out). */
  function PhaseOf(records: seq<AttendanceRecord>, userId: nat, today: Date): DayPhase {
    match FindRecord(records, userId, today)
    case None => NotCheckedIn
    case Some(i) =>
      if records[i].timeIn == None then NotCheckedIn
      else if records[i].timeOut == None then CheckedIn
      else CheckedOut
  }

  /** At most one row per user per date. */
  ghost predicate UniquePerDay(records: seq<AttendanceRecord>) {
    forall i, j :: 0 <= i < j < |records| ==> !IsDayOf(records[j], records[i].userId, records[i].date)
  }

  /**
   * The table and outcome after `userId` checks in on `today` at instant `now`
   * by `via`. Check-in is refused exactly when today's row already has a
   * time in; otherwise that row gets the time in, the method and status
   * `present`, or a new row is appended when there is none. No other row changes.
   */
  function AfterCheckIn(records: seq<AttendanceRecord>, userId: nat, today: Date, now: nat, via: string)
    : (r: (seq<AttendanceRecord>, CheckInResult))
    ensures r.1 == AlreadyCheckedIn <==> PhaseOf(records, userId, today) != NotCheckedIn
    ensures r.1 == AlreadyCheckedIn ==> r.0 == records
    ensures r.1 == CheckInOk ==>
      && PhaseOf(r.0, userId, today) != NotCheckedIn
      && (FindRecord(records, userId, today).None? ==> |r.0| == |records| + 1 && r.0[..|records|] == records)
      && (FindRecord(records, userId, today).Some? ==> |r.0| == |records|)
      && forall j :: 0 <= j < |records| && !IsDayOf(records[j], userId, today) ==> r.0[j] == records[j]
    ensures r.1 == CheckInOk ==>
      exists i :: FindRecord(r.0, userId, today) == Some(i) &&
        r.0[i].timeIn == Some(now) && r.0[i].checkInMethod == Some(via) && r.0[i].status == Some(Present)
    ensures r.1 == CheckInOk && FindRecord(records, userId, today).Some? ==>
      var i := FindRecord(records, userId, today).value;
      r.0 == records[i := records[i].(timeIn := Some(now), checkInMethod := Some(via), status := Some(Present))]
    ensures FindRecord(records, userId, today).None? ==>
      r == (records + [AttendanceRecord(userId, today, Some(now), None, Some(via), Some(Present))], CheckInOk)
    ensures r.1 == CheckInOk ==>
      ((FindRecord(records, userId, today).None? || records[FindRecord(records, userId, today).value].timeOut == None) ==>
         PhaseOf(r.0, userId, today) == CheckedIn)
  {
    match FindRecord(records, userId, today)
    case Some(i) =>
      if records[i].timeIn != None then (records, AlreadyCheckedIn)
      else
        var row := records[i].(timeIn := Some(now), checkInMethod := Some(via), status := Some(Present));
        FindAfterUpdate(records, userId, today, i, row);
        (records[i := row], CheckInOk)
    case None =>
      var row := AttendanceRecord(userId, today, Some(now), None, Some(via), Some(Present));
      FindAfterAppend(records, userId, today, row);
      (records + [row], CheckInOk)
  }

  /**
   * The table and outcome after `userId` checks out on `today` at instant
   * `now`. Check-out is refused when there is no row or no time in, and when
   * the time out is already set; otherwise only that row's time out changes.
   */
  function AfterCheckOut(records: seq<AttendanceRecord>, userId: nat, today: Date, now: nat)
    : (r: (seq<AttendanceRecord>, CheckOutResult))
    ensures r.1 == NoCheckIn <==> PhaseOf(records, userId, today) == NotCheckedIn
    ensures r.1 == AlreadyCheckedOut <==> PhaseOf(records, userId, today) == CheckedOut
    ensures r.1 != CheckOutOk ==> r.0 == records
    ensures r.1 == CheckOutOk ==>
      && PhaseOf(r.0, userId, today) == CheckedOut
      && |r.0| == |records|
      && exists i :: FindRecord(records, userId, today) == Some(i) &&
           r.0 == records[i := records[i].(timeOut := Some(now))]
  {
    match FindRecord(records, userId, today)
    case None => (records, NoCheckIn)
    case Some(i) =>
      if records[i].timeIn == None then (records, NoCheckIn)
      else if records[i].timeOut != None then (records, AlreadyCheckedOut)
      else
        var row := records[i].(timeOut := Some(now));
        FindAfterUpdate(records, userId, today, i, row);
        (records[i := row], CheckOutOk)
  }

  /** A second check-in on the same day is refused and changes nothing. */
  lemma CheckInTwiceRefused(records: seq<AttendanceRecord>, userId: nat, today: Date, now: nat, via: string, later: nat, via': string)
    ensures var first := AfterCheckIn(records, userId, today, now, via).0;
      AfterCheckIn(first, userId, today, later, via') == (first, AlreadyCheckedIn)
  {
  }

  /** Check-out before any check-in on the day is refused and changes nothing. */
  lemma CheckOutBeforeCheckInRefused(records: seq<AttendanceRecord>, userId: nat, today: Date, now: nat)
    requires FindRecord(records, userId, today).None?
    ensures AfterCheckOut(records, userId, today, now) == (records, NoCheckIn)
  {
  }

  /** On a day without a row, check-in followed by check-out ends checked out. */
  lemma CheckInThenCheckOut(records: seq<AttendanceRecord>, userId: nat, today: Date, timeIn: nat, via: string, timeOut: nat)
    requires FindRecord(records, userId, today).None?
    ensures var afterIn := AfterCheckIn(records, userId, today, timeIn, via);
      var afterOut := AfterCheckOut(afterIn.0, userId, today, timeOut);
      && afterIn.1 == CheckInOk && afterOut.1 == CheckOutOk
      && PhaseOf(afterOut.0, userId, today) == CheckedOut
      && afterOut.0 == records + [AttendanceRecord(userId, today, Some(timeIn), Some(timeOut), Some(via), Some(Present))]
  {
  }

  /** A second check-out on the same day is refused and changes nothing. */
  lemma CheckOutTwiceRefused(records: seq<AttendanceRecord>, userId: nat, today: Date, now: nat, later: nat)
    ensures var first := AfterCheckOut(records, userId, today, now).0;
      AfterCheckOut(first, userId, today, later).1 != CheckOutOk
  {
  }

  /** Check-in creates a row only when the user has none for the day, so rows stay unique per day. */
  lemma CheckInKeepsUnique(records: seq<AttendanceRecord>, userId: nat, today: Date, now: nat, via: string)
    requires UniquePerDay(records)
    ensures UniquePerDay(AfterCheckIn(records, userId, today, now, via).0)
  {
  }

  /** Check-out changes no user or date, so rows stay unique per day. */
  lemma CheckOutKeepsUnique(records: seq<AttendanceRecord>, userId: nat, today: Date, now: nat)
    requires UniquePerDay(records)
    ensures UniquePerDay(AfterCheckOut(records, userId, today, now).0)
  {
  }

  /** The attendance table, whose rows check-in and check-out update in place. */
  class AttendanceTable {
    var records: seq<AttendanceRecord>

    constructor ()
      ensures records == []
    {
      records := [];
    }

    method CheckIn(userId: nat, today: Date, now: nat, via: string) returns (result: CheckInResult)
      modifies this
      ensures (records, result) == AfterCheckIn(old(records), userId, today, now, via)
      ensures UniquePerDay(old(records)) ==> UniquePerDay(records)
    {
      var found := FindRecord(records, userId, today);
      match found {
        case Some(i) =>
          if records[i].timeIn != None {
            result := AlreadyCheckedIn;
            return;
          }
          records := records[i := records[i].(timeIn := Some(now), checkInMethod := Some(via), status := Some(Present))];
        case None =>
          records := records + [AttendanceRecord(userId, today, Some(now), None, Some(via), Some(Present))];
      }
      result := CheckInOk;
      if UniquePerDay(old(records)) {
        CheckInKeepsUnique(old(records), userId, today, now, via);
      }
    }

    method CheckOut(userId: nat, today: Date, now: nat) returns (result: CheckOutResult)
      modifies this
      ensures (records, result) == AfterCheckOut(old(records), userId, today, now)
      ensures UniquePerDay(old(records)) ==> UniquePerDay(records)
    {
      var found := FindRecord(records, userId, today);
      match found {
        case None =>
          result := NoCheckIn;
          return;
        case Some(i) =>
          if records[i].timeIn == None {
            result := NoCheckIn;
            return;
          }
          if records[i].timeOut != None {
            result := AlreadyCheckedOut;
            return;
          }
          records := records[i := records[i].(timeOut := Some(now))];
      }
      result := CheckOutOk;
      if UniquePerDay(old(records)) {
        CheckOutKeepsUnique(old(records), userId, today, now);
      }
    }
  }
}

/**
 * The monthly salary batch (app.py, the body of the calculate_salary route):
 * every teacher, headteacher and deputy without a salary row for the period
 * gets one, with a fixed base salary and bonuses earned by the performance
 * score. Existing rows are never touched, so a second run adds nothing.
 */
module Payroll {
  import opened StaffModels
  import opened Queries
  import opened Scoring

  /** The default base salary every new row receives. */
  const BaseSalary: real := 50000.0

  /** The salary row of `userId` for the period, when the performance score is `score`. */
  function NewSalary(userId: nat, month: int, year: int, score: real): (s: SalaryRecord)
    ensures s.userId == userId && s.month == month && s.year == year
    ensures s.baseSalary == 50000.0
    ensures s.attendanceBonus == (if score >= 8.0 then 5000.0 else 0.0)
    ensures s.performanceBonus == (if score >= 7.0 then 2500.0 else 0.0)
    ensures s.attendanceBonus > 0.0 <==> score >= 8.0
    ensures s.performanceBonus > 0.0 <==> score >= 7.0
    ensures s.totalSalary == s.baseSalary + s.attendanceBonus + s.performanceBonus
    ensures s.totalSalary in {50000.0, 52500.0, 57500.0}
    ensures !s.paid && s.paidDate == None
  {
    var attendanceBonus := if score >= 8.0 then BaseSalary * 0.1 else 0.0;
    var performanceBonus := if score >= 7.0 then BaseSalary * 0.05 else 0.0;
    SalaryRecord(userId, month, year, BaseSalary, attendanceBonus, performanceBonus,
                 BaseSalary + attendanceBonus + performanceBonus, false, None)
  }

  /** Roles that draw a salary. */
  predicate IsSalaried(u: User) {
    u.role == Teacher || u.role == Headteacher || u.role == Deputy
  }

  /** The users the batch visits, in table order (`User.role.in_([...])`). */
  function SalariedStaff(users: seq<User>): (staff: seq<User>)
    ensures forall i :: 0 <= i < |staff| ==> IsSalaried(staff[i]) && staff[i] in users
    ensures forall u :: u in users && IsSalaried(u) ==> u in staff
  {
    Filter(users, IsSalaried)
  }

  predicate ForPeriod(s: SalaryRecord, userId: nat, month: int, year: int) {
    s.userId == userId && s.month == month && s.year == year
  }

  /** The existence check: the salary table already holds a row for (userId, month, year). */
  predicate HasSalary(table: seq<SalaryRecord>, userId: nat, month: int, year: int) {
    exists i :: 0 <= i < |table| && ForPeriod(table[i], userId, month, year)
  }

  /** No two rows of the table share a (user, month, year) key. */
  ghost predicate UniquePerPeriod(table: seq<SalaryRecord>) {
    forall i, j :: 0 <= i < j < |table| ==>
      !ForPeriod(table[j], table[i].userId, table[i].month, table[i].year)
  }

  /** One iteration of the batch, for user `u`. */
  function Step(table: seq<SalaryRecord>, u: User, attendance: seq<AttendanceRecord>, month: int, year: int): (r: seq<SalaryRecord>)
    ensures table <= r && |r| <= |table| + 1
    ensures HasSalary(r, u.id, month, year)
  {
    if HasSalary(table, u.id, month, year) then table
    else
      var r := table + [NewSalary(u.id, month, year, CalculatePerformanceScore(attendance, u.id, month, year))];
      assert ForPeriod(r[|table|], u.id, month, year);
      r
  }

  /** The salary table after the batch has visited every user of `staff`, in order. */
  function Batch(staff: seq<User>, table: seq<SalaryRecord>, attendance: seq<AttendanceRecord>, month: int, year: int): (r: seq<SalaryRecord>)
    ensures |table| <= |r| <= |table| + |staff|
    decreases |staff|
  {
    if |staff| == 0 then table
    else Step(Batch(staff[..|staff| - 1], table, attendance, month, year), staff[|staff| - 1], attendance, month, year)
  }

  /** Visiting one more user of `staff` is one more step of the batch. */
  lemma BatchPrefixStep(staff: seq<User>, i: nat, table: seq<SalaryRecord>, attendance: seq<AttendanceRecord>, month: int, year: int)
    requires i < |staff|
    ensures Batch(staff[..i + 1], table, attendance, month, year)
         == Step(Batch(staff[..i], table, attendance, month, year), staff[i], attendance, month, year)
  {
    assert staff[..i + 1][..i] == staff[..i];
  }

  /** The existing rows, paid or not, are kept unchanged at the front of the table. */
  lemma {:induction false} BatchKeepsExisting(staff: seq<User>, table: seq<SalaryRecord>, attendance: seq<AttendanceRecord>, month: int, year: int)
    ensures table <= Batch(staff, table, attendance, month, year)
    decreases |staff|
  {
    if |staff| > 0 {
      BatchKeepsExisting(staff[..|staff| - 1], table, attendance, month, year);
    }
  }

  /** Once a row for a key is in the table, the batch keeps one. */
  lemma HasSalaryGrows(t: seq<SalaryRecord>, t': seq<SalaryRecord>, userId: nat, month: int, year: int)
    requires t <= t' && HasSalary(t, userId, month, year)
    ensures HasSalary(t', userId, month, year)
  {
  }

  /** After the batch every visited user has a salary row for the period. */
  lemma {:induction false} BatchCoversStaff(staff: seq<User>, table: seq<SalaryRecord>, attendance: seq<AttendanceRecord>, month: int, year: int)
    ensures forall u :: u in staff ==> HasSalary(Batch(staff, table, attendance, month, year), u.id, month, year)
    decreases |staff|
  {
    if |staff| > 0 {
      var init := staff[..|staff| - 1];
      var last := staff[|staff| - 1];
      var before := Batch(init, table, attendance, month, year);
      var after := Batch(staff, table, attendance, month, year);
      BatchCoversStaff(init, table, attendance, month, year);
      assert before <= after;
      assert HasSalary(after, last.id, month, year) by {
        if !HasSalary(before, last.id, month, year) {
          assert ForPeriod(after[|after| - 1], last.id, month, year);
        }
      }
      forall u | u in staff ensures HasSalary(after, u.id, month, year) {
        if u != last {
          assert u in init by {
            var k :| 0 <= k < |staff| && staff[k] == u;
            assert init[k] == u;
          }
          HasSalaryGrows(before, after, u.id, month, year);
        }
      }
    }
  }

  /** `row` is the computed salary of user `u`, who had no row for the period in `table`. */
  predicate NewSalaryOf(row: SalaryRecord, u: User, table: seq<SalaryRecord>, attendance: seq<AttendanceRecord>, month: int, year: int) {
    !HasSalary(table, u.id, month, year) &&
    row == NewSalary(u.id, month, year, CalculatePerformanceScore(attendance, u.id, month, year))
  }

  /** One step keeps the rows it is given and adds at most the computed salary of its user. */
  lemma StepAddsOnlyMissing(before: seq<SalaryRecord>, u: User, table: seq<SalaryRecord>, attendance: seq<AttendanceRecord>, month: int, year: int)
    requires table <= before
    ensures var after := Step(before, u, attendance, month, year);
      && before <= after
      && forall k :: |before| <= k < |after| ==> NewSalaryOf(after[k], u, table, attendance, month, year)
  {
  }

  /**
   * Every row the batch adds is the computed salary of a visited user that
   * had no row for the period before the batch, and is for that period.
   */
  lemma {:induction false} BatchAddsOnlyMissing(staff: seq<User>, table: seq<SalaryRecord>, attendance: seq<AttendanceRecord>, month: int, year: int)
    ensures var after := Batch(staff, table, attendance, month, year);
      forall k :: |table| <= k < |after| ==>
        exists u :: u in staff && NewSalaryOf(after[k], u, table, attendance, month, year)
    decreases |staff|
  {
    if |staff| > 0 {
      var init := staff[..|staff| - 1];
      var last := staff[|staff| - 1];
      var before := Batch(init, table, attendance, month, year);
      var after := Batch(staff, table, attendance, month, year);
      assert after == Step(before, last, attendance, month, year);
      BatchAddsOnlyMissing(init, table, attendance, month, year);
      BatchKeepsExisting(init, table, attendance, month, year);
      StepAddsOnlyMissing(before, last, table, attendance, month, year);
      forall k | |table| <= k < |after|
        ensures exists u :: u in staff && NewSalaryOf(after[k], u, table, attendance, month, year)
      {
        if k < |before| {
          var u :| u in init && NewSalaryOf(before[k], u, table, attendance, month, year);
          var j :| 0 <= j < |init| && init[j] == u;
          assert staff[j] == u && after[k] == before[k];
        } else {
          assert last in staff && NewSalaryOf(after[k], last, table, attendance, month, year);
        }
      }
    }
  }

  /** When every visited user already has a row, the batch leaves the table as it is. */
  lemma {:induction false} BatchNoOpWhenCovered(staff: seq<User>, table: seq<SalaryRecord>, attendance: seq<AttendanceRecord>, month: int, year: int)
    requires forall u :: u in staff ==> HasSalary(table, u.id, month, year)
    ensures Batch(staff, table, attendance, month, year) == table
    decreases |staff|
  {
    if |staff| > 0 {
      var init := staff[..|staff| - 1];
      forall u | u in init ensures HasSalary(table, u.id, month, year) {
        var j :| 0 <= j < |init| && init[j] == u;
        assert staff[j] == u;
      }
      BatchNoOpWhenCovered(init, table, attendance, month, year);
      assert staff[|staff| - 1] in staff;
    }
  }

  /** Running the batch a second time for the same period adds nothing. */
  lemma BatchIdempotent(staff: seq<User>, table: seq<SalaryRecord>, attendance: seq<AttendanceRecord>, month: int, year: int)
    ensures var once := Batch(staff, table, attendance, month, year);
      Batch(staff, once, attendance, month, year) == once
  {
    BatchCoversStaff(staff, table, attendance, month, year);
    BatchNoOpWhenCovered(staff, Batch(staff, table, attendance, month, year), attendance, month, year);
  }

  /** The batch never creates a second row for a (user, month, year) key. */
  lemma {:induction false} BatchKeepsUnique(staff: seq<User>, table: seq<SalaryRecord>, attendance: seq<AttendanceRecord>, month: int, year: int)
    requires UniquePerPeriod(table)
    ensures UniquePerPeriod(Batch(staff, table, attendance, month, year))
    decreases |staff|
  {
    if |staff| > 0 {
      var last := staff[|staff| - 1];
      var before := Batch(staff[..|staff| - 1], table, attendance, month, year);
      BatchKeepsUnique(staff[..|staff| - 1], table, attendance, month, year);
      if !HasSalary(before, last.id, month, year) {
        var after := Batch(staff, table, attendance, month, year);
        forall i, j | 0 <= i < j < |after|
          ensures !ForPeriod(after[j], after[i].userId, after[i].month, after[i].year)
        {
          if j == |before| {
            assert after[i] == before[i];
          } else {
            assert after[i] == before[i] && after[j] == before[j];
          }
        }
      }
    }
  }

  /**
   * Worked example: ten records for a month, nine present and one absent,
   * none late, score 9.5, rated Good, and the salary earns both bonuses.
   */
  lemma NinePresentOneAbsent(rs: seq<AttendanceRecord>, userId: nat, month: int, year: int)
    requires |rs| == 10 && PresentDays(rs) == 9
    requires forall i :: 0 <= i < |rs| ==> rs[i].status != Some(Late)
    ensures PerformanceScore(rs) == 9.5
    ensures PerformanceScore(rs) >= 7.0
    ensures NewSalary(userId, month, year, PerformanceScore(rs)).totalSalary == 57500.0
  {
    ScoreWithoutLateRecords(rs);
  }

  /** What the batch over the salaried staff of `users` does to a salary table. */
  lemma CalculateSalaryFacts(users: seq<User>, table: seq<SalaryRecord>, attendance: seq<AttendanceRecord>, month: int, year: int)
    ensures var after := Batch(SalariedStaff(users), table, attendance, month, year);
      && table <= after
      && (forall u :: u in users && IsSalaried(u) ==> HasSalary(after, u.id, month, year))
      && (UniquePerPeriod(table) ==> UniquePerPeriod(after))
  {
    var staff := SalariedStaff(users);
    BatchKeepsExisting(staff, table, attendance, month, year);
    BatchCoversStaff(staff, table, attendance, month, year);
    if UniquePerPeriod(table) {
      BatchKeepsUnique(staff, table, attendance, month, year);
    }
  }

  /** The salary table, which the batch extends in place. */
  class SalaryTable {
    var records: seq<SalaryRecord>

    constructor ()
      ensures records == []
    {
      records := [];
    }

    /**
     * Computes the salaries of `month` of `year` for every salaried user that
     * has none yet; existing rows stay as they are.
     */
    method CalculateSalary(users: seq<User>, attendance: seq<AttendanceRecord>, month: int, year: int)
      modifies this
      ensures records == Batch(SalariedStaff(users), old(records), attendance, month, year)
      ensures old(records) <= records
      ensures forall u :: u in users && IsSalaried(u) ==> HasSalary(records, u.id, month, year)
      ensures UniquePerPeriod(old(records)) ==> UniquePerPeriod(records)
    {
      var staff := SalariedStaff(users);
      ghost var initial := records;
      for i := 0 to |staff|
        invariant records == Batch(staff[..i], initial, attendance, month, year)
      {
        var user := staff[i];
        BatchPrefixStep(staff, i, initial, attendance, month, year);
        if !HasSalary(records, user.id, month, year) {
          var score := CalculatePerformanceScore(attendance, user.id, month, year);
          records := records + [NewSalary(user.id, month, year, score)];
        }
      }
      assert staff[..|staff|] == staff;
      CalculateSalaryFacts(users, initial, attendance, month, year);
    }
  }
}

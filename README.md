# Staff management: scoring, payroll and attendance rules

A Dafny model of the business rules of a school staff-management web
application (`app.py`). The model covers:

- the monthly **performance score**, computed from one staff member's attendance records for a month;
- the **performance report**, with one row per teacher, rated `Good` or `Needs Improvement`;
- the **salary batch**, which gives every teacher, headteacher and deputy without a salary row for the period a new row. The row has base pay 50000 and bonuses earned by the score. A second run adds nothing;
- the **check-in / check-out** rules for the user's attendance row of the day.

The store's tables are sequences of value records in the order the store
enumerates them. A `filter_by(...).all()` query is `Queries.Filter`, and
`.first()` is the first matching index. The current time and "today" are
parameters.

Modules:

- `Queries` (queries.dfy): filtering and counting rows, and their laws: order preservation, independence from row order, all/none counts.
- `StaffModels` (staff_models.dfy): users, roles, dates, attendance rows and salary rows.
- `Scoring` (scoring.dfy): `calculate_performance_score` and `generate_performance_report`.
- `Payroll` (payroll.dfy): the salary computation, the batch as a specification function `Batch`, its lemmas, and class `SalaryTable`. The class's `CalculateSalary` method runs the batch as a loop over the table.
- `AttendanceLog` (attendance_log.dfy): check-in and check-out as transition functions over the table, their lemmas, and class `AttendanceTable`. Its methods update the table in place and are proved against those functions.

Notes on the code:

- The code never writes the `Performance` table. The score is computed on demand and is not stored.
- The salary batch commits once, after the loop. Failures of that commit are not modelled.
- The code does not validate the month or the year, so neither does the model.

## Model

| member | source | states |
|---|---|---|
| Queries.CountWhere | app.py:174-175 | the number of matching rows never exceeds the number of rows |
| Queries.Filter | app.py:163-168 | a query's result has exactly as many rows as match; every returned row matches and comes from the table; every matching row is returned |
| Queries.CountAllIff | app.py:174 | all rows are counted if and only if every row matches |
| Queries.CountPermutation | app.py:163-175 | a count does not depend on the order in which the store returns the rows |
| Queries.FilterConcat | app.py:184 | a query keeps table order: filtering distributes over concatenation |
| Scoring.IsPresent | app.py:174 | a record counts towards attendance exactly when its status is `present` |
| Scoring.IsOnTime | app.py:175 | a record counts towards punctuality unless its status is `late`, so absent and unset records count |
| Scoring.PeriodAttendance | app.py:163-168 | the query returns only records of the user dated in that month and year, each from the table, and returns every such record |
| Scoring.PresentDays | app.py:174 | the number of present records, never more than the number of records |
| Scoring.OnTimeDays | app.py:175 | the number of records that are not late, never more than the number of records |
| Scoring.PerformanceScore | app.py:170-180 | the score lies in [0, 10]; no records gives exactly 0.0 |
| Scoring.CalculatePerformanceScore | app.py:161-180 | the score for a user and period lies in [0, 10]; it is 0.0 when the table has no record of that user in that month and year |
| Scoring.PresentDaysAtMostOnTime | app.py:174-175 | present days never exceed on-time days, because a present record is never late |
| Scoring.ScoreTenIffAllPresent | app.py:173-180 | the score is 10 if and only if there is at least one record and every record is present |
| Scoring.ScoreWithoutLateRecords | app.py:175-180 | with no late record, the punctuality half is the full 5 points, because absent records count as on time; an all-absent month scores 5 |
| Scoring.ScoreOrderIndependent | app.py:163-180 | two record lists with the same multiset of records get the same score |
| Scoring.Teachers | app.py:184 | the report's subjects: as many users as have the teacher role, each a teacher from the user table, and every teacher of the table among them |
| Scoring.TeachersIgnoreOtherRoles | app.py:184 | inserting users of other roles anywhere in the user table leaves the list of report subjects unchanged |
| Scoring.GeneratePerformanceReport | app.py:182-195 | one row per teacher in table order, so the report has as many rows as there are teachers; each row has the teacher's name and score; the status is `Good` if and only if the score is at least 7 |
| Payroll.NewSalary | app.py:462-479 | base 50000; attendance bonus 5000 exactly when score ≥ 8, else 0; performance bonus 2500 exactly when score ≥ 7, else 0; total is the sum, so it is one of 50000, 52500, 57500; the new row is unpaid |
| Payroll.SalariedStaff | app.py:448 | the users the batch visits: each is a teacher, headteacher or deputy from the user table, and every such user is visited |
| Payroll.HasSalary | app.py:452-458 | the existence check holds exactly when some row of the table has that user, month and year |
| Payroll.Step | app.py:452-480 | one iteration keeps the table as a prefix, adds at most one row, and leaves the user with a row for the period |
| Payroll.Batch | app.py:450-480 | the table after visiting every user in order grows by at most one row per visited user |
| Payroll.BatchPrefixStep | app.py:450-480 | visiting one more user is one more existence check and possible insert |
| Payroll.BatchKeepsExisting | app.py:452-458 | existing salary rows, paid or not, stay unchanged at the front of the table |
| Payroll.HasSalaryGrows | app.py:452-458 | a row found by the existence check stays findable once more rows are added |
| Payroll.BatchCoversStaff | app.py:448-480 | afterwards every visited user has a salary row for the period |
| Payroll.StepAddsOnlyMissing | app.py:452-480 | one iteration keeps the table and adds at most the computed salary of a user who had no row before |
| Payroll.BatchAddsOnlyMissing | app.py:448-480 | every added row is the computed salary of a visited user who had no row for the period before the batch |
| Payroll.BatchNoOpWhenCovered | app.py:450-458 | when every visited user already has a row, the batch changes nothing |
| Payroll.BatchIdempotent | app.py:448-482 | running the batch a second time for the same period adds nothing |
| Payroll.BatchKeepsUnique | app.py:452-480 | if no two rows share a (user, month, year) key before the batch, none do after |
| Payroll.CalculateSalaryFacts | app.py:448-482 | the batch over the salaried staff keeps the old rows, covers every teacher, headteacher and deputy, and keeps keys unique |
| Payroll.NinePresentOneAbsent | app.py:460-469 | ten records, nine present and one absent, none late, give a score of 9.5, at least the 7 that rates `Good`, and a salary of 57500 |
| Payroll.SalaryTable.CalculateSalary | app.py:448-482 | the table becomes the batch over the teachers, headteachers and deputies in table order; the old rows are a prefix; each of those users has a row; key uniqueness is kept |
| AttendanceLog.FindRecord | app.py:324-327 | returns the index of the first row of the user for today, or none when no such row exists |
| AttendanceLog.FindAfterUpdate | app.py:334-337 | updating today's row in place keeps it the row that later lookups find |
| AttendanceLog.FindAfterAppend | app.py:338-346 | a row appended when the user had none today becomes the row that later lookups find |
| AttendanceLog.PhaseOf | app.py:324-331 | where the user stands today, judged by today's first row: not checked in when there is no row or no time in, checked in with a time in only, checked out with both times |
| AttendanceLog.AfterCheckIn | app.py:323-348 | refused, with no change, exactly when today's row already has a time in; otherwise that row alone gets time in, method and status present, keeping its time out, or, when none existed, a new row with time in, method and status present and no time out is appended; a check-in on a row without time out leaves the user checked in |
| AttendanceLog.AfterCheckOut | app.py:358-373 | refused with no change when there is no row or no time in, or when the time out is already set (each case identified); otherwise only that row's time out is set, and the day is checked out |
| AttendanceLog.CheckInTwiceRefused | app.py:329-331 | a second check-in on the same day is refused and changes nothing |
| AttendanceLog.CheckOutBeforeCheckInRefused | app.py:364-366 | a check-out with no row for today is refused and changes nothing |
| AttendanceLog.CheckInThenCheckOut | app.py:323-373 | on a day without a row, check-in then check-out both succeed and leave exactly one new row with time in, time out, method and status present |
| AttendanceLog.CheckOutTwiceRefused | app.py:368-370 | a second check-out on the same day is refused |
| AttendanceLog.CheckInKeepsUnique | app.py:334-346 | check-in creates a row only when none exists, so there is at most one row per user per date |
| AttendanceLog.CheckOutKeepsUnique | app.py:372 | check-out keeps at most one row per user per date |
| AttendanceLog.AttendanceTable.CheckIn | app.py:323-348 | the table and outcome are those of `AfterCheckIn` on the old table; at most one row per user per date is kept |
| AttendanceLog.AttendanceTable.CheckOut | app.py:358-373 | the table and outcome are those of `AfterCheckOut` on the old table; at most one row per user per date is kept |

## Left out

- Flask routing, templates, `flash`/`redirect`, `login_required`, sessions and role checks on routes: web plumbing. The dashboards, the attendance-report route and notification sending are left out for the same reason.
- `send_email` and `send_sms`: network I/O through SMTP and Twilio.
- The face-recognition routes: placeholders over camera libraries.
- Procurement creation: it parses form strings into floats and stores them.
- `api_today_attendance`: JSON formatting of today's rows.
- run.py: startup and sample data; it has no rules of its own.
- `datetime.now()`: the current instant and today's date are parameters. The `method` form field, defaulting to `manual`, is a string parameter.
- Commit atomicity, the store's failures, and two requests that run the salary batch or a check-in at the same time: the model runs each operation alone on one table.
- Python float arithmetic: scores and amounts are exact reals. The bonus amounts 5000 and 2500 are exact in floating point too.
- Role and status values outside the five roles and the three statuses listed in the column comments: columns are modelled as enumerations, and a NULL status as `None`.
- Row identity: attendance rows are values that the table methods replace in place. Aliasing of ORM row objects is not modelled.
- The `Performance` and `Timetable` tables: nothing in the modelled code reads or writes them.

# School records manager — a Dafny model

A console school-records manager keeps five flat tables: students, marks,
fees, attendance and teachers. Its admin and student menus run a fixed set of
queries and whole-table updates over them. A separate generator fills the
tables with synthetic data. This project models:

- the table layer of `main.py`:
  - the per-student views (attendance, marks, fees);
  - the average-mark remark, with its five bands;
  - the class listing, the class-marks preview, the pending-fee list and the revenue figure;
  - the student and admin credential checks;
  - the green/yellow/red cell categories of the table printer;
  - the four writes: add student, delete student, mark a quarter's fee as paid, overwrite a mark.
- the row layout of `data.py`, whose random draws are passed in as sequences.

Modules, one per component:

- `Tables` (`tables.dfy`): one datatype per row kind, `Result`/`Option`, a stable filter `Where` (a pandas boolean mask) and a column total `Total`.
- `Decimal` (`decimal.dfy`): decimal rendering of a number, as an f-string writes it, and its injectivity.
- `Queries` (`queries.dfy`): the read-only operations of `main.py`.
- `Updates` (`updates.dfy`): the four writes as table-to-table functions, each returning the table written back or the error reported. Adding and deleting a student replace the table by a new value in the source, so they stay functions.
- `Sheets` (`sheets.dfy`): the fee and mark updates, which the source does in place (`df.loc[mask, col] = v`). Each is an array-backed class whose method loops over the rows and is proved equal to the `Updates` function.
- `Generator` (`generator.dfy`): the five generators as methods with nested loops, proved against row-layout functions, plus lemmas about the generated data.

Three behaviours of the code are easy to misread:

- The fee and mark updates change every row the mask selects (`df.loc[mask, …]`), not one located row.
- The fee generator writes four quarters, although the comment at data.py:56 says three.
- The teacher generator writes 18 rows. Its `break` leaves only the inner subject loop, so each of the last three names still gets one row.

## Model

| member | source | states |
|---|---|---|
| `Tables.Where` | main.py:100 | a boolean-mask filter keeps exactly the rows the condition accepts, and no more rows than the table has |
| `Tables.WhereAppend` | main.py:235 | the filter is stable: filtering a concatenation is the concatenation of the filtered parts, so rows keep their table order |
| `Tables.WhereBlock` | main.py:178 | a filter that accepts exactly one contiguous block of rows returns that block |
| `Decimal.NatToString` | data.py:22 | the f-string rendering of a number is a non-empty string of digits; read back most significant digit first, it gives the number; it starts with "0" only for 0; it is one character long exactly for numbers below 10 |
| `Decimal.NatToStringInjective` | data.py:22 | different numbers render to different strings, because the digits read back to the number |
| `Decimal.DigitsValueRendered` | data.py:22 | every non-empty digit string without a leading zero (other than "0") is the rendering of the number it denotes |
| `Queries.Remark` | main.py:75-80 | the remark band always contains the average: inclusive lower bounds 90, 75, 60, 40, and Critical below 40 |
| `Queries.RemarkIsTheOnlyBand` | main.py:75-80 | the bands do not overlap, so the first-match cascade returns the only band containing the average |
| `Queries.RemarkMonotone` | main.py:75-80 | a lower average never gets a better band |
| `Queries.RemarkMessage` | main.py:76-80 | each remark sentence opens with its band's name |
| `Queries.RemarkMessageIdentifiesBand` | main.py:76-80 | the five sentences are pairwise different, so the printed remark tells which band applies |
| `Queries.RemarkOfTotals` | main.py:119-123 | the band of total/count equals the band found by comparing total with bound × count, with no division |
| `Queries.StudentAttendance` | main.py:99-101 | the attendance view holds exactly the rows with the logged-in admission number |
| `Queries.StudentMarks` | main.py:105-107 | the marks view holds exactly the rows with the logged-in admission number |
| `Queries.StudentFees` | main.py:111-114 | the fee view holds exactly the rows with the logged-in admission number |
| `Queries.NoMarksView` | main.py:119-120 | a student's marks view is empty exactly when no marks row has their admission number |
| `Queries.AverageMarks` | main.py:119-121 | no average exactly when the student has no marks row; otherwise average × row count equals the sum of the student's marks |
| `Queries.StudentRemark` | main.py:118-125 | the "no marks" branch happens exactly when the student has no marks row; otherwise the remark is the band of the student's total over their row count |
| `Queries.ClassRoster` | main.py:173-179 | class 0 lists the whole table; any other class lists exactly the students of that class |
| `Queries.ClassMarks` | main.py:275-277 | at most 20 rows, all of the requested class, a prefix of that class's rows in table order, and all of them when fewer than 20 |
| `Queries.PendingFees` | main.py:234-235 | the pending list holds exactly the rows whose status is "Pending" |
| `Queries.Revenue` | main.py:257-258 | revenue is the row-by-row sum of Amount over exactly the rows whose status is "Paid" |
| `Queries.RevenueAppend` | main.py:258 | revenue is additive over a split of the fees table |
| `Queries.StudentLogin` | main.py:141-146 | login succeeds exactly when some row matches both admission number and password, and the row welcomed is such a row |
| `Queries.AdminLogin` | main.py:310 | admin access is granted exactly for user "admin" with password "admin123" |
| `Queries.StatusCategory` | main.py:47-50 | a status cell is shown as paid exactly when it reads "Paid"; every other value is shown as unpaid |
| `Queries.MarkCategory` | main.py:53-57 | a marks cell is high exactly at 90 or above, low exactly below 40, otherwise middle |
| `Queries.MarkCategoryMatchesRemark` | main.py:56 | the printer's high and low thresholds coincide with the Outstanding and Critical remark bands |
| `Queries.StatusCells` | main.py:47-50 | a table with a Status column gets one status cell per row, paid exactly for "Paid"; a table without one gets no status cell |
| `Queries.PendingListing` | main.py:237 | the printed pending list has one line per pending row, in table order, holding only AdmissionNo, Name, Class, Quarter and Amount |
| `Queries.PendingListingShowsPending` | main.py:234-237 | every printed line comes from a pending row, and every pending row is printed |
| `Queries.PendingListingUnstyled` | main.py:236-237 | as written, the pending list has no Status column, so none of its cells gets a paid or unpaid style |
| `Queries.PendingRowNotShownRed` | main.py:236-237 | a table with one pending fee prints one line with no unpaid cell |
| `Queries.PendingShownUnpaid` | main.py:236 | with the Status column kept, as the comment there describes, each printed line gets a status cell and every one is unpaid |
| `Updates.InsertStudent` | main.py:192-200 | a taken admission number gives DuplicateKey and no new table; otherwise exactly one row is appended at the end and the earlier rows stay unchanged and in order |
| `Updates.DeleteStudent` | main.py:209-216 | an absent admission number gives NotFound; otherwise every row with that number is gone, every other row is kept, and the table shrinks |
| `Updates.InsertThenDelete` | main.py:192-212 | adding a fresh student and then deleting that admission number gives back the original table |
| `Updates.InsertKeepsKeysUnique` | main.py:193-199 | adding a student keeps admission numbers unique |
| `Updates.DeleteKeepsKeysUnique` | main.py:211-212 | deleting a student keeps admission numbers unique |
| `Updates.DeleteRemovesOneRow` | main.py:211-212 | with unique admission numbers, deleting an existing student removes exactly one row |
| `Updates.LoginAfterDelete` | main.py:211-212 | a deleted student cannot log in with any password |
| `Updates.LoginOwnRow` | main.py:141-146 | with unique admission numbers, every student logs in with their own stored password and is the row welcomed |
| `Updates.LoginAfterInsert` | main.py:196-199 | a newly added student logs in with the password just set and is the row welcomed |
| `Updates.SetPaid` | main.py:250 | every row matching (AdmissionNo, Quarter) gets Status "Paid"; no other field changes; non-matching rows are unchanged |
| `Updates.PayFee` | main.py:244-252 | NotFound exactly when no row matches (AdmissionNo, Quarter); otherwise the written table is the status-set table |
| `Updates.PayFeeIdempotent` | main.py:244-252 | paying the same quarter twice has the same result as paying it once |
| `Updates.RevenueAfterPayment` | main.py:250 | a payment raises revenue by exactly the amounts of the matching rows that were not already paid |
| `Updates.PendingAfterPayment` | main.py:250 | after a payment, the pending list is the old pending list without the matching rows, in the same order |
| `Updates.PaymentLeavesOthers` | main.py:245-250 | a payment leaves every other student's fee rows unchanged |
| `Updates.SetMarks` | main.py:294 | every row matching (AdmissionNo, Subject, Exam) gets the new Marks with no range check; no other field changes; non-matching rows are unchanged |
| `Updates.UpdateMarks` | main.py:288-296 | NotFound exactly when no row matches (AdmissionNo, Subject, Exam); otherwise the written table is the overwritten table |
| `Updates.UpdateMarksLastWins` | main.py:288-296 | after two updates of the same mark, the table is as if only the second had been made |
| `Updates.MarkUpdateLeavesOthers` | main.py:289-294 | updating one student's mark leaves every other student's marks and remark unchanged |
| `Sheets.FeeSheet.PayQuarter` | main.py:244-252 | the in-place loop writes exactly the table `PayFee` gives; when nothing matches, it reports NotFound and the sheet is unchanged |
| `Sheets.MarkSheet.SetStudentMarks` | main.py:288-296 | the in-place loop writes exactly the table `UpdateMarks` gives; when nothing matches, it reports NotFound and the sheet is unchanged |
| `Generator.GenerateStudents` | data.py:13-29 | 120 rows, row i being student i: admission number 1001+i, class i div 10 + 1, name "Student_"+number, password "pass"+number, the drawn section; numbers strictly increasing; classes 1..12; sections A or B |
| `Generator.RosterKeysUnique` | data.py:15-28 | generated admission numbers are pairwise distinct |
| `Generator.RosterCredentialsDistinct` | data.py:20-25 | generated names, and generated passwords, are pairwise distinct |
| `Generator.ClassOfTen` | data.py:17-23 | the listing of each class 1..12 is exactly its ten consecutive students, in admission order |
| `Generator.GeneratedLogin` | data.py:25 | every generated student logs in with "pass" + admission number, and is the row welcomed |
| `Generator.GenerateMarks` | data.py:31-48 | ten rows per student in student order; within a student, exams in order (Mid-Term, Finals) and within an exam subjects in order; number, name and class copied from the student; marks in 35..100; every admission number is one of the students' |
| `Generator.MarksOfStudent` | data.py:33-47 | with distinct admission numbers, a student's marks view is exactly their ten generated rows |
| `Generator.EveryStudentHasRemark` | data.py:33-47 | every generated student gets a remark: the band of the total of their ten rows over ten |
| `Generator.GenerateFees` | data.py:50-67 | four rows per student, Q1..Q4 in order; amount 2000 + 500 × class; status Paid or Pending; every admission number is one of the students' |
| `Generator.RevenuePlusPending` | data.py:58 | when every status is Paid or Pending, revenue plus the pending amounts equals the sum of all amounts |
| `Generator.GenerateAttendance` | data.py:69-84 | five rows per student in month order; TotalDays 24; PresentDays in 15..24, so never above TotalDays; every admission number is one of the students' |
| `Generator.GenerateTeachers` | data.py:86-99 | 18 rows: five subjects each for the first three names, Math only for the last three; IDs "T00"+1..18; salaries in 30000..60000 |
| `Generator.TeacherIdsDistinct` | data.py:88-97 | the generated teacher IDs are pairwise distinct |

## Findings

| source | as written | input that shows it | evidently intended | confidence | as-written member | corrected member |
|---|---|---|---|---|---|---|
| main.py:236-237 | the pending list reaches the printer cut down to AdmissionNo, Name, Class, Quarter and Amount. The printer styles status cells only when a Status column is present (main.py:47), so no pending row is printed red | a fees table with one row whose Status is "Pending" | the comment at main.py:236 says pending rows are turned red, which needs the Status column kept | not executed; medium (the comment and the call disagree, and either could be the intent) | `Queries.PendingRowNotShownRed` | `Queries.PendingShownUnpaid` |

## Left out

- The menu loops, prompts, `int()` parsing and the `ValueError`/`Exception` handlers are interactive plumbing. Every operation takes its inputs already parsed.
- Loading and saving the CSV files, the missing-file check and `sys.exit` are file I/O through pandas. Each table is an in-memory value, so no load/save round-trip is modelled.
- Password masking, colour codes, tabulate rendering, banners and `time.sleep` are presentation or foreign libraries. Only the printer's cell categories and the remark sentences are kept.
- The "No records found" message for an empty table is presentation. So is the choice of displayed columns: apart from the pending-fee listing, whose missing Status column matters to its styling, the views return whole rows.
- `random.choice` and `random.randint` are not modelled. The caller supplies the drawn values, constrained to the ranges drawn from.
- The attendance `Percentage` column is left out: its value is rounded to two places in floating point.
- The `:.2f` and `:,.2f` formatting of the average and the revenue is left out.
- `create_files` only writes the files and prints; it is left out.
- Updates.LoginAfterInsert: holds on the in-memory table only. The table is saved to CSV and read back before each login. `read_csv` turns a stored password of "", "NA", "N/A", "NULL", "null", "nan" or "None" (among pandas' default missing-value markers) into NaN, and NaN never equals the typed password, so such a student can never log in.
- Updates.LoginOwnRow: same restriction as LoginAfterInsert; passwords that `read_csv` reads back as missing values never match.
- Queries.AverageMarks: the mean is the exact rational total/count, not the floating-point `mean()`, so bands are decided without rounding.

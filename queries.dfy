/** The read-only side of the application: the remark bands, the per-student
    views of the student panel, the admin listings and the revenue figure,
    the two credential checks, and the cell categories the table printer
    colours by. */
module Queries {
  import opened Tables

  // ---------------------------------------------------------------------
  // Remarks on the average mark
  // ---------------------------------------------------------------------

  /** The five performance bands, best first. */
  datatype Band = Outstanding | VeryGood | Good | Average | Critical

  /** Position of a band on the scale: Critical is 0, Outstanding is 4. */
  function Rank(b: Band): nat
  {
    match b
    case Critical => 0
    case Average => 1
    case Good => 2
    case VeryGood => 3
    case Outstanding => 4
  }

  /** The interval of averages each band stands for: inclusive lower bounds
      of 90, 75, 60 and 40, and everything below 40 is Critical. */
  predicate InBand(avg: real, b: Band)
  {
    match b
    case Outstanding => 90.0 <= avg
    case VeryGood => 75.0 <= avg < 90.0
    case Good => 60.0 <= avg < 75.0
    case Average => 40.0 <= avg < 60.0
    case Critical => avg < 40.0
  }

  /** The band of an average, tried from the top, first match wins. */
  function Remark(avg: real): (b: Band)
    ensures InBand(avg, b)
  {
    if avg >= 90.0 then Outstanding
    else if avg >= 75.0 then VeryGood
    else if avg >= 60.0 then Good
    else if avg >= 40.0 then Average
    else Critical
  }

  /** The bands do not overlap, so the band of an average is the only one containing it. */
  lemma RemarkIsTheOnlyBand(avg: real, b: Band)
    requires InBand(avg, b)
    ensures Remark(avg) == b
  {
  }

  /** A lower average never earns a better band. */
  lemma RemarkMonotone(lower: real, higher: real)
    requires lower <= higher
    ensures Rank(Remark(lower)) <= Rank(Remark(higher))
  {
  }

  /** The word a remark sentence opens with: the name of its band. */
  function BandName(b: Band): string
  {
    match b
    case Outstanding => "Outstanding"
    case VeryGood => "Very Good"
    case Good => "Good"
    case Average => "Average"
    case Critical => "Critical"
  }

  /** The sentence shown for each band (the colour in front of it is not
      modelled); it opens with the band's name. */
  function RemarkMessage(b: Band): (msg: string)
    ensures BandName(b) <= msg
  {
    match b
    case Outstanding => "Outstanding performance! Keep it up."
    case VeryGood => "Very Good. Work a bit harder for top ranks."
    case Good => "Good. Needs improvement in consistency."
    case Average => "Average. Must focus on studies."
    case Critical => "Critical. Parents meeting required."
  }

  /** The five remark sentences are pairwise different, so the printed
      sentence tells which band the student is in. */
  lemma RemarkMessageIdentifiesBand(a: Band, b: Band)
    requires RemarkMessage(a) == RemarkMessage(b)
    ensures a == b
  {
  }

  /** The band of the average `total / count`, decided on integers alone. */
  function BandOfTotals(total: int, count: nat): Band
    requires count > 0
  {
    if total >= 90 * count then Outstanding
    else if total >= 75 * count then VeryGood
    else if total >= 60 * count then Good
    else if total >= 40 * count then Average
    else Critical
  }

  lemma QuotientAtLeast(total: real, count: real, bound: real)
    requires count > 0.0
    ensures (total / count >= bound) <==> (total >= bound * count)
  {
    var q := total / count;
    assert q * count == total;
    if q >= bound {
      assert q * count >= bound * count;
    } else {
      assert q * count < bound * count;
    }
  }

  /** Dividing first and comparing with the band bounds gives the same band
      as comparing the total with bound times count: no rounding is involved. */
  lemma RemarkOfTotals(total: int, count: nat)
    requires count > 0
    ensures Remark(total as real / count as real) == BandOfTotals(total, count)
  {
    var t, c := total as real, count as real;
    QuotientAtLeast(t, c, 90.0);
    QuotientAtLeast(t, c, 75.0);
    QuotientAtLeast(t, c, 60.0);
    QuotientAtLeast(t, c, 40.0);
  }

  // ---------------------------------------------------------------------
  // Student panel: the logged-in student's own rows
  // ---------------------------------------------------------------------

  function StudentAttendance(rows: seq<Attendance>, adm: int): (r: seq<Attendance>)
    ensures forall i :: 0 <= i < |r| ==> r[i] in rows && r[i].AdmissionNo == adm
    ensures forall i :: 0 <= i < |rows| && rows[i].AdmissionNo == adm ==> rows[i] in r
  {
    Where(rows, (a: Attendance) => a.AdmissionNo == adm)
  }

  function StudentMarks(rows: seq<Mark>, adm: int): (r: seq<Mark>)
    ensures forall i :: 0 <= i < |r| ==> r[i] in rows && r[i].AdmissionNo == adm
    ensures forall i :: 0 <= i < |rows| && rows[i].AdmissionNo == adm ==> rows[i] in r
  {
    Where(rows, (m: Mark) => m.AdmissionNo == adm)
  }

  function StudentFees(rows: seq<Fee>, adm: int): (r: seq<Fee>)
    ensures forall i :: 0 <= i < |r| ==> r[i] in rows && r[i].AdmissionNo == adm
    ensures forall i :: 0 <= i < |rows| && rows[i].AdmissionNo == adm ==> rows[i] in r
  {
    Where(rows, (f: Fee) => f.AdmissionNo == adm)
  }

  function MarksColumn(m: Mark): int { m.Marks }

  /** The student's mean mark, or None when the student has no marks row:
      the mean is only taken over a non-empty set, so nothing is divided by zero. */
  function AverageMarks(rows: seq<Mark>, adm: int): (r: Option<real>)
    ensures r.None? <==> forall i :: 0 <= i < |rows| ==> rows[i].AdmissionNo != adm
    ensures r.Some? ==>
      r.value * |StudentMarks(rows, adm)| as real == Total(StudentMarks(rows, adm), MarksColumn) as real
  {
    var mine := StudentMarks(rows, adm);
    NoMarksView(rows, adm);
    if mine == [] then None
    else
      QuotientTimesDivisor(Total(mine, MarksColumn) as real, |mine| as real);
      Some(Total(mine, MarksColumn) as real / |mine| as real)
  }

  /** A student's marks view is empty exactly when no row carries their admission number. */
  lemma NoMarksView(rows: seq<Mark>, adm: int)
    ensures StudentMarks(rows, adm) == [] <==> forall i :: 0 <= i < |rows| ==> rows[i].AdmissionNo != adm
  {
    var mine := StudentMarks(rows, adm);
    if mine != [] {
      assert mine[0] in rows && mine[0].AdmissionNo == adm;
      var i :| 0 <= i < |rows| && rows[i] == mine[0];
      assert rows[i].AdmissionNo == adm;
    }
  }

  lemma QuotientTimesDivisor(total: real, count: real)
    requires count > 0.0
    ensures (total / count) * count == total
  {
  }

  /** The remark of the "View Remarks" screen; None is its "no marks available" branch. */
  function StudentRemark(rows: seq<Mark>, adm: int): (r: Option<Band>)
    ensures r.None? <==> forall i :: 0 <= i < |rows| ==> rows[i].AdmissionNo != adm
    ensures r.Some? ==>
      var mine := StudentMarks(rows, adm);
      |mine| > 0 && r.value == BandOfTotals(Total(mine, MarksColumn), |mine|)
  {
    match AverageMarks(rows, adm)
    case None => None
    case Some(avg) =>
      var mine := StudentMarks(rows, adm);
      RemarkOfTotals(Total(mine, MarksColumn), |mine|);
      Some(Remark(avg))
  }

  // ---------------------------------------------------------------------
  // Admin listings
  // ---------------------------------------------------------------------

  /** "Show Students (By Class)": class 0 lists everybody, any other number
      lists exactly that class. */
  function ClassRoster(students: seq<Student>, cls: int): (r: seq<Student>)
    ensures cls == 0 ==> r == students
    ensures cls != 0 ==> forall i :: 0 <= i < |r| ==> r[i] in students && r[i].Class == cls
    ensures cls != 0 ==> forall i :: 0 <= i < |students| && students[i].Class == cls ==> students[i] in r
  {
    if cls == 0 then students else Where(students, (s: Student) => s.Class == cls)
  }

  const MarksPreviewLength: nat := 20

  /** "View Class Marks": the first 20 marks rows of the class (no special case for 0). */
  function ClassMarks(rows: seq<Mark>, cls: int): (r: seq<Mark>)
    ensures |r| <= MarksPreviewLength
    ensures forall i :: 0 <= i < |r| ==> r[i] in rows && r[i].Class == cls
    ensures var all := Where(rows, (m: Mark) => m.Class == cls);
      |r| <= |all| && r == all[..|r|] && (|r| < MarksPreviewLength ==> r == all)
  {
    var all := Where(rows, (m: Mark) => m.Class == cls);
    if |all| <= MarksPreviewLength then all else all[..MarksPreviewLength]
  }

  /** "Show Pending Fees": the rows whose status is "Pending", in table order. */
  function PendingFees(rows: seq<Fee>): (r: seq<Fee>)
    ensures forall i :: 0 <= i < |r| ==> r[i] in rows && r[i].Status == Pending
    ensures forall i :: 0 <= i < |rows| && rows[i].Status == Pending ==> rows[i] in r
  {
    Where(rows, (f: Fee) => f.Status == Pending)
  }

  function AmountColumn(f: Fee): int { f.Amount }

  /** What a row contributes to the revenue: its amount when paid, nothing otherwise. */
  function PaidAmount(f: Fee): int { if f.Status == Paid then f.Amount else 0 }

  /** "Show Revenue": the Amount column summed over the rows whose status is
      "Paid", which is the row-by-row sum of the amounts of exactly the paid rows. */
  function Revenue(rows: seq<Fee>): (r: int)
    ensures r == Total(rows, PaidAmount)
  {
    RevenueByRow(rows);
    Total(Where(rows, (f: Fee) => f.Status == Paid), AmountColumn)
  }

  /** Summing the amounts of the paid rows after filtering is summing each
      row's paid amount over the whole table. */
  lemma {:induction false} RevenueByRow(rows: seq<Fee>)
    ensures Total(Where(rows, (f: Fee) => f.Status == Paid), AmountColumn) == Total(rows, PaidAmount)
  {
    if rows != [] {
      RevenueByRow(rows[1..]);
      WhereAppend([rows[0]], rows[1..], (f: Fee) => f.Status == Paid);
      assert [rows[0]] + rows[1..] == rows;
      TotalAppend(Where([rows[0]], (f: Fee) => f.Status == Paid), Where(rows[1..], (f: Fee) => f.Status == Paid), AmountColumn);
    }
  }

  /** Revenue is additive over a split of the fees table. */
  lemma RevenueAppend(a: seq<Fee>, b: seq<Fee>)
    ensures Revenue(a + b) == Revenue(a) + Revenue(b)
  {
    WhereAppend(a, b, (f: Fee) => f.Status == Paid);
    TotalAppend(Where(a, (f: Fee) => f.Status == Paid), Where(b, (f: Fee) => f.Status == Paid), AmountColumn);
  }

  // ---------------------------------------------------------------------
  // Credentials
  // ---------------------------------------------------------------------

  /** Student login: the first row whose admission number and password both
      match (its Name is the one welcomed), or None for invalid credentials. */
  function StudentLogin(students: seq<Student>, adm: int, password: string): (r: Option<Student>)
    ensures r.Some? <==>
      exists i :: 0 <= i < |students| && students[i].AdmissionNo == adm && students[i].Password == password
    ensures r.Some? ==> r.value in students && r.value.AdmissionNo == adm && r.value.Password == password
  {
    var user := Where(students, (s: Student) => s.AdmissionNo == adm && s.Password == password);
    if user == [] then None else Some(user[0])
  }

  const AdminUser: string := "admin"
  const AdminPassword: string := "admin123"

  /** Admin login: the one hard-coded pair, compared in plain text. */
  function AdminLogin(user: string, password: string): (granted: bool)
    ensures granted <==> user == "admin" && password == "admin123"
  {
    user == AdminUser && password == AdminPassword
  }

  // ---------------------------------------------------------------------
  // Cell categories of the table printer
  // ---------------------------------------------------------------------

  /** Status cells: "Paid" is shown green, every other value red. */
  datatype StatusStyle = PaidCell | UnpaidCell

  function StatusCategory(status: string): (c: StatusStyle)
    ensures c == PaidCell <==> status == Paid
  {
    if status == Paid then PaidCell else UnpaidCell
  }

  /** Marks cells: 90 and above green, below 40 red, the rest yellow. */
  datatype MarkStyle = HighMark | MidMark | LowMark

  function MarkCategory(marks: int): (c: MarkStyle)
    ensures c == HighMark <==> marks >= 90
    ensures c == LowMark <==> marks < 40
  {
    if marks >= 90 then HighMark else if marks < 40 then LowMark else MidMark
  }

  /** The printer's high and low cells coincide with the top and bottom remark bands. */
  lemma MarkCategoryMatchesRemark(marks: int)
    ensures MarkCategory(marks) == HighMark <==> Remark(marks as real) == Outstanding
    ensures MarkCategory(marks) == LowMark <==> Remark(marks as real) == Critical
    ensures MarkCategory(marks) == MidMark <==> 1 <= Rank(Remark(marks as real)) <= 3
  {
  }

  /** The printer's status rule: when the table handed to it has a Status
      column, every status cell gets its category; otherwise no cell does. */
  function StatusCells(columns: seq<string>, statuses: seq<string>): (cells: seq<StatusStyle>)
    ensures "Status" !in columns ==> cells == []
    ensures "Status" in columns ==> |cells| == |statuses|
    ensures "Status" in columns ==> forall i :: 0 <= i < |cells| ==> (cells[i] == PaidCell <==> statuses[i] == Paid)
  {
    if "Status" in columns then seq(|statuses|, i requires 0 <= i < |statuses| => StatusCategory(statuses[i]))
    else []
  }

  /** The Status column of a fees table. */
  function StatusColumn(rows: seq<Fee>): (statuses: seq<string>)
    ensures |statuses| == |rows|
    ensures forall i :: 0 <= i < |rows| ==> statuses[i] == rows[i].Status
  {
    seq(|rows|, i requires 0 <= i < |rows| => rows[i].Status)
  }

  // ---------------------------------------------------------------------
  // The pending-fee listing as printed
  // ---------------------------------------------------------------------

  /** A line of the pending-fee listing: a fee row cut down to the five
      columns printed, without its Status. */
  datatype PendingLine = PendingLine(AdmissionNo: int, Name: string, Class: int, Quarter: string, Amount: int)

  const PendingColumns: seq<string> := ["AdmissionNo", "Name", "Class", "Quarter", "Amount"]

  function LineOf(f: Fee): PendingLine
  {
    PendingLine(f.AdmissionNo, f.Name, f.Class, f.Quarter, f.Amount)
  }

  /** "Show Pending Fees" as printed: the pending rows in table order, each
      projected onto PendingColumns. */
  function PendingListing(rows: seq<Fee>): (lines: seq<PendingLine>)
    ensures |lines| == |PendingFees(rows)|
    ensures forall i :: 0 <= i < |lines| ==> lines[i] == LineOf(PendingFees(rows)[i])
  {
    var pending := PendingFees(rows);
    seq(|pending|, i requires 0 <= i < |pending| => LineOf(pending[i]))
  }

  /** The listing shows a line for exactly the pending rows of the table. */
  lemma PendingListingShowsPending(rows: seq<Fee>)
    ensures forall i :: 0 <= i < |PendingListing(rows)| ==>
      exists f :: f in rows && f.Status == Pending && PendingListing(rows)[i] == LineOf(f)
    ensures forall j :: 0 <= j < |rows| && rows[j].Status == Pending ==> LineOf(rows[j]) in PendingListing(rows)
  {
    var pending, lines := PendingFees(rows), PendingListing(rows);
    forall i | 0 <= i < |lines|
      ensures exists f :: f in rows && f.Status == Pending && PendingListing(rows)[i] == LineOf(f)
    {
      var f := pending[i];
      assert f in rows && f.Status == Pending && PendingListing(rows)[i] == LineOf(f);
    }
    assert forall i :: 0 <= i < |PendingListing(rows)| ==>
      exists f :: f in rows && f.Status == Pending && PendingListing(rows)[i] == LineOf(f);
    forall j | 0 <= j < |rows| && rows[j].Status == Pending
      ensures LineOf(rows[j]) in lines
    {
      assert rows[j] in pending;
      var i :| 0 <= i < |pending| && pending[i] == rows[j];
      assert lines[i] == LineOf(rows[j]);
    }
  }

  /** As written, the listing has no Status column, so the printer styles
      none of its status cells, whatever the table holds. */
  lemma PendingListingUnstyled(rows: seq<Fee>)
    ensures "Status" !in PendingColumns
    ensures StatusCells(PendingColumns, StatusColumn(PendingFees(rows))) == []
  {
  }

  /** A table with one pending fee: the listing shows its line, yet no cell
      of it is styled unpaid. */
  lemma PendingRowNotShownRed()
    ensures var rows := [Fee(1001, "Student_1001", 1, "Q1", 2500, Pending)];
      && |PendingListing(rows)| == 1
      && StatusCells(PendingColumns, StatusColumn(PendingFees(rows))) == []
  {
    var rows := [Fee(1001, "Student_1001", 1, "Q1", 2500, Pending)];
    assert PendingFees(rows) == rows;
  }

  /** The listing the comment beside the call describes: the same rows with
      their Status column kept. */
  const PendingColumnsWithStatus: seq<string> := PendingColumns + ["Status"]

  /** With the Status column kept, every line of the pending listing gets a
      status cell, and every such cell is styled unpaid. */
  lemma PendingShownUnpaid(rows: seq<Fee>)
    ensures var cells := StatusCells(PendingColumnsWithStatus, StatusColumn(PendingFees(rows)));
      && |cells| == |PendingListing(rows)|
      && forall i :: 0 <= i < |cells| ==> cells[i] == UnpaidCell
  {
    assert PendingColumnsWithStatus[5] == "Status";
  }
}

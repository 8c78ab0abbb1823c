/** The fixture generator: five tables built row by row by nested loops.
    The random draws (`random.choice`, `random.randint`) are passed in as
    sequences, one draw per generated row in generation order, constrained
    to the ranges the generator draws from; everything else is the
    generator's fixed layout. */
module Generator {
  import opened Tables
  import opened Decimal
  import opened Queries
  import Updates

  const ClassCount: nat := 12
  const StudentsPerClass: nat := 10
  const StudentCount: nat := 120
  const FirstAdmissionNo: nat := 1001

  const Sections: seq<string> := ["A", "B"]
  const Subjects: seq<string> := ["Math", "English", "Science", "CS", "IP"]
  const Exams: seq<string> := ["Mid-Term", "Finals"]
  const TeacherNames: seq<string> := ["Mr. Sharma", "Mrs. Gupta", "Mr. Singh", "Ms. Lee", "Mr. Khan", "Mrs. Davis"]
  const Quarters: seq<string> := ["Q1", "Q2", "Q3", "Q4"]
  const Months: seq<string> := ["April", "May", "July", "August", "September"]

  const MarksPerStudent: nat := 10
  const FeesPerStudent: nat := 4
  const AttendancePerStudent: nat := 5
  const DaysPerMonth: int := 24
  const TeacherCount: nat := 18

  /** The admission numbers of a students table, the targets of every foreign key. */
  function AdmissionNos(students: seq<Student>): set<int>
  {
    set s | s in students :: s.AdmissionNo
  }

  // ---------------------------------------------------------------------
  // Students
  // ---------------------------------------------------------------------

  /** The i-th generated student: admission number 1001 + i, ten per class
      from class 1 upward, name and password derived from the number. */
  function StudentAt(i: nat, section: string): Student
  {
    var adm := FirstAdmissionNo + i;
    Student(adm, "Student_" + NatToString(adm), i / StudentsPerClass + 1, section, "pass" + NatToString(adm))
  }

  ghost predicate IsStudentRoster(students: seq<Student>, sections: seq<string>)
  {
    && |sections| == StudentCount
    && |students| == StudentCount
    && forall i :: 0 <= i < |students| ==> students[i] == StudentAt(i, sections[i])
  }

  /** Appending the next student of class `cls` keeps the rows written so
      far equal to the roster's first rows. */
  lemma StudentRowsExtend(students: seq<Student>, sections: seq<string>, cls: nat)
    requires |students| < |sections|
    requires |students| / StudentsPerClass + 1 == cls
    requires forall k :: 0 <= k < |students| ==> students[k] == StudentAt(k, sections[k])
    ensures var adm := FirstAdmissionNo + |students|;
      var longer := students + [Student(adm, "Student_" + NatToString(adm), cls, sections[|students|], "pass" + NatToString(adm))];
      forall k :: 0 <= k < |longer| ==> longer[k] == StudentAt(k, sections[k])
  {
    var adm := FirstAdmissionNo + |students|;
    var row := Student(adm, "Student_" + NatToString(adm), cls, sections[|students|], "pass" + NatToString(adm));
    assert row == StudentAt(|students|, sections[|students|]);
    var longer := students + [row];
    forall k | 0 <= k < |longer| ensures longer[k] == StudentAt(k, sections[k]) {
      if k < |students| {
        assert longer[k] == students[k];
      } else {
        assert k == |students| && longer[k] == row;
      }
    }
  }

  /** `sections[i]` is the section drawn for the i-th student. */
  method GenerateStudents(sections: seq<string>) returns (students: seq<Student>)
    requires |sections| == StudentCount
    requires forall i :: 0 <= i < |sections| ==> sections[i] in Sections
    ensures IsStudentRoster(students, sections)
    ensures forall i, j :: 0 <= i < j < |students| ==> students[i].AdmissionNo < students[j].AdmissionNo
    ensures forall i :: 0 <= i < |students| ==> 1 <= students[i].Class <= ClassCount && students[i].Section in Sections
  {
    students := [];
    var admCounter := FirstAdmissionNo;
    var cls := 1;
    while cls <= ClassCount
      invariant 1 <= cls <= ClassCount + 1
      invariant |students| == StudentsPerClass * (cls - 1)
      invariant admCounter == FirstAdmissionNo + |students|
      invariant forall k :: 0 <= k < |students| ==> students[k] == StudentAt(k, sections[k])
    {
      var i := 0;
      while i < StudentsPerClass
        invariant 0 <= i <= StudentsPerClass
        invariant |students| == StudentsPerClass * (cls - 1) + i
        invariant admCounter == FirstAdmissionNo + |students|
        invariant forall k :: 0 <= k < |students| ==> students[k] == StudentAt(k, sections[k])
      {
        StudentRowsExtend(students, sections, cls);
        var student := Student(admCounter, "Student_" + NatToString(admCounter), cls,
                               sections[|students|], "pass" + NatToString(admCounter));
        students := students + [student];
        admCounter := admCounter + 1;
        i := i + 1;
      }
      cls := cls + 1;
    }
  }

  /** Generated admission numbers are pairwise distinct. */
  lemma RosterKeysUnique(students: seq<Student>, sections: seq<string>)
    requires IsStudentRoster(students, sections)
    ensures Updates.UniqueKeys(students)
  {
  }

  /** Generated names and passwords are pairwise distinct too. */
  lemma RosterCredentialsDistinct(students: seq<Student>, sections: seq<string>, i: nat, j: nat)
    requires IsStudentRoster(students, sections)
    requires i < j < |students|
    ensures students[i].Name != students[j].Name
    ensures students[i].Password != students[j].Password
  {
    if students[i].Name == students[j].Name {
      PrefixedInjective("Student_", FirstAdmissionNo + i, FirstAdmissionNo + j);
    }
    if students[i].Password == students[j].Password {
      PrefixedInjective("pass", FirstAdmissionNo + i, FirstAdmissionNo + j);
    }
  }

  /** Each class 1..12 lists exactly its ten consecutive students, in admission order. */
  lemma ClassOfTen(students: seq<Student>, sections: seq<string>, cls: int)
    requires IsStudentRoster(students, sections)
    requires 1 <= cls <= ClassCount
    ensures ClassRoster(students, cls) == students[StudentsPerClass * (cls - 1)..StudentsPerClass * cls]
    ensures |ClassRoster(students, cls)| == StudentsPerClass
  {
    var lo, hi := StudentsPerClass * (cls - 1), StudentsPerClass * cls;
    forall k | 0 <= k < |students| ensures students[k].Class == cls <==> lo <= k < hi {
      assert students[k] == StudentAt(k, sections[k]);
    }
    WhereBlock(students, (s: Student) => s.Class == cls, lo, hi);
  }

  /** Every generated student logs in with the password "pass" + admission
      number, and is the row welcomed. */
  lemma GeneratedLogin(students: seq<Student>, sections: seq<string>, i: nat)
    requires IsStudentRoster(students, sections)
    requires i < |students|
    ensures StudentLogin(students, FirstAdmissionNo + i, "pass" + NatToString(FirstAdmissionNo + i)) == Some(students[i])
  {
    RosterKeysUnique(students, sections);
    assert students[i] == StudentAt(i, sections[i]);
    Updates.LoginOwnRow(students, i);
  }

  // ---------------------------------------------------------------------
  // Marks
  // ---------------------------------------------------------------------

  /** The k-th marks row of a student: exams in order, and within an exam
      the subjects in order. */
  function MarkAt(student: Student, k: nat, marks: int): Mark
    requires k < MarksPerStudent
  {
    Mark(student.AdmissionNo, student.Name, student.Class, Exams[k / |Subjects|], Subjects[k % |Subjects|], marks)
  }

  ghost predicate IsMarksLayout(students: seq<Student>, draws: seq<int>, marks: seq<Mark>)
  {
    && |draws| == MarksPerStudent * |students|
    && |marks| == MarksPerStudent * |students|
    && forall k :: 0 <= k < |marks| ==> marks[k] == MarkAt(students[k / MarksPerStudent], k % MarksPerStudent, draws[k])
  }

  /** `draws[k]` is the mark drawn for the k-th generated row. */
  method GenerateMarks(students: seq<Student>, draws: seq<int>) returns (marks: seq<Mark>)
    requires |draws| == MarksPerStudent * |students|
    requires forall k :: 0 <= k < |draws| ==> 35 <= draws[k] <= 100
    ensures IsMarksLayout(students, draws, marks)
    ensures forall k :: 0 <= k < |marks| ==> 35 <= marks[k].Marks <= 100
    ensures forall k :: 0 <= k < |marks| ==> marks[k].AdmissionNo in AdmissionNos(students)
  {
    marks := [];
    var n := 0;
    while n < |students|
      invariant 0 <= n <= |students|
      invariant |marks| == MarksPerStudent * n
      invariant forall k :: 0 <= k < |marks| ==> marks[k] == MarkAt(students[k / MarksPerStudent], k % MarksPerStudent, draws[k])
    {
      var row := students[n];
      var e := 0;
      while e < |Exams|
        invariant 0 <= e <= |Exams|
        invariant |marks| == MarksPerStudent * n + |Subjects| * e
        invariant forall k :: 0 <= k < |marks| ==> marks[k] == MarkAt(students[k / MarksPerStudent], k % MarksPerStudent, draws[k])
      {
        var s := 0;
        while s < |Subjects|
          invariant 0 <= s <= |Subjects|
          invariant |marks| == MarksPerStudent * n + |Subjects| * e + s
          invariant forall k :: 0 <= k < |marks| ==> marks[k] == MarkAt(students[k / MarksPerStudent], k % MarksPerStudent, draws[k])
        {
          var k := |marks|;
          assert k / MarksPerStudent == n && k % MarksPerStudent == |Subjects| * e + s && (k % MarksPerStudent) / |Subjects| == e && (k % MarksPerStudent) % |Subjects| == s;
          marks := marks + [Mark(row.AdmissionNo, row.Name, row.Class, Exams[e], Subjects[s], draws[k])];
          s := s + 1;
        }
        e := e + 1;
      }
      n := n + 1;
    }
    forall k | 0 <= k < |marks| ensures marks[k].AdmissionNo in AdmissionNos(students) {
      assert students[k / MarksPerStudent] in students;
    }
  }

  /** With distinct admission numbers, a student's marks are exactly the ten
      rows generated for that student, in generation order. */
  lemma MarksOfStudent(students: seq<Student>, draws: seq<int>, marks: seq<Mark>, i: nat)
    requires IsMarksLayout(students, draws, marks)
    requires Updates.UniqueKeys(students)
    requires i < |students|
    ensures StudentMarks(marks, students[i].AdmissionNo) == marks[MarksPerStudent * i..MarksPerStudent * (i + 1)]
  {
    var lo, hi := MarksPerStudent * i, MarksPerStudent * (i + 1);
    var adm := students[i].AdmissionNo;
    forall k | 0 <= k < |marks| ensures marks[k].AdmissionNo == adm <==> lo <= k < hi {
      assert marks[k].AdmissionNo == students[k / MarksPerStudent].AdmissionNo;
    }
    WhereBlock(marks, (m: Mark) => m.AdmissionNo == adm, lo, hi);
  }

  /** Every generated student gets a remark, and it is the band of the mean
      of their ten generated marks. */
  lemma EveryStudentHasRemark(students: seq<Student>, draws: seq<int>, marks: seq<Mark>, i: nat)
    requires IsMarksLayout(students, draws, marks)
    requires Updates.UniqueKeys(students)
    requires i < |students|
    ensures StudentRemark(marks, students[i].AdmissionNo)
         == Some(BandOfTotals(Total(marks[MarksPerStudent * i..MarksPerStudent * (i + 1)], MarksColumn), MarksPerStudent))
  {
    MarksOfStudent(students, draws, marks, i);
    assert marks[MarksPerStudent * i].AdmissionNo == students[i].AdmissionNo;
  }

  // ---------------------------------------------------------------------
  // Fees
  // ---------------------------------------------------------------------

  /** The quarterly fee of a class. */
  function FeeOfClass(cls: int): int
  {
    2000 + cls * 500
  }

  /** The q-th fee row of a student: quarters Q1..Q4 in order. */
  function FeeAt(student: Student, q: nat, status: string): Fee
    requires q < FeesPerStudent
  {
    Fee(student.AdmissionNo, student.Name, student.Class, Quarters[q], FeeOfClass(student.Class), status)
  }

  /** `statuses[k]` is the status drawn for the k-th generated row, from
      Paid, Paid, Paid, Pending. */
  method GenerateFees(students: seq<Student>, statuses: seq<string>) returns (fees: seq<Fee>)
    requires |statuses| == FeesPerStudent * |students|
    requires forall k :: 0 <= k < |statuses| ==> statuses[k] == Paid || statuses[k] == Pending
    ensures |fees| == FeesPerStudent * |students|
    ensures forall k :: 0 <= k < |fees| ==> fees[k] == FeeAt(students[k / FeesPerStudent], k % FeesPerStudent, statuses[k])
    ensures forall k :: 0 <= k < |fees| ==> fees[k].Status == Paid || fees[k].Status == Pending
    ensures forall k :: 0 <= k < |fees| ==> fees[k].AdmissionNo in AdmissionNos(students)
  {
    fees := [];
    var n := 0;
    while n < |students|
      invariant 0 <= n <= |students|
      invariant |fees| == FeesPerStudent * n
      invariant forall k :: 0 <= k < |fees| ==> fees[k] == FeeAt(students[k / FeesPerStudent], k % FeesPerStudent, statuses[k])
    {
      var row := students[n];
      var baseFee := 2000 + row.Class * 500;
      var q := 0;
      while q < |Quarters|
        invariant 0 <= q <= |Quarters|
        invariant |fees| == FeesPerStudent * n + q
        invariant forall k :: 0 <= k < |fees| ==> fees[k] == FeeAt(students[k / FeesPerStudent], k % FeesPerStudent, statuses[k])
      {
        var k := |fees|;
        assert k / FeesPerStudent == n && k % FeesPerStudent == q;
        fees := fees + [Fee(row.AdmissionNo, row.Name, row.Class, Quarters[q], baseFee, statuses[k])];
        q := q + 1;
      }
      n := n + 1;
    }
    forall k | 0 <= k < |fees| ensures fees[k].AdmissionNo in AdmissionNos(students) {
      assert students[k / FeesPerStudent] in students;
    }
  }

  /** When every status is Paid or Pending, as generated, the collected
      revenue and the pending amounts add up to the whole fees table. */
  lemma {:induction false} RevenuePlusPending(fees: seq<Fee>)
    requires forall k :: 0 <= k < |fees| ==> fees[k].Status == Paid || fees[k].Status == Pending
    ensures Revenue(fees) + Total(PendingFees(fees), AmountColumn) == Total(fees, AmountColumn)
  {
    if fees != [] {
      RevenuePlusPending(fees[1..]);
      RevenueAppend([fees[0]], fees[1..]);
      assert [fees[0]] + fees[1..] == fees;
      WhereAppend([fees[0]], fees[1..], (f: Fee) => f.Status == Pending);
      TotalAppend(PendingFees([fees[0]]), PendingFees(fees[1..]), AmountColumn);
      assert [fees[0]][1..] == [];
    }
  }

  // ---------------------------------------------------------------------
  // Attendance
  // ---------------------------------------------------------------------

  function AttendanceAt(student: Student, m: nat, present: int): Attendance
    requires m < AttendancePerStudent
  {
    Attendance(student.AdmissionNo, student.Name, Months[m], present, DaysPerMonth)
  }

  /** `present[k]` is the number of days present drawn for the k-th generated row. */
  method GenerateAttendance(students: seq<Student>, present: seq<int>) returns (attendance: seq<Attendance>)
    requires |present| == AttendancePerStudent * |students|
    requires forall k :: 0 <= k < |present| ==> 15 <= present[k] <= 24
    ensures |attendance| == AttendancePerStudent * |students|
    ensures forall k :: 0 <= k < |attendance| ==> attendance[k] == AttendanceAt(students[k / AttendancePerStudent], k % AttendancePerStudent, present[k])
    ensures forall k :: 0 <= k < |attendance| ==> 0 < attendance[k].PresentDays <= attendance[k].TotalDays
    ensures forall k :: 0 <= k < |attendance| ==> attendance[k].AdmissionNo in AdmissionNos(students)
  {
    attendance := [];
    var n := 0;
    while n < |students|
      invariant 0 <= n <= |students|
      invariant |attendance| == AttendancePerStudent * n
      invariant forall k :: 0 <= k < |attendance| ==> attendance[k] == AttendanceAt(students[k / AttendancePerStudent], k % AttendancePerStudent, present[k])
    {
      var row := students[n];
      var m := 0;
      while m < |Months|
        invariant 0 <= m <= |Months|
        invariant |attendance| == AttendancePerStudent * n + m
        invariant forall k :: 0 <= k < |attendance| ==> attendance[k] == AttendanceAt(students[k / AttendancePerStudent], k % AttendancePerStudent, present[k])
      {
        var k := |attendance|;
        assert k / AttendancePerStudent == n && k % AttendancePerStudent == m;
        var totalDays := DaysPerMonth;
        attendance := attendance + [Attendance(row.AdmissionNo, row.Name, Months[m], present[k], totalDays)];
        m := m + 1;
      }
      n := n + 1;
    }
    forall k | 0 <= k < |attendance| ensures attendance[k].AdmissionNo in AdmissionNos(students) {
      assert students[k / AttendancePerStudent] in students;
    }
  }

  // ---------------------------------------------------------------------
  // Teachers
  // ---------------------------------------------------------------------

  function TeacherId(tid: nat): string
  {
    "T00" + NatToString(tid)
  }

  /** The k-th teacher row. The inner loop stops once the counter passes 15,
      and only the inner loop: the first three names get all five subjects
      (rows 0..14), and each of the last three gets one row, for Math. */
  function TeacherAt(k: nat, salary: int): Teacher
    requires k < TeacherCount
  {
    if k < 15 then Teacher(TeacherId(k + 1), TeacherNames[k / |Subjects|], Subjects[k % |Subjects|], salary)
    else Teacher(TeacherId(k + 1), TeacherNames[k - 12], Subjects[0], salary)
  }

  /** Rows written before the teacher with index `n` is reached. */
  function RowsBefore(n: nat): nat
  {
    if n <= 3 then 5 * n else 15 + (n - 3)
  }

  /** The row the loops write for name `n` and subject `s` is the layout's row. */
  lemma TeacherStep(n: nat, s: nat, salary: int)
    requires n < |TeacherNames| && s < |Subjects| && (n < 3 || s == 0)
    ensures RowsBefore(n) + s < TeacherCount
    ensures TeacherAt(RowsBefore(n) + s, salary)
         == Teacher(TeacherId(RowsBefore(n) + s + 1), TeacherNames[n], Subjects[s], salary)
  {
    if n < 3 {
      assert (5 * n + s) / |Subjects| == n && (5 * n + s) % |Subjects| == s;
    }
  }

  /** Appending the row for name `n` and subject `s` keeps the rows written so far
      equal to the layout's first rows. */
  lemma TeacherRowsExtend(teachers: seq<Teacher>, salaries: seq<int>, n: nat, s: nat)
    requires |salaries| == TeacherCount
    requires n < |TeacherNames| && s < |Subjects| && (n < 3 || s == 0)
    requires |teachers| == RowsBefore(n) + s
    requires forall k :: 0 <= k < |teachers| ==> teachers[k] == TeacherAt(k, salaries[k])
    ensures RowsBefore(n) + s < TeacherCount
    ensures var longer := teachers + [Teacher(TeacherId(|teachers| + 1), TeacherNames[n], Subjects[s], salaries[|teachers|])];
      forall k :: 0 <= k < |longer| ==> longer[k] == TeacherAt(k, salaries[k])
  {
    var row := Teacher(TeacherId(|teachers| + 1), TeacherNames[n], Subjects[s], salaries[|teachers|]);
    TeacherStep(n, s, salaries[|teachers|]);
    assert row == TeacherAt(|teachers|, salaries[|teachers|]);
    var longer := teachers + [row];
    forall k | 0 <= k < |longer| ensures longer[k] == TeacherAt(k, salaries[k]) {
      if k < |teachers| {
        assert longer[k] == teachers[k];
      } else {
        assert k == |teachers| && longer[k] == row;
      }
    }
  }

  /** `salaries[k]` is the salary drawn for the k-th generated row. */
  method GenerateTeachers(salaries: seq<int>) returns (teachers: seq<Teacher>)
    requires |salaries| == TeacherCount
    requires forall k :: 0 <= k < |salaries| ==> 30000 <= salaries[k] <= 60000
    ensures |teachers| == TeacherCount
    ensures forall k :: 0 <= k < |teachers| ==> teachers[k] == TeacherAt(k, salaries[k])
    ensures forall k :: 0 <= k < |teachers| ==> 30000 <= teachers[k].Salary <= 60000
  {
    teachers := [];
    var tid := 1;
    var n := 0;
    while n < |TeacherNames|
      invariant 0 <= n <= |TeacherNames|
      invariant |teachers| == RowsBefore(n)
      invariant tid == |teachers| + 1
      invariant forall k :: 0 <= k < |teachers| ==> teachers[k] == TeacherAt(k, salaries[k])
    {
      var name := TeacherNames[n];
      var s := 0;
      while s < |Subjects|
        invariant 0 <= s <= |Subjects|
        invariant n < 3 || s == 0
        invariant |teachers| == RowsBefore(n) + s
        invariant tid == |teachers| + 1
        invariant forall k :: 0 <= k < |teachers| ==> teachers[k] == TeacherAt(k, salaries[k])
      {
        TeacherRowsExtend(teachers, salaries, n, s);
        teachers := teachers + [Teacher(TeacherId(tid), name, Subjects[s], salaries[tid - 1])];
        tid := tid + 1;
        if tid > 15 {
          break;
        }
        s := s + 1;
      }
      n := n + 1;
    }
  }

  /** The generated teacher IDs "T00" + 1 .. "T00" + 18 are pairwise distinct. */
  lemma TeacherIdsDistinct(teachers: seq<Teacher>, salaries: seq<int>, i: nat, j: nat)
    requires |teachers| == TeacherCount && |salaries| == TeacherCount
    requires forall k :: 0 <= k < |teachers| ==> teachers[k] == TeacherAt(k, salaries[k])
    requires i < j < |teachers|
    ensures teachers[i].TeacherID != teachers[j].TeacherID
  {
    assert teachers[i].TeacherID == TeacherId(i + 1);
    assert teachers[j].TeacherID == TeacherId(j + 1);
    if TeacherId(i + 1) == TeacherId(j + 1) {
      PrefixedInjective("T00", i + 1, j + 1);
    }
  }
}

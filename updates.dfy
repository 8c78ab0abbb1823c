/** The admin panel's four writes, each a whole-table read-modify-write:
    adding a student, deleting a student, marking a quarter's fee as paid,
    and overwriting a mark. Each returns the table that is written back, or
    the error reported instead of writing. */
module Updates {
  import opened Tables
  import opened Queries

  // ---------------------------------------------------------------------
  // Students
  // ---------------------------------------------------------------------

  predicate HasStudent(t: seq<Student>, adm: int)
  {
    exists i :: 0 <= i < |t| && t[i].AdmissionNo == adm
  }

  /** No two rows of the students table share an admission number. */
  ghost predicate UniqueKeys(t: seq<Student>)
  {
    forall i, j :: 0 <= i < j < |t| ==> t[i].AdmissionNo != t[j].AdmissionNo
  }

  /** "Add New Student": refused when the admission number is taken,
      otherwise the new row goes at the end. */
  function InsertStudent(t: seq<Student>, s: Student): (r: Result<seq<Student>>)
    ensures r.Err? <==> HasStudent(t, s.AdmissionNo)
    ensures r.Err? ==> r.error == DuplicateKey
    ensures r.Ok? ==> |r.value| == |t| + 1 && r.value[..|t|] == t && r.value[|t|] == s
  {
    if HasStudent(t, s.AdmissionNo) then Err(DuplicateKey) else Ok(t + [s])
  }

  function OtherThan(t: seq<Student>, adm: int): seq<Student>
  {
    Where(t, (s: Student) => s.AdmissionNo != adm)
  }

  /** "Delete Student": refused when the admission number is absent,
      otherwise every row with that number goes and the rest keep their order. */
  function DeleteStudent(t: seq<Student>, adm: int): (r: Result<seq<Student>>)
    ensures r.Err? <==> !HasStudent(t, adm)
    ensures r.Err? ==> r.error == NotFound
    ensures r.Ok? ==> |r.value| < |t|
    ensures r.Ok? ==> forall i :: 0 <= i < |r.value| ==> r.value[i] in t && r.value[i].AdmissionNo != adm
    ensures r.Ok? ==> forall i :: 0 <= i < |t| && t[i].AdmissionNo != adm ==> t[i] in r.value
  {
    if HasStudent(t, adm) then
      var k :| 0 <= k < |t| && t[k].AdmissionNo == adm;
      DeleteShrinks(t, adm, k);
      Ok(OtherThan(t, adm))
    else Err(NotFound)
  }

  lemma {:induction false} DeleteShrinks(t: seq<Student>, adm: int, k: nat)
    requires k < |t| && t[k].AdmissionNo == adm
    ensures |OtherThan(t, adm)| < |t|
  {
    if k > 0 {
      DeleteShrinks(t[1..], adm, k - 1);
    }
  }

  /** Adding a fresh student and deleting that admission number again
      gives back the original table, rows and order included. */
  lemma InsertThenDelete(t: seq<Student>, s: Student)
    requires InsertStudent(t, s).Ok?
    ensures DeleteStudent(InsertStudent(t, s).value, s.AdmissionNo) == Ok(t)
  {
    var adm := s.AdmissionNo;
    var keep := (x: Student) => x.AdmissionNo != adm;
    WhereAppend(t, [s], keep);
    WhereAll(t, keep);
    WhereNone([s], keep);
    assert OtherThan(t + [s], adm) == t;
    assert HasStudent(t + [s], adm) by {
      assert (t + [s])[|t|] == s;
    }
  }

  /** Adding refuses a taken number, so unique keys stay unique. */
  lemma InsertKeepsKeysUnique(t: seq<Student>, s: Student)
    requires UniqueKeys(t)
    requires InsertStudent(t, s).Ok?
    ensures UniqueKeys(InsertStudent(t, s).value)
  {
  }

  /** Deleting keeps a subsequence, so unique keys stay unique. */
  lemma {:induction false} WhereKeepsKeysUnique(t: seq<Student>, keep: Student -> bool)
    requires UniqueKeys(t)
    ensures UniqueKeys(Where(t, keep))
  {
    if t != [] {
      WhereKeepsKeysUnique(t[1..], keep);
      var rest := Where(t[1..], keep);
      forall i | 0 <= i < |rest|
        ensures rest[i].AdmissionNo != t[0].AdmissionNo
      {
        var j :| 0 <= j < |t[1..]| && t[1..][j] == rest[i];
        assert t[j + 1] == rest[i];
      }
    }
  }

  lemma DeleteKeepsKeysUnique(t: seq<Student>, adm: int)
    requires UniqueKeys(t)
    requires DeleteStudent(t, adm).Ok?
    ensures UniqueKeys(DeleteStudent(t, adm).value)
  {
    WhereKeepsKeysUnique(t, (s: Student) => s.AdmissionNo != adm);
  }

  /** With unique keys, deleting an existing student removes exactly one row. */
  lemma {:induction false} DeleteRemovesOneRow(t: seq<Student>, adm: int)
    requires UniqueKeys(t)
    requires HasStudent(t, adm)
    ensures DeleteStudent(t, adm).Ok? && |DeleteStudent(t, adm).value| == |t| - 1
  {
    if t[0].AdmissionNo == adm {
      WhereAll(t[1..], (s: Student) => s.AdmissionNo != adm);
    } else {
      assert HasStudent(t[1..], adm) by {
        var k :| 0 <= k < |t| && t[k].AdmissionNo == adm;
        assert t[1..][k - 1] == t[k];
      }
      DeleteRemovesOneRow(t[1..], adm);
    }
  }

  /** A deleted student can no longer log in, whatever the password. */
  lemma LoginAfterDelete(t: seq<Student>, adm: int, password: string)
    requires DeleteStudent(t, adm).Ok?
    ensures StudentLogin(DeleteStudent(t, adm).value, adm, password) == None
  {
  }

  /** A newly added student logs in with the password just set, and is the row welcomed. */
  lemma LoginAfterInsert(t: seq<Student>, s: Student)
    requires InsertStudent(t, s).Ok?
    ensures StudentLogin(InsertStudent(t, s).value, s.AdmissionNo, s.Password) == Some(s)
  {
    var matching := (x: Student) => x.AdmissionNo == s.AdmissionNo && x.Password == s.Password;
    WhereAppend(t, [s], matching);
    WhereNone(t, matching);
  }

  /** With unique admission numbers, every student logs in with their own
      stored password, and is the row welcomed. */
  lemma LoginOwnRow(t: seq<Student>, i: nat)
    requires UniqueKeys(t)
    requires i < |t|
    ensures StudentLogin(t, t[i].AdmissionNo, t[i].Password) == Some(t[i])
  {
    var adm, pwd := t[i].AdmissionNo, t[i].Password;
    var matching := (s: Student) => s.AdmissionNo == adm && s.Password == pwd;
    var before, after := t[..i], t[i + 1..];
    assert t == before + [t[i]] + after;
    WhereAppend(before + [t[i]], after, matching);
    WhereAppend(before, [t[i]], matching);
    forall k | 0 <= k < |before| ensures !matching(before[k]) {
      assert before[k] == t[k];
    }
    WhereNone(before, matching);
    forall k | 0 <= k < |after| ensures !matching(after[k]) {
      assert after[k] == t[i + 1 + k];
    }
    WhereNone(after, matching);
  }

  // ---------------------------------------------------------------------
  // Fees
  // ---------------------------------------------------------------------

  predicate FeeMatches(f: Fee, adm: int, quarter: string)
  {
    f.AdmissionNo == adm && f.Quarter == quarter
  }

  /** The rows the payment mask selects. */
  function FeeLookup(t: seq<Fee>, adm: int, quarter: string): seq<Fee>
  {
    Where(t, (f: Fee) => FeeMatches(f, adm, quarter))
  }

  function PayRow(f: Fee, adm: int, quarter: string): Fee
  {
    if FeeMatches(f, adm, quarter) then f.(Status := Paid) else f
  }

  /** Status set to "Paid" on every selected row; nothing else touched. */
  function SetPaid(t: seq<Fee>, adm: int, quarter: string): (r: seq<Fee>)
    ensures |r| == |t|
    ensures forall i :: 0 <= i < |t| && FeeMatches(t[i], adm, quarter) ==> r[i].Status == Paid
    ensures forall i :: 0 <= i < |t| ==> r[i].(Status := t[i].Status) == t[i]
    ensures forall i :: 0 <= i < |t| && !FeeMatches(t[i], adm, quarter) ==> r[i] == t[i]
  {
    seq(|t|, i requires 0 <= i < |t| => PayRow(t[i], adm, quarter))
  }

  /** "Update Payment Status": NotFound when no row has that admission
      number and quarter, otherwise every such row becomes paid. */
  function PayFee(t: seq<Fee>, adm: int, quarter: string): (r: Result<seq<Fee>>)
    ensures r.Err? <==> forall i :: 0 <= i < |t| ==> !FeeMatches(t[i], adm, quarter)
    ensures r.Err? ==> r.error == NotFound
    ensures r.Ok? ==> r.value == SetPaid(t, adm, quarter)
  {
    var found := FeeLookup(t, adm, quarter);
    if found == [] then Err(NotFound)
    else
      assert found[0] in t && FeeMatches(found[0], adm, quarter);
      Ok(SetPaid(t, adm, quarter))
  }

  /** Paying the same quarter again finds the same rows and changes nothing. */
  lemma PayFeeIdempotent(t: seq<Fee>, adm: int, quarter: string)
    requires PayFee(t, adm, quarter).Ok?
    ensures PayFee(PayFee(t, adm, quarter).value, adm, quarter) == PayFee(t, adm, quarter)
  {
    var once := SetPaid(t, adm, quarter);
    var i :| 0 <= i < |t| && FeeMatches(t[i], adm, quarter);
    assert FeeMatches(once[i], adm, quarter);
    assert SetPaid(once, adm, quarter) == once;
  }

  function UnpaidAmount(f: Fee): int { if f.Status == Paid then 0 else f.Amount }

  lemma {:induction false} SetPaidTail(t: seq<Fee>, adm: int, quarter: string)
    requires t != []
    ensures SetPaid(t, adm, quarter) == [PayRow(t[0], adm, quarter)] + SetPaid(t[1..], adm, quarter)
  {
  }

  /** A payment raises the revenue by exactly the amounts of the selected
      rows that were not already paid. */
  lemma {:induction false} RevenueAfterPayment(t: seq<Fee>, adm: int, quarter: string)
    ensures Revenue(SetPaid(t, adm, quarter)) == Revenue(t) + Total(FeeLookup(t, adm, quarter), UnpaidAmount)
  {
    PaidTotalAfterPayment(t, adm, quarter);
  }

  lemma {:induction false} PaidTotalAfterPayment(t: seq<Fee>, adm: int, quarter: string)
    ensures Total(SetPaid(t, adm, quarter), PaidAmount) == Total(t, PaidAmount) + Total(FeeLookup(t, adm, quarter), UnpaidAmount)
  {
    if t != [] {
      var selected := (f: Fee) => FeeMatches(f, adm, quarter);
      SetPaidTail(t, adm, quarter);
      PaidTotalAfterPayment(t[1..], adm, quarter);
      assert FeeLookup(t, adm, quarter)
          == (if selected(t[0]) then [t[0]] else []) + FeeLookup(t[1..], adm, quarter);
      TotalAppend(if selected(t[0]) then [t[0]] else [], FeeLookup(t[1..], adm, quarter), UnpaidAmount);
    }
  }

  lemma PendingOneRow(f: Fee, adm: int, quarter: string)
    ensures PendingFees([PayRow(f, adm, quarter)])
         == Where(PendingFees([f]), (g: Fee) => !FeeMatches(g, adm, quarter))
  {
    var rest: seq<Fee> := [];
    assert [f][1..] == rest;
    assert [PayRow(f, adm, quarter)][1..] == rest;
  }

  /** After a payment the pending list is the old one without the selected rows. */
  lemma {:induction false} PendingAfterPayment(t: seq<Fee>, adm: int, quarter: string)
    ensures PendingFees(SetPaid(t, adm, quarter))
         == Where(PendingFees(t), (f: Fee) => !FeeMatches(f, adm, quarter))
  {
    if t != [] {
      var pending := (f: Fee) => f.Status == Pending;
      var unselected := (f: Fee) => !FeeMatches(f, adm, quarter);
      SetPaidTail(t, adm, quarter);
      PendingAfterPayment(t[1..], adm, quarter);
      WhereAppend([PayRow(t[0], adm, quarter)], SetPaid(t[1..], adm, quarter), pending);
      assert t == [t[0]] + t[1..];
      WhereAppend([t[0]], t[1..], pending);
      WhereAppend(PendingFees([t[0]]), PendingFees(t[1..]), unselected);
      PendingOneRow(t[0], adm, quarter);
    }
  }

  /** Paying one student's fee leaves every other student's fee rows as they were. */
  lemma {:induction false} PaymentLeavesOthers(t: seq<Fee>, adm: int, quarter: string, other: int)
    requires other != adm
    ensures StudentFees(SetPaid(t, adm, quarter), other) == StudentFees(t, other)
  {
    if t != [] {
      SetPaidTail(t, adm, quarter);
      PaymentLeavesOthers(t[1..], adm, quarter, other);
    }
  }

  // ---------------------------------------------------------------------
  // Marks
  // ---------------------------------------------------------------------

  predicate MarkMatches(m: Mark, adm: int, subject: string, exam: string)
  {
    m.AdmissionNo == adm && m.Subject == subject && m.Exam == exam
  }

  /** The rows the marks mask selects. */
  function MarkLookup(t: seq<Mark>, adm: int, subject: string, exam: string): seq<Mark>
  {
    Where(t, (m: Mark) => MarkMatches(m, adm, subject, exam))
  }

  function MarkRow(m: Mark, adm: int, subject: string, exam: string, newMarks: int): Mark
  {
    if MarkMatches(m, adm, subject, exam) then m.(Marks := newMarks) else m
  }

  /** Marks overwritten on every selected row, with no range check; nothing else touched. */
  function SetMarks(t: seq<Mark>, adm: int, subject: string, exam: string, newMarks: int): (r: seq<Mark>)
    ensures |r| == |t|
    ensures forall i :: 0 <= i < |t| && MarkMatches(t[i], adm, subject, exam) ==> r[i].Marks == newMarks
    ensures forall i :: 0 <= i < |t| ==> r[i].(Marks := t[i].Marks) == t[i]
    ensures forall i :: 0 <= i < |t| && !MarkMatches(t[i], adm, subject, exam) ==> r[i] == t[i]
  {
    seq(|t|, i requires 0 <= i < |t| => MarkRow(t[i], adm, subject, exam, newMarks))
  }

  /** "Update Student Marks": NotFound when no row has that admission number,
      subject and exam, otherwise every such row gets the new mark. */
  function UpdateMarks(t: seq<Mark>, adm: int, subject: string, exam: string, newMarks: int): (r: Result<seq<Mark>>)
    ensures r.Err? <==> forall i :: 0 <= i < |t| ==> !MarkMatches(t[i], adm, subject, exam)
    ensures r.Err? ==> r.error == NotFound
    ensures r.Ok? ==> r.value == SetMarks(t, adm, subject, exam, newMarks)
  {
    var found := MarkLookup(t, adm, subject, exam);
    if found == [] then Err(NotFound)
    else
      assert found[0] in t && MarkMatches(found[0], adm, subject, exam);
      Ok(SetMarks(t, adm, subject, exam, newMarks))
  }

  /** Of two updates of the same mark the second one wins. */
  lemma UpdateMarksLastWins(t: seq<Mark>, adm: int, subject: string, exam: string, first: int, second: int)
    requires UpdateMarks(t, adm, subject, exam, first).Ok?
    ensures UpdateMarks(UpdateMarks(t, adm, subject, exam, first).value, adm, subject, exam, second)
         == UpdateMarks(t, adm, subject, exam, second)
  {
    var once := SetMarks(t, adm, subject, exam, first);
    var i :| 0 <= i < |t| && MarkMatches(t[i], adm, subject, exam);
    assert MarkMatches(once[i], adm, subject, exam);
    assert SetMarks(once, adm, subject, exam, second) == SetMarks(t, adm, subject, exam, second);
  }

  lemma {:induction false} SetMarksTail(t: seq<Mark>, adm: int, subject: string, exam: string, newMarks: int)
    requires t != []
    ensures SetMarks(t, adm, subject, exam, newMarks)
         == [MarkRow(t[0], adm, subject, exam, newMarks)] + SetMarks(t[1..], adm, subject, exam, newMarks)
  {
  }

  /** Updating one student's mark leaves every other student's marks, and
      so their average and remark, as they were. */
  lemma {:induction false} MarkUpdateLeavesOthers(t: seq<Mark>, adm: int, subject: string, exam: string, newMarks: int, other: int)
    requires other != adm
    ensures StudentMarks(SetMarks(t, adm, subject, exam, newMarks), other) == StudentMarks(t, other)
    ensures StudentRemark(SetMarks(t, adm, subject, exam, newMarks), other) == StudentRemark(t, other)
  {
    if t != [] {
      SetMarksTail(t, adm, subject, exam, newMarks);
      MarkUpdateLeavesOthers(t[1..], adm, subject, exam, newMarks, other);
    }
  }
}

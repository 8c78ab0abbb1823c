/** The two tables the admin panel updates in place (`df.loc[mask, col] = v`):
    the fees sheet and the marks sheet. Their row count never changes, so
    each is an array; a masked assignment is a loop over the rows that
    rewrites the selected ones. Each method is proved against the
    whole-table function of module Updates. */
module Sheets {
  import opened Tables
  import opened Updates

  /** What an update reports: the table was written back, or the error shown instead. */
  datatype Outcome = Written | Refused(error: Error)

  class FeeSheet {
    const rows: array<Fee>

    constructor (initial: seq<Fee>)
      ensures rows[..] == initial
      ensures fresh(rows)
    {
      rows := new Fee[|initial|](i requires 0 <= i < |initial| => initial[i]);
    }

    /** "Update Payment Status" for one admission number and quarter. */
    method PayQuarter(adm: int, quarter: string) returns (outcome: Outcome)
      modifies rows
      ensures outcome.Written? ==> PayFee(old(rows[..]), adm, quarter) == Ok(rows[..])
      ensures outcome.Refused? ==>
        PayFee(old(rows[..]), adm, quarter) == Err(outcome.error) && rows[..] == old(rows[..])
    {
      if FeeLookup(rows[..], adm, quarter) == [] {
        return Refused(NotFound);
      }
      var i := 0;
      while i < rows.Length
        invariant 0 <= i <= rows.Length
        invariant forall j :: 0 <= j < i ==> rows[j] == PayRow(old(rows[j]), adm, quarter)
        invariant forall j :: i <= j < rows.Length ==> rows[j] == old(rows[j])
      {
        if FeeMatches(rows[i], adm, quarter) {
          rows[i] := rows[i].(Status := Paid);
        }
        i := i + 1;
      }
      assert rows[..] == SetPaid(old(rows[..]), adm, quarter);
      return Written;
    }
  }

  class MarkSheet {
    const rows: array<Mark>

    constructor (initial: seq<Mark>)
      ensures rows[..] == initial
      ensures fresh(rows)
    {
      rows := new Mark[|initial|](i requires 0 <= i < |initial| => initial[i]);
    }

    /** "Update Student Marks" for one admission number, subject and exam. */
    method SetStudentMarks(adm: int, subject: string, exam: string, newMarks: int) returns (outcome: Outcome)
      modifies rows
      ensures outcome.Written? ==> UpdateMarks(old(rows[..]), adm, subject, exam, newMarks) == Ok(rows[..])
      ensures outcome.Refused? ==>
        UpdateMarks(old(rows[..]), adm, subject, exam, newMarks) == Err(outcome.error) && rows[..] == old(rows[..])
    {
      if MarkLookup(rows[..], adm, subject, exam) == [] {
        return Refused(NotFound);
      }
      var i := 0;
      while i < rows.Length
        invariant 0 <= i <= rows.Length
        invariant forall j :: 0 <= j < i ==> rows[j] == MarkRow(old(rows[j]), adm, subject, exam, newMarks)
        invariant forall j :: i <= j < rows.Length ==> rows[j] == old(rows[j])
      {
        if MarkMatches(rows[i], adm, subject, exam) {
          rows[i] := rows[i].(Marks := newMarks);
        }
        i := i + 1;
      }
      assert rows[..] == SetMarks(old(rows[..]), adm, subject, exam, newMarks);
      return Written;
    }
  }
}

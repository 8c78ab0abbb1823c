/** The five flat tables of the school records, one datatype per row kind,
    and the two table-level building blocks every query uses: a stable
    row filter (a boolean mask applied to a table) and a column total. */
module Tables {

  /** A row of the students table; AdmissionNo is the key. */
  datatype Student = Student(
    AdmissionNo: int,
    Name: string,
    Class: int,
    Section: string,
    Password: string)

  /** A row of the marks table, keyed (not enforced) by AdmissionNo, Exam and Subject. */
  datatype Mark = Mark(
    AdmissionNo: int,
    Name: string,
    Class: int,
    Exam: string,
    Subject: string,
    Marks: int)

  /** A row of the fees table, keyed (not enforced) by AdmissionNo and Quarter. */
  datatype Fee = Fee(
    AdmissionNo: int,
    Name: string,
    Class: int,
    Quarter: string,
    Amount: int,
    Status: string)

  /** A row of the attendance table (the rounded percentage column is not modelled). */
  datatype Attendance = Attendance(
    AdmissionNo: int,
    Name: string,
    Month: string,
    PresentDays: int,
    TotalDays: int)

  /** A row of the teachers table. */
  datatype Teacher = Teacher(
    TeacherID: string,
    Name: string,
    Subject: string,
    Salary: int)

  /** The failures an update reports instead of writing the table back. */
  datatype Error = DuplicateKey | NotFound

  datatype Result<T> = Ok(value: T) | Err(error: Error)

  datatype Option<T> = None | Some(value: T)

  const Paid: string := "Paid"
  const Pending: string := "Pending"

  /** The rows of `rows` that `keep` accepts, in their original order. */
  function Where<T>(rows: seq<T>, keep: T -> bool): (r: seq<T>)
    ensures |r| <= |rows|
    ensures forall i :: 0 <= i < |r| ==> r[i] in rows && keep(r[i])
    ensures forall i :: 0 <= i < |rows| && keep(rows[i]) ==> rows[i] in r
  {
    if rows == [] then []
    else (if keep(rows[0]) then [rows[0]] else []) + Where(rows[1..], keep)
  }

  /** Filtering a concatenation filters each part: the filter is stable. */
  lemma {:induction false} WhereAppend<T>(a: seq<T>, b: seq<T>, keep: T -> bool)
    ensures Where(a + b, keep) == Where(a, keep) + Where(b, keep)
  {
    if a == [] {
      assert a + b == b;
    } else {
      assert (a + b)[1..] == a[1..] + b;
      WhereAppend(a[1..], b, keep);
    }
  }

  /** A filter that accepts every row returns the table unchanged. */
  lemma {:induction false} WhereAll<T>(rows: seq<T>, keep: T -> bool)
    requires forall i :: 0 <= i < |rows| ==> keep(rows[i])
    ensures Where(rows, keep) == rows
  {
    if rows != [] {
      WhereAll(rows[1..], keep);
    }
  }

  /** A filter that accepts no row returns the empty table. */
  lemma {:induction false} WhereNone<T>(rows: seq<T>, keep: T -> bool)
    requires forall i :: 0 <= i < |rows| ==> !keep(rows[i])
    ensures Where(rows, keep) == []
  {
    if rows != [] {
      WhereNone(rows[1..], keep);
    }
  }

  /** A filter that accepts exactly the rows lo..hi-1 returns that block. */
  lemma {:induction false} WhereBlock<T>(rows: seq<T>, keep: T -> bool, lo: nat, hi: nat)
    requires lo <= hi <= |rows|
    requires forall k :: 0 <= k < |rows| ==> (keep(rows[k]) <==> lo <= k < hi)
    ensures Where(rows, keep) == rows[lo..hi]
  {
    if hi == 0 {
      WhereNone(rows, keep);
    } else if lo == 0 {
      BlockOfTail(rows, keep, lo, hi);
      WhereBlock(rows[1..], keep, 0, hi - 1);
      SliceFromHead(rows, hi);
    } else {
      BlockOfTail(rows, keep, lo, hi);
      WhereBlock(rows[1..], keep, lo - 1, hi - 1);
      SliceOfTail(rows, lo, hi);
    }
  }

  /** One step of WhereBlock: the head row and the block shifted onto the tail. */
  lemma BlockOfTail<T>(rows: seq<T>, keep: T -> bool, lo: nat, hi: nat)
    requires rows != [] && lo <= hi <= |rows|
    requires forall k :: 0 <= k < |rows| ==> (keep(rows[k]) <==> lo <= k < hi)
    ensures keep(rows[0]) == (lo == 0 < hi)
    ensures forall k :: 0 <= k < |rows| - 1 ==> (keep(rows[1..][k]) <==> lo <= k + 1 < hi)
    ensures Where(rows, keep) == (if keep(rows[0]) then [rows[0]] else []) + Where(rows[1..], keep)
  {
    forall k | 0 <= k < |rows| - 1 ensures keep(rows[1..][k]) <==> lo <= k + 1 < hi {
      assert rows[1..][k] == rows[k + 1];
    }
  }

  lemma SliceFromHead<T>(rows: seq<T>, hi: nat)
    requires 0 < hi <= |rows|
    ensures rows[..hi] == [rows[0]] + rows[1..][..hi - 1]
  {
  }

  lemma SliceOfTail<T>(rows: seq<T>, lo: nat, hi: nat)
    requires 0 < lo <= hi <= |rows|
    ensures rows[lo..hi] == rows[1..][lo - 1..hi - 1]
  {
    forall i | 0 <= i < hi - lo ensures rows[lo..hi][i] == rows[1..][lo - 1..hi - 1][i] {
      assert rows[lo..hi][i] == rows[lo + i];
      assert rows[1..][lo - 1..hi - 1][i] == rows[1..][lo - 1 + i];
    }
  }

  /** The sum of one integer column over a table. */
  function Total<T>(rows: seq<T>, column: T -> int): int
  {
    if rows == [] then 0 else column(rows[0]) + Total(rows[1..], column)
  }

  lemma {:induction false} TotalAppend<T>(a: seq<T>, b: seq<T>, column: T -> int)
    ensures Total(a + b, column) == Total(a, column) + Total(b, column)
  {
    if a == [] {
      assert a + b == b;
    } else {
      assert (a + b)[1..] == a[1..] + b;
      TotalAppend(a[1..], b, column);
    }
  }
}

/** The roster: employee records, the seed set, appending a draft with its
    presence check, and the text of one display row. */
module Roster {

  datatype Option<+T> = None | Some(value: T)

  /** One employee record. Records carry no identifier; they are compared by value. */
  datatype Employee = Employee(name: string, department: string, role: string)

  /** The three records the roster starts with: each has a name and a
      department, and no two share a name. */
  function InitialEmployees(): (seed: seq<Employee>)
    ensures |seed| == 3
    ensures WellFormed(seed)
    ensures forall i, j :: 0 <= i < j < |seed| ==> seed[i].name != seed[j].name
  {
    [
      Employee("Sava", "IT", "Senior Web Developer"),
      Employee("Saba", "IT", "Web Developer"),
      Employee("Irakli", "HR", "Manager")
    ]
  }

  /** The draft the add form holds before anything is typed, and after a successful add. */
  const EmptyDraft: Employee := Employee("", "", "")

  /** A record that passes the add form's presence check. The cleared draft
      never does, so a reset form cannot be submitted again as it is. */
  predicate Complete(e: Employee)
    ensures e == EmptyDraft ==> !Complete(e)
  {
    e.name != "" && e.department != ""
  }

  /** Every record in the roster passed the presence check. */
  predicate WellFormed(roster: seq<Employee>)
  {
    forall i :: 0 <= i < |roster| ==> Complete(roster[i])
  }

  /** Submitting a draft: rejected (None) when its name or department is
      empty, otherwise the roster with the draft as its new last record. */
  function Add(roster: seq<Employee>, draft: Employee): (r: Option<seq<Employee>>)
    ensures r.Some? <==> Complete(draft)
    ensures r.Some? ==> |r.value| == |roster| + 1
    ensures r.Some? ==> r.value[..|roster|] == roster && r.value[|roster|] == draft
  {
    if !Complete(draft) then None else Some(roster + [draft])
  }

  /** Adding never lets an incomplete record in, so a well-formed roster stays well-formed. */
  lemma AddPreservesWellFormed(roster: seq<Employee>, draft: Employee)
    ensures WellFormed(roster) && Add(roster, draft).Some? ==> WellFormed(Add(roster, draft).value)
  {
  }

  /** The row shown for one record: name, department and role joined by " - ".
      The row begins with the name followed by " - " and ends with the role. */
  function RowText(e: Employee): (row: string)
    ensures |row| == |e.name| + |e.department| + |e.role| + 6
    ensures row[..|e.name| + 3] == e.name + " - "
    ensures row[|row| - |e.role|..] == e.role
  {
    e.name + " - " + e.department + " - " + e.role
  }

  /** The row the search view shows when no name matches. */
  const NoMatchRow: string := "No match found"

  /** The row the filter view shows when no department matches. */
  const NoDepartmentRow: string := "No employees in this department"

  /** A record's row always holds a '-' right after the name, and neither
      sentinel holds a '-', so a sentinel is never mistaken for a record. */
  lemma RowIsNeverSentinel(e: Employee)
    ensures RowText(e) != NoMatchRow
    ensures RowText(e) != NoDepartmentRow
  {
    var row := RowText(e);
    assert row[|e.name| + 1] == '-';
    assert '-' !in NoMatchRow;
    assert '-' !in NoDepartmentRow;
  }

  /** The rows for a sequence of records, one per record, in order. */
  function RowsOf(s: seq<Employee>): (rows: seq<string>)
    ensures |rows| == |s|
    ensures forall i :: 0 <= i < |s| ==> rows[i] == RowText(s[i])
  {
    if s == [] then [] else [RowText(s[0])] + RowsOf(s[1..])
  }

  /** A record's row is among the rows exactly when some record of s has it. */
  lemma RowsOfMembers(s: seq<Employee>)
    ensures forall e :: e in s ==> RowText(e) in RowsOf(s)
    ensures forall row :: row in RowsOf(s) ==> exists e :: e in s && row == RowText(e)
  {
    var rows := RowsOf(s);
    forall e | e in s
      ensures RowText(e) in rows
    {
      var i :| 0 <= i < |s| && s[i] == e;
      assert rows[i] == RowText(e);
    }
    forall row | row in rows
      ensures exists e :: e in s && row == RowText(e)
    {
      var i :| 0 <= i < |rows| && rows[i] == row;
      assert s[i] in s;
    }
  }
}

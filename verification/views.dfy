/** The rows the component renders: the plain list, the name-sorted list,
    the name search, the department filter, and the choice among them. */
module Views {
  import opened Text
  import opened Roster
  import opened NameSort

  /** The four values the component's viewMode takes. */
  datatype ViewMode = List | Sort | Search | Filter

  /** The record field a needle is matched against. */
  datatype Field = Name | Department

  function FieldOf(e: Employee, f: Field): string
  {
    match f
    case Name => e.name
    case Department => e.department
  }

  /** The field, lower-cased, includes the needle, lower-cased. An empty
      needle matches every record, a field equal to the needle up to case
      matches, and a needle longer than the field never does. */
  predicate Matches(e: Employee, f: Field, needle: string)
    ensures needle == "" ==> Matches(e, f, needle)
    ensures LowerStr(FieldOf(e, f)) == LowerStr(needle) ==> Matches(e, f, needle)
    ensures Matches(e, f, needle) ==> |needle| <= |FieldOf(e, f)|
  {
    EmptyNeedleIncluded(LowerStr(FieldOf(e, f)));
    Includes(LowerStr(FieldOf(e, f)), LowerStr(needle))
  }

  /** roster.filter(...): the records whose field matches the needle. */
  function Select(roster: seq<Employee>, f: Field, needle: string): (r: seq<Employee>)
    ensures |r| <= |roster|
    ensures forall i :: 0 <= i < |r| ==> r[i] in roster && Matches(r[i], f, needle)
    ensures forall e :: e in roster && Matches(e, f, needle) ==> e in r
  {
    if roster == [] then []
    else (if Matches(roster[0], f, needle) then [roster[0]] else []) + Select(roster[1..], f, needle)
  }

  /** r is s restricted to the positions idx, which increase. */
  ghost predicate Embedding(r: seq<Employee>, s: seq<Employee>, idx: seq<int>)
  {
    && |idx| == |r|
    && (forall k :: 0 <= k < |idx| ==> 0 <= idx[k] < |s| && r[k] == s[idx[k]])
    && (forall k, l :: 0 <= k < l < |idx| ==> idx[k] < idx[l])
  }

  /** Shifting an embedding into the tail of a longer sequence by one position. */
  function Shift(idx: seq<int>): (r: seq<int>)
    ensures |r| == |idx|
    ensures forall k :: 0 <= k < |idx| ==> r[k] == idx[k] + 1
  {
    seq(|idx|, k requires 0 <= k < |idx| => idx[k] + 1)
  }

  lemma EmbeddingShift(r: seq<Employee>, x: Employee, s: seq<Employee>, idx: seq<int>)
    requires Embedding(r, s, idx)
    ensures Embedding(r, [x] + s, Shift(idx))
    ensures Embedding([x] + r, [x] + s, [0] + Shift(idx))
  {
  }

  lemma ShiftMembers(idx: seq<int>, j: int)
    requires forall k :: 0 <= k < |idx| ==> 0 <= idx[k]
    ensures j in Shift(idx) <==> j - 1 in idx
    ensures 0 !in Shift(idx)
  {
    var t := Shift(idx);
    if j in t {
      var k :| 0 <= k < |t| && t[k] == j;
      assert idx[k] == j - 1;
    }
    if j - 1 in idx {
      var k :| 0 <= k < |idx| && idx[k] == j - 1;
      assert t[k] == j;
    }
  }

  /** Select keeps exactly the matching positions of the roster, in roster order:
      no match is omitted, none is repeated, nothing is reordered. */
  lemma {:induction false} SelectKeepsMatchingPositions(roster: seq<Employee>, f: Field, needle: string)
    returns (idx: seq<int>)
    ensures Embedding(Select(roster, f, needle), roster, idx)
    ensures forall j :: 0 <= j < |roster| ==> (j in idx <==> Matches(roster[j], f, needle))
    decreases |roster|
  {
    if roster == [] {
      idx := [];
    } else {
      var rest := roster[1..];
      assert roster == [roster[0]] + rest;
      var tail := SelectKeepsMatchingPositions(rest, f, needle);
      var r' := Select(rest, f, needle);
      EmbeddingShift(r', roster[0], rest, tail);
      var shifted := Shift(tail);
      var first := Matches(roster[0], f, needle);
      if first {
        assert Select(roster, f, needle) == [roster[0]] + r';
        idx := [0] + shifted;
      } else {
        assert Select(roster, f, needle) == r';
        idx := shifted;
      }
      forall j | 0 <= j < |roster|
        ensures j in idx <==> Matches(roster[j], f, needle)
      {
        ShiftMembers(tail, j);
        assert j in idx <==> (j == 0 && first) || j in shifted;
        if j > 0 {
          assert roster[j] == rest[j - 1];
        }
      }
    }
  }

  /** Select returns nothing exactly when no record of the roster matches. */
  lemma {:induction false} SelectEmptyIff(roster: seq<Employee>, f: Field, needle: string)
    ensures Select(roster, f, needle) == [] <==> forall e :: e in roster ==> !Matches(e, f, needle)
    decreases |roster|
  {
    if roster != [] {
      SelectEmptyIff(roster[1..], f, needle);
      assert forall e :: e in roster <==> e == roster[0] || e in roster[1..];
    }
  }

  /** An empty needle matches every record, so Select keeps the whole roster. */
  lemma {:induction false} SelectEmptyNeedle(roster: seq<Employee>, f: Field)
    ensures Select(roster, f, "") == roster
    decreases |roster|
  {
    if roster != [] {
      EmptyNeedleIncluded(LowerStr(FieldOf(roster[0], f)));
      SelectEmptyNeedle(roster[1..], f);
      assert roster == [roster[0]] + roster[1..];
    }
  }

  /** The match ignores the case of the needle: needles equal after folding select alike. */
  lemma SelectIgnoresNeedleCase(roster: seq<Employee>, f: Field, n1: string, n2: string)
    requires LowerStr(n1) == LowerStr(n2)
    ensures Select(roster, f, n1) == Select(roster, f, n2)
  {
    assert forall e :: Matches(e, f, n1) == Matches(e, f, n2);
  }

  /** Shared by search and filter: the matching records' rows, or the one sentinel row. */
  function MatchRows(roster: seq<Employee>, f: Field, needle: string, sentinel: string): (rows: seq<string>)
    requires sentinel == NoMatchRow || sentinel == NoDepartmentRow
    ensures |rows| >= 1
    ensures rows == [sentinel] <==> forall e :: e in roster ==> !Matches(e, f, needle)
    ensures rows != [sentinel] ==> rows == RowsOf(Select(roster, f, needle))
    ensures forall e :: e in roster && Matches(e, f, needle) ==> RowText(e) in rows
    ensures forall row :: row in rows ==>
              row == sentinel || exists e :: e in roster && Matches(e, f, needle) && row == RowText(e)
  {
    var found := Select(roster, f, needle);
    SelectEmptyIff(roster, f, needle);
    RowsOfMembers(found);
    if |found| > 0 then
      RowIsNeverSentinel(found[0]);
      RowsOf(found)
    else
      [sentinel]
  }

  /** The search view: the rows of the records whose name matches, or the
      single row "No match found" when none does. */
  function SearchRows(roster: seq<Employee>, searchTerm: string): (rows: seq<string>)
    ensures rows == [NoMatchRow] <==> forall e :: e in roster ==> !Matches(e, Name, searchTerm)
    ensures forall e :: e in roster && Matches(e, Name, searchTerm) ==> RowText(e) in rows
    ensures forall row :: row in rows ==>
              row == NoMatchRow || exists e :: e in roster && Matches(e, Name, searchTerm) && row == RowText(e)
  {
    MatchRows(roster, Name, searchTerm, NoMatchRow)
  }

  /** The filter view: the rows of the records whose department matches, or
      the single row "No employees in this department" when none does. */
  function FilterRows(roster: seq<Employee>, filterDept: string): (rows: seq<string>)
    ensures rows == [NoDepartmentRow] <==> forall e :: e in roster ==> !Matches(e, Department, filterDept)
    ensures forall e :: e in roster && Matches(e, Department, filterDept) ==> RowText(e) in rows
    ensures forall row :: row in rows ==>
              row == NoDepartmentRow || exists e :: e in roster && Matches(e, Department, filterDept) && row == RowText(e)
  {
    MatchRows(roster, Department, filterDept, NoDepartmentRow)
  }

  /** The rows of a record in front of t: its row in front of t's rows. */
  lemma RowsOfCons(y: Employee, t: seq<Employee>)
    ensures RowsOf([y] + t) == [RowText(y)] + RowsOf(t)
  {
    assert ([y] + t)[1..] == t;
  }

  /** Inserting a record adds its row to the multiset of rows. */
  lemma {:induction false} RowsOfInsert(x: Employee, t: seq<Employee>)
    ensures multiset(RowsOf(Insert(x, t))) == multiset(RowsOf(t)) + multiset{RowText(x)}
    decreases |t|
  {
    if t == [] {
    } else if NameLeq(x.name, t[0].name) {
      RowsOfCons(x, t);
    } else {
      var t' := t[1..];
      assert t == [t[0]] + t';
      RowsOfInsert(x, t');
      RowsOfCons(t[0], Insert(x, t'));
      RowsOfCons(t[0], t');
    }
  }

  /** The sorted copy has the same rows as the roster, counted with multiplicity. */
  lemma {:induction false} SortKeepsRows(s: seq<Employee>)
    ensures multiset(RowsOf(SortByName(s))) == multiset(RowsOf(s))
    decreases |s|
  {
    if s != [] {
      var rest := SortByName(s[1..]);
      SortKeepsRows(s[1..]);
      RowsOfInsert(s[0], rest);
      assert SortByName(s) == Insert(s[0], rest);
      assert RowsOf(s) == [RowText(s[0])] + RowsOf(s[1..]);
    }
  }

  /** The sorted view: the rows of a sorted copy of the roster, which are the
      plain list's rows, each as often as there, in name order. */
  function SortedRows(roster: seq<Employee>): (rows: seq<string>)
    ensures |rows| == |roster|
    ensures multiset(rows) == multiset(ListRows(roster))
  {
    SortKeepsRows(roster);
    RowsOf(SortByName(roster))
  }

  /** The plain list view: one row per record, in roster order. */
  function ListRows(roster: seq<Employee>): (rows: seq<string>)
    ensures |rows| == |roster|
    ensures forall i :: 0 <= i < |roster| ==> rows[i] == RowText(roster[i])
  {
    RowsOf(roster)
  }

  /** The rendered list: search rows only in search mode with a non-empty search
      text, filter rows only in filter mode with a non-empty filter text, the
      sorted rows in sort mode, and the plain list otherwise. */
  function Display(roster: seq<Employee>, mode: ViewMode, searchTerm: string, filterDept: string): (rows: seq<string>)
    ensures (mode != Search || searchTerm == "") && (mode != Filter || filterDept == "") && mode != Sort
            ==> rows == ListRows(roster)
    ensures forall row :: row in rows ==>
              row == NoMatchRow || row == NoDepartmentRow || exists e :: e in roster && row == RowText(e)
  {
    var rows :=
      if mode == Search && searchTerm != "" then SearchRows(roster, searchTerm)
      else if mode == Filter && filterDept != "" then FilterRows(roster, filterDept)
      else if mode == Sort then SortedRows(roster)
      else ListRows(roster);
    forall row | row in rows
      ensures row == NoMatchRow || row == NoDepartmentRow || exists e :: e in roster && row == RowText(e)
    {
      if !(mode == Search && searchTerm != "") && !(mode == Filter && filterDept != "") {
        if mode == Sort {
          assert row in multiset(SortedRows(roster));
        }
        RowsOfMembers(roster);
      }
    }
    rows
  }

  /** The search view is shown exactly in search mode with a non-empty search text. */
  lemma SearchShownOnlyWithText(roster: seq<Employee>, mode: ViewMode, searchTerm: string, filterDept: string)
    ensures mode == Search && searchTerm != "" ==> Display(roster, mode, searchTerm, filterDept) == SearchRows(roster, searchTerm)
    ensures mode == Search && searchTerm == "" ==> Display(roster, mode, searchTerm, filterDept) == ListRows(roster)
  {
  }

  /** The filter view is shown exactly in filter mode with a non-empty filter text. */
  lemma FilterShownOnlyWithText(roster: seq<Employee>, mode: ViewMode, searchTerm: string, filterDept: string)
    ensures mode == Filter && filterDept != "" ==> Display(roster, mode, searchTerm, filterDept) == FilterRows(roster, filterDept)
    ensures mode == Filter && filterDept == "" ==> Display(roster, mode, searchTerm, filterDept) == ListRows(roster)
  {
  }

  /** The text of the field that is not being used never reaches the rows: a
      stale search text outside search mode, or a stale filter text outside
      filter mode, changes nothing. */
  lemma DisplayIgnoresInactiveText(roster: seq<Employee>, mode: ViewMode, searchTerm: string, filterDept: string)
    ensures Display(roster, mode, searchTerm, filterDept)
         == Display(roster, mode, if mode == Search then searchTerm else "", if mode == Filter then filterDept else "")
  {
  }

  /** The one-field view state that the handlers' clearing imitates. */
  datatype ViewState = Listing | Sorting | Searching(term: string) | Filtering(dept: string)

  /** The view-state fields as the handlers leave them: a non-empty search text
      only in search mode, a non-empty filter text only in filter mode. */
  predicate ViewConsistent(mode: ViewMode, searchTerm: string, filterDept: string)
  {
    (searchTerm != "" ==> mode == Search) && (filterDept != "" ==> mode == Filter)
  }

  /** Collapses the three view-state fields into the one-field form. */
  function Collapse(mode: ViewMode, searchTerm: string, filterDept: string): ViewState
  {
    match mode
    case List => Listing
    case Sort => Sorting
    case Search => Searching(searchTerm)
    case Filter => Filtering(filterDept)
  }

  /** Spreads the one-field form back over the three view-state fields. */
  function Expand(v: ViewState): (fields: (ViewMode, string, string))
    ensures ViewConsistent(fields.0, fields.1, fields.2)
  {
    match v
    case Listing => (List, "", "")
    case Sorting => (Sort, "", "")
    case Searching(t) => (Search, t, "")
    case Filtering(d) => (Filter, "", d)
  }

  /** The consistent field triples and the one-field states are in one-to-one
      correspondence: collapsing loses nothing on consistent fields. */
  lemma CollapseExpandRoundTrip(mode: ViewMode, searchTerm: string, filterDept: string, v: ViewState)
    ensures ViewConsistent(mode, searchTerm, filterDept) ==>
              Expand(Collapse(mode, searchTerm, filterDept)) == (mode, searchTerm, filterDept)
    ensures Collapse(Expand(v).0, Expand(v).1, Expand(v).2) == v
  {
  }

  /** The rows for a one-field view state; an empty needle shows the plain list. */
  function Shown(roster: seq<Employee>, v: ViewState): seq<string>
  {
    match v
    case Listing => ListRows(roster)
    case Sorting => SortedRows(roster)
    case Searching(t) => if t == "" then ListRows(roster) else SearchRows(roster, t)
    case Filtering(d) => if d == "" then ListRows(roster) else FilterRows(roster, d)
  }

  /** The ternary dispatch over three fields shows the same rows as the
      one-field view state, for every combination of fields. */
  lemma DisplayAgreesWithViewState(roster: seq<Employee>, mode: ViewMode, searchTerm: string, filterDept: string)
    ensures Display(roster, mode, searchTerm, filterDept) == Shown(roster, Collapse(mode, searchTerm, filterDept))
  {
  }
}

/** The component's state and its event handlers: the add form's submit
    handler, the three draft-field handlers, the List and Sort buttons, and the
    search and filter inputs. Each handler applies its setter calls at once. */
module EmployeeApp {
  import opened Roster
  import opened NameSort
  import opened Views

  class App {
    var employees: seq<Employee>
    var searchTerm: string
    var filterDept: string
    var viewMode: ViewMode
    var newEmployee: Employee

    /** What every handler keeps: each record passed the presence check, and
        the view-state fields are as the handlers leave them. */
    ghost predicate Valid()
      reads this
    {
      WellFormed(employees) && ViewConsistent(viewMode, searchTerm, filterDept)
    }

    /** The rows rendered for the current state. */
    function Rows(): seq<string>
      reads this
    {
      Display(employees, viewMode, searchTerm, filterDept)
    }

    /** The state on first render: the seed roster, empty texts, list mode, an empty draft. */
    constructor ()
      ensures employees == InitialEmployees()
      ensures searchTerm == "" && filterDept == "" && viewMode == List
      ensures newEmployee == EmptyDraft
      ensures Valid()
      ensures Rows() == ListRows(InitialEmployees())
    {
      employees := InitialEmployees();
      searchTerm := "";
      filterDept := "";
      newEmployee := EmptyDraft;
      viewMode := List;
    }

    /** Submitting the add form. A draft missing its name or department is
        rejected and nothing changes; otherwise the draft becomes the last
        record and the form is cleared. */
    method AddEmployee() returns (accepted: bool)
      modifies this`employees, this`newEmployee
      ensures accepted <==> Complete(old(newEmployee))
      ensures accepted ==> employees == old(employees) + [old(newEmployee)] && newEmployee == EmptyDraft
      ensures !accepted ==> employees == old(employees) && newEmployee == old(newEmployee)
      ensures old(Valid()) ==> Valid()
    {
      match Add(employees, newEmployee)
      case None =>
        accepted := false;
      case Some(grown) =>
        AddPreservesWellFormed(employees, newEmployee);
        employees := grown;
        newEmployee := EmptyDraft;
        accepted := true;
    }

    /** Typing in the draft's name field. */
    method EditName(value: string)
      modifies this`newEmployee
      ensures newEmployee == old(newEmployee).(name := value)
      ensures old(Valid()) ==> Valid()
    {
      newEmployee := newEmployee.(name := value);
    }

    /** Typing in the draft's department field. */
    method EditDepartment(value: string)
      modifies this`newEmployee
      ensures newEmployee == old(newEmployee).(department := value)
      ensures old(Valid()) ==> Valid()
    {
      newEmployee := newEmployee.(department := value);
    }

    /** Typing in the draft's role field. */
    method EditRole(value: string)
      modifies this`newEmployee
      ensures newEmployee == old(newEmployee).(role := value)
      ensures old(Valid()) ==> Valid()
    {
      newEmployee := newEmployee.(role := value);
    }

    /** The List button: list mode, both texts cleared; the rows become the roster in order. */
    method ShowList()
      modifies this`viewMode, this`searchTerm, this`filterDept
      ensures viewMode == List && searchTerm == "" && filterDept == ""
      ensures (viewMode, searchTerm, filterDept) == Expand(Listing)
      ensures Rows() == Shown(employees, Listing)
      ensures employees == old(employees)
      ensures old(Valid()) ==> Valid()
      ensures Rows() == ListRows(employees)
    {
      viewMode := List;
      searchTerm := "";
      filterDept := "";
    }

    /** The Sort button: sort mode, both texts cleared; the rows become a sorted
        copy of the roster, and the roster itself keeps its order. */
    method ShowSorted()
      modifies this`viewMode, this`searchTerm, this`filterDept
      ensures viewMode == Sort && searchTerm == "" && filterDept == ""
      ensures (viewMode, searchTerm, filterDept) == Expand(Sorting)
      ensures Rows() == Shown(employees, Sorting)
      ensures employees == old(employees)
      ensures old(Valid()) ==> Valid()
      ensures Rows() == RowsOf(SortByName(employees))
    {
      viewMode := Sort;
      searchTerm := "";
      filterDept := "";
    }

    /** Typing in the search box: search mode with the typed text, filter text cleared.
        An empty text shows the plain list. */
    method TypeSearch(text: string)
      modifies this`viewMode, this`searchTerm, this`filterDept
      ensures viewMode == Search && searchTerm == text && filterDept == ""
      ensures (viewMode, searchTerm, filterDept) == Expand(Searching(text))
      ensures Rows() == Shown(employees, Searching(text))
      ensures employees == old(employees)
      ensures old(Valid()) ==> Valid()
      ensures Rows() == if text == "" then ListRows(employees) else SearchRows(employees, text)
    {
      searchTerm := text;
      viewMode := Search;
      filterDept := "";
    }

    /** Typing in the filter box: filter mode with the typed text, search text cleared.
        An empty text shows the plain list. */
    method TypeFilter(text: string)
      modifies this`viewMode, this`searchTerm, this`filterDept
      ensures viewMode == Filter && filterDept == text && searchTerm == ""
      ensures (viewMode, searchTerm, filterDept) == Expand(Filtering(text))
      ensures Rows() == Shown(employees, Filtering(text))
      ensures employees == old(employees)
      ensures old(Valid()) ==> Valid()
      ensures Rows() == if text == "" then ListRows(employees) else FilterRows(employees, text)
    {
      filterDept := text;
      viewMode := Filter;
      searchTerm := "";
    }
  }

  /** A short session: rejected and accepted adds, then every view. Only the
      accepted add changes the roster; a filter that matches nothing leaves it
      as it was. */
  method Session()
  {
    var app := new App();
    app.EditName("Nino");
    var ok := app.AddEmployee();
    assert !ok && app.employees == InitialEmployees() && app.newEmployee.name == "Nino";
    app.EditDepartment("Finance");
    app.EditRole("Analyst");
    ok := app.AddEmployee();
    assert ok && app.employees == InitialEmployees() + [Employee("Nino", "Finance", "Analyst")];
    assert app.newEmployee == EmptyDraft;
    app.TypeSearch("sa");
    app.TypeFilter("fin");
    assert app.searchTerm == "";
    app.TypeFilter("finance");
    assert |app.employees| == 4 && app.viewMode == Filter;
    app.ShowSorted();
    app.ShowList();
    assert app.Valid();
    assert |app.employees| == 4;
  }
}

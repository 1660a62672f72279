# Employee roster editor: a Dafny model

This project models the logic of the roster editor component in `src/App.js`.
That component holds an ordered list of employee records, each with a name, a
department and a role. New records come in through an add form that checks
that the name and the department are present. The component renders the
roster in one of four view modes:

- the plain list;
- a name-sorted copy;
- a case-insensitive name search;
- a case-insensitive department filter.

A search or a filter that matches nothing shows a single sentinel row instead
of an empty list.

The model has five modules, and a sixth, `SeedViews`, holds worked examples:

- `Text` (`text.dfy`): the lower-case fold and the substring test that the
  search and filter use.
- `Roster` (`roster.dfy`): the `Employee` record and the three-record seed.
  It also holds `Add`, the presence check on submit, and the row text
  `name - department - role` with its two sentinel rows.
- `NameSort` (`sorting.dfy`): the name order and the stable sort of a copy of
  the roster.
- `Views` (`views.dfy`): the four row derivations and the ternary dispatch
  that picks one of them. It also holds the one-field view state
  (`Listing | Sorting | Searching(t) | Filtering(d)`) that the handlers'
  clearing logic imitates.
- `EmployeeApp` (`app.dfy`): the component as a class `App`. It has the
  fields `employees`, `searchTerm`, `filterDept`, `viewMode` and
  `newEmployee`, and one method per event handler. Each method states the
  whole new state, and each keeps the invariant `Valid()`.

`SeedViews` (`scenario.dfy`) holds worked examples rather than model: it works out the views of the seed roster.

Typing an empty text into the search box (or the filter box) still sets
`viewMode` to search (or filter); only the rendered rows fall back to the
plain list (src/App.js:111-115, 161-164). `TypeSearch` and `TypeFilter` state
this.

The three view fields can hold stale values, but this never changes the
rows. The dispatch reads `searchTerm` only in search mode and `filterDept` only in
filter mode, so a stale text in the other field has no effect
(`DisplayIgnoresInactiveText`). The handlers keep the three fields
consistent (`ViewConsistent`). Consistent triples correspond one-to-one to
the one-field view state (`CollapseExpandRoundTrip`), and the dispatch agrees
with that one-field form for every triple (`DisplayAgreesWithViewState`).

## Model

| member | source | states |
|---|---|---|
| `Roster.Add` | src/App.js:35-43 | a draft with an empty name or department is rejected, and only then; an accepted draft gives the old roster unchanged as a prefix, followed by the draft as the one new last record |
| `Roster.AddPreservesWellFormed` | src/App.js:37-41 | appending through the presence check never admits a record without a name or department |
| `Roster.InitialEmployees` | src/App.js:5-9 | the seed has three records, each with a name and a department, and no two share a name |
| `Roster.Complete` | src/App.js:37 | the presence check; the cleared draft never passes it |
| `Roster.RowText` | src/App.js:47 | a record's row begins with its name followed by " - " and ends with its role, six characters longer than the three fields together |
| `Roster.RowsOfMembers` | src/App.js:45-49 | a row is among the rows of a sequence of records exactly when some record of it has that row |
| `Roster.RowIsNeverSentinel` | src/App.js:62-81 | no record's row `name - department - role` equals "No match found" or "No employees in this department", so a sentinel can never be read as a record |
| `Roster.RowsOf` | src/App.js:45-49 | one row per record, in order, each the record's `name - department - role` text |
| `Text.Lower` | src/App.js:60 | the fold never yields an upper-case ASCII letter; it changes only upper-case letters, each to its lower-case letter |
| `Text.LowerStr` | src/App.js:60 | the folded string has the same length, with each character folded |
| `Text.LowerStrIdempotent` | src/App.js:60 | folding twice equals folding once |
| `Text.Includes` | src/App.js:60 | a text includes a needle at its front, and includes no needle longer than itself |
| `Text.IncludesIffOccurs` | src/App.js:60 | `includes` holds exactly when the needle occurs at some position of the text (both directions) |
| `Text.EmptyNeedleIncluded` | src/App.js:60 | the empty needle is included in every text |
| `Text.FirstCharMissingExcludes` | src/App.js:60 | a needle whose first character is absent from the text is not included |
| `NameSort.NameLeq` | src/App.js:52 | a prefix of a name comes no later than the name; a non-empty name comes no later than another only if the other is non-empty and its first character is no smaller |
| `NameSort.NameLeqReflexive` | src/App.js:52 | every name compares no later than itself |
| `NameSort.NameLeqTotal` | src/App.js:52 | any two names are ordered one way or the other |
| `NameSort.NameLeqTransitive` | src/App.js:52 | the name order is transitive |
| `NameSort.NameLeqAntisymmetric` | src/App.js:52 | names ordered both ways are equal |
| `NameSort.Insert` | src/App.js:52 | inserting adds exactly the one record: the multiset grows by it and the length by one |
| `NameSort.InsertKeepsSorted` | src/App.js:52 | inserting a record into a name-sorted sequence keeps it sorted |
| `NameSort.SortByName` | src/App.js:51-56 | the sorted copy is a permutation of the roster (same multiset) with names non-decreasing |
| `NameSort.InsertStable` | src/App.js:52 | insertion puts a record after none of the records that share its name |
| `NameSort.SortIsStable` | src/App.js:52 | for every name, the records with that name appear in the sorted copy in their roster order |
| `NameSort.SortOfSortedIsIdentity` | src/App.js:52 | a roster already in name order is left as it is |
| `NameSort.SortIsIdempotent` | src/App.js:52 | sorting the sorted copy again changes nothing |
| `Views.Matches` | src/App.js:59-74 | an empty needle matches every record, a field equal to the needle up to case matches, and a needle longer than the field never matches |
| `Views.Select` | src/App.js:59-61 | a roster record is kept exactly when its lower-cased field includes the lower-cased needle, and no more records are kept than the roster has |
| `Views.SelectKeepsMatchingPositions` | src/App.js:72-74 | the kept records are the roster restricted to exactly its matching positions, in increasing order: no match left out, none repeated, none reordered |
| `Views.SelectEmptyIff` | src/App.js:59-62 | nothing is kept exactly when no roster record matches |
| `Views.SelectEmptyNeedle` | src/App.js:72-74 | an empty needle keeps the whole roster |
| `Views.SelectIgnoresNeedleCase` | src/App.js:60 | needles that are equal after folding keep the same records |
| `Views.MatchRows` | src/App.js:58-82 | the view always has a row; it is the single sentinel row exactly when no record matches, and otherwise the matching records' rows; every matching record's row is shown and every shown row is the sentinel or a matching record's row |
| `Views.SearchRows` | src/App.js:58-69 | the search view is "No match found" alone exactly when no name matches; every record whose name matches has its row shown, and every row shown is that sentinel or such a record's row (in roster order, by `MatchRows` and `SelectKeepsMatchingPositions`) |
| `Views.FilterRows` | src/App.js:71-82 | the filter view is "No employees in this department" alone exactly when no department matches; every record whose department matches has its row shown, and every row shown is that sentinel or such a record's row (in roster order, by `MatchRows` and `SelectKeepsMatchingPositions`) |
| `Views.ListRows` | src/App.js:45-49 | one row per record, the i-th row being the i-th record's `name - department - role` text (as `RowsOf`) |
| `Views.SortKeepsRows` | src/App.js:51-56 | the rows of the sorted copy are the roster's rows, each as often as there |
| `Views.SortedRows` | src/App.js:51-56 | the sorted view has as many rows as the roster and the same rows as the plain list, counted with multiplicity; their order is the name order of `SortByName`, stable by `SortIsStable` |
| `Views.Display` | src/App.js:161-167 | outside sort mode, with no active search or filter text, the rendered rows are the plain list; every rendered row is a sentinel or the row of a roster record |
| `Views.SearchShownOnlyWithText` | src/App.js:161-162 | in search mode the search rows are shown when the search text is non-empty, and the plain list when it is empty |
| `Views.FilterShownOnlyWithText` | src/App.js:163-164 | in filter mode the filter rows are shown when the filter text is non-empty, and the plain list when it is empty |
| `Views.DisplayIgnoresInactiveText` | src/App.js:161-167 | the search text matters only in search mode and the filter text only in filter mode |
| `Views.Expand` | src/App.js:89-127 | every one-field view state spreads to a triple of fields that the handlers can produce |
| `Views.CollapseExpandRoundTrip` | src/App.js:89-127 | consistent field triples and one-field view states correspond one-to-one |
| `Views.DisplayAgreesWithViewState` | src/App.js:161-167 | the ternary dispatch shows the same rows as the one-field view state, with an empty needle meaning the plain list |
| `EmployeeApp.App.constructor` | src/App.js:12-20 | the session starts with the seed roster, empty texts, list mode and an empty draft, and renders the seed as a plain list |
| `EmployeeApp.App.AddEmployee` | src/App.js:35-43 | submit is accepted exactly when the draft has a name and a department; on acceptance the roster gains the draft as its last record and the draft is cleared; on rejection neither changes; the view state is untouched |
| `EmployeeApp.App.EditName` | src/App.js:133-139 | only the draft's name changes |
| `EmployeeApp.App.EditDepartment` | src/App.js:140-146 | only the draft's department changes |
| `EmployeeApp.App.EditRole` | src/App.js:147-153 | only the draft's role changes |
| `EmployeeApp.App.ShowList` | src/App.js:89-97 | list mode with both texts cleared; the roster is unchanged and the rows become the plain list; the three view fields are the spread of the corresponding one-field view state, whose rows are shown |
| `EmployeeApp.App.ShowSorted` | src/App.js:99-107 | sort mode with both texts cleared; the roster keeps its own order and the rows become its sorted copy; the three view fields are the spread of the corresponding one-field view state, whose rows are shown |
| `EmployeeApp.App.TypeSearch` | src/App.js:109-117 | search mode with the typed text and the filter text cleared; the roster is unchanged; the rows become the search view, or the plain list for an empty text; the three view fields are the spread of the corresponding one-field view state, whose rows are shown |
| `EmployeeApp.App.TypeFilter` | src/App.js:119-127 | filter mode with the typed text and the search text cleared; the roster is unchanged; the rows become the filter view, or the plain list for an empty text; the three view fields are the spread of the corresponding one-field view state, whose rows are shown |
| `SeedViews.SearchSeed` | src/App.js:5-9 | searching the seed for "sa" shows Sava's and Saba's rows, in that order |
| `SeedViews.FilterSeedHR` | src/App.js:5-9 | filtering the seed by "hr" shows Irakli's row only |
| `SeedViews.FilterSeedFinance` | src/App.js:5-9 | filtering the seed by "finance" shows only the department sentinel row |
| `SeedViews.SortSeed` | src/App.js:5-9 | the sorted seed is Irakli, Saba, Sava |

## Left out

- The `localStorage` load on mount and save on change, with their `JSON.parse`/`JSON.stringify` (src/App.js:23-33), are left out. They are browser I/O, and when they run depends on React's effect scheduling. The session therefore starts from the seed. Nothing is said about records loaded from storage, which are not checked by the source.
- `alert` and `e.preventDefault()` (src/App.js:36-38) are UI side effects. A rejected submit is modelled as `accepted == false` with no state change.
- JSX markup, CSS and the React `key` indices are left out. Rows are the text inside each `<li>`, and a sentinel row is its text.
- The `useState`/`useEffect` hook mechanics and the batching of state updates are left out. Each handler applies its setter calls at once, and reads the state as it was before the event.
- `e.target.value` becomes the handler's string parameter.
- `!newEmployee.name` is true only for the empty string here: a string field is falsy exactly when it is empty. Fields are always strings in the model, so `undefined` fields do not arise.
- NameSort.SortByName: orders names by plain character-code order instead of the locale collation of `String.prototype.localeCompare`. The collation is locale data outside the program. The properties proved (permutation, sorted, stable, idempotent) are about that stand-in order. It agrees with the collation on the seed names. Under character-code order every name starting with an upper-case letter sorts before any name starting with a lower-case letter: "alice" comes after "Irakli" (`NameLeq("alice", "Irakli")` is false), while `localeCompare` puts "alice" first.
- Text.LowerStr: folds only the ASCII letters A-Z, not the full Unicode case mapping of `String.prototype.toLowerCase`.

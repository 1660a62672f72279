/** The views of the seed roster, worked out in full. */
module SeedViews {
  import opened Text
  import opened Roster
  import opened NameSort
  import opened Views

  lemma SavaMatchesSa()
    ensures Matches(InitialEmployees()[0], Name, "sa")
  {
    assert LowerStr("Sava") == "sava" && LowerStr("sa") == "sa";
  }

  lemma SabaMatchesSa()
    ensures Matches(InitialEmployees()[1], Name, "sa")
  {
    assert LowerStr("Saba") == "saba" && LowerStr("sa") == "sa";
  }

  lemma IrakliMissesSa()
    ensures !Matches(InitialEmployees()[2], Name, "sa")
  {
    assert LowerStr("Irakli") == "irakli" && LowerStr("sa") == "sa";
    FirstCharMissingExcludes("irakli", "sa");
  }

  lemma SelectSeedTailSa()
    ensures Select(InitialEmployees()[1..], Name, "sa") == [InitialEmployees()[1]]
  {
    var s1 := InitialEmployees()[1..];
    SabaMatchesSa();
    IrakliMissesSa();
    var s2 := s1[1..];
    assert s2[1..] == [];
    assert Select(s2, Name, "sa") == [];
  }

  lemma SelectSeedSa()
    ensures Select(InitialEmployees(), Name, "sa") == [InitialEmployees()[0], InitialEmployees()[1]]
  {
    var seed := InitialEmployees();
    SavaMatchesSa();
    SelectSeedTailSa();
    assert Select(seed, Name, "sa") == [seed[0]] + Select(seed[1..], Name, "sa");
  }

  /** Searching "sa" shows Sava and Saba, in roster order, and not Irakli. */
  lemma SearchSeed()
    ensures SearchRows(InitialEmployees(), "sa") == [RowText(InitialEmployees()[0]), RowText(InitialEmployees()[1])]
  {
    var seed := InitialEmployees();
    SelectSeedSa();
    assert SearchRows(seed, "sa") == RowsOf([seed[0], seed[1]]);
  }

  /** Only the HR department matches "hr", and neither IT record does. */
  lemma DepartmentsAgainstHR()
    ensures !Matches(InitialEmployees()[0], Department, "hr")
    ensures !Matches(InitialEmployees()[1], Department, "hr")
    ensures Matches(InitialEmployees()[2], Department, "hr")
  {
    assert LowerStr("IT") == "it" && LowerStr("HR") == "hr" && LowerStr("hr") == "hr";
    FirstCharMissingExcludes("it", "hr");
  }

  lemma SelectSeedHR()
    ensures Select(InitialEmployees(), Department, "hr") == [InitialEmployees()[2]]
  {
    var seed := InitialEmployees();
    DepartmentsAgainstHR();
    var s1 := seed[1..];
    var s2 := s1[1..];
    assert s2[1..] == [];
    assert Select(s2, Department, "hr") == [seed[2]];
    assert Select(s1, Department, "hr") == [seed[2]];
  }

  /** Filtering "hr" shows only Irakli. */
  lemma FilterSeedHR()
    ensures FilterRows(InitialEmployees(), "hr") == [RowText(InitialEmployees()[2])]
  {
    SelectSeedHR();
    assert FilterRows(InitialEmployees(), "hr") == RowsOf([InitialEmployees()[2]]);
  }

  /** No seed department matches "finance". */
  lemma DepartmentsAgainstFinance()
    ensures !Matches(InitialEmployees()[0], Department, "finance")
    ensures !Matches(InitialEmployees()[1], Department, "finance")
    ensures !Matches(InitialEmployees()[2], Department, "finance")
  {
    assert LowerStr("finance") == "finance";
    assert LowerStr("IT") == "it" && LowerStr("HR") == "hr";
    FirstCharMissingExcludes("it", "finance");
    FirstCharMissingExcludes("hr", "finance");
  }

  lemma SelectSeedFinance()
    ensures Select(InitialEmployees(), Department, "finance") == []
  {
    var seed := InitialEmployees();
    DepartmentsAgainstFinance();
    var s1 := seed[1..];
    var s2 := s1[1..];
    assert s2[1..] == [];
    assert Select(s2, Department, "finance") == [];
    assert Select(s1, Department, "finance") == [];
  }

  /** Filtering "finance" matches no department, so only the sentinel row is shown. */
  lemma FilterSeedFinance()
    ensures FilterRows(InitialEmployees(), "finance") == [NoDepartmentRow]
  {
    SelectSeedFinance();
    SelectEmptyIff(InitialEmployees(), Department, "finance");
  }

  /** The seed's names in the name order: Irakli, then Saba, then Sava. */
  lemma SeedNameOrder()
    ensures !NameLeq("Saba", "Irakli")
    ensures !NameLeq("Sava", "Irakli")
    ensures !NameLeq("Sava", "Saba")
  {
    assert "Sava"[1..] == "ava" && "Saba"[1..] == "aba";
    assert "ava"[1..] == "va" && "aba"[1..] == "ba";
  }

  lemma SortSeedRecords()
    ensures SortByName(InitialEmployees()) == [InitialEmployees()[2], InitialEmployees()[1], InitialEmployees()[0]]
  {
    var seed := InitialEmployees();
    SeedNameOrder();
    var s1 := seed[1..];
    var s2 := s1[1..];
    assert s2[1..] == [];
    assert SortByName(s2) == [seed[2]];
    assert Insert(seed[1], [seed[2]]) == [seed[2], seed[1]];
    assert SortByName(s1) == [seed[2], seed[1]];
    assert Insert(seed[0], [seed[1]]) == [seed[1], seed[0]];
    assert Insert(seed[0], [seed[2], seed[1]]) == [seed[2], seed[1], seed[0]];
  }

  /** Sorting the seed gives Irakli, Saba, Sava. */
  lemma SortSeed()
    ensures SortedRows(InitialEmployees())
         == [RowText(InitialEmployees()[2]), RowText(InitialEmployees()[1]), RowText(InitialEmployees()[0])]
  {
    SortSeedRecords();
  }
}

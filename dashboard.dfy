/**
  The data flow of the dashboard once a file is loaded: the loaded table is
  kept as the original, a copy goes through the filter chain, and the
  percentage distribution of `y` is computed for both.
*/
module Dashboard {
  import opened StringOrder
  import opened BankTable
  import opened Filters
  import opened Percentage

  /** Everything the page shows about the data. */
  datatype Report = Report(
    original: Table,
    filtered: Table,
    originalShares: Distribution,
    filteredShares: Distribution)

  /**
    The original stays as loaded; the filtered table is the rows of the original
    that pass every stage of the chain, in order; both distributions are those
    of `calculate_percentage`; the filtered one is empty exactly when no row
    passes, and it never names a `y` value that the original's distribution
    does not. A table without rows never gets this far: the form's default
    age range fails on it first.
  */
  function Analyze(raw: Table, c: Controls): (r: Report)
    requires |raw| > 0
    ensures r.original == raw
    ensures r.originalShares == CalculatePercentage(raw)
    ensures r.filteredShares == CalculatePercentage(r.filtered)
    ensures |r.originalShares| > 0
    ensures r.filtered == Where(raw, Every(ChainSteps(c)))
    ensures IsSubseq(r.filtered, r.original)
    ensures r.filteredShares == [] <==> r.filtered == []
    ensures forall v :: v in Keys(r.filteredShares) ==> v in Keys(r.originalShares)
  {
    var bank := raw;
    var filtered := Chain(bank, c);
    ChainSelects(raw, c);
    SubseqColumnValues(filtered, raw, Y);
    var r := Report(raw, filtered, CalculatePercentage(raw), CalculatePercentage(filtered));
    r
  }

  /** The three clients of the worked example: aged 25, 40 and 30. */
  function ExampleTable(): Table
  {
    [ Row(25, "admin", "married", "no", "yes", "no", "cellular", "may", "mon", "yes"),
      Row(40, "blue-collar", "single", "no", "no", "no", "telephone", "jun", "tue", "no"),
      Row(30, "admin", "single", "no", "yes", "yes", "cellular", "may", "wed", "yes") ]
  }

  /** Ages 25 to 30 and job "admin" keep the first and the last client. */
  lemma ExampleChain()
    ensures
      var all := DefaultSelection;
      var c := Controls((25, 30), ["admin"], all, all, all, all, all, all, all);
      Chain(ExampleTable(), c) == [ExampleTable()[0], ExampleTable()[2]]
  {
    var t := ExampleTable();
    var kept := [t[0], t[2]];
    ExampleAgeQuery();
    ExampleJobFilter();
    assert AllLabel in DefaultSelection;
  }

  lemma ExampleAgeQuery()
    ensures AgeQuery(ExampleTable(), 25, 30) == [ExampleTable()[0], ExampleTable()[2]]
  {
    var t := ExampleTable();
    var b, d := t[1], t[2];
    assert t[1..] == [b, d] && [b, d][1..] == [d] && [d][1..] == [];
  }

  lemma ExampleJobFilter()
    ensures
      var kept := [ExampleTable()[0], ExampleTable()[2]];
      MultiselectFilter(kept, Job, ["admin"]) == kept
  {
    var kept := [ExampleTable()[0], ExampleTable()[2]];
    assert AllLabel !in ["admin"];
    assert Holds(IsIn(Job, ["admin"]), kept[0]) && Holds(IsIn(Job, ["admin"]), kept[1]);
    var m := IsIn(Job, ["admin"]);
    assert [kept[1]][1..] == [];
    assert Where([kept[1]], m) == [kept[1]];
    assert kept[1..] == [kept[1]];
    assert Where(kept, m) == [kept[0]] + Where([kept[1]], m);
  }

  /** Both clients kept said "yes": the filtered distribution is 100% "yes". */
  lemma ExamplePercentage()
    ensures CalculatePercentage([ExampleTable()[0], ExampleTable()[2]]) == [Share("yes", 100.0)]
  {
    var t := [ExampleTable()[0], ExampleTable()[2]];
    var ys := ColumnValues(t, Y);
    assert ys == ["yes", "yes"];
    assert ys[1..] == ["yes"] && ["yes"][1..] == [];
    assert SortedDistinct(ys) == ["yes"];
    assert Count(ys, "yes") == 2;
    PercentOfAll(2);
  }
}

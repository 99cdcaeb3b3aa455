/**
  The option lists of the categorical filters (`create_multiselect`): the
  sorted distinct values of the column, with the "all" sentinel appended,
  and "all" preselected.
*/
module Options {
  import opened StringOrder
  import opened BankTable
  import opened Filters

  /** The choices a multiselect offers and the selection it starts with. */
  datatype Multiselect = Multiselect(options: seq<string>, preselected: seq<string>)

  /**
    Options are the column's distinct values in ascending order followed by
    "all" as the very last entry; the initial selection is `["all"]`.
  */
  function CreateMultiselect(t: Table, col: Column): (w: Multiselect)
    ensures |w.options| > 0 && w.options[|w.options| - 1] == AllLabel
    ensures StrictlyAscending(w.options[..|w.options| - 1])
    ensures forall v :: v in w.options[..|w.options| - 1] <==> v in ColumnValues(t, col)
    ensures w.preselected == DefaultSelection
    ensures forall v :: v in w.preselected ==> v in w.options
  {
    var values := SortedDistinct(ColumnValues(t, col));
    var options := values + [AllLabel];
    assert options[..|options| - 1] == values;
    Multiselect(options, DefaultSelection)
  }

  /** With its initial selection, every categorical filter is the identity. */
  lemma InitialSelectionKeepsAll(t: Table, col: Column)
    ensures MultiselectFilter(t, col, CreateMultiselect(t, col).preselected) == t
  {
  }

  /**
    A column that genuinely holds the value "all" gets "all" offered twice,
    once as its value and once as the sentinel, and choosing it keeps every
    row: its own rows cannot be singled out.
  */
  lemma SentinelShadowsValue(t: Table, col: Column)
    requires AllLabel in ColumnValues(t, col)
    ensures multiset(CreateMultiselect(t, col).options)[AllLabel] == 2
    ensures MultiselectFilter(t, col, [AllLabel]) == t
  {
    var values := SortedDistinct(ColumnValues(t, col));
    AscendingMultiplicity(values, AllLabel);
    assert CreateMultiselect(t, col).options == values + [AllLabel];
  }
}

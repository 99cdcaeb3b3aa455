/**
  The filters of the dashboard: the boolean-mask row selection pandas
  performs for `df[mask]` and `df.query(...)`, the inclusive age range
  query, `multiselect_filter` with its "all" sentinel, and the `.pipe`
  chain that applies them one after the other to a copy of the loaded table.
*/
module Filters {
  import opened BankTable

  /** The label that, when selected, switches a categorical filter off. */
  const AllLabel: string := "all"

  /** One stage of the chain: the age query or one `multiselect_filter` call. */
  datatype Step =
    | AgeStep(lo: int, hi: int)
    | SelectStep(col: Column, selected: seq<string>)

  /** Whether a row gets through a stage. */
  predicate StepKeeps(st: Step, row: Row)
  {
    match st
    case AgeStep(lo, hi) => lo <= row.age <= hi
    case SelectStep(col, selected) => AllLabel in selected || Cell(row, col) in selected
  }

  /**
    Row conditions that can serve as a boolean mask. `InRange` and `IsIn` are
    the masks pandas evaluates for the query and for `isin`; `Every` is the
    conjunction of whole stages, which exists to state what a chain selects.
    `StepKeeps` agrees with them stage by stage (`ApplyIsWhere`).
  */
  datatype Mask =
    | InRange(lo: int, hi: int)              // age >= lo and age <= hi
    | IsIn(col: Column, values: seq<string>) // df[col].isin(values)
    | Every(steps: seq<Step>)                // the row gets through every stage listed

  predicate Holds(m: Mask, row: Row)
  {
    match m
    case InRange(lo, hi) => lo <= row.age && row.age <= hi
    case IsIn(col, values) => Cell(row, col) in values
    case Every(steps) => forall st :: st in steps ==> StepKeeps(st, row)
  }

  /** `df[mask]`: the rows for which the mask holds, in their original order. */
  function Where(t: Table, m: Mask): Table
    decreases |t|
  {
    if t == [] then []
    else if Holds(m, t[0]) then [t[0]] + Where(t[1..], m)
    else Where(t[1..], m)
  }

  /** `df[mask]` deletes rows and keeps the order of the rest. */
  lemma {:induction false} WhereSubseq(t: Table, m: Mask)
    ensures IsSubseq(Where(t, m), t)
    decreases |t|
  {
    if t != [] {
      WhereSubseq(t[1..], m);
      var rest := Where(t[1..], m);
      if Holds(m, t[0]) {
        assert ([t[0]] + rest)[1..] == rest;
      }
    }
  }

  /** Every row `df[mask]` keeps satisfies the mask. */
  lemma {:induction false} WhereSound(t: Table, m: Mask)
    ensures forall i :: 0 <= i < |Where(t, m)| ==> Holds(m, Where(t, m)[i])
    decreases |t|
  {
    if t != [] {
      WhereSound(t[1..], m);
    }
  }

  /** `df[mask]` drops no row that satisfies the mask: it occurs as often as in `t`. */
  lemma {:induction false} WhereComplete(t: Table, m: Mask)
    ensures forall row :: Holds(m, row) ==> multiset(Where(t, m))[row] == multiset(t)[row]
    decreases |t|
  {
    if t != [] {
      assert t == [t[0]] + t[1..];
      WhereComplete(t[1..], m);
    }
  }

  /**
    What `df[mask]` selects, characterised without reference to how it is
    computed: a subsequence of `t` in which every row satisfies the mask and
    every row satisfying the mask occurs as often as in `t`.
  */
  lemma WhereSelects(t: Table, m: Mask)
    ensures IsSubseq(Where(t, m), t)
    ensures forall i :: 0 <= i < |Where(t, m)| ==> Holds(m, Where(t, m)[i])
    ensures forall row :: Holds(m, row) ==> multiset(Where(t, m))[row] == multiset(t)[row]
  {
    WhereSubseq(t, m);
    WhereSound(t, m);
    WhereComplete(t, m);
  }

  /** `df.query("age >= @lo and age <= @hi")`: inclusive at both ends. */
  function AgeQuery(t: Table, lo: int, hi: int): (r: Table)
    ensures IsSubseq(r, t)
    ensures forall i :: 0 <= i < |r| ==> lo <= r[i].age <= hi
    ensures forall row: Row :: lo <= row.age <= hi ==> multiset(r)[row] == multiset(t)[row]
  {
    WhereSelects(t, InRange(lo, hi));
    Where(t, InRange(lo, hi))
  }

  /**
    `multiselect_filter(df, col, selected)`: the table unchanged when the
    selection contains "all", whatever else it contains; otherwise exactly the
    rows whose `col` value was selected, in their original order.
  */
  function MultiselectFilter(t: Table, col: Column, selected: seq<string>): (r: Table)
    ensures AllLabel in selected ==> r == t
    ensures AllLabel !in selected ==>
      && IsSubseq(r, t)
      && (forall i :: 0 <= i < |r| ==> Cell(r[i], col) in selected)
      && (forall row :: Cell(row, col) in selected ==> multiset(r)[row] == multiset(t)[row])
  {
    if AllLabel in selected then t
    else
      WhereSelects(t, IsIn(col, selected));
      Where(t, IsIn(col, selected))
  }

  /** A selection that is empty keeps no row at all (and is no error). */
  lemma {:induction false} EmptySelectionKeepsNothing(t: Table, col: Column)
    ensures MultiselectFilter(t, col, []) == []
    decreases |t|
  {
    if t != [] {
      EmptySelectionKeepsNothing(t[1..], col);
    }
  }

  /** `.pipe(stage)`: one stage applied to the table so far. */
  function Apply(t: Table, st: Step): Table
  {
    match st
    case AgeStep(lo, hi) => AgeQuery(t, lo, hi)
    case SelectStep(col, selected) => MultiselectFilter(t, col, selected)
  }

  /** The stages applied left to right, as a `.pipe` chain does. */
  function Pipeline(t: Table, steps: seq<Step>): Table
    decreases |steps|
  {
    if steps == [] then t else Pipeline(Apply(t, steps[0]), steps[1..])
  }

  /** What the sidebar form hands to the filter chain. */
  datatype Controls = Controls(
    ageRange: (int, int),
    jobs: seq<string>,
    marital: seq<string>,
    creditDefault: seq<string>,
    housing: seq<string>,
    loan: seq<string>,
    contact: seq<string>,
    month: seq<string>,
    day: seq<string>)

  /** The chain's stages in the order the source writes them. */
  function ChainSteps(c: Controls): seq<Step>
  {
    [ AgeStep(c.ageRange.0, c.ageRange.1),
      SelectStep(Job, c.jobs),
      SelectStep(Marital, c.marital),
      SelectStep(Default, c.creditDefault),
      SelectStep(Housing, c.housing),
      SelectStep(Loan, c.loan),
      SelectStep(Contact, c.contact),
      SelectStep(Month, c.month),
      SelectStep(DayOfWeek, c.day) ]
  }

  /** The age query followed by the eight `multiselect_filter` pipes. */
  function Chain(t: Table, c: Controls): Table
  {
    var aged := AgeQuery(t, c.ageRange.0, c.ageRange.1);
    var t1 := MultiselectFilter(aged, Job, c.jobs);
    var t2 := MultiselectFilter(t1, Marital, c.marital);
    var t3 := MultiselectFilter(t2, Default, c.creditDefault);
    var t4 := MultiselectFilter(t3, Housing, c.housing);
    var t5 := MultiselectFilter(t4, Loan, c.loan);
    var t6 := MultiselectFilter(t5, Contact, c.contact);
    var t7 := MultiselectFilter(t6, Month, c.month);
    MultiselectFilter(t7, DayOfWeek, c.day)
  }

  // ---------------------------------------------------------------------
  // Selection by a mask, in general
  // ---------------------------------------------------------------------

  /** Masks that agree on every row select the same rows. */
  lemma {:induction false} WhereEquivalent(t: Table, m1: Mask, m2: Mask)
    requires forall row :: Holds(m1, row) == Holds(m2, row)
    ensures Where(t, m1) == Where(t, m2)
    decreases |t|
  {
    if t != [] {
      WhereEquivalent(t[1..], m1, m2);
    }
  }

  /** A mask that holds for every row of `t` keeps all of `t`. */
  lemma {:induction false} WhereKeepsAll(t: Table, m: Mask)
    requires forall i :: 0 <= i < |t| ==> Holds(m, t[i])
    ensures Where(t, m) == t
    decreases |t|
  {
    if t != [] {
      WhereKeepsAll(t[1..], m);
      assert t == [t[0]] + t[1..];
    }
  }

  /** Selecting by the stages `a` and then by the stages `b` is selecting by both at once. */
  lemma {:induction false} WhereWhere(t: Table, a: seq<Step>, b: seq<Step>)
    ensures Where(Where(t, Every(a)), Every(b)) == Where(t, Every(a + b))
    decreases |t|
  {
    if t != [] {
      WhereWhere(t[1..], a, b);
      var rest := Where(t[1..], Every(a));
      if Holds(Every(a), t[0]) {
        assert ([t[0]] + rest)[1..] == rest;
        assert Holds(Every(a + b), t[0]) == Holds(Every(b), t[0]);
      } else {
        assert !Holds(Every(a + b), t[0]);
      }
    }
  }

  /** No stage at all keeps every row. */
  lemma EveryNothing(t: Table)
    ensures Where(t, Every([])) == t
  {
    WhereKeepsAll(t, Every([]));
  }

  // ---------------------------------------------------------------------
  // The chain
  // ---------------------------------------------------------------------

  /** Each stage selects exactly the rows that get through it. */
  lemma ApplyIsWhere(t: Table, st: Step)
    ensures Apply(t, st) == Where(t, Every([st]))
  {
    forall row ensures Holds(Every([st]), row) == StepKeeps(st, row) {
      assert st in [st];
    }
    match st
    case AgeStep(lo, hi) =>
      WhereEquivalent(t, InRange(lo, hi), Every([st]));
    case SelectStep(col, selected) =>
      if AllLabel in selected {
        WhereKeepsAll(t, Every([st]));
      } else {
        WhereEquivalent(t, IsIn(col, selected), Every([st]));
      }
  }

  /** A `.pipe` chain keeps exactly the rows that get through every one of its stages. */
  lemma {:induction false} PipelineIsWhere(t: Table, steps: seq<Step>)
    ensures Pipeline(t, steps) == Where(t, Every(steps))
    decreases |steps|
  {
    if steps == [] {
      EveryNothing(t);
    } else {
      PipelineIsWhere(Apply(t, steps[0]), steps[1..]);
      ApplyIsWhere(t, steps[0]);
      WhereWhere(t, [steps[0]], steps[1..]);
      assert [steps[0]] + steps[1..] == steps;
    }
  }

  /** The chain in the source is the `.pipe` chain of its nine stages. */
  lemma ChainIsPipeline(t: Table, c: Controls)
    ensures Chain(t, c) == Pipeline(t, ChainSteps(c))
  {
    var s := ChainSteps(c);
    var p1 := Apply(t, s[0]);
    var p2 := Apply(p1, s[1]);
    var p3 := Apply(p2, s[2]);
    var p4 := Apply(p3, s[3]);
    var p5 := Apply(p4, s[4]);
    var p6 := Apply(p5, s[5]);
    var p7 := Apply(p6, s[6]);
    var p8 := Apply(p7, s[7]);
    var p9 := Apply(p8, s[8]);
    assert Pipeline(p9, s[9..]) == p9;
    assert Pipeline(p8, s[8..]) == Pipeline(p9, s[9..]);
    assert Pipeline(p7, s[7..]) == Pipeline(p8, s[8..]);
    assert Pipeline(p6, s[6..]) == Pipeline(p7, s[7..]);
    assert Pipeline(p5, s[5..]) == Pipeline(p6, s[6..]);
    assert Pipeline(p4, s[4..]) == Pipeline(p5, s[5..]);
    assert Pipeline(p3, s[3..]) == Pipeline(p4, s[4..]);
    assert Pipeline(p2, s[2..]) == Pipeline(p3, s[3..]);
    assert Pipeline(p1, s[1..]) == Pipeline(p2, s[2..]);
    assert Pipeline(t, s) == Pipeline(p1, s[1..]);
  }

  /**
    The chain keeps exactly the rows of the original table that lie in the age
    range and pass every categorical filter; the original is a supertable of
    the result, which is never longer.
  */
  lemma ChainSelects(t: Table, c: Controls)
    ensures Chain(t, c) == Where(t, Every(ChainSteps(c)))
    ensures IsSubseq(Chain(t, c), t)
    ensures |Chain(t, c)| <= |t|
  {
    ChainIsPipeline(t, c);
    PipelineIsWhere(t, ChainSteps(c));
    WhereSelects(t, Every(ChainSteps(c)));
    SubseqShorter(Chain(t, c), t);
  }

  /** Running the same controls over the filtered table changes nothing. */
  lemma ChainIdempotent(t: Table, c: Controls)
    ensures Chain(Chain(t, c), c) == Chain(t, c)
  {
    var s := ChainSteps(c);
    var once := Where(t, Every(s));
    ChainIsPipeline(t, c);
    PipelineIsWhere(t, s);
    ChainIsPipeline(once, c);
    PipelineIsWhere(once, s);
    WhereWhere(t, s, s);
    WhereEquivalent(t, Every(s + s), Every(s));
  }

  /** Only which stages occur matters, not their order nor their repetition. */
  lemma PipelineOrderIrrelevant(t: Table, s1: seq<Step>, s2: seq<Step>)
    requires forall st :: st in s1 <==> st in s2
    ensures Pipeline(t, s1) == Pipeline(t, s2)
  {
    PipelineIsWhere(t, s1);
    PipelineIsWhere(t, s2);
    WhereEquivalent(t, Every(s1), Every(s2));
  }

  /** Any rearrangement of the nine `.pipe` stages yields the same table as the source's order. */
  lemma ChainOrderIrrelevant(t: Table, c: Controls, steps: seq<Step>)
    requires multiset(steps) == multiset(ChainSteps(c))
    ensures Pipeline(t, steps) == Chain(t, c)
  {
    forall st ensures st in steps <==> st in ChainSteps(c) {
      assert st in steps <==> st in multiset(steps);
      assert st in ChainSteps(c) <==> st in multiset(ChainSteps(c));
    }
    PipelineOrderIrrelevant(t, steps, ChainSteps(c));
    ChainIsPipeline(t, c);
  }

  // ---------------------------------------------------------------------
  // Default controls
  // ---------------------------------------------------------------------

  /** `int(df.age.min())`; on a table with no rows the minimum is undefined (NaN) and `int` fails. */
  function MinAge(t: Table): (m: Option<int>)
    ensures m.None? <==> |t| == 0
    ensures m.Some? ==> (exists row :: row in t && row.age == m.value)
    ensures m.Some? ==> forall i :: 0 <= i < |t| ==> m.value <= t[i].age
    decreases |t|
  {
    if t == [] then None
    else
      match MinAge(t[1..])
      case None => Some(t[0].age)
      case Some(rest) =>
        assert forall row :: row in t[1..] ==> row in t;
        Some(if t[0].age < rest then t[0].age else rest)
  }

  /** `int(df.age.max())`. */
  function MaxAge(t: Table): (m: Option<int>)
    ensures m.None? <==> |t| == 0
    ensures m.Some? ==> (exists row :: row in t && row.age == m.value)
    ensures m.Some? ==> forall i :: 0 <= i < |t| ==> t[i].age <= m.value
    decreases |t|
  {
    if t == [] then None
    else
      match MaxAge(t[1..])
      case None => Some(t[0].age)
      case Some(rest) =>
        assert forall row :: row in t[1..] ==> row in t;
        Some(if t[0].age > rest then t[0].age else rest)
  }

  /** The selection every categorical control starts with. */
  const DefaultSelection: seq<string> := [AllLabel]

  /**
    The form as first shown: the slider at `(min_age, max_age)` and every
    multiselect at `["all"]`. There is none for a table without rows, whose
    minimum age cannot be converted to an integer.
  */
  function DefaultControls(t: Table): (c: Option<Controls>)
    ensures c.None? <==> |t| == 0
    ensures c.Some? ==>
      && Some(c.value.ageRange.0) == MinAge(t)
      && Some(c.value.ageRange.1) == MaxAge(t)
      && c.value.jobs == c.value.marital == c.value.creditDefault == c.value.housing == DefaultSelection
      && c.value.loan == c.value.contact == c.value.month == c.value.day == DefaultSelection
  {
    match (MinAge(t), MaxAge(t))
    case (Some(lo), Some(hi)) =>
      var d := DefaultSelection;
      Some(Controls((lo, hi), d, d, d, d, d, d, d, d))
    case _ => None
  }

  /** Under the default controls the chain keeps every row. */
  lemma DefaultControlsKeepAll(t: Table)
    requires |t| > 0
    ensures DefaultControls(t).Some?
    ensures Chain(t, DefaultControls(t).value) == t
  {
    var c := DefaultControls(t).value;
    forall i | 0 <= i < |t| ensures Holds(Every(ChainSteps(c)), t[i]) {
    }
    WhereKeepsAll(t, Every(ChainSteps(c)));
    ChainSelects(t, c);
  }
}

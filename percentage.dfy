/**
  `calculate_percentage`: the share of each distinct value of the `y`
  column, in percent of the number of rows, keyed in ascending order.
  Percentages are exact reals here rather than floating point.
*/
module Percentage {
  import opened StringOrder
  import opened BankTable

  /** One line of the result: a `y` value and its percentage. */
  datatype Share = Share(value: string, percent: real)

  type Distribution = seq<Share>

  /** The values of a distribution, top to bottom (its index). */
  function Keys(d: Distribution): (ks: seq<string>)
    ensures |ks| == |d|
    ensures forall i :: 0 <= i < |d| ==> ks[i] == d[i].value
  {
    seq(|d|, i requires 0 <= i < |d| => d[i].value)
  }

  /** The sum of the percentages. */
  function Total(d: Distribution): real
  {
    if d == [] then 0.0 else d[0].percent + Total(d[1..])
  }

  /** How often `x` occurs in `s` (one entry of `value_counts`). */
  function Count(s: seq<string>, x: string): (n: nat)
    ensures n <= |s|
    ensures n > 0 <==> x in s
    decreases |s|
  {
    if s == [] then 0
    else
      assert forall e :: e in s <==> e == s[0] || e in s[1..] by {
        assert s == [s[0]] + s[1..];
      }
      (if s[0] == x then 1 else 0) + Count(s[1..], x)
  }

  /** `Count` is the multiplicity of `x` in the multiset of `s`. */
  lemma {:induction false} CountIsMultiplicity(s: seq<string>, x: string)
    ensures Count(s, x) == multiset(s)[x]
    decreases |s|
  {
    if s != [] {
      assert s == [s[0]] + s[1..];
      CountIsMultiplicity(s[1..], x);
    }
  }

  /** `value_counts(normalize=True).mul(100)` for one value. */
  function Percent(count: nat, total: nat): real
    requires total > 0
  {
    (count as real / total as real) * 100.0
  }

  lemma PercentBounds(count: nat, total: nat)
    requires 0 < count <= total
    ensures 0.0 < Percent(count, total) <= 100.0
  {
    var n := total as real;
    var rest := (total - count) as real / n;
    assert rest >= 0.0;
    assert count as real / n + rest == n / n == 1.0;
  }

  lemma PercentAdditive(a: nat, b: nat, total: nat)
    requires total > 0
    ensures Percent(a, total) + Percent(b, total) == Percent(a + b, total)
  {
    var n := total as real;
    assert a as real / n + b as real / n == (a + b) as real / n;
  }

  lemma PercentOfAll(total: nat)
    requires total > 0
    ensures Percent(total, total) == 100.0
  {
    var n := total as real;
    assert n / n == 1.0;
  }

  /** One line per key, each holding the key's percentage among `ys`. */
  function Shares(keys: seq<string>, ys: seq<string>): (d: Distribution)
    requires |ys| > 0
    ensures Keys(d) == keys
    ensures forall i :: 0 <= i < |d| ==> d[i].percent == Percent(Count(ys, d[i].value), |ys|)
    decreases |keys|
  {
    if keys == [] then []
    else
      var rest := Shares(keys[1..], ys);
      var d := [Share(keys[0], Percent(Count(ys, keys[0]), |ys|))] + rest;
      assert Keys(d) == [keys[0]] + Keys(rest);
      d
  }

  /**
    `calculate_percentage(df)`: empty for a table without rows; otherwise one
    line per distinct `y` value, keys strictly ascending, each value's share
    `100 * count / rows`, which lies in (0, 100].
  */
  function CalculatePercentage(t: Table): (d: Distribution)
    ensures |t| == 0 ==> d == []
    ensures |t| > 0 ==> |d| > 0
    ensures StrictlyAscending(Keys(d))
    ensures forall v :: v in Keys(d) <==> v in ColumnValues(t, Y)
    ensures forall i :: 0 <= i < |d| ==>
      d[i].percent == Percent(Count(ColumnValues(t, Y), d[i].value), |t|)
    ensures forall i :: 0 <= i < |d| ==> 0.0 < d[i].percent <= 100.0
  {
    if |t| == 0 then []
    else
      var ys := ColumnValues(t, Y);
      var d := Shares(SortedDistinct(ys), ys);
      forall i | 0 <= i < |d| ensures 0.0 < d[i].percent <= 100.0 {
        assert d[i].value in Keys(d);
        PercentBounds(Count(ys, d[i].value), |ys|);
      }
      d
  }

  // ---------------------------------------------------------------------
  // The percentages add up to 100
  // ---------------------------------------------------------------------

  /** Sum over `keys` of the occurrences of each key in `s`. */
  function SumCounts(keys: seq<string>, s: seq<string>): nat
  {
    if keys == [] then 0 else Count(s, keys[0]) + SumCounts(keys[1..], s)
  }

  lemma {:induction false} SumCountsCons(keys: seq<string>, x: string, s: seq<string>)
    ensures SumCounts(keys, [x] + s) == Count(keys, x) + SumCounts(keys, s)
    decreases |keys|
  {
    if keys != [] {
      assert ([x] + s)[1..] == s;
      SumCountsCons(keys[1..], x, s);
    }
  }

  lemma {:induction false} SumCountsNothing(keys: seq<string>)
    ensures SumCounts(keys, []) == 0
    decreases |keys|
  {
    if keys != [] {
      SumCountsNothing(keys[1..]);
    }
  }

  /** When every element of `s` is exactly one of the keys, the counts add up to `|s|`. */
  lemma {:induction false} SumCountsCovers(keys: seq<string>, s: seq<string>)
    requires forall e :: e in s ==> Count(keys, e) == 1
    ensures SumCounts(keys, s) == |s|
    decreases |s|
  {
    if s == [] {
      SumCountsNothing(keys);
    } else {
      assert s == [s[0]] + s[1..];
      SumCountsCovers(keys, s[1..]);
      SumCountsCons(keys, s[0], s[1..]);
    }
  }

  lemma {:induction false} TotalShares(keys: seq<string>, ys: seq<string>)
    requires |ys| > 0
    ensures Total(Shares(keys, ys)) == Percent(SumCounts(keys, ys), |ys|)
    decreases |keys|
  {
    if keys != [] {
      TotalShares(keys[1..], ys);
      PercentAdditive(Count(ys, keys[0]), SumCounts(keys[1..], ys), |ys|);
    }
  }

  lemma KeysOccurOnce(ys: seq<string>)
    ensures forall e :: e in ys ==> Count(SortedDistinct(ys), e) == 1
  {
    var keys := SortedDistinct(ys);
    forall e | e in ys ensures Count(keys, e) == 1 {
      CountIsMultiplicity(keys, e);
      AscendingMultiplicity(keys, e);
    }
  }

  /** In exact arithmetic the percentages of a table with rows sum to 100. */
  lemma PercentagesSumTo100(t: Table)
    requires |t| > 0
    ensures Total(CalculatePercentage(t)) == 100.0
  {
    var ys := ColumnValues(t, Y);
    var keys := SortedDistinct(ys);
    KeysOccurOnce(ys);
    SumCountsCovers(keys, ys);
    TotalShares(keys, ys);
    PercentOfAll(|ys|);
    assert CalculatePercentage(t) == Shares(keys, ys);
  }
}

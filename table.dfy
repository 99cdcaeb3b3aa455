/**
  The bank-marketing table the dashboard works on. A table is a sequence of
  rows; the position of a row is its place in the table. Every cell is
  present (no missing values).
*/
module BankTable {

  datatype Option<T> = None | Some(value: T)

  /** One client record: the numeric `age` column and the categorical columns the dashboard reads. */
  datatype Row = Row(
    age: int,
    job: string,
    marital: string,
    creditDefault: string,
    housing: string,
    loan: string,
    contact: string,
    month: string,
    dayOfWeek: string,
    y: string)

  type Table = seq<Row>

  /** The categorical columns, by the names the source uses for them. */
  datatype Column = Job | Marital | Default | Housing | Loan | Contact | Month | DayOfWeek | Y

  /** `row[col]` for a categorical column. */
  function Cell(row: Row, col: Column): string
  {
    match col
    case Job => row.job
    case Marital => row.marital
    case Default => row.creditDefault
    case Housing => row.housing
    case Loan => row.loan
    case Contact => row.contact
    case Month => row.month
    case DayOfWeek => row.dayOfWeek
    case Y => row.y
  }

  /** `df[col].tolist()`: the column read top to bottom. */
  function ColumnValues(t: Table, col: Column): (vs: seq<string>)
    ensures |vs| == |t|
    ensures forall i :: 0 <= i < |t| ==> vs[i] == Cell(t[i], col)
  {
    seq(|t|, i requires 0 <= i < |t| => Cell(t[i], col))
  }

  /** `a` is obtained from `b` by deleting rows and keeping the order of the rest. */
  predicate IsSubseq<T(==)>(a: seq<T>, b: seq<T>)
    decreases |b|
  {
    if a == [] then true
    else if b == [] then false
    else (a[0] == b[0] && IsSubseq(a[1..], b[1..])) || IsSubseq(a, b[1..])
  }

  lemma {:induction false} SubseqShorter<T>(a: seq<T>, b: seq<T>)
    requires IsSubseq(a, b)
    ensures |a| <= |b|
    ensures forall x :: x in a ==> x in b
    decreases |b|
  {
    if a != [] {
      assert b == [b[0]] + b[1..];
      if a[0] == b[0] && IsSubseq(a[1..], b[1..]) {
        SubseqShorter(a[1..], b[1..]);
        assert a == [a[0]] + a[1..];
      } else {
        SubseqShorter(a, b[1..]);
      }
    }
  }

  lemma {:induction false} SubseqReflexive<T>(a: seq<T>)
    ensures IsSubseq(a, a)
    decreases |a|
  {
    if a != [] {
      SubseqReflexive(a[1..]);
    }
  }

  /** Every value in a column of a subtable also occurs in that column of the table. */
  lemma SubseqColumnValues(a: Table, b: Table, col: Column)
    requires IsSubseq(a, b)
    ensures forall v :: v in ColumnValues(a, col) ==> v in ColumnValues(b, col)
  {
    SubseqShorter(a, b);
    forall v | v in ColumnValues(a, col) ensures v in ColumnValues(b, col) {
      var i :| 0 <= i < |a| && ColumnValues(a, col)[i] == v;
      assert a[i] in b;
      var j :| 0 <= j < |b| && b[j] == a[i];
      assert ColumnValues(b, col)[j] == v;
    }
  }
}

/**
  Python's ordering of `str` values, which both `sorted(...)` (option lists)
  and `sort_index()` (percentage tables) use: lexicographic by code point,
  with a proper prefix ordered before the longer string.
*/
module StringOrder {

  /** `a < b` on Python strings. */
  predicate Less(a: string, b: string)
    decreases |a|
  {
    if |a| == 0 then |b| > 0
    else if |b| == 0 then false
    else if a[0] != b[0] then a[0] < b[0]
    else Less(a[1..], b[1..])
  }

  lemma {:induction false} LessIrreflexive(a: string)
    ensures !Less(a, a)
    decreases |a|
  {
    if |a| > 0 {
      LessIrreflexive(a[1..]);
    }
  }

  lemma {:induction false} LessTransitive(a: string, b: string, c: string)
    requires Less(a, b) && Less(b, c)
    ensures Less(a, c)
    decreases |a|
  {
    if |a| > 0 && a[0] == b[0] && b[0] == c[0] {
      LessTransitive(a[1..], b[1..], c[1..]);
    }
  }

  lemma {:induction false} LessTotal(a: string, b: string)
    requires a != b
    ensures Less(a, b) || Less(b, a)
    decreases |a|
  {
    if |a| > 0 && |b| > 0 && a[0] == b[0] {
      assert a == [a[0]] + a[1..] && b == [b[0]] + b[1..];
      LessTotal(a[1..], b[1..]);
    }
  }

  lemma {:induction false} LessAsymmetric(a: string, b: string)
    requires Less(a, b)
    ensures !Less(b, a)
  {
    if Less(b, a) {
      LessTransitive(a, b, a);
      LessIrreflexive(a);
    }
  }

  /** Every earlier element is strictly smaller: sorted and free of duplicates. */
  predicate StrictlyAscending(s: seq<string>)
  {
    forall i, j :: 0 <= i < j < |s| ==> Less(s[i], s[j])
  }

  /** Inserts `x` into an ascending sequence unless it is already there. */
  function Insert(x: string, s: seq<string>): (r: seq<string>)
    requires StrictlyAscending(s)
    ensures StrictlyAscending(r)
    ensures forall e :: e in r <==> e in s || e == x
    decreases |s|
  {
    if s == [] then [x]
    else if x == s[0] then s
    else if Less(x, s[0]) then
      assert forall j :: 0 < j < |s| ==> Less(x, s[j]) by {
        forall j | 0 < j < |s| ensures Less(x, s[j]) {
          LessTransitive(x, s[0], s[j]);
        }
      }
      [x] + s
    else
      LessTotal(x, s[0]);
      var rest := Insert(x, s[1..]);
      assert forall e :: e in rest ==> Less(s[0], e) by {
        forall e | e in rest ensures Less(s[0], e) {
          if e != x {
            var j :| 0 <= j < |s[1..]| && s[1..][j] == e;
            assert s[j + 1] == e;
          }
        }
      }
      assert forall e :: e in s <==> e == s[0] || e in s[1..] by {
        assert s == [s[0]] + s[1..];
      }
      [s[0]] + rest
  }

  /** `sorted(set(s))`: the distinct elements of `s` in ascending order. */
  function SortedDistinct(s: seq<string>): (r: seq<string>)
    ensures StrictlyAscending(r)
    ensures forall e :: e in r <==> e in s
    ensures |r| <= |s|
    ensures |s| > 0 ==> |r| > 0
  {
    if s == [] then []
    else
      var rest := SortedDistinct(s[1..]);
      assert forall e :: e in s <==> e == s[0] || e in s[1..] by {
        assert s == [s[0]] + s[1..];
      }
      var r := Insert(s[0], rest);
      InsertLength(s[0], rest);
      r
  }

  lemma {:induction false} InsertLength(x: string, s: seq<string>)
    requires StrictlyAscending(s)
    ensures |Insert(x, s)| <= |s| + 1
    ensures |Insert(x, s)| > 0
    decreases |s|
  {
    if s != [] && x != s[0] && !Less(x, s[0]) {
      InsertLength(x, s[1..]);
    }
  }

  /** An element occurs at most once in a strictly ascending sequence. */
  lemma {:induction false} AscendingMultiplicity(s: seq<string>, x: string)
    requires StrictlyAscending(s)
    ensures multiset(s)[x] == if x in s then 1 else 0
    decreases |s|
  {
    if s != [] {
      assert s == [s[0]] + s[1..];
      AscendingMultiplicity(s[1..], x);
      if x == s[0] {
        if x in s[1..] {
          var j :| 0 <= j < |s[1..]| && s[1..][j] == x;
          assert Less(s[0], s[j + 1]);
          LessIrreflexive(x);
        }
      }
    }
  }

  /** Two ascending sequences with the same elements are equal: the sorted order is unique. */
  lemma {:induction false} AscendingUnique(a: seq<string>, b: seq<string>)
    requires StrictlyAscending(a) && StrictlyAscending(b)
    requires forall e :: e in a <==> e in b
    ensures a == b
    decreases |a|
  {
    if a != [] { assert a[0] in a; }
    if b != [] { assert b[0] in b; }
    if a != [] && b != [] {
      if a[0] != b[0] {
        assert a[0] in a && b[0] in b;
        var i :| 0 <= i < |b| && b[i] == a[0];
        var j :| 0 <= j < |a| && a[j] == b[0];
        assert i > 0 && j > 0;
        assert Less(b[0], a[0]) && Less(a[0], b[0]);
        LessAsymmetric(a[0], b[0]);
      }
      forall e | e in a[1..] ensures e in b[1..] {
        var j :| 0 <= j < |a[1..]| && a[1..][j] == e;
        assert Less(a[0], a[j + 1]);
        assert e in a && e in b;
        var k :| 0 <= k < |b| && b[k] == e;
        if k == 0 { LessIrreflexive(e); }
        assert b[1..][k - 1] == e;
      }
      forall e | e in b[1..] ensures e in a[1..] {
        var j :| 0 <= j < |b[1..]| && b[1..][j] == e;
        assert Less(b[0], b[j + 1]);
        assert e in b && e in a;
        var k :| 0 <= k < |a| && a[k] == e;
        if k == 0 { LessIrreflexive(e); }
        assert a[1..][k - 1] == e;
      }
      AscendingUnique(a[1..], b[1..]);
      assert a == [a[0]] + a[1..] && b == [b[0]] + b[1..];
    }
  }
}

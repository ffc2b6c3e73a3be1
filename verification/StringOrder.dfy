/** The natural ordering of Java strings (String.compareTo), the sortedness and
    distinctness of label lists, and the sort the provider applies to its labels. */
module StringOrder {

  /** `a.compareTo(b) < 0`: the first differing character decides; when one string
      is a prefix of the other, the shorter one comes first. */
  predicate Less(a: string, b: string)
    ensures a < b ==> Less(a, b)
    ensures Less(a, b) ==> a != b
    decreases |a|
  {
    if |a| == 0 then |b| > 0
    else if |b| == 0 then false
    else if a[0] != b[0] then a[0] < b[0]
    else Less(a[1..], b[1..])
  }

  /** `a.compareTo(b) <= 0` */
  predicate LessOrEqual(a: string, b: string) {
    a == b || Less(a, b)
  }

  lemma {:induction false} LessIrreflexive(a: string)
    ensures !Less(a, a)
  {
    if |a| > 0 {
      LessIrreflexive(a[1..]);
    }
  }

  lemma {:induction false} LessTransitive(a: string, b: string, c: string)
    requires Less(a, b) && Less(b, c)
    ensures Less(a, c)
  {
    if |a| > 0 && a[0] == b[0] && b[0] == c[0] {
      LessTransitive(a[1..], b[1..], c[1..]);
    }
  }

  /** Any two strings are equal or ordered one way round. */
  lemma {:induction false} LessTrichotomy(a: string, b: string)
    ensures a == b || Less(a, b) || Less(b, a)
  {
    if |a| > 0 && |b| > 0 && a[0] == b[0] {
      LessTrichotomy(a[1..], b[1..]);
      if a[1..] == b[1..] {
        assert a == [a[0]] + a[1..] && b == [b[0]] + b[1..];
      }
    }
  }

  lemma LessAsymmetric(a: string, b: string)
    requires Less(a, b)
    ensures !Less(b, a)
  {
    if Less(b, a) {
      LessTransitive(a, b, a);
      LessIrreflexive(a);
    }
  }

  lemma LessOrEqualTransitive(a: string, b: string, c: string)
    requires LessOrEqual(a, b) && LessOrEqual(b, c)
    ensures LessOrEqual(a, c)
  {
    if a != b && b != c {
      LessTransitive(a, b, c);
    }
  }

  predicate Sorted(s: seq<string>) {
    forall i, j :: 0 <= i < j < |s| ==> LessOrEqual(s[i], s[j])
  }

  predicate StrictlySorted(s: seq<string>) {
    forall i, j :: 0 <= i < j < |s| ==> Less(s[i], s[j])
  }

  predicate Distinct(s: seq<string>) {
    forall i, j :: 0 <= i < j < |s| ==> s[i] != s[j]
  }

  function Elements(s: seq<string>): set<string> {
    set x | x in s
  }

  /** A list has no repeated entry exactly when no entry occurs twice in its multiset;
      so a permutation of a duplicate-free list is duplicate-free. */
  lemma {:induction false} DistinctMultiset(s: seq<string>)
    ensures Distinct(s) <==> forall x :: multiset(s)[x] <= 1
  {
    if s != [] {
      var t, y := s[..|s| - 1], s[|s| - 1];
      assert s == t + [y];
      DistinctMultiset(t);
      assert multiset(s) == multiset(t) + multiset{y};
      if Distinct(s) {
        assert Distinct(t);
        forall k | 0 <= k < |t| ensures t[k] != y {
          assert s[k] == t[k];
        }
        forall x ensures multiset(s)[x] <= 1 {
          assert multiset(t)[x] <= 1;
        }
      }
      if forall x :: multiset(s)[x] <= 1 {
        forall x ensures multiset(t)[x] <= 1 {
          assert multiset(s)[x] <= 1;
        }
        assert multiset(s)[y] <= 1;
        assert y !in multiset(t);
        forall i, j | 0 <= i < j < |s| ensures s[i] != s[j] {
          if j == |s| - 1 {
            assert t[i] in multiset(t);
          } else {
            assert t[i] != t[j];
          }
        }
      }
    }
  }

  /** A duplicate-free list has as many entries as distinct elements. */
  lemma {:induction false} DistinctCardinality(s: seq<string>)
    requires Distinct(s)
    ensures |Elements(s)| == |s|
  {
    if s != [] {
      var t, y := s[..|s| - 1], s[|s| - 1];
      assert s == t + [y];
      assert Distinct(t);
      DistinctCardinality(t);
      forall k | 0 <= k < |t| ensures t[k] != y {
        assert s[k] == t[k];
      }
      assert y !in Elements(t);
      assert Elements(s) == Elements(t) + {y};
    }
  }

  lemma StrictlySortedDistinct(s: seq<string>)
    requires StrictlySorted(s)
    ensures Distinct(s)
  {
    forall i, j | 0 <= i < j < |s| ensures s[i] != s[j] {
      LessIrreflexive(s[i]);
    }
  }

  /** Two strictly sorted lists with the same elements are the same list: the label
      order is fixed by the set of labels alone. */
  lemma {:induction false} StrictlySortedUnique(a: seq<string>, b: seq<string>)
    requires StrictlySorted(a) && StrictlySorted(b)
    requires Elements(a) == Elements(b)
    ensures a == b
  {
    StrictlySortedDistinct(a);
    StrictlySortedDistinct(b);
    DistinctCardinality(a);
    DistinctCardinality(b);
    if a != [] {
      assert b[0] in Elements(a) && a[0] in Elements(b);
      var k :| 0 <= k < |a| && a[k] == b[0];
      var m :| 0 <= m < |b| && b[m] == a[0];
      if k > 0 && m > 0 {
        LessAsymmetric(a[0], b[0]);
        assert false;
      }
      assert a[0] == b[0];
      LessIrreflexive(a[0]);
      forall x ensures x in Elements(a[1..]) <==> x in Elements(b[1..]) {
        if x in a[1..] {
          var i :| 1 <= i < |a| && a[i] == x;
          assert x != a[0];
          assert x in Elements(b);
        }
        if x in b[1..] {
          var i :| 1 <= i < |b| && b[i] == x;
          assert x != b[0];
          assert x in Elements(a);
        }
      }
      assert Elements(a[1..]) == Elements(b[1..]);
      StrictlySortedUnique(a[1..], b[1..]);
      assert a == [a[0]] + a[1..] && b == [b[0]] + b[1..];
    }
  }

  /** Inserting x between the entries not above it and the entries not below it
      keeps a list sorted. */
  lemma InsertSorted(s: seq<string>, k: nat, x: string)
    requires Sorted(s) && k <= |s|
    requires forall j :: 0 <= j < k ==> LessOrEqual(s[j], x)
    requires forall j :: k <= j < |s| ==> LessOrEqual(x, s[j])
    ensures Sorted(s[..k] + [x] + s[k..])
  {
    var r := s[..k] + [x] + s[k..];
    forall i, j | 0 <= i < j < |r| ensures LessOrEqual(r[i], r[j]) {
      if j < k {
        assert r[i] == s[i] && r[j] == s[j];
      } else if j == k {
        assert r[i] == s[i] && r[j] == x;
      } else if i == k {
        assert r[j] == s[j - 1];
      } else if i < k {
        assert r[i] == s[i] && r[j] == s[j - 1];
      } else {
        assert r[i] == s[i - 1] && r[j] == s[j - 1];
      }
    }
  }

  /** `Collections.sort(list)` on a list of strings: the result is in ascending
      natural order and holds exactly the same entries. */
  method Sort(labels: seq<string>) returns (sorted: seq<string>)
    ensures Sorted(sorted)
    ensures multiset(sorted) == multiset(labels)
  {
    sorted := [];
    for i := 0 to |labels|
      invariant Sorted(sorted)
      invariant multiset(sorted) == multiset(labels[..i])
    {
      var x := labels[i];
      var k := 0;
      while k < |sorted| && LessOrEqual(sorted[k], x)
        invariant 0 <= k <= |sorted|
        invariant forall j :: 0 <= j < k ==> LessOrEqual(sorted[j], x)
      {
        k := k + 1;
      }
      forall j | k <= j < |sorted| ensures LessOrEqual(x, sorted[j]) {
        LessTrichotomy(x, sorted[k]);
        LessOrEqualTransitive(x, sorted[k], sorted[j]);
      }
      InsertSorted(sorted, k, x);
      assert sorted[..k] + sorted[k..] == sorted;
      assert labels[..i + 1] == labels[..i] + [x];
      sorted := sorted[..k] + [x] + sorted[k..];
    }
    assert labels[..|labels|] == labels;
  }
}

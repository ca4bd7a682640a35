/**
 * Aggregation of the per-endpoint SSL grades: `sort.Strings` followed by
 * taking the last element, with "not found" when there is none or it is
 * empty. The sort is modelled by insertion sort; since a sorted permutation
 * of a list of strings is unique, any correct sort yields the same list.
 */
module Grades {
  import opened Strings

  /** The sentinel reported when no non-empty grade exists. */
  const NotFound: string := "not found"

  /** Ascending in Go's string order. */
  predicate Sorted(s: seq<string>) {
    forall i, j :: 0 <= i < j < |s| ==> LexLe(s[i], s[j])
  }

  /** `m` occurs in `s` and no element of `s` is above it. */
  predicate IsMaxOf(m: string, s: seq<string>) {
    m in s && forall g :: g in s ==> LexLe(g, m)
  }

  /** Insert `x` into a sorted list, keeping it sorted. */
  function Insert(x: string, s: seq<string>): (r: seq<string>)
    requires Sorted(s)
    ensures Sorted(r)
    ensures multiset(r) == multiset(s) + multiset{x}
  {
    if s == [] then [x]
    else if LexLe(x, s[0]) then
      PrependBelowFirst(x, s);
      [x] + s
    else
      LexLeTotal(x, s[0]);
      SortedTail(s);
      var rest := Insert(x, s[1..]);
      MultisetTail(s);
      BelowAllOfInsert(s[0], x, s[1..], rest);
      PrependBelowAll(s[0], rest);
      [s[0]] + rest
  }

  /** A sorted list stays sorted under a new head that is below all of it. */
  lemma PrependBelowAll(x: string, s: seq<string>)
    requires Sorted(s)
    requires forall k :: 0 <= k < |s| ==> LexLe(x, s[k])
    ensures Sorted([x] + s)
  {
    forall i, j | 0 <= i < j < |s| + 1
      ensures LexLe(([x] + s)[i], ([x] + s)[j])
    {
      if i > 0 {
        assert ([x] + s)[i] == s[i - 1];
      }
    }
  }

  /** A head below the first element of a sorted list is below all of it. */
  lemma PrependBelowFirst(x: string, s: seq<string>)
    requires Sorted(s) && |s| > 0 && LexLe(x, s[0])
    ensures Sorted([x] + s)
  {
    forall k | 0 <= k < |s|
      ensures LexLe(x, s[k])
    {
      if k > 0 { LexLeTransitive(x, s[0], s[k]); }
    }
    PrependBelowAll(x, s);
  }

  /** What lies below `x` and below all of `s` lies below all of `r`, which holds `x` and `s`. */
  lemma BelowAllOfInsert(y: string, x: string, s: seq<string>, r: seq<string>)
    requires LexLe(y, x)
    requires forall k :: 0 <= k < |s| ==> LexLe(y, s[k])
    requires multiset(r) == multiset(s) + multiset{x}
    ensures forall k :: 0 <= k < |r| ==> LexLe(y, r[k])
  {
    forall k | 0 <= k < |r|
      ensures LexLe(y, r[k])
    {
      assert r[k] in multiset(r);
      if r[k] != x {
        assert r[k] in multiset(s);
        var j :| 0 <= j < |s| && s[j] == r[k];
      }
    }
  }

  /** `sort.Strings`: the ascending permutation of the list. */
  function SortStrings(s: seq<string>): (r: seq<string>)
    ensures Sorted(r)
    ensures multiset(r) == multiset(s)
  {
    if s == [] then []
    else
      assert s == [s[0]] + s[1..];
      Insert(s[0], SortStrings(s[1..]))
  }

  /** The first element of a sorted list is below every element. */
  lemma FirstOfSortedIsMin(s: seq<string>, x: string)
    requires Sorted(s) && x in s
    ensures LexLe(s[0], x)
  {
    var i :| 0 <= i < |s| && s[i] == x;
    if i == 0 { LexLeReflexive(x); }
  }

  /** Removing the first element of a list removes one occurrence from its multiset. */
  lemma MultisetTail(s: seq<string>)
    requires |s| > 0
    ensures multiset(s[1..]) == multiset(s) - multiset{s[0]}
  {
    assert s == [s[0]] + s[1..];
  }

  lemma SortedTail(s: seq<string>)
    requires Sorted(s) && |s| > 0
    ensures Sorted(s[1..])
  {
    forall i, j | 0 <= i < j < |s| - 1
      ensures LexLe(s[1..][i], s[1..][j])
    {
      assert s[1..][i] == s[i + 1] && s[1..][j] == s[j + 1];
    }
  }

  lemma SeqFromHeadTail(a: seq<string>, b: seq<string>)
    requires |a| > 0 && |b| > 0 && a[0] == b[0] && a[1..] == b[1..]
    ensures a == b
  {
    assert a == [a[0]] + a[1..];
    assert b == [b[0]] + b[1..];
  }

  /** Two sorted lists with the same elements are equal. */
  lemma {:induction false} SortedUnique(a: seq<string>, b: seq<string>)
    requires Sorted(a) && Sorted(b)
    requires multiset(a) == multiset(b)
    ensures a == b
    decreases |a|
  {
    if a != [] {
      assert |b| == |a| by { assert |multiset(a)| == |multiset(b)|; }
      assert a[0] in multiset(b) && b[0] in multiset(a);
      FirstOfSortedIsMin(b, a[0]);
      FirstOfSortedIsMin(a, b[0]);
      LexLeAntisymmetric(a[0], b[0]);
      MultisetTail(a);
      MultisetTail(b);
      SortedTail(a);
      SortedTail(b);
      SortedUnique(a[1..], b[1..]);
      SeqFromHeadTail(a, b);
    }
  }

  /** The last element of a sorted list is the maximum of its elements. */
  lemma LastOfSortedIsMax(s: seq<string>)
    requires Sorted(s)
    ensures |s| > 0 ==> IsMaxOf(s[|s| - 1], s)
  {
    forall g | g in s
      ensures LexLe(g, s[|s| - 1])
    {
      var i :| 0 <= i < |s| && s[i] == g;
      if i == |s| - 1 { LexLeReflexive(g); }
    }
  }

  /**
   * The aggregate grade: the last grade after sorting, unless the list is
   * empty or that grade is the empty string.
   */
  function AggregateGrade(grades: seq<string>): (total: string)
    ensures (forall g :: g in grades ==> g == "") ==> total == NotFound
    ensures (exists g :: g in grades && g != "") ==> total != "" && IsMaxOf(total, grades)
  {
    var sorted := SortStrings(grades);
    if |sorted| > 0 && sorted[|sorted| - 1] != "" then
      var last := sorted[|sorted| - 1];
      LastOfSortedIsMax(sorted);
      assert forall g :: g in grades <==> g in sorted by {
        assert forall g :: g in grades <==> g in multiset(sorted);
      }
      last
    else
      assert |sorted| > 0 ==> sorted[|sorted| - 1] in multiset(grades);
      LastOfSortedIsMax(sorted);
      assert forall g :: g in grades <==> g in sorted by {
        assert forall g :: g in grades <==> g in multiset(sorted);
      }
      assert forall g :: g in grades ==> g == "" by {
        forall g | g in grades ensures g == "" {
          LexLeEmpty(g);
        }
      }
      NotFound
  }

  /** The aggregate grade does not depend on the order of the grades. */
  lemma AggregateGradeIgnoresOrder(a: seq<string>, b: seq<string>)
    requires multiset(a) == multiset(b)
    ensures AggregateGrade(a) == AggregateGrade(b)
  {
    SortedUnique(SortStrings(a), SortStrings(b));
  }

  /** It depends only on which grades occur: every grade's multiplicity is irrelevant too. */
  lemma AggregateGradeDependsOnSetOnly(a: seq<string>, b: seq<string>)
    requires forall g :: g in a <==> g in b
    ensures AggregateGrade(a) == AggregateGrade(b)
  {
    var ta, tb := AggregateGrade(a), AggregateGrade(b);
    if exists g :: g in a && g != "" {
      assert IsMaxOf(ta, a) && IsMaxOf(tb, b);
      LexLeAntisymmetric(ta, tb);
    }
  }

  /** Sorted ["", "A", "B"], the last grade "B" is reported. */
  lemma AggregateGradeExample()
    ensures AggregateGrade(["A", "B", ""]) == "B"
  {
    var s := ["A", "B", ""];
    assert "B" in s && "B" != "";
    var t := AggregateGrade(s);
    assert t in s;
    assert !LexLe("B", "A");
  }

  /** With no grades, or only empty ones, the sentinel is reported. */
  lemma AggregateGradeSentinelExamples()
    ensures AggregateGrade([]) == NotFound
    ensures AggregateGrade([""]) == NotFound
  {
  }
}

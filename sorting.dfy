/** Ordering relations, an insertion sort parameterised by its ordering, and
    the fact that a sorted permutation is unique under a total order. The
    pandas `sort_values` and `np.sort` calls of the curve builder are modelled
    by this sort. */
module Sorting {

  /** `le` is total and transitive: a valid key for sorting. */
  ghost predicate TotalPreorder<T(!new)>(le: (T, T) -> bool)
  {
    && (forall a, b :: le(a, b) || le(b, a))
    && (forall a, b, c :: le(a, b) && le(b, c) ==> le(a, c))
  }

  /** Elements that compare both ways are equal: sorting leaves no tie order open. */
  ghost predicate Antisymmetric<T(!new)>(le: (T, T) -> bool)
  {
    forall a, b :: le(a, b) && le(b, a) ==> a == b
  }

  /** Every earlier element comes no later than every later one. The pairs
      are reached through `InOrder`, so a proof names the pair it uses. */
  ghost predicate Sorted<T>(s: seq<T>, le: (T, T) -> bool)
  {
    forall i, j :: 0 <= i < j < |s| ==> InOrder(s, le, i, j)
  }

  /** `s[i]` comes no later than `s[j]` under `le`. */
  ghost predicate InOrder<T>(s: seq<T>, le: (T, T) -> bool, i: int, j: int)
    requires 0 <= i < |s| && 0 <= j < |s|
  {
    le(s[i], s[j])
  }

  /** No element occurs twice; pairs are reached through `Apart`. */
  ghost predicate Distinct<T>(s: seq<T>)
  {
    forall i, j :: 0 <= i < j < |s| ==> Apart(s, i, j)
  }

  /** `s[i]` and `s[j]` differ. */
  ghost predicate Apart<T>(s: seq<T>, i: int, j: int)
    requires 0 <= i < |s| && 0 <= j < |s|
  {
    s[i] != s[j]
  }

  /** Puts `x` before the first element it does not come after. */
  function Insert<T>(x: T, s: seq<T>, le: (T, T) -> bool): (r: seq<T>)
    ensures |r| == |s| + 1
  {
    if s == [] then [x]
    else if le(x, s[0]) then [x] + s
    else [s[0]] + Insert(x, s[1..], le)
  }

  /** Inserting adds exactly `x` to the elements. */
  lemma {:induction false} InsertPermutes<T>(x: T, s: seq<T>, le: (T, T) -> bool)
    ensures multiset(Insert(x, s, le)) == multiset(s) + multiset{x}
  {
    if s != [] && !le(x, s[0]) {
      InsertPermutes(x, s[1..], le);
      assert s == [s[0]] + s[1..];
    }
  }

  /** Putting in front of a sorted sequence an element that comes no later
      than any of its elements keeps it sorted. */
  lemma ConsSorted<T>(y: T, t: seq<T>, le: (T, T) -> bool)
    requires Sorted(t, le) && forall j :: 0 <= j < |t| ==> le(y, t[j])
    ensures Sorted([y] + t, le)
  {
    var r := [y] + t;
    forall i, j | 0 <= i < j < |r| ensures InOrder(r, le, i, j) {
      if i > 0 {
        assert InOrder(t, le, i - 1, j - 1);
      }
    }
  }

  /** An element that comes no later than `x` and than every element of `s`
      comes no later than any element of the insertion. */
  lemma InsertAbove<T>(y: T, x: T, s: seq<T>, le: (T, T) -> bool)
    requires le(y, x) && forall j :: 0 <= j < |s| ==> le(y, s[j])
    ensures forall j :: 0 <= j < |Insert(x, s, le)| ==> le(y, Insert(x, s, le)[j])
  {
    var t := Insert(x, s, le);
    InsertPermutes(x, s, le);
    forall j | 0 <= j < |t| ensures le(y, t[j]) {
      assert t[j] in multiset(t);
      if t[j] != x {
        assert t[j] in multiset(s);
        var k :| 0 <= k < |s| && s[k] == t[j];
      }
    }
  }

  lemma {:induction false} InsertSorted<T(!new)>(x: T, s: seq<T>, le: (T, T) -> bool)
    requires TotalPreorder(le) && Sorted(s, le)
    ensures Sorted(Insert(x, s, le), le)
  {
    if s == [] {
    } else if le(x, s[0]) {
      forall j | 0 <= j < |s| ensures le(x, s[j]) {
        if j > 0 {
          assert InOrder(s, le, 0, j);
        }
      }
      ConsSorted(x, s, le);
    } else {
      SortedTail(s, le);
      InsertSorted(x, s[1..], le);
      forall j | 0 <= j < |s[1..]| ensures le(s[0], s[1..][j]) {
        assert InOrder(s, le, 0, j + 1);
      }
      InsertAbove(s[0], x, s[1..], le);
      ConsSorted(s[0], Insert(x, s[1..], le), le);
    }
  }

  /** Insertion sort; equal elements keep their input order. */
  function InsertionSort<T>(s: seq<T>, le: (T, T) -> bool): (r: seq<T>)
    ensures |r| == |s|
  {
    if s == [] then []
    else Insert(s[0], InsertionSort(s[1..], le), le)
  }

  /** Under a total preorder the sort returns a sorted permutation of `s`. */
  lemma {:induction false} InsertionSortSpec<T(!new)>(s: seq<T>, le: (T, T) -> bool)
    requires TotalPreorder(le)
    ensures multiset(InsertionSort(s, le)) == multiset(s)
    ensures Sorted(InsertionSort(s, le), le)
  {
    if s != [] {
      var t := InsertionSort(s[1..], le);
      InsertionSortSpec(s[1..], le);
      InsertPermutes(s[0], t, le);
      InsertSorted(s[0], t, le);
      assert s == [s[0]] + s[1..];
    }
  }

  /** Drops each element equal to its predecessor. */
  function Dedup<T(==,!new)>(s: seq<T>): (r: seq<T>)
    ensures forall x :: x in r <==> x in s
    ensures |r| <= |s|
  {
    if |s| <= 1 then s
    else if s[0] == s[1] then Dedup(s[1..])
    else [s[0]] + Dedup(s[1..])
  }

  lemma {:induction false} DedupSortedDistinct<T(!new)>(s: seq<T>, le: (T, T) -> bool)
    requires TotalPreorder(le) && Antisymmetric(le) && Sorted(s, le)
    ensures Sorted(Dedup(s), le) && Distinct(Dedup(s))
  {
    if |s| > 1 {
      SortedTail(s, le);
      DedupSortedDistinct(s[1..], le);
      var t := Dedup(s[1..]);
      if s[0] != s[1] {
        assert InOrder(s, le, 0, 1);
        forall j | 0 <= j < |t| ensures le(s[0], t[j]) && s[0] != t[j] {
          assert t[j] in s[1..];
          var k :| 0 <= k < |s| - 1 && s[1..][k] == t[j];
          if k > 0 {
            assert InOrder(s, le, 1, k + 1);
          }
        }
        var r := [s[0]] + t;
        forall i, j | 0 <= i < j < |r| ensures InOrder(r, le, i, j) && Apart(r, i, j) {
          if i > 0 {
            assert InOrder(t, le, i - 1, j - 1) && Apart(t, i - 1, j - 1);
          }
        }
      }
    }
  }

  /** `np.sort(unique(...))`: the distinct elements of `s`, in order. */
  function SortedDistinct<T(==,!new)>(s: seq<T>, le: (T, T) -> bool): (r: seq<T>)
    requires TotalPreorder(le) && Antisymmetric(le)
    ensures forall x :: x in r <==> x in s
    ensures Sorted(r, le) && Distinct(r)
  {
    var t := InsertionSort(s, le);
    InsertionSortSpec(s, le);
    DedupSortedDistinct(t, le);
    assert forall x :: x in t <==> x in multiset(s);
    Dedup(t)
  }

  /** Under a total order, two sorted sequences holding the same elements are
      equal, so a sort's result does not depend on how it was computed. */
  lemma {:induction false} SortedPermutationUnique<T(!new)>(a: seq<T>, b: seq<T>, le: (T, T) -> bool)
    requires TotalPreorder(le) && Antisymmetric(le)
    requires Sorted(a, le) && Sorted(b, le) && multiset(a) == multiset(b)
    ensures a == b
  {
    assert |a| == |multiset(a)| == |multiset(b)| == |b|;
    if a != [] {
      SortedHeadsEqual(a, b, le);
      MultisetTail(a);
      MultisetTail(b);
      SortedTail(a, le);
      SortedTail(b, le);
      SortedPermutationUnique(a[1..], b[1..], le);
      assert a == [a[0]] + a[1..] && b == [b[0]] + b[1..];
    }
  }

  lemma SortedHeadsEqual<T(!new)>(a: seq<T>, b: seq<T>, le: (T, T) -> bool)
    requires TotalPreorder(le) && Antisymmetric(le)
    requires Sorted(a, le) && Sorted(b, le) && multiset(a) == multiset(b)
    requires a != [] && b != []
    ensures a[0] == b[0]
  {
    assert a[0] in multiset(b) && b[0] in multiset(a);
    var j :| 0 <= j < |b| && b[j] == a[0];
    var i :| 0 <= i < |a| && a[i] == b[0];
    if j > 0 {
      assert InOrder(b, le, 0, j);
    }
    if i > 0 {
      assert InOrder(a, le, 0, i);
    }
  }

  lemma MultisetTail<T>(a: seq<T>)
    requires a != []
    ensures multiset(a[1..]) == multiset(a) - multiset{a[0]}
  {
    assert a == [a[0]] + a[1..];
  }

  /** Dropping the element at `k` removes one occurrence of it. */
  lemma MultisetRemove<T>(a: seq<T>, k: int)
    requires 0 <= k < |a|
    ensures multiset(a[..k] + a[k + 1..]) == multiset(a) - multiset{a[k]}
  {
    assert a == a[..k] + [a[k]] + a[k + 1..];
  }

  lemma SortedTail<T>(a: seq<T>, le: (T, T) -> bool)
    requires a != [] && Sorted(a, le)
    ensures Sorted(a[1..], le)
  {
    forall i, j | 0 <= i < j < |a| - 1 ensures InOrder(a[1..], le, i, j) {
      assert InOrder(a, le, i + 1, j + 1);
    }
  }

  /** Two sorted runs whose every cross pair is in order make a sorted whole. */
  lemma SortedAppend<T>(a: seq<T>, b: seq<T>, le: (T, T) -> bool)
    requires Sorted(a, le) && Sorted(b, le)
    requires forall i, j :: 0 <= i < |a| && 0 <= j < |b| ==> le(a[i], b[j])
    ensures Sorted(a + b, le)
  {
    var r := a + b;
    forall i, j | 0 <= i < j < |r| ensures InOrder(r, le, i, j) {
      if i >= |a| {
        assert InOrder(b, le, i - |a|, j - |a|);
      } else if j >= |a| {
        assert r[j] == b[j - |a|];
      } else {
        assert InOrder(a, le, i, j);
      }
    }
  }

  /** Distinct elements: a sequence as long as the set it holds. */
  lemma {:induction false} DistinctCardinality<T>(s: seq<T>)
    requires Distinct(s)
    ensures |set x | x in s| == |s|
  {
    if s != [] {
      forall i, j | 0 <= i < j < |s| - 1 ensures Apart(s[1..], i, j) {
        assert Apart(s, i + 1, j + 1);
      }
      DistinctCardinality(s[1..]);
      assert s[0] !in s[1..] by {
        forall k | 0 <= k < |s| - 1 ensures s[1..][k] != s[0] { assert s[1..][k] == s[k + 1] && Apart(s, 0, k + 1); }
      }
      assert (set x | x in s) == (set x | x in s[1..]) + {s[0]};
    }
  }

  function IntLe(a: int, b: int): bool { a <= b }

  function RealLe(a: real, b: real): bool { a <= b }

  lemma NumberOrders()
    ensures TotalPreorder(IntLe) && Antisymmetric(IntLe)
    ensures TotalPreorder(RealLe) && Antisymmetric(RealLe)
  {
  }
}

/** Sequence helpers shared by the modules: boolean-mask filtering (pandas
    `df[mask]`, a list comprehension with a condition), sums, minima of real
    sequences, and order-preserving embeddings. */
module Seqs {

  /** A value, or none where the source raises an error or yields NaN. */
  datatype Option<T> = None | Some(value: T)

  /** The elements of `s` that satisfy `f`, in their original order. */
  function Filter<T(!new)>(s: seq<T>, f: T -> bool): (r: seq<T>)
    ensures |r| <= |s|
    ensures forall x :: x in r <==> x in s && f(x)
  {
    if s == [] then []
    else (if f(s[0]) then [s[0]] else []) + Filter(s[1..], f)
  }

  lemma {:induction false} FilterAppend<T(!new)>(a: seq<T>, b: seq<T>, f: T -> bool)
    ensures Filter(a + b, f) == Filter(a, f) + Filter(b, f)
  {
    if a == [] {
      assert a + b == b;
    } else {
      assert (a + b)[0] == a[0] && (a + b)[1..] == a[1..] + b;
      FilterAppend(a[1..], b, f);
      var head := if f(a[0]) then [a[0]] else [];
      assert Filter(a + b, f) == head + Filter(a[1..] + b, f);
      assert Filter(a, f) == head + Filter(a[1..], f);
    }
  }

  /** Filtering twice is filtering once by the conjunction. */
  lemma {:induction false} FilterFilter<T(!new)>(s: seq<T>, f: T -> bool, g: T -> bool, h: T -> bool)
    requires forall x :: h(x) == (f(x) && g(x))
    ensures Filter(Filter(s, f), g) == Filter(s, h)
  {
    if s != [] {
      FilterFilter(s[1..], f, g, h);
      var head := if f(s[0]) then [s[0]] else [];
      FilterAppend(head, Filter(s[1..], f), g);
    }
  }

  /** How often `x` occurs after filtering: as often as before, or never. */
  lemma {:induction false} FilterCount<T(!new)>(s: seq<T>, f: T -> bool, x: T)
    ensures multiset(Filter(s, f))[x] == if f(x) then multiset(s)[x] else 0
  {
    if s != [] {
      FilterCount(s[1..], f, x);
      assert s == [s[0]] + s[1..];
    }
  }

  /** Filtering a permutation gives a permutation of the filtered sequence. */
  lemma FilterPermutation<T(!new)>(a: seq<T>, b: seq<T>, f: T -> bool)
    requires multiset(a) == multiset(b)
    ensures multiset(Filter(a, f)) == multiset(Filter(b, f))
  {
    forall x ensures multiset(Filter(a, f))[x] == multiset(Filter(b, f))[x] {
      FilterCount(a, f, x);
      FilterCount(b, f, x);
    }
  }

  lemma FilterLengthPermutation<T(!new)>(a: seq<T>, b: seq<T>, f: T -> bool)
    requires multiset(a) == multiset(b)
    ensures |Filter(a, f)| == |Filter(b, f)|
  {
    FilterPermutation(a, b, f);
    assert |multiset(Filter(a, f))| == |multiset(Filter(b, f))|;
  }

  /** A mask and its negation split `s` into two parts holding every element once. */
  lemma FilterPartition<T(!new)>(s: seq<T>, f: T -> bool, g: T -> bool)
    requires forall x :: g(x) == !f(x)
    ensures multiset(Filter(s, f)) + multiset(Filter(s, g)) == multiset(s)
    ensures |Filter(s, f)| + |Filter(s, g)| == |s|
  {
    forall x ensures (multiset(Filter(s, f)) + multiset(Filter(s, g)))[x] == multiset(s)[x] {
      FilterCount(s, f, x);
      FilterCount(s, g, x);
    }
    assert multiset(Filter(s, f)) + multiset(Filter(s, g)) == multiset(s);
    assert |multiset(Filter(s, f))| + |multiset(Filter(s, g))| == |multiset(s)|;
  }

  /** Filtering a sequence whose every element passes changes nothing. */
  lemma {:induction false} FilterAll<T(!new)>(s: seq<T>, f: T -> bool)
    requires forall x :: x in s ==> f(x)
    ensures Filter(s, f) == s
  {
    if s != [] {
      FilterAll(s[1..], f);
      assert s == [s[0]] + s[1..];
    }
  }

  /** Two positions that pass the mask leave at least two elements. */
  lemma FilterTwo<T(!new)>(s: seq<T>, f: T -> bool, i: int, j: int)
    requires 0 <= i < j < |s| && f(s[i]) && f(s[j])
    ensures |Filter(s, f)| >= 2
  {
    assert s == s[..j] + s[j..];
    FilterAppend(s[..j], s[j..], f);
    assert s[i] == s[..j][i];
    assert s[i] in Filter(s[..j], f);
    assert s[j] == s[j..][0];
    assert s[j] in Filter(s[j..], f);
  }

  /** A mask that holds for exactly one element passes no two positions. */
  lemma FilterSingle<T(!new)>(s: seq<T>, f: T -> bool, i: int, j: int)
    requires |Filter(s, f)| == 1
    requires 0 <= i < |s| && 0 <= j < |s| && f(s[i]) && f(s[j])
    ensures i == j
  {
    if i < j {
      FilterTwo(s, f, i, j);
      assert false;
    } else if j < i {
      FilterTwo(s, f, j, i);
      assert false;
    }
  }

  /** Nothing passes exactly when no element satisfies the mask. */
  lemma FilterEmpty<T(!new)>(s: seq<T>, f: T -> bool)
    ensures Filter(s, f) == [] <==> forall x :: x in s ==> !f(x)
  {
    if Filter(s, f) != [] {
      assert Filter(s, f)[0] in Filter(s, f);
    }
  }

  /** Dropping an element the mask rejects does not change the result. */
  lemma FilterSkip<T(!new)>(a: seq<T>, x: T, b: seq<T>, f: T -> bool)
    requires !f(x)
    ensures Filter(a + [x] + b, f) == Filter(a + b, f)
  {
    FilterAppend(a + [x], b, f);
    FilterAppend(a, [x], f);
    FilterAppend(a, b, f);
  }

  /** The number of leading elements of `s` that pass `f`. */
  ghost function LeadingCount<T>(s: seq<T>, f: T -> bool): (n: nat)
    ensures n <= |s|
  {
    if s == [] || !f(s[0]) then 0 else 1 + LeadingCount(s[1..], f)
  }

  /** When passing the mask is inherited by every earlier element, exactly
      the leading positions pass. */
  lemma {:induction false} LeadingCountSpec<T>(s: seq<T>, f: T -> bool)
    requires forall i, j :: 0 <= i < j < |s| && f(s[j]) ==> f(s[i])
    ensures forall i :: 0 <= i < |s| ==> (f(s[i]) <==> i < LeadingCount(s, f))
  {
    if s != [] && f(s[0]) {
      var t := s[1..];
      forall i, j | 0 <= i < j < |t| && f(t[j]) ensures f(t[i]) {
        assert t[i] == s[i + 1] && t[j] == s[j + 1];
      }
      LeadingCountSpec(t, f);
      forall i | 1 <= i < |s| ensures f(s[i]) <==> i < LeadingCount(s, f) {
        assert t[i - 1] == s[i];
      }
    }
  }

  /** A mask that passes exactly the first m positions keeps the first m elements. */
  lemma {:induction false} FilterLeading<T(!new)>(s: seq<T>, f: T -> bool, m: int)
    requires 0 <= m <= |s| && forall i :: 0 <= i < |s| ==> (f(s[i]) <==> i < m)
    ensures Filter(s, f) == s[..m]
  {
    if s != [] {
      var t := s[1..];
      if m == 0 {
        FilterEmpty(s, f);
      } else {
        forall i | 0 <= i < |t| ensures f(t[i]) <==> i < m - 1 {
          assert t[i] == s[i + 1];
        }
        FilterLeading(t, f, m - 1);
        assert s[..m] == [s[0]] + t[..m - 1];
      }
    }
  }

  /** When passing the mask is inherited by every earlier element, the
      filtered sequence is a prefix, and exactly its positions pass. */
  lemma FilterPrefix<T(!new)>(s: seq<T>, f: T -> bool)
    requires forall i, j :: 0 <= i < j < |s| && f(s[j]) ==> f(s[i])
    ensures |Filter(s, f)| <= |s| && Filter(s, f) == s[..|Filter(s, f)|]
    ensures forall i :: 0 <= i < |s| ==> (f(s[i]) <==> i < |Filter(s, f)|)
  {
    LeadingCountSpec(s, f);
    FilterLeading(s, f, LeadingCount(s, f));
  }

  /** `idx` picks, in increasing order, the positions of `s` that make up `r`. */
  ghost predicate IsOrderedEmbedding<T>(r: seq<T>, s: seq<T>, idx: seq<int>)
  {
    && |idx| == |r|
    && (forall k :: 0 <= k < |idx| ==> 0 <= idx[k] < |s| && r[k] == s[idx[k]])
    && (forall k, l :: 0 <= k < l < |idx| ==> idx[k] < idx[l])
  }

  /** `r` is `s` with some elements left out and the rest in their order. */
  ghost predicate IsSubsequence<T>(r: seq<T>, s: seq<T>)
  {
    exists idx :: IsOrderedEmbedding(r, s, idx)
  }

  /** The positions from `lo` on whose element satisfies `f`, in increasing order. */
  function IndicesFrom<T>(s: seq<T>, f: T -> bool, lo: nat): seq<int>
    requires lo <= |s|
    decreases |s| - lo
  {
    if lo == |s| then []
    else (if f(s[lo]) then [lo] else []) + IndicesFrom(s, f, lo + 1)
  }

  lemma {:induction false} IndicesFromEmbed<T(!new)>(s: seq<T>, f: T -> bool, lo: nat)
    requires lo <= |s|
    ensures IsOrderedEmbedding(Filter(s[lo..], f), s, IndicesFrom(s, f, lo))
    ensures forall i :: i in IndicesFrom(s, f, lo) <==> lo <= i < |s| && f(s[i])
    decreases |s| - lo
  {
    if lo < |s| {
      IndicesFromEmbed(s, f, lo + 1);
      var rest := IndicesFrom(s, f, lo + 1);
      var r := Filter(s[lo + 1..], f);
      assert s[lo..][0] == s[lo] && s[lo..][1..] == s[lo + 1..];
      if f(s[lo]) {
        assert Filter(s[lo..], f) == [s[lo]] + r;
        assert IndicesFrom(s, f, lo) == [lo] + rest;
        EmbedCons(s, r, rest, lo);
      } else {
        assert Filter(s[lo..], f) == r;
        assert IndicesFrom(s, f, lo) == rest;
      }
    }
  }

  /** Putting position `lo` in front of an embedding that lies beyond it. */
  lemma EmbedCons<T>(s: seq<T>, r: seq<T>, idx: seq<int>, lo: int)
    requires 0 <= lo < |s| && IsOrderedEmbedding(r, s, idx)
    requires forall i :: i in idx ==> lo < i
    ensures IsOrderedEmbedding([s[lo]] + r, s, [lo] + idx)
  {
    var r', idx' := [s[lo]] + r, [lo] + idx;
    forall k | 0 <= k < |idx'| ensures 0 <= idx'[k] < |s| && r'[k] == s[idx'[k]] {
      if k > 0 {
        assert idx'[k] == idx[k - 1] && r'[k] == r[k - 1];
      }
    }
    forall k, l | 0 <= k < l < |idx'| ensures idx'[k] < idx'[l] {
      assert idx'[l] == idx[l - 1] && idx[l - 1] in idx;
      if k > 0 {
        assert idx'[k] == idx[k - 1];
      }
    }
  }

  /** The positions of `s` whose element satisfies `f`, in increasing order. */
  function FilterIndices<T(!new)>(s: seq<T>, f: T -> bool): (idx: seq<int>)
    ensures IsOrderedEmbedding(Filter(s, f), s, idx)
    ensures forall i :: 0 <= i < |s| ==> (i in idx <==> f(s[i]))
  {
    IndicesFromEmbed(s, f, 0);
    assert s[0..] == s;
    IndicesFrom(s, f, 0)
  }

  lemma FilterIsSubsequence<T(!new)>(s: seq<T>, f: T -> bool)
    ensures IsSubsequence(Filter(s, f), s)
  {
    var idx := FilterIndices(s, f);
    assert IsOrderedEmbedding(Filter(s, f), s, idx);
  }

  function Sum(xs: seq<real>): real
  {
    if xs == [] then 0.0 else xs[0] + Sum(xs[1..])
  }

  function Abs(x: real): (r: real)
    ensures r >= 0.0 && (r == x || r == -x)
  {
    if x < 0.0 then -x else x
  }

  /** Smallest element of a non-empty sequence (`np.min`). */
  function MinOf(xs: seq<real>): (m: real)
    requires xs != []
    ensures m in xs
    ensures forall i :: 0 <= i < |xs| ==> m <= xs[i]
  {
    if |xs| == 1 then xs[0]
    else
      var m := MinOf(xs[1..]);
      assert forall i :: 1 <= i < |xs| ==> xs[i] == xs[1..][i - 1];
      if xs[0] <= m then xs[0] else m
  }
}

/**
 * The two three-way-partition quicksorts of `10.py`.
 *
 * Both variants filter the whole input into the elements strictly below,
 * equal to and strictly above a pivot, sort the outer groups recursively and
 * concatenate. They differ only in how the pivot is chosen: the middle index,
 * or an element drawn from a random source.
 */
module QuickSort {

  /** Non-decreasing order. */
  predicate Sorted(s: seq<int>)
  {
    forall i, j :: 0 <= i < j < |s| ==> s[i] <= s[j]
  }

  /** `[x for x in s if x < pivot]` */
  function Below(s: seq<int>, pivot: int): (r: seq<int>)
    ensures forall x :: x in r ==> x < pivot
    ensures forall x :: x < pivot ==> multiset(r)[x] == multiset(s)[x]
  {
    if s == [] then []
    else
      assert s == [s[0]] + s[1..];
      (if s[0] < pivot then [s[0]] else []) + Below(s[1..], pivot)
  }

  /** `[x for x in s if x == pivot]` */
  function Equal(s: seq<int>, pivot: int): (r: seq<int>)
    ensures forall x :: x in r ==> x == pivot
    ensures multiset(r)[pivot] == multiset(s)[pivot]
  {
    if s == [] then []
    else
      assert s == [s[0]] + s[1..];
      (if s[0] == pivot then [s[0]] else []) + Equal(s[1..], pivot)
  }

  /** `[x for x in s if x > pivot]` */
  function Above(s: seq<int>, pivot: int): (r: seq<int>)
    ensures forall x :: x in r ==> x > pivot
    ensures forall x :: x > pivot ==> multiset(r)[x] == multiset(s)[x]
  {
    if s == [] then []
    else
      assert s == [s[0]] + s[1..];
      (if s[0] > pivot then [s[0]] else []) + Above(s[1..], pivot)
  }

  /** The three groups together are exactly the input, as a multiset. */
  lemma PartitionIsPermutation(s: seq<int>, pivot: int)
    ensures multiset(Below(s, pivot)) + multiset(Equal(s, pivot)) + multiset(Above(s, pivot)) == multiset(s)
  {
    var parts := multiset(Below(s, pivot)) + multiset(Equal(s, pivot)) + multiset(Above(s, pivot));
    forall x ensures parts[x] == multiset(s)[x] {
      if x < pivot {
        assert x !in Equal(s, pivot) && x !in Above(s, pivot);
      } else if x == pivot {
        assert x !in Below(s, pivot) && x !in Above(s, pivot);
      } else {
        assert x !in Below(s, pivot) && x !in Equal(s, pivot);
      }
    }
  }

  /**
   * When the pivot is an element of the input, the middle group holds it, so
   * both recursive calls are on strictly shorter sequences.
   */
  lemma PartitionShrinks(s: seq<int>, pivot: int)
    requires pivot in s
    ensures |Equal(s, pivot)| > 0
    ensures |Below(s, pivot)| < |s| && |Above(s, pivot)| < |s|
  {
    PartitionIsPermutation(s, pivot);
    assert pivot in multiset(Equal(s, pivot));
    assert |multiset(s)| == |multiset(Below(s, pivot))| + |multiset(Equal(s, pivot))| + |multiset(Above(s, pivot))|;
  }

  /** Two sorted sequences, every element of the first at most every element of the second, concatenate sorted. */
  lemma SortedConcat(a: seq<int>, b: seq<int>)
    requires Sorted(a) && Sorted(b)
    requires forall x, y :: x in a && y in b ==> x <= y
    ensures Sorted(a + b)
  {
    var r := a + b;
    forall i, j | 0 <= i < j < |r| ensures r[i] <= r[j] {
      if j < |a| {
        assert r[i] == a[i] && r[j] == a[j];
      } else if i >= |a| {
        assert r[i] == b[i - |a|] && r[j] == b[j - |a|];
      } else {
        assert r[i] == a[i] && a[i] in a;
        assert r[j] == b[j - |a|] && b[j - |a|] in b;
      }
    }
  }

  /** Sequences with the same multiset have the same elements. */
  lemma SameElements(a: seq<int>, b: seq<int>)
    requires multiset(a) == multiset(b)
    ensures forall x :: x in a <==> x in b
  {
    forall x ensures x in a <==> x in b {
      assert x in a <==> x in multiset(a);
      assert x in b <==> x in multiset(b);
    }
  }

  /**
   * Concatenating sorted permutations of the outer groups around the middle
   * group gives a sorted permutation of the input.
   */
  lemma JoinSorted(s: seq<int>, pivot: int, left: seq<int>, right: seq<int>)
    requires Sorted(left) && multiset(left) == multiset(Below(s, pivot))
    requires Sorted(right) && multiset(right) == multiset(Above(s, pivot))
    ensures Sorted(left + Equal(s, pivot) + right)
    ensures multiset(left + Equal(s, pivot) + right) == multiset(s)
  {
    var middle := Equal(s, pivot);
    SameElements(left, Below(s, pivot));
    SameElements(right, Above(s, pivot));
    forall i, j | 0 <= i < j < |middle| ensures middle[i] <= middle[j] {
      assert middle[i] in middle && middle[j] in middle;
    }
    SortedConcat(left, middle);
    SortedConcat(left + middle, right);
    PartitionIsPermutation(s, pivot);
  }

  /** `deterministic_quick_sort`: the pivot is the element at index |s| / 2. */
  function DeterministicQuickSort(s: seq<int>): (r: seq<int>)
    ensures Sorted(r) && multiset(r) == multiset(s)
    ensures |s| <= 1 ==> r == s
    decreases |s|
  {
    if |s| <= 1 then s
    else
      var pivot := s[|s| / 2];
      PartitionShrinks(s, pivot);
      var left := DeterministicQuickSort(Below(s, pivot));
      var right := DeterministicQuickSort(Above(s, pivot));
      JoinSorted(s, pivot, left, right);
      left + Equal(s, pivot) + right
  }

  /** The result of a randomized sort and the position of the next unused draw. */
  datatype Run = Run(sorted: seq<int>, next: nat)

  /**
   * `randomized_quick_sort`. The random source is the stream `draws`, read
   * from position `pos` on; each call with at least two elements takes one
   * draw and uses the element at that draw modulo the length, so every element
   * of the current sequence can be the pivot. The left group is sorted before
   * the right one, as Python evaluates the concatenation left to right.
   */
  function RandomizedQuickSort(s: seq<int>, draws: nat -> nat, pos: nat): (r: Run)
    ensures Sorted(r.sorted) && multiset(r.sorted) == multiset(s)
    ensures |s| <= 1 ==> r.sorted == s && r.next == pos
    ensures pos <= r.next
    decreases |s|
  {
    if |s| <= 1 then Run(s, pos)
    else
      var pivot := s[draws(pos) % |s|];
      PartitionShrinks(s, pivot);
      var left := RandomizedQuickSort(Below(s, pivot), draws, pos + 1);
      var right := RandomizedQuickSort(Above(s, pivot), draws, left.next);
      JoinSorted(s, pivot, left.sorted, right.sorted);
      Run(left.sorted + Equal(s, pivot) + right.sorted, right.next)
  }

  /** A sorted permutation of a multiset is unique. */
  lemma {:induction false} SortedPermutationUnique(a: seq<int>, b: seq<int>)
    requires Sorted(a) && Sorted(b) && multiset(a) == multiset(b)
    ensures a == b
    decreases |a|
  {
    assert |a| == |multiset(a)| == |multiset(b)| == |b|;
    if a != [] {
      assert a[0] in multiset(b) && b[0] in multiset(a);
      assert a[0] == b[0];
      assert a == [a[0]] + a[1..] && b == [b[0]] + b[1..];
      assert multiset(a) == multiset{a[0]} + multiset(a[1..]);
      assert multiset(b) == multiset{b[0]} + multiset(b[1..]);
      forall x ensures multiset(a[1..])[x] == multiset(b[1..])[x] {
        assert multiset(a)[x] == multiset(b)[x];
      }
      SortedPermutationUnique(a[1..], b[1..]);
    }
  }

  /** For every sequence of random draws the randomized sort agrees with the deterministic one. */
  lemma RandomizedAgreesWithDeterministic(s: seq<int>, draws: nat -> nat, pos: nat)
    ensures RandomizedQuickSort(s, draws, pos).sorted == DeterministicQuickSort(s)
  {
    SortedPermutationUnique(RandomizedQuickSort(s, draws, pos).sorted, DeterministicQuickSort(s));
  }

  /** An already sorted input comes back unchanged. */
  lemma SortedInputUnchanged(s: seq<int>)
    requires Sorted(s)
    ensures DeterministicQuickSort(s) == s
  {
    SortedPermutationUnique(DeterministicQuickSort(s), s);
  }

  /** Sorting twice is sorting once. */
  lemma SortIdempotent(s: seq<int>)
    ensures DeterministicQuickSort(DeterministicQuickSort(s)) == DeterministicQuickSort(s)
  {
    SortedInputUnchanged(DeterministicQuickSort(s));
  }
}

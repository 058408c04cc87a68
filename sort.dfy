/** The in-place array sorts: bubble sort with early exit, insertion sort,
    selection sort, merge sort, Lomuto quicksort and heap sort. Each takes a
    comparator; each also has a natural-order form that sorts ints by
    `Integer.compareTo`. Every method is specified on `a[..]` through the
    sequence-level predicates below, and the reasoning about each step lives
    in a lemma about sequences. */
module Sort {

  /** What `java.util.Comparator` demands of `compare`: the sign flips when
      the arguments are swapped, and "not greater" is transitive. The
      transitivity law is only used for comparisons a proof already mentions. */
  ghost predicate IsComparator<T(!new)>(cmp: (T, T) -> int)
  {
    && (forall x, y :: cmp(x, y) < 0 <==> cmp(y, x) > 0)
    && (forall x, y, z {:trigger cmp(x, y), cmp(y, z), cmp(x, z)} ::
          cmp(x, y) <= 0 && cmp(y, z) <= 0 ==> cmp(x, z) <= 0)
  }

  /** Non-decreasing order under `cmp`. */
  ghost predicate Sorted<T>(s: seq<T>, cmp: (T, T) -> int)
  {
    forall i, j {:trigger cmp(s[i], s[j])} :: 0 <= i < j < |s| ==> cmp(s[i], s[j]) <= 0
  }

  /** Every element before position `k` is no greater than every element
      from `k` on. */
  ghost predicate SplitAt<T>(s: seq<T>, k: int, cmp: (T, T) -> int)
  {
    forall p, q {:trigger cmp(s[p], s[q])} :: 0 <= p < k <= q < |s| ==> cmp(s[p], s[q]) <= 0
  }

  /** `Integer.compareTo`, the natural order of ints. */
  function IntCompare(x: int, y: int): (c: int)
    ensures c < 0 <==> x < y
    ensures c > 0 <==> x > y
  {
    if x < y then -1 else if x > y then 1 else 0
  }

  lemma IntCompareIsComparator()
    ensures IsComparator(IntCompare)
  {
  }

  /** Under the natural order, sorted means ascending. */
  lemma SortedIntAscending(s: seq<int>)
    ensures Sorted(s, IntCompare) <==> forall i, j :: 0 <= i < j < |s| ==> s[i] <= s[j]
  {
    if Sorted(s, IntCompare) {
      forall i, j | 0 <= i < j < |s| ensures s[i] <= s[j] {
        assert IntCompare(s[i], s[j]) <= 0;
      }
    }
  }

  /** Two sorted runs, the first lying below the second, make a sorted
      sequence. */
  lemma SortedConcat<T>(s: seq<T>, k: int, cmp: (T, T) -> int)
    requires 0 <= k <= |s|
    requires Sorted(s[..k], cmp) && Sorted(s[k..], cmp) && SplitAt(s, k, cmp)
    ensures Sorted(s, cmp)
  {
    forall i, j | 0 <= i < j < |s| ensures cmp(s[i], s[j]) <= 0 {
      if j < k {
        assert cmp(s[..k][i], s[..k][j]) <= 0;
      } else if k <= i {
        assert cmp(s[k..][i - k], s[k..][j - k]) <= 0;
      }
    }
  }

  /** A sequence whose neighbours are in order is sorted. */
  lemma {:induction false} AdjacentSorted<T(!new)>(s: seq<T>, cmp: (T, T) -> int)
    requires IsComparator(cmp)
    requires forall k {:trigger s[k]} :: 0 <= k < |s| - 1 ==> cmp(s[k], s[k + 1]) <= 0
    ensures Sorted(s, cmp)
  {
    if |s| >= 2 {
      var t := s[1..];
      forall k | 0 <= k < |t| - 1 ensures cmp(t[k], t[k + 1]) <= 0 {
        assert t[k] == s[k + 1] && t[k + 1] == s[k + 2];
      }
      AdjacentSorted(t, cmp);
      forall i, j | 0 <= i < j < |s| ensures cmp(s[i], s[j]) <= 0 {
        if i > 0 {
          assert cmp(t[i - 1], t[j - 1]) <= 0;
        } else if j > 1 {
          assert cmp(s[0], s[1]) <= 0;
          assert cmp(t[0], t[j - 1]) <= 0;
        }
      }
    }
  }

  /** A property every element of `s` has is kept by any permutation of `s`;
      here the property is lying at or below `bound`. */
  lemma PermutedBelow<T>(s: seq<T>, t: seq<T>, bound: T, cmp: (T, T) -> int)
    requires multiset(s) == multiset(t)
    requires forall k :: 0 <= k < |s| ==> cmp(s[k], bound) <= 0
    ensures forall k :: 0 <= k < |t| ==> cmp(t[k], bound) <= 0
  {
    forall k | 0 <= k < |t| ensures cmp(t[k], bound) <= 0 {
      assert t[k] in multiset(s);
      var m :| 0 <= m < |s| && s[m] == t[k];
    }
  }

  /** The mirror image of `PermutedBelow`: lying strictly above `bound`. */
  lemma PermutedAbove<T>(s: seq<T>, t: seq<T>, bound: T, cmp: (T, T) -> int)
    requires multiset(s) == multiset(t)
    requires forall k :: 0 <= k < |s| ==> cmp(s[k], bound) > 0
    ensures forall k :: 0 <= k < |t| ==> cmp(t[k], bound) > 0
  {
    forall k | 0 <= k < |t| ensures cmp(t[k], bound) > 0 {
      assert t[k] in multiset(s);
      var m :| 0 <= m < |s| && s[m] == t[k];
    }
  }

  // ------------------------------------------------------------------ swap

  /** `s` with the elements at `i` and `j` exchanged. */
  ghost function Exchanged<T>(s: seq<T>, i: int, j: int): seq<T>
    requires 0 <= i < |s| && 0 <= j < |s|
  {
    s[i := s[j]][j := s[i]]
  }

  /** An exchange moves exactly two elements and keeps the multiset. */
  lemma ExchangedSlots<T>(s: seq<T>, i: int, j: int)
    requires 0 <= i < |s| && 0 <= j < |s|
    ensures |Exchanged(s, i, j)| == |s|
    ensures Exchanged(s, i, j)[i] == s[j] && Exchanged(s, i, j)[j] == s[i]
    ensures forall k :: 0 <= k < |s| && k != i && k != j ==> Exchanged(s, i, j)[k] == s[k]
    ensures multiset(Exchanged(s, i, j)) == multiset(s)
  {
  }

  /** `swap`: exchanges two slots and touches nothing else. */
  method Swap<T>(a: array<T>, i: int, j: int)
    requires 0 <= i < a.Length && 0 <= j < a.Length
    modifies a
    ensures a[..] == Exchanged(old(a[..]), i, j)
  {
    var temp := a[i];
    a[i] := a[j];
    a[j] := temp;
  }

  // ---------------------------------------------------------------- bubble

  /** Bubble sort: pass `i` carries a greatest element of the unsorted
      prefix `a[..n - i]` to its last slot, and a pass with no exchange ends
      the sort early. */
  method BubbleSort<T(!new)>(a: array<T>, cmp: (T, T) -> int)
    requires IsComparator(cmp)
    modifies a
    ensures Sorted(a[..], cmp)
    ensures multiset(a[..]) == old(multiset(a[..]))
  {
    var n := a.Length;
    var i := 0;
    while i < n - 1
      invariant 0 <= i <= n
      invariant multiset(a[..]) == old(multiset(a[..]))
      invariant Sorted(a[n - i..], cmp) && SplitAt(a[..], n - i, cmp)
    {
      ghost var before := a[..];
      var swapped := BubblePass(a, n - i, cmp);
      SettledGrows(before, a[..], n - i, cmp);
      if !swapped {
        SortedConcat(a[..], n - i, cmp);
        return;
      }
      i := i + 1;
    }
    if n > 0 {
      SortedConcat(a[..], n - i, cmp);
    }
  }

  /** After a pass over `t[..m]`, the settled suffix grows by one slot. */
  lemma SettledGrows<T>(s: seq<T>, t: seq<T>, m: int, cmp: (T, T) -> int)
    requires 0 < m <= |s| == |t|
    requires Sorted(s[m..], cmp) && t[m..] == s[m..] && SplitAt(t, m, cmp) && SplitAt(t, m - 1, cmp)
    ensures Sorted(t[m - 1..], cmp)
  {
    var u := t[m - 1..];
    forall i, j | 0 <= i < j < |u| ensures cmp(u[i], u[j]) <= 0 {
      if i == 0 {
        assert u[j] == t[m - 1 + j];
        assert cmp(t[m - 1], t[m - 1 + j]) <= 0;
      } else {
        assert u[i] == s[m..][i - 1] && u[j] == s[m..][j - 1];
        assert cmp(s[m..][i - 1], s[m..][j - 1]) <= 0;
      }
    }
  }

  /** One pass of the inner loop over the unsorted prefix `a[..m]`:
      afterwards a greatest element of the prefix sits in its last slot, the
      suffix is untouched, and when nothing was exchanged the prefix was
      already in order. */
  method BubblePass<T(!new)>(a: array<T>, m: int, cmp: (T, T) -> int) returns (swapped: bool)
    requires IsComparator(cmp) && 1 < m <= a.Length
    requires SplitAt(a[..], m, cmp)
    modifies a
    ensures multiset(a[..]) == old(multiset(a[..]))
    ensures a[m..] == old(a[m..])
    ensures SplitAt(a[..], m, cmp) && SplitAt(a[..], m - 1, cmp)
    ensures !swapped ==> Sorted(a[..m], cmp)
  {
    swapped := false;
    var j := 0;
    ghost var s0 := a[..];
    while j < m - 1
      invariant 0 <= j <= m - 1
      invariant PassInv(a[..], s0, m, j, swapped, cmp)
    {
      swapped := BubbleCompare(a, m, j, swapped, s0, cmp);
      j := j + 1;
    }
    PassDone(a[..], s0, m, swapped, cmp);
  }

  /** One round of the inner loop: exchanges slots `j` and `j + 1` when
      they are out of order, and records whether it did. */
  method BubbleCompare<T(!new)>(a: array<T>, m: int, j: int, swapped: bool, ghost s0: seq<T>, cmp: (T, T) -> int)
      returns (swapped': bool)
    requires IsComparator(cmp) && 0 <= j && j + 1 < m <= a.Length
    requires PassInv(a[..], s0, m, j, swapped, cmp)
    modifies a
    ensures swapped' == (swapped || cmp(old(a[j]), old(a[j + 1])) > 0)
    ensures PassInv(a[..], s0, m, j + 1, swapped', cmp)
  {
    ghost var s := a[..];
    PassStep(s, s0, m, j, swapped, cmp);
    swapped' := swapped;
    var x, y := a[j], a[j + 1];
    if cmp(x, y) > 0 {
      Swap(a, j, j + 1);
      swapped' := true;
    }
    assert a[..] == Bubbled(s, j, cmp);
  }

  /** What the pass keeps true before comparing slots `j` and `j + 1`: the
      suffix is untouched, `s[j]` is a greatest element of `s[..j + 1]`, the
      prefix still lies below the suffix, and if nothing has been exchanged
      the neighbours seen so far are in order. */
  ghost predicate PassInv<T>(s: seq<T>, s0: seq<T>, m: int, j: int, swapped: bool, cmp: (T, T) -> int)
  {
    && |s| == |s0| && 0 <= j < m <= |s|
    && multiset(s) == multiset(s0)
    && s[m..] == s0[m..]
    && (forall p {:trigger cmp(s[p], s[j])} :: 0 <= p < j ==> cmp(s[p], s[j]) <= 0)
    && SplitAt(s, m, cmp)
    && (!swapped ==> forall k {:trigger s[k]} :: 0 <= k < j ==> cmp(s[k], s[k + 1]) <= 0)
  }

  /** The effect of one comparison of the pass: an out-of-order pair of
      neighbours is exchanged. */
  ghost function Bubbled<T>(s: seq<T>, j: int, cmp: (T, T) -> int): seq<T>
    requires 0 <= j && j + 1 < |s|
  {
    if cmp(s[j], s[j + 1]) > 0 then Exchanged(s, j, j + 1) else s
  }

  /** One comparison keeps `PassInv`, and records whether it exchanged. */
  lemma PassStep<T(!new)>(s: seq<T>, s0: seq<T>, m: int, j: int, swapped: bool, cmp: (T, T) -> int)
    requires IsComparator(cmp) && 0 <= j && j + 1 < m <= |s|
    requires PassInv(s, s0, m, j, swapped, cmp)
    ensures PassInv(Bubbled(s, j, cmp), s0, m, j + 1, swapped || cmp(s[j], s[j + 1]) > 0, cmp)
  {
    if cmp(s[j], s[j + 1]) > 0 {
      assert cmp(s[j + 1], s[j]) < 0;
      PassStepSwap(s, s0, m, j, swapped, cmp);
    } else {
      PassStepKeep(s, s0, m, j, swapped, cmp);
    }
  }

  lemma PassStepSwap<T>(s: seq<T>, s0: seq<T>, m: int, j: int, swapped: bool, cmp: (T, T) -> int)
    requires 0 <= j && j + 1 < m <= |s|
    requires PassInv(s, s0, m, j, swapped, cmp) && cmp(s[j + 1], s[j]) <= 0
    ensures PassInv(Exchanged(s, j, j + 1), s0, m, j + 1, true, cmp)
  {
    var t := Exchanged(s, j, j + 1);
    ExchangedSlots(s, j, j + 1);
    assert t[m..] == s[m..];
    forall p | 0 <= p < j + 1 ensures cmp(t[p], t[j + 1]) <= 0 {
      if p < j {
        assert cmp(s[p], s[j]) <= 0;
      }
    }
    SplitAtExchanged(s, m, j, j + 1, cmp);
  }

  lemma PassStepKeep<T(!new)>(s: seq<T>, s0: seq<T>, m: int, j: int, swapped: bool, cmp: (T, T) -> int)
    requires IsComparator(cmp) && 0 <= j && j + 1 < m <= |s|
    requires PassInv(s, s0, m, j, swapped, cmp) && cmp(s[j], s[j + 1]) <= 0
    ensures PassInv(s, s0, m, j + 1, swapped, cmp)
  {
    forall p | 0 <= p < j + 1 ensures cmp(s[p], s[j + 1]) <= 0 {
      if p < j {
        assert cmp(s[p], s[j]) <= 0;
      }
    }
  }

  /** Exchanging two slots on the same side of `m` keeps `SplitAt(_, m)`. */
  lemma SplitAtExchanged<T>(s: seq<T>, m: int, i: int, j: int, cmp: (T, T) -> int)
    requires 0 <= i < |s| && 0 <= j < |s| && (i < m <==> j < m)
    requires SplitAt(s, m, cmp)
    ensures SplitAt(Exchanged(s, i, j), m, cmp)
  {
    var t := Exchanged(s, i, j);
    forall p, q | 0 <= p < m <= q < |t| ensures cmp(t[p], t[q]) <= 0 {
      var p' := if p == i then j else if p == j then i else p;
      var q' := if q == i then j else if q == j then i else q;
      assert t[p] == s[p'] && t[q] == s[q'];
      assert cmp(s[p'], s[q']) <= 0;
    }
  }

  /** At the end of the pass, `PassInv` gives the pass's postcondition. */
  lemma PassDone<T(!new)>(s: seq<T>, s0: seq<T>, m: int, swapped: bool, cmp: (T, T) -> int)
    requires IsComparator(cmp) && PassInv(s, s0, m, m - 1, swapped, cmp)
    ensures SplitAt(s, m, cmp) && SplitAt(s, m - 1, cmp)
    ensures !swapped ==> Sorted(s[..m], cmp)
  {
    forall p, q | 0 <= p < m - 1 <= q < |s| ensures cmp(s[p], s[q]) <= 0 {
      if q >= m {
        assert cmp(s[p], s[q]) <= 0;
      } else {
        assert cmp(s[p], s[m - 1]) <= 0;
      }
    }
    if !swapped {
      var u := s[..m];
      forall k | 0 <= k < |u| - 1 ensures cmp(u[k], u[k + 1]) <= 0 {
        assert cmp(s[k], s[k + 1]) <= 0;
      }
      AdjacentSorted(u, cmp);
    }
  }

  /** Bubble sort in natural order. */
  method BubbleSortNatural(a: array<int>)
    modifies a
    ensures forall i, j :: 0 <= i < j < a.Length ==> a[i] <= a[j]
    ensures multiset(a[..]) == old(multiset(a[..]))
  {
    IntCompareIsComparator();
    BubbleSort(a, IntCompare);
    SortedIntAscending(a[..]);
  }

  // ------------------------------------------------------------- insertion

  /** Insertion sort: step `i` inserts `a[i]` into the sorted prefix
      `a[..i]`, so the prefix `a[..i]` is sorted before each step. */
  method InsertionSort<T(!new)>(a: array<T>, cmp: (T, T) -> int)
    requires IsComparator(cmp)
    modifies a
    ensures Sorted(a[..], cmp)
    ensures multiset(a[..]) == old(multiset(a[..]))
  {
    var n := a.Length;
    var i := 1;
    while i < n
      invariant (n == 0 && i == 1) || 1 <= i <= n
      invariant multiset(a[..]) == old(multiset(a[..]))
      invariant n == 0 || Sorted(a[..i], cmp)
    {
      InsertKey(a, i, cmp);
      i := i + 1;
    }
    if n > 0 {
      assert a[..] == a[..i];
    }
  }

  /** The body of the outer loop: shifts the elements of the sorted prefix
      `a[..i]` that are greater than `key == a[i]` one slot to the right and
      drops `key` into the gap. */
  method InsertKey<T(!new)>(a: array<T>, i: int, cmp: (T, T) -> int)
    requires IsComparator(cmp) && 0 < i < a.Length
    requires Sorted(a[..i], cmp)
    modifies a
    ensures Sorted(a[..i + 1], cmp)
    ensures a[i + 1..] == old(a[i + 1..])
    ensures multiset(a[..]) == old(multiset(a[..]))
  {
    var key := a[i];
    var j := i - 1;
    while j >= 0 && cmp(a[j], key) > 0
      invariant ShiftInv(a[..], old(a[..]), i, j, cmp)
      invariant key == old(a[i])
      decreases j
    {
      ghost var s := a[..];
      ShiftStep(s, old(a[..]), i, j, cmp);
      a[j + 1] := a[j];
      assert a[..] == s[j + 1 := s[j]];
      j := j - 1;
    }
    ghost var s := a[..];
    a[j + 1] := key;
    assert a[..] == s[j + 1 := key];
    InsertDone(s, old(a[..]), i, j, cmp);
  }

  /** The shift loop's state: `s0[..j + 1]` is in place, `s0[j + 1..i]`
      has moved one slot right, nothing from `i + 1` on has moved, and every
      element moved so far is greater than the key `s0[i]`. */
  ghost predicate ShiftInv<T>(s: seq<T>, s0: seq<T>, i: int, j: int, cmp: (T, T) -> int)
  {
    && |s| == |s0| && 0 <= i < |s| && -1 <= j < i
    && (forall k {:trigger s[k]} :: 0 <= k <= j ==> s[k] == s0[k])
    && (forall k {:trigger s[k]} :: j + 1 < k <= i ==> s[k] == s0[k - 1])
    && s[i + 1..] == s0[i + 1..]
    && (forall k {:trigger s0[k]} :: j + 1 <= k < i ==> cmp(s0[k], s0[i]) > 0)
  }

  /** Moving one more element right keeps `ShiftInv`. */
  lemma ShiftStep<T>(s: seq<T>, s0: seq<T>, i: int, j: int, cmp: (T, T) -> int)
    requires ShiftInv(s, s0, i, j, cmp) && j >= 0 && cmp(s[j], s0[i]) > 0
    ensures ShiftInv(s[j + 1 := s[j]], s0, i, j - 1, cmp)
  {
    var t := s[j + 1 := s[j]];
    assert t[i + 1..] == s[i + 1..];
  }

  /** `s` with `s[i]` moved to position `p <= i`, the elements between
      shifted one slot right. */
  ghost function InsertedAt<T>(s: seq<T>, i: int, p: int): seq<T>
    requires 0 <= p <= i < |s|
  {
    s[..p] + [s[i]] + s[p..i] + s[i + 1..]
  }

  /** Dropping the key into the gap left by the shift loop gives
      `InsertedAt(s0, i, j + 1)`, a permutation of `s0` whose first `i + 1`
      elements are sorted. */
  lemma InsertDone<T(!new)>(s: seq<T>, s0: seq<T>, i: int, j: int, cmp: (T, T) -> int)
    requires IsComparator(cmp) && ShiftInv(s, s0, i, j, cmp) && Sorted(s0[..i], cmp)
    requires j < 0 || cmp(s[j], s0[i]) <= 0
    ensures Sorted(s[j + 1 := s0[i]][..i + 1], cmp)
    ensures s[j + 1 := s0[i]][i + 1..] == s0[i + 1..]
    ensures multiset(s[j + 1 := s0[i]]) == multiset(s0)
  {
    GapFilled(s, s0, i, j, cmp);
    InsertedPermutes(s0, i, j + 1);
    InsertedSorted(s0, i, j + 1, cmp);
  }

  /** The array after the shift loop and the final store is `InsertedAt`. */
  lemma GapFilled<T>(s: seq<T>, s0: seq<T>, i: int, j: int, cmp: (T, T) -> int)
    requires ShiftInv(s, s0, i, j, cmp)
    ensures s[j + 1 := s0[i]] == InsertedAt(s0, i, j + 1)
  {
    var t := s[j + 1 := s0[i]];
    var u := InsertedAt(s0, i, j + 1);
    forall k | 0 <= k < |t| ensures t[k] == u[k] {
      if k > i {
        assert t[k] == s[i + 1..][k - i - 1];
      }
    }
  }

  /** Moving one element keeps the multiset and the tail past `i`. */
  lemma InsertedPermutes<T>(s0: seq<T>, i: int, p: int)
    requires 0 <= p <= i < |s0|
    ensures multiset(InsertedAt(s0, i, p)) == multiset(s0)
    ensures InsertedAt(s0, i, p)[i + 1..] == s0[i + 1..]
  {
    assert s0 == s0[..p] + s0[p..i] + [s0[i]] + s0[i + 1..];
  }

  /** The key lands after every element no greater than it and before
      every element greater than it, so the first `i + 1` slots are sorted. */
  lemma InsertedSorted<T(!new)>(s0: seq<T>, i: int, p: int, cmp: (T, T) -> int)
    requires IsComparator(cmp) && 0 <= p <= i < |s0| && Sorted(s0[..i], cmp)
    requires p > 0 ==> cmp(s0[p - 1], s0[i]) <= 0
    requires forall k {:trigger s0[k]} :: p <= k < i ==> cmp(s0[k], s0[i]) > 0
    ensures Sorted(InsertedAt(s0, i, p)[..i + 1], cmp)
  {
    var u := InsertedAt(s0, i, p)[..i + 1];
    assert forall k :: 0 <= k < p ==> u[k] == s0[k];
    assert u[p] == s0[i];
    assert forall k :: p < k <= i ==> u[k] == s0[k - 1];
    forall x, y | 0 <= x < y < |u| ensures cmp(u[x], u[y]) <= 0 {
      if y < p {
        assert cmp(s0[..i][x], s0[..i][y]) <= 0;
      } else if y == p {
        if x < p - 1 {
          assert cmp(s0[..i][x], s0[..i][p - 1]) <= 0;
        }
        assert cmp(s0[p - 1], s0[i]) <= 0;
      } else if x < p {
        assert cmp(s0[..i][x], s0[..i][y - 1]) <= 0;
      } else if x == p {
        assert cmp(s0[y - 1], s0[i]) > 0;
      } else {
        assert cmp(s0[..i][x - 1], s0[..i][y - 1]) <= 0;
      }
    }
  }

  /** Insertion sort in natural order. */
  method InsertionSortNatural(a: array<int>)
    modifies a
    ensures forall i, j :: 0 <= i < j < a.Length ==> a[i] <= a[j]
    ensures multiset(a[..]) == old(multiset(a[..]))
  {
    IntCompareIsComparator();
    InsertionSort(a, IntCompare);
    SortedIntAscending(a[..]);
  }

  // ------------------------------------------------------------- selection

  /** Selection sort: step `i` exchanges a least element of `a[i..]` into
      slot `i`, so `a[..i]` is sorted and lies below `a[i..]`. */
  method SelectionSort<T(!new)>(a: array<T>, cmp: (T, T) -> int)
    requires IsComparator(cmp)
    modifies a
    ensures Sorted(a[..], cmp)
    ensures multiset(a[..]) == old(multiset(a[..]))
  {
    var n := a.Length;
    var i := 0;
    while i < n - 1
      invariant 0 <= i <= n
      invariant multiset(a[..]) == old(multiset(a[..]))
      invariant Sorted(a[..i], cmp) && SplitAt(a[..], i, cmp)
    {
      var minIndex := MinIndex(a, i, cmp);
      ghost var s := a[..];
      Swap(a, minIndex, i);
      SelectStep(s, i, minIndex, cmp);
      i := i + 1;
    }
    if n > 0 {
      SortedConcat(a[..], i, cmp);
    }
  }

  /** The inner loop: the index of the first least element of `a[i..]`. */
  method MinIndex<T(!new)>(a: array<T>, i: int, cmp: (T, T) -> int) returns (minIndex: int)
    requires IsComparator(cmp) && 0 <= i < a.Length
    ensures i <= minIndex < a.Length
    ensures forall k :: i <= k < a.Length ==> cmp(a[minIndex], a[k]) <= 0
    ensures forall k :: i <= k < minIndex ==> cmp(a[k], a[minIndex]) > 0
  {
    minIndex := i;
    var j := i + 1;
    while j < a.Length
      invariant i <= minIndex < j <= a.Length
      invariant forall k :: i <= k < j ==> cmp(a[minIndex], a[k]) <= 0
      invariant forall k :: i <= k < minIndex ==> cmp(a[k], a[minIndex]) > 0
    {
      if cmp(a[j], a[minIndex]) < 0 {
        forall k | i <= k < j ensures cmp(a[j], a[k]) <= 0 && cmp(a[k], a[j]) > 0 {
          assert cmp(a[minIndex], a[k]) <= 0;
          assert cmp(a[minIndex], a[j]) > 0;
        }
        minIndex := j;
      }
      j := j + 1;
    }
  }

  /** Exchanging a least element of `s[i..]` into slot `i` extends the
      sorted prefix by one slot. */
  lemma SelectStep<T>(s: seq<T>, i: int, m: int, cmp: (T, T) -> int)
    requires 0 <= i <= m < |s|
    requires Sorted(s[..i], cmp) && SplitAt(s, i, cmp)
    requires forall k :: i <= k < |s| ==> cmp(s[m], s[k]) <= 0
    ensures Sorted(Exchanged(s, m, i)[..i + 1], cmp) && SplitAt(Exchanged(s, m, i), i + 1, cmp)
    ensures multiset(Exchanged(s, m, i)) == multiset(s)
  {
    var t := Exchanged(s, m, i);
    ExchangedSlots(s, m, i);
    var u := t[..i + 1];
    forall x, y | 0 <= x < y < |u| ensures cmp(u[x], u[y]) <= 0 {
      if y < i {
        assert cmp(s[..i][x], s[..i][y]) <= 0;
      } else {
        assert cmp(s[x], s[m]) <= 0;
      }
    }
    forall p, q | 0 <= p < i + 1 <= q < |t| ensures cmp(t[p], t[q]) <= 0 {
      var q' := if q == m then i else q;
      assert t[q] == s[q'];
      if p < i {
        assert cmp(s[p], s[q']) <= 0;
      } else {
        assert cmp(s[m], s[q']) <= 0;
      }
    }
  }

  /** Selection sort in natural order. */
  method SelectionSortNatural(a: array<int>)
    modifies a
    ensures forall i, j :: 0 <= i < j < a.Length ==> a[i] <= a[j]
    ensures multiset(a[..]) == old(multiset(a[..]))
  {
    IntCompareIsComparator();
    SelectionSort(a, IntCompare);
    SortedIntAscending(a[..]);
  }

  // ----------------------------------------------------------------- merge

  /** What `merge` produces from `l[i..]` and `r[j..]`: repeatedly take the
      smaller head, the left head on a tie, and append the rest of the
      other input once one input is used up. */
  ghost function MergeFrom<T>(l: seq<T>, r: seq<T>, i: nat, j: nat, cmp: (T, T) -> int): (m: seq<T>)
    requires i <= |l| && j <= |r|
    ensures |m| == |l| - i + |r| - j
    decreases |l| - i + |r| - j
  {
    if i == |l| then r[j..]
    else if j == |r| then l[i..]
    else if cmp(l[i], r[j]) <= 0 then [l[i]] + MergeFrom(l, r, i + 1, j, cmp)
    else [r[j]] + MergeFrom(l, r, i, j + 1, cmp)
  }

  /** The merge of two whole sequences. */
  ghost function MergeSeq<T>(l: seq<T>, r: seq<T>, cmp: (T, T) -> int): seq<T>
  {
    MergeFrom(l, r, 0, 0, cmp)
  }

  /** The merge holds exactly the elements of both inputs. */
  lemma {:induction false} MergePermutes<T>(l: seq<T>, r: seq<T>, i: nat, j: nat, cmp: (T, T) -> int)
    requires i <= |l| && j <= |r|
    ensures multiset(MergeFrom(l, r, i, j, cmp)) == multiset(l[i..]) + multiset(r[j..])
    decreases |l| - i + |r| - j
  {
    if i == |l| {
      assert l[i..] == [];
    } else if j == |r| {
      assert r[j..] == [];
    } else if cmp(l[i], r[j]) <= 0 {
      MergePermutes(l, r, i + 1, j, cmp);
      TakeHead(l, i);
    } else {
      MergePermutes(l, r, i, j + 1, cmp);
      TakeHead(r, j);
    }
  }

  /** Splitting the head off a suffix, as a multiset. */
  lemma TakeHead<T>(s: seq<T>, i: nat)
    requires i < |s|
    ensures multiset(s[i..]) == multiset{s[i]} + multiset(s[i + 1..])
  {
    assert s[i..] == [s[i]] + s[i + 1..];
  }

  /** Every element of `s` is at least `x`. */
  ghost predicate LowerBound<T>(x: T, s: seq<T>, cmp: (T, T) -> int)
  {
    forall k :: 0 <= k < |s| ==> cmp(x, s[k]) <= 0
  }

  /** A lower bound of a sorted sequence can be put in front of it. */
  lemma ConsSorted<T>(x: T, s: seq<T>, cmp: (T, T) -> int)
    requires Sorted(s, cmp) && LowerBound(x, s, cmp)
    ensures Sorted([x] + s, cmp)
  {
    var u := [x] + s;
    forall i, j | 0 <= i < j < |u| ensures cmp(u[i], u[j]) <= 0 {
      if i == 0 {
        assert cmp(x, s[j - 1]) <= 0;
      } else {
        assert cmp(s[i - 1], s[j - 1]) <= 0;
      }
    }
  }

  /** Anything no greater than the head of a sorted `s[i..]` is a lower
      bound of `s[i..]`. */
  lemma HeadLowerBound<T(!new)>(x: T, s: seq<T>, i: int, cmp: (T, T) -> int)
    requires IsComparator(cmp) && Sorted(s, cmp) && 0 <= i < |s| && cmp(x, s[i]) <= 0
    ensures LowerBound(x, s[i..], cmp)
  {
    forall k | 0 <= k < |s[i..]| ensures cmp(x, s[i..][k]) <= 0 {
      if k > 0 {
        assert cmp(s[i], s[i + k]) <= 0;
      }
    }
  }

  /** A lower bound of what is left of both inputs is a lower bound of
      their merge. */
  lemma MergeLowerBound<T>(x: T, l: seq<T>, r: seq<T>, i: nat, j: nat, cmp: (T, T) -> int)
    requires i <= |l| && j <= |r|
    requires LowerBound(x, l[i..], cmp) && LowerBound(x, r[j..], cmp)
    ensures LowerBound(x, MergeFrom(l, r, i, j, cmp), cmp)
  {
    var m := MergeFrom(l, r, i, j, cmp);
    MergePermutes(l, r, i, j, cmp);
    forall k | 0 <= k < |m| ensures cmp(x, m[k]) <= 0 {
      assert m[k] in multiset(l[i..]) + multiset(r[j..]);
      if m[k] in multiset(l[i..]) {
        var p :| 0 <= p < |l[i..]| && l[i..][p] == m[k];
      } else {
        var p :| 0 <= p < |r[j..]| && r[j..][p] == m[k];
      }
    }
  }

  /** Merging two sorted sequences gives a sorted sequence. */
  lemma {:induction false} MergeSorted<T(!new)>(l: seq<T>, r: seq<T>, i: nat, j: nat, cmp: (T, T) -> int)
    requires IsComparator(cmp) && Sorted(l, cmp) && Sorted(r, cmp) && i <= |l| && j <= |r|
    ensures Sorted(MergeFrom(l, r, i, j, cmp), cmp)
    decreases |l| - i + |r| - j
  {
    if i == |l| {
      SortedSuffix(r, j, cmp);
    } else if j == |r| {
      SortedSuffix(l, i, cmp);
    } else {
      assert cmp(l[i], l[i]) <= 0 && cmp(r[j], r[j]) <= 0;
      if cmp(l[i], r[j]) <= 0 {
        MergeSorted(l, r, i + 1, j, cmp);
        HeadLowerBound(l[i], l, i, cmp);
        HeadLowerBound(l[i], r, j, cmp);
        MergeLowerBound(l[i], l, r, i + 1, j, cmp);
        ConsSorted(l[i], MergeFrom(l, r, i + 1, j, cmp), cmp);
      } else {
        MergeSorted(l, r, i, j + 1, cmp);
        HeadLowerBound(r[j], l, i, cmp);
        HeadLowerBound(r[j], r, j, cmp);
        MergeLowerBound(r[j], l, r, i, j + 1, cmp);
        ConsSorted(r[j], MergeFrom(l, r, i, j + 1, cmp), cmp);
      }
    }
  }

  /** A suffix of a sorted sequence is sorted. */
  lemma SortedSuffix<T>(s: seq<T>, i: int, cmp: (T, T) -> int)
    requires Sorted(s, cmp) && 0 <= i <= |s|
    ensures Sorted(s[i..], cmp)
  {
    var t := s[i..];
    forall x, y | 0 <= x < y < |t| ensures cmp(t[x], t[y]) <= 0 {
      assert cmp(s[i + x], s[i + y]) <= 0;
    }
  }

  /** The elements of `s` that compare equal to `key`, in their order in
      `s`. */
  ghost function Ties<T>(s: seq<T>, key: T, cmp: (T, T) -> int): seq<T>
  {
    if s == [] then []
    else (if cmp(s[0], key) == 0 then [s[0]] else []) + Ties(s[1..], key, cmp)
  }

  /** `Ties` of a sequence none of whose elements tie with `key` is empty. */
  lemma {:induction false} NoTies<T>(s: seq<T>, key: T, cmp: (T, T) -> int)
    requires forall k :: 0 <= k < |s| ==> cmp(s[k], key) != 0
    ensures Ties(s, key, cmp) == []
  {
    if s != [] {
      assert forall k :: 0 <= k < |s[1..]| ==> s[1..][k] == s[k + 1];
      NoTies(s[1..], key, cmp);
    }
  }

  /** `merge` is stable: among the elements that tie with any `key`, the
      merge lists those of `l[i..]` first, then those of `r[j..]`, each in
      its own order. */
  lemma {:induction false} MergeStable<T(!new)>(l: seq<T>, r: seq<T>, i: nat, j: nat, key: T, cmp: (T, T) -> int)
    requires IsComparator(cmp) && Sorted(l, cmp) && Sorted(r, cmp) && i <= |l| && j <= |r|
    ensures Ties(MergeFrom(l, r, i, j, cmp), key, cmp) == Ties(l[i..], key, cmp) + Ties(r[j..], key, cmp)
    decreases |l| - i + |r| - j
  {
    if i == |l| {
      assert l[i..] == [];
    } else if j == |r| {
      assert r[j..] == [];
    } else if cmp(l[i], r[j]) <= 0 {
      var m := MergeFrom(l, r, i + 1, j, cmp);
      MergeStable(l, r, i + 1, j, key, cmp);
      assert MergeFrom(l, r, i, j, cmp) == [l[i]] + m;
      TiesCons(l[i], m, key, cmp);
      TiesSuffix(l, i, key, cmp);
    } else {
      var m := MergeFrom(l, r, i, j + 1, cmp);
      MergeStable(l, r, i, j + 1, key, cmp);
      assert MergeFrom(l, r, i, j, cmp) == [r[j]] + m;
      TiesCons(r[j], m, key, cmp);
      TiesSuffix(r, j, key, cmp);
      if cmp(r[j], key) == 0 {
        LeftNoTies(l, i, r[j], key, cmp);
      }
    }
  }

  /** `Ties` of a sequence with `x` in front. */
  lemma TiesCons<T>(x: T, m: seq<T>, key: T, cmp: (T, T) -> int)
    ensures Ties([x] + m, key, cmp) == (if cmp(x, key) == 0 then [x] else []) + Ties(m, key, cmp)
  {
    assert ([x] + m)[1..] == m;
  }

  /** `Ties` of a suffix, with its head split off. */
  lemma TiesSuffix<T>(s: seq<T>, i: int, key: T, cmp: (T, T) -> int)
    requires 0 <= i < |s|
    ensures Ties(s[i..], key, cmp) == (if cmp(s[i], key) == 0 then [s[i]] else []) + Ties(s[i + 1..], key, cmp)
  {
    assert s[i..][1..] == s[i + 1..];
  }

  /** When the head of `r[j..]` ties with `key` and is taken before the
      head of the sorted `l[i..]`, nothing in `l[i..]` ties with `key`. */
  lemma LeftNoTies<T(!new)>(l: seq<T>, i: nat, x: T, key: T, cmp: (T, T) -> int)
    requires IsComparator(cmp) && Sorted(l, cmp) && i < |l|
    requires cmp(l[i], x) > 0 && cmp(x, key) == 0
    ensures Ties(l[i..], key, cmp) == []
  {
    assert cmp(key, x) <= 0;
    forall k | 0 <= k < |l[i..]| ensures cmp(l[i..][k], key) != 0 {
      if k > 0 {
        assert cmp(l[i], l[i + k]) <= 0;
      }
    }
    NoTies(l[i..], key, cmp);
  }

  /** What `merge` keeps true: the output so far, followed by the merge of
      what is left of both inputs, is the merge of the whole inputs. */
  ghost predicate MergeInv<T>(s: seq<T>, l: seq<T>, r: seq<T>, i: nat, j: nat, cmp: (T, T) -> int)
  {
    && i <= |l| && j <= |r| && |s| == |l| + |r|
    && s[..i + j] + MergeFrom(l, r, i, j, cmp) == MergeSeq(l, r, cmp)
  }

  /** Copying the head of `l[i..]` when it is not greater than the head of
      `r[j..]`, or when `r[j..]` is used up, keeps `MergeInv`. */
  lemma TakeLeft<T>(s: seq<T>, t: seq<T>, l: seq<T>, r: seq<T>, i: nat, j: nat, cmp: (T, T) -> int)
    requires MergeInv(s, l, r, i, j, cmp) && i < |l|
    requires j == |r| || cmp(l[i], r[j]) <= 0
    requires t == s[i + j := l[i]]
    ensures MergeInv(t, l, r, i + 1, j, cmp)
  {
    assert MergeFrom(l, r, i, j, cmp) == [l[i]] + MergeFrom(l, r, i + 1, j, cmp);
    Appended(s, t, i + j, l[i], MergeFrom(l, r, i + 1, j, cmp));
  }

  /** Copying the head of `r[j..]` when it is less than the head of
      `l[i..]`, or when `l[i..]` is used up, keeps `MergeInv`. */
  lemma TakeRight<T>(s: seq<T>, t: seq<T>, l: seq<T>, r: seq<T>, i: nat, j: nat, cmp: (T, T) -> int)
    requires MergeInv(s, l, r, i, j, cmp) && j < |r|
    requires i == |l| || cmp(l[i], r[j]) > 0
    requires t == s[i + j := r[j]]
    ensures MergeInv(t, l, r, i, j + 1, cmp)
  {
    assert MergeFrom(l, r, i, j, cmp) == [r[j]] + MergeFrom(l, r, i, j + 1, cmp);
    Appended(s, t, i + j, r[j], MergeFrom(l, r, i, j + 1, cmp));
  }

  /** Writing `x` at slot `k` moves it from the front of what is still to
      come to the end of what is written. */
  lemma Appended<T>(s: seq<T>, t: seq<T>, k: nat, x: T, rest: seq<T>)
    requires k < |s| && t == s[k := x]
    ensures t[..k + 1] + rest == s[..k] + ([x] + rest)
  {
    assert t[..k + 1] == s[..k] + [x];
  }

  /** `merge`: fills `a` with the merge of `left` and `right`. The first
      loop, which takes the smaller head while both inputs last, is
      `MergeHeads`; the two trailing loops, which copy what is left of one
      input, are `CopyRest`. */
  method Merge<T>(a: array<T>, left: array<T>, right: array<T>, cmp: (T, T) -> int)
    requires a.Length == left.Length + right.Length && a != left && a != right
    modifies a
    ensures a[..] == MergeSeq(left[..], right[..], cmp)
  {
    var i, j := MergeHeads(a, left, right, cmp);
    ghost var s := a[..];
    CopyRest(left, i, a, i + j);
    ghost var s1 := a[..];
    assert s1[..j + left.Length] == s[..i + j] + left[i..];
    CopyRest(right, j, a, j + left.Length);
    assert a[..] == s1[..j + left.Length] + right[j..];
    MergeRest(s, s1[..j + left.Length], a[..], left[..], right[..], i, j, cmp);
  }

  /** The first loop of `merge`: while both inputs last, copies the smaller
      head, the left one on a tie. It stops with one input used up and the
      output so far a prefix of the merge. */
  method MergeHeads<T>(a: array<T>, left: array<T>, right: array<T>, cmp: (T, T) -> int)
      returns (i: int, j: int)
    requires a.Length == left.Length + right.Length && a != left && a != right
    modifies a
    ensures 0 <= i <= left.Length && 0 <= j <= right.Length
    ensures i == left.Length || j == right.Length
    ensures MergeInv(a[..], left[..], right[..], i, j, cmp)
  {
    i, j := 0, 0;
    while i < left.Length && j < right.Length
      invariant 0 <= i <= left.Length && 0 <= j <= right.Length
      invariant MergeInv(a[..], left[..], right[..], i, j, cmp)
      decreases left.Length + right.Length - i - j
    {
      i, j := MergeStep(a, left, right, i, j, cmp);
    }
  }

  /** One round of the first loop of `merge`: copies the smaller head into
      slot `i + j` and moves past it. */
  method MergeStep<T>(a: array<T>, left: array<T>, right: array<T>, i: int, j: int, cmp: (T, T) -> int)
      returns (i': int, j': int)
    requires a != left && a != right
    requires 0 <= i < left.Length && 0 <= j < right.Length
    requires MergeInv(a[..], left[..], right[..], i, j, cmp)
    modifies a
    ensures (i', j') == (if cmp(left[i], right[j]) <= 0 then (i + 1, j) else (i, j + 1))
    ensures MergeInv(a[..], left[..], right[..], i', j', cmp)
  {
    ghost var s := a[..];
    var x, y := left[i], right[j];
    if cmp(x, y) <= 0 {
      a[i + j] := x;
      TakeLeft(s, a[..], left[..], right[..], i, j, cmp);
      i', j' := i + 1, j;
    } else {
      a[i + j] := y;
      TakeRight(s, a[..], left[..], right[..], i, j, cmp);
      i', j' := i, j + 1;
    }
  }

  /** One trailing loop of `merge`: copies `src[from..]` into `dst` from
      slot `to` on. */
  method CopyRest<T>(src: array<T>, from: int, dst: array<T>, to: int)
    requires 0 <= from <= src.Length && 0 <= to && to + src.Length - from <= dst.Length
    requires src != dst
    modifies dst
    ensures dst[..] == old(dst[..to]) + src[from..] + old(dst[to + src.Length - from..])
  {
    var i, k := from, to;
    while i < src.Length
      invariant from <= i <= src.Length && k == to + i - from
      invariant dst[..to] == old(dst[..to])
      invariant dst[to..k] == src[from..i]
      invariant dst[to + src.Length - from..] == old(dst[to + src.Length - from..])
    {
      dst[k] := src[i];
      i, k := i + 1, k + 1;
    }
    assert dst[..] == dst[..to] + dst[to..k] + dst[k..];
  }

  /** Once one input is used up, the merge of what is left is the rest of
      the other input, so copying both rests completes the merge. */
  lemma MergeRest<T>(s: seq<T>, u: seq<T>, t: seq<T>, l: seq<T>, r: seq<T>, i: nat, j: nat, cmp: (T, T) -> int)
    requires MergeInv(s, l, r, i, j, cmp) && (i == |l| || j == |r|)
    requires u == s[..i + j] + l[i..] && t == u + r[j..]
    ensures t == MergeSeq(l, r, cmp)
  {
    if i == |l| {
      assert l[i..] == [];
    } else {
      assert r[j..] == [];
    }
  }

  /** `Arrays.copyOfRange`: a fresh array holding `a[from..to]`. */
  method CopyOfRange<T>(a: array<T>, from: int, to: int) returns (r: array<T>)
    requires 0 <= from <= to <= a.Length
    ensures fresh(r) && r[..] == a[from..to]
  {
    r := new T[to - from](k requires 0 <= k < to - from reads a => a[from + k]);
  }

  /** Merge sort: sorts copies of both halves, then merges them back. */
  method MergeSort<T(!new)>(a: array<T>, cmp: (T, T) -> int)
    requires IsComparator(cmp)
    modifies a
    ensures Sorted(a[..], cmp)
    ensures multiset(a[..]) == old(multiset(a[..]))
    decreases a.Length
  {
    if a.Length < 2 {
      return;
    }
    var mid := a.Length / 2;
    var left := CopyOfRange(a, 0, mid);
    var right := CopyOfRange(a, mid, a.Length);
    ghost var s0 := a[..];
    assert left[..] == s0[..mid] && right[..] == s0[mid..];
    MergeSort(left, cmp);
    MergeSort(right, cmp);
    Merge(a, left, right, cmp);
    MergeDone(s0, left[..], right[..], a[..], mid, cmp);
  }

  /** Merging the sorted halves gives a sorted permutation of the input. */
  lemma MergeDone<T(!new)>(s0: seq<T>, l: seq<T>, r: seq<T>, t: seq<T>, mid: int, cmp: (T, T) -> int)
    requires IsComparator(cmp) && 0 <= mid <= |s0|
    requires Sorted(l, cmp) && multiset(l) == multiset(s0[..mid])
    requires Sorted(r, cmp) && multiset(r) == multiset(s0[mid..])
    requires t == MergeSeq(l, r, cmp)
    ensures Sorted(t, cmp) && multiset(t) == multiset(s0)
  {
    MergeSorted(l, r, 0, 0, cmp);
    MergePermutes(l, r, 0, 0, cmp);
    assert l[0..] == l && r[0..] == r;
    assert s0 == s0[..mid] + s0[mid..];
  }

  /** Merge sort in natural order. */
  method MergeSortNatural(a: array<int>)
    modifies a
    ensures forall i, j :: 0 <= i < j < a.Length ==> a[i] <= a[j]
    ensures multiset(a[..]) == old(multiset(a[..]))
  {
    IntCompareIsComparator();
    MergeSort(a, IntCompare);
    SortedIntAscending(a[..]);
  }

  // ----------------------------------------------------------------- quick

  /** A segment of equal multisets in two sequences that agree outside it:
      what a sort of `s[lo..hi]` leaves behind. */
  lemma SegmentPermuted<T>(s: seq<T>, t: seq<T>, lo: int, hi: int)
    requires 0 <= lo <= hi <= |s| == |t| && multiset(s) == multiset(t)
    requires s[..lo] == t[..lo] && s[hi..] == t[hi..]
    ensures multiset(s[lo..hi]) == multiset(t[lo..hi])
  {
    assert s == s[..lo] + s[lo..hi] + s[hi..];
    assert t == t[..lo] + t[lo..hi] + t[hi..];
    assert multiset(s[lo..hi]) == multiset(s) - multiset(s[..lo]) - multiset(s[hi..]);
    assert multiset(t[lo..hi]) == multiset(t) - multiset(t[..lo]) - multiset(t[hi..]);
  }

  /** `s[low..p]` lies at or below the pivot `s[p]` and `s[p + 1..high + 1]`
      strictly above it. */
  ghost predicate PartitionedAt<T>(s: seq<T>, low: int, p: int, high: int, cmp: (T, T) -> int)
  {
    && 0 <= low <= p <= high < |s|
    && (forall k :: low <= k < p ==> cmp(s[k], s[p]) <= 0)
    && (forall k :: p < k <= high ==> cmp(s[k], s[p]) > 0)
  }

  /** `quickSort(array)`: sorts the whole array. */
  method QuickSort<T(!new)>(a: array<T>, cmp: (T, T) -> int)
    requires IsComparator(cmp)
    modifies a
    ensures Sorted(a[..], cmp)
    ensures multiset(a[..]) == old(multiset(a[..]))
  {
    QuickSortRange(a, 0, a.Length - 1, cmp);
    assert a[..] == a[0..a.Length];
  }

  /** `quickSort(array, low, high)`: sorts `a[low..high + 1]` and leaves the
      rest of the array alone. A segment of fewer than two elements is
      already sorted. */
  method QuickSortRange<T(!new)>(a: array<T>, low: int, high: int, cmp: (T, T) -> int)
    requires IsComparator(cmp) && 0 <= low <= high + 1 <= a.Length
    modifies a
    ensures multiset(a[..]) == old(multiset(a[..]))
    ensures a[..low] == old(a[..low]) && a[high + 1..] == old(a[high + 1..])
    ensures Sorted(a[low..high + 1], cmp)
    decreases high - low
  {
    if low < high {
      var pivotIndex := Partition(a, low, high, cmp);
      ghost var s1 := a[..];
      QuickSortRange(a, low, pivotIndex - 1, cmp);
      ghost var s2 := a[..];
      QuickSortRange(a, pivotIndex + 1, high, cmp);
      QuickDone(old(a[..]), s1, s2, a[..], low, pivotIndex, high, cmp);
    }
  }

  /** After partitioning and sorting both sides, the segment is sorted and
      is a permutation of what it was. */
  lemma QuickDone<T(!new)>(s0: seq<T>, s1: seq<T>, s2: seq<T>, s3: seq<T>, low: int, p: int, high: int, cmp: (T, T) -> int)
    requires IsComparator(cmp) && PartitionedAt(s1, low, p, high, cmp)
    requires |s0| == |s1| && multiset(s1) == multiset(s0)
    requires s1[..low] == s0[..low] && s1[high + 1..] == s0[high + 1..]
    requires |s2| == |s1| && multiset(s2) == multiset(s1)
    requires s2[..low] == s1[..low] && s2[p..] == s1[p..] && Sorted(s2[low..p], cmp)
    requires |s3| == |s2| && multiset(s3) == multiset(s2)
    requires s3[..p + 1] == s2[..p + 1] && s3[high + 1..] == s2[high + 1..] && Sorted(s3[p + 1..high + 1], cmp)
    ensures multiset(s3) == multiset(s0)
    ensures s3[..low] == s0[..low] && s3[high + 1..] == s0[high + 1..]
    ensures Sorted(s3[low..high + 1], cmp)
  {
    SideBelow(s1, s2, s3, low, p, high, cmp);
    SideAbove(s1, s2, s3, low, p, high, cmp);
    assert s3[..low] == s2[..low] by {
      assert s3[..low] == s3[..p + 1][..low];
      assert s2[..low] == s2[..p + 1][..low];
    }
    assert s3[high + 1..] == s1[high + 1..] by {
      assert s2[high + 1..] == s2[p..][high + 1 - p..];
      assert s1[high + 1..] == s1[p..][high + 1 - p..];
    }
    assert s3[low..p] == s2[low..p] by {
      assert s3[low..p] == s3[..p + 1][low..p];
      assert s2[low..p] == s2[..p + 1][low..p];
    }
    PivotSorted(s3, low, p, high, cmp);
  }

  /** The left side, permuted by its sort, still lies at or below the
      pivot, which the sort of the right side leaves in place. */
  lemma SideBelow<T>(s1: seq<T>, s2: seq<T>, s3: seq<T>, low: int, p: int, high: int, cmp: (T, T) -> int)
    requires PartitionedAt(s1, low, p, high, cmp)
    requires |s2| == |s1| && multiset(s2) == multiset(s1) && s2[..low] == s1[..low] && s2[p..] == s1[p..]
    requires |s3| == |s2| && s3[..p + 1] == s2[..p + 1]
    ensures s3[p] == s1[p]
    ensures forall k :: low <= k < p ==> cmp(s3[k], s3[p]) <= 0
  {
    assert s3[p] == s3[..p + 1][p] == s2[..p + 1][p] == s2[p..][0] == s1[p..][0];
    SegmentPermuted(s1, s2, low, p);
    var v := s1[low..p];
    forall k | 0 <= k < |v| ensures cmp(v[k], s1[p]) <= 0 {
      assert v[k] == s1[low + k];
    }
    PermutedBelow(v, s2[low..p], s1[p], cmp);
    forall k | low <= k < p ensures cmp(s3[k], s3[p]) <= 0 {
      assert s3[k] == s3[..p + 1][k] == s2[..p + 1][k] == s2[low..p][k - low];
    }
  }

  /** The right side, permuted by its sort, still lies strictly above the
      pivot. */
  lemma SideAbove<T>(s1: seq<T>, s2: seq<T>, s3: seq<T>, low: int, p: int, high: int, cmp: (T, T) -> int)
    requires PartitionedAt(s1, low, p, high, cmp)
    requires |s2| == |s1| && s2[p..] == s1[p..]
    requires |s3| == |s2| && multiset(s3) == multiset(s2) && s3[..p + 1] == s2[..p + 1] && s3[high + 1..] == s2[high + 1..]
    ensures forall k :: p < k <= high ==> cmp(s3[k], s1[p]) > 0
  {
    SegmentPermuted(s2, s3, p + 1, high + 1);
    var v := s2[p + 1..high + 1];
    forall k | 0 <= k < |v| ensures cmp(v[k], s1[p]) > 0 {
      assert v[k] == s2[p..][k + 1] == s1[p..][k + 1] == s1[p + 1 + k];
    }
    PermutedAbove(v, s3[p + 1..high + 1], s1[p], cmp);
    forall k | p < k <= high ensures cmp(s3[k], s1[p]) > 0 {
      assert s3[k] == s3[p + 1..high + 1][k - p - 1];
    }
  }

  /** A sorted run at or below a pivot, the pivot, and a sorted run above
      it make a sorted segment. */
  lemma PivotSorted<T(!new)>(s: seq<T>, low: int, p: int, high: int, cmp: (T, T) -> int)
    requires IsComparator(cmp) && 0 <= low <= p <= high < |s|
    requires Sorted(s[low..p], cmp) && Sorted(s[p + 1..high + 1], cmp)
    requires forall k :: low <= k < p ==> cmp(s[k], s[p]) <= 0
    requires forall k :: p < k <= high ==> cmp(s[k], s[p]) > 0
    ensures Sorted(s[low..high + 1], cmp)
  {
    var u := s[low..high + 1];
    forall i, j | 0 <= i < j < |u| ensures cmp(u[i], u[j]) <= 0 {
      var x, y := low + i, low + j;
      assert u[i] == s[x] && u[j] == s[y];
      if y < p {
        assert cmp(s[low..p][i], s[low..p][j]) <= 0;
      } else if p < x {
        assert cmp(s[p + 1..high + 1][x - p - 1], s[p + 1..high + 1][y - p - 1]) <= 0;
      } else if y == p {
        assert cmp(s[x], s[p]) <= 0;
      } else {
        assert cmp(s[y], s[p]) > 0 && cmp(s[p], s[y]) <= 0;
        if x < p {
          assert cmp(s[x], s[p]) <= 0;
        }
      }
    }
  }

  /** `partition`: Lomuto's scheme with the last slot as pivot. Returns the
      pivot's final place, with everything before it in the segment at or
      below the pivot and everything after it strictly above. */
  method Partition<T>(a: array<T>, low: int, high: int, cmp: (T, T) -> int) returns (p: int)
    requires 0 <= low <= high < a.Length
    modifies a
    ensures low <= p <= high && a[p] == old(a[high])
    ensures PartitionedAt(a[..], low, p, high, cmp)
    ensures multiset(a[..]) == old(multiset(a[..]))
    ensures a[..low] == old(a[..low]) && a[high + 1..] == old(a[high + 1..])
  {
    var pivot := a[high];
    var i := low - 1;
    ghost var s0 := a[..];
    for j := low to high
      invariant PartInv(a[..], s0, low, high, i, j, pivot, cmp)
    {
      i := PartitionVisit(a, low, high, i, j, pivot, s0, cmp);
    }
    ghost var s := a[..];
    Swap(a, i + 1, high);
    PartDone(s, a[..], s0, low, high, i, pivot, cmp);
    p := i + 1;
  }

  /** One round of the loop of `partition`: an element at slot `j` that is
      at or below the pivot is exchanged into slot `i + 1`. */
  method PartitionVisit<T>(a: array<T>, low: int, high: int, i: int, j: int, pivot: T, ghost s0: seq<T>, cmp: (T, T) -> int)
      returns (i': int)
    requires PartInv(a[..], s0, low, high, i, j, pivot, cmp) && j < high && a.Length == |s0|
    modifies a
    ensures i' == if cmp(old(a[j]), pivot) <= 0 then i + 1 else i
    ensures PartInv(a[..], s0, low, high, i', j + 1, pivot, cmp)
  {
    ghost var s := a[..];
    var x := a[j];
    if cmp(x, pivot) <= 0 {
      i' := i + 1;
      Swap(a, i', j);
      PartStepSwap(s, a[..], s0, low, high, i, j, pivot, cmp);
    } else {
      i' := i;
      PartStepKeep(s, s0, low, high, i, j, pivot, cmp);
    }
  }

  /** What `partition` keeps true before looking at slot `j`: `s[low..i + 1]`
      lies at or below the pivot, `s[i + 1..j]` strictly above it, and the
      pivot slot and everything outside the segment are untouched. */
  ghost predicate PartInv<T>(s: seq<T>, s0: seq<T>, low: int, high: int, i: int, j: int, pivot: T, cmp: (T, T) -> int)
  {
    && |s| == |s0| && 0 <= low <= j <= high < |s| && low - 1 <= i < j
    && multiset(s) == multiset(s0)
    && s[..low] == s0[..low] && s[high..] == s0[high..] && s0[high] == pivot
    && (forall k :: low <= k <= i ==> cmp(s[k], pivot) <= 0)
    && (forall k :: i < k < j ==> cmp(s[k], pivot) > 0)
  }

  /** Moving an element at or below the pivot into slot `i + 1` keeps
      `PartInv`. */
  lemma PartStepSwap<T>(s: seq<T>, t: seq<T>, s0: seq<T>, low: int, high: int, i: int, j: int, pivot: T, cmp: (T, T) -> int)
    requires PartInv(s, s0, low, high, i, j, pivot, cmp) && j < high && cmp(s[j], pivot) <= 0
    requires t == Exchanged(s, i + 1, j)
    ensures PartInv(t, s0, low, high, i + 1, j + 1, pivot, cmp)
  {
    ExchangedSlots(s, i + 1, j);
    assert t[..low] == s[..low];
    assert t[high..] == s[high..];
    forall k | low <= k <= i + 1 ensures cmp(t[k], pivot) <= 0 {
      if k <= i {
        assert t[k] == s[k];
      }
    }
    forall k | i + 1 < k < j + 1 ensures cmp(t[k], pivot) > 0 {
      if k < j {
        assert t[k] == s[k];
      } else {
        assert t[k] == s[i + 1];
      }
    }
  }

  /** Passing over an element above the pivot keeps `PartInv`. */
  lemma PartStepKeep<T>(s: seq<T>, s0: seq<T>, low: int, high: int, i: int, j: int, pivot: T, cmp: (T, T) -> int)
    requires PartInv(s, s0, low, high, i, j, pivot, cmp) && j < high && cmp(s[j], pivot) > 0
    ensures PartInv(s, s0, low, high, i, j + 1, pivot, cmp)
  {
  }

  /** The final exchange puts the pivot between the two sides. */
  lemma PartDone<T>(s: seq<T>, t: seq<T>, s0: seq<T>, low: int, high: int, i: int, pivot: T, cmp: (T, T) -> int)
    requires PartInv(s, s0, low, high, i, high, pivot, cmp) && t == Exchanged(s, i + 1, high)
    ensures low <= i + 1 <= high && t[i + 1] == s0[high]
    ensures PartitionedAt(t, low, i + 1, high, cmp)
    ensures multiset(t) == multiset(s0)
    ensures t[..low] == s0[..low] && t[high + 1..] == s0[high + 1..]
  {
    ExchangedSlots(s, i + 1, high);
    assert s[high] == s[high..][0] == s0[high..][0];
    assert t[..low] == s[..low];
    assert t[high + 1..] == s[high + 1..] == s[high..][1..] == s0[high..][1..];
    forall k | i + 1 < k <= high ensures cmp(t[k], t[i + 1]) > 0 {
      if k < high {
        assert t[k] == s[k];
      } else {
        assert t[k] == s[i + 1];
      }
    }
  }

  /** Quicksort in natural order. */
  method QuickSortNatural(a: array<int>)
    modifies a
    ensures forall i, j :: 0 <= i < j < a.Length ==> a[i] <= a[j]
    ensures multiset(a[..]) == old(multiset(a[..]))
  {
    IntCompareIsComparator();
    QuickSort(a, IntCompare);
    SortedIntAscending(a[..]);
  }

  // ------------------------------------------------------------------ heap

  /** Node `k` of the heap `s[..n]` is no smaller than those of its
      children `2k + 1` and `2k + 2` that lie inside the heap. */
  ghost predicate HeapAt<T>(s: seq<T>, n: int, k: int, cmp: (T, T) -> int)
  {
    && 0 <= k < n <= |s|
    && (2 * k + 1 < n ==> cmp(s[2 * k + 1], s[k]) <= 0)
    && (2 * k + 2 < n ==> cmp(s[2 * k + 2], s[k]) <= 0)
  }

  /** Every node of `s[..n]` from `start` on obeys the heap order. */
  ghost predicate HeapFrom<T>(s: seq<T>, n: int, start: int, cmp: (T, T) -> int)
  {
    forall k :: start <= k < n ==> HeapAt(s, n, k, cmp)
  }

  /** What `heapify` at node `i` needs: every node from `start` on except
      `i` obeys the heap order, and if the parent of `i` is one of those
      nodes, it is no smaller than the children of `i`. */
  ghost predicate SiftReady<T>(s: seq<T>, n: int, i: int, start: int, cmp: (T, T) -> int)
  {
    && 0 <= start <= i < n <= |s|
    && (forall k :: start <= k < n && k != i ==> HeapAt(s, n, k, cmp))
    && (0 < i && start <= (i - 1) / 2 ==>
          (2 * i + 1 < n ==> cmp(s[2 * i + 1], s[(i - 1) / 2]) <= 0)
          && (2 * i + 2 < n ==> cmp(s[2 * i + 2], s[(i - 1) / 2]) <= 0))
  }

  /** `heapSort`: builds a max heap bottom-up, then repeatedly moves the root
      behind the shrinking heap and sifts the new root down. */
  method HeapSort<T(!new)>(a: array<T>, cmp: (T, T) -> int)
    requires IsComparator(cmp)
    modifies a
    ensures Sorted(a[..], cmp)
    ensures multiset(a[..]) == old(multiset(a[..]))
  {
    var n := a.Length;
    BuildHeap(a, cmp);
    var i := n - 1;
    while i > 0
      invariant -1 <= i < n && (n > 0 ==> 0 <= i)
      invariant multiset(a[..]) == old(multiset(a[..]))
      invariant HeapFrom(a[..], i + 1, 0, cmp)
      invariant Sorted(a[i + 1..], cmp) && SplitAt(a[..], i + 1, cmp)
    {
      ghost var s := a[..];
      Swap(a, 0, i);
      ghost var t := a[..];
      ExtractStep(s, t, i, cmp);
      Heapify(a, i, 0, 0, cmp);
      ExtractDone(t, a[..], i, cmp);
      i := i - 1;
    }
    if n > 0 {
      assert Sorted(a[..1], cmp);
      SortedConcat(a[..], 1, cmp);
    }
  }

  /** The first loop of `heapSort`: sifts down every inner node, the last
      one first, so that the whole array becomes a max heap. */
  method BuildHeap<T(!new)>(a: array<T>, cmp: (T, T) -> int)
    requires IsComparator(cmp)
    modifies a
    ensures HeapFrom(a[..], a.Length, 0, cmp)
    ensures multiset(a[..]) == old(multiset(a[..]))
  {
    var n := a.Length;
    var i := n / 2 - 1;
    LeavesAreHeaps(a[..], n, cmp);
    while i >= 0
      invariant -1 <= i < n
      invariant HeapFrom(a[..], n, i + 1, cmp)
      invariant multiset(a[..]) == old(multiset(a[..]))
    {
      Heapify(a, n, i, i, cmp);
      i := i - 1;
    }
  }

  /** The nodes of the second half have no children inside the heap. */
  lemma LeavesAreHeaps<T>(s: seq<T>, n: int, cmp: (T, T) -> int)
    requires 0 <= n <= |s|
    ensures HeapFrom(s, n, n / 2, cmp)
  {
  }

  /** `heapify`: sifts the element at node `i` down the heap `a[..n]`,
      exchanging it with its greater child, the left one on a tie, until it
      is no smaller than its children. */
  method Heapify<T(!new)>(a: array<T>, n: int, i: int, ghost start: int, cmp: (T, T) -> int)
    requires IsComparator(cmp) && n <= a.Length && SiftReady(a[..], n, i, start, cmp)
    modifies a
    ensures HeapFrom(a[..], n, start, cmp)
    ensures multiset(a[..]) == old(multiset(a[..]))
    ensures a[n..] == old(a[n..])
    decreases n - i
  {
    var largest := Largest(a, n, i, cmp);
    if largest != i {
      ghost var s := a[..];
      Swap(a, i, largest);
      SiftStep(s, a[..], n, i, largest, start, cmp);
      Heapify(a, n, largest, start, cmp);
    } else {
      SiftDone(a[..], n, i, start, cmp);
    }
  }

  /** The choice in `heapify` of the greatest of node `i` and its children:
      a child replaces the current choice only when it is strictly
      greater. */
  method Largest<T(!new)>(a: array<T>, n: int, i: int, cmp: (T, T) -> int) returns (largest: int)
    requires IsComparator(cmp) && 0 <= i < n <= a.Length
    ensures largest == i || (largest == 2 * i + 1 && largest < n) || (largest == 2 * i + 2 && largest < n)
    ensures cmp(a[i], a[largest]) <= 0
    ensures 2 * i + 1 < n ==> cmp(a[2 * i + 1], a[largest]) <= 0
    ensures 2 * i + 2 < n ==> cmp(a[2 * i + 2], a[largest]) <= 0
    ensures largest != i ==> cmp(a[largest], a[i]) > 0
  {
    largest := i;
    var left := 2 * i + 1;
    var right := 2 * i + 2;
    if left < n && cmp(a[left], a[largest]) > 0 {
      largest := left;
    }
    if right < n && cmp(a[right], a[largest]) > 0 {
      largest := right;
    }
  }

  /** Exchanging node `i` with its greatest child `c` fixes node `i` and
      leaves the sift to continue at `c`. */
  lemma SiftStep<T(!new)>(s: seq<T>, t: seq<T>, n: int, i: int, c: int, start: int, cmp: (T, T) -> int)
    requires IsComparator(cmp) && SiftReady(s, n, i, start, cmp)
    requires (c == 2 * i + 1 || c == 2 * i + 2) && c < n
    requires 2 * i + 1 < n ==> cmp(s[2 * i + 1], s[c]) <= 0
    requires 2 * i + 2 < n ==> cmp(s[2 * i + 2], s[c]) <= 0
    requires cmp(s[i], s[c]) <= 0
    requires t == Exchanged(s, i, c)
    ensures SiftReady(t, n, c, start, cmp)
    ensures multiset(t) == multiset(s) && t[n..] == s[n..]
  {
    ExchangedSlots(s, i, c);
    forall k | start <= k < n && k != c ensures HeapAt(t, n, k, cmp) {
      SiftNode(s, t, n, i, c, start, k, cmp);
    }
    assert (c - 1) / 2 == i;
    assert HeapAt(s, n, c, cmp);
  }

  /** One node after the exchange of `SiftStep`: node `i` now holds the
      greatest of the three, the parent of `i` still lies above it, and
      every other node other than `c` sees the same values as before. */
  lemma SiftNode<T>(s: seq<T>, t: seq<T>, n: int, i: int, c: int, start: int, k: int, cmp: (T, T) -> int)
    requires SiftReady(s, n, i, start, cmp)
    requires (c == 2 * i + 1 || c == 2 * i + 2) && c < n
    requires 2 * i + 1 < n ==> cmp(s[2 * i + 1], s[c]) <= 0
    requires 2 * i + 2 < n ==> cmp(s[2 * i + 2], s[c]) <= 0
    requires cmp(s[i], s[c]) <= 0
    requires t == Exchanged(s, i, c)
    requires start <= k < n && k != c
    ensures HeapAt(t, n, k, cmp)
  {
    ExchangedSlots(s, i, c);
    if k == i {
    } else if 0 < i && k == (i - 1) / 2 {
      assert HeapAt(s, n, k, cmp);
    } else {
      assert HeapAt(s, n, k, cmp);
      assert 2 * k + 1 != i && 2 * k + 2 != i;
    }
  }

  /** When node `i` is already no smaller than its children, the sift is
      over. */
  lemma SiftDone<T(!new)>(s: seq<T>, n: int, i: int, start: int, cmp: (T, T) -> int)
    requires SiftReady(s, n, i, start, cmp)
    requires 2 * i + 1 < n ==> cmp(s[2 * i + 1], s[i]) <= 0
    requires 2 * i + 2 < n ==> cmp(s[2 * i + 2], s[i]) <= 0
    ensures HeapFrom(s, n, start, cmp)
  {
    assert HeapAt(s, n, i, cmp);
  }

  /** In a heap every element is no greater than the root. */
  lemma {:induction false} BelowRoot<T(!new)>(s: seq<T>, n: int, k: int, cmp: (T, T) -> int)
    requires IsComparator(cmp) && HeapFrom(s, n, 0, cmp) && 0 <= k < n <= |s|
    ensures cmp(s[k], s[0]) <= 0
    decreases k
  {
    if k > 0 {
      var parent := (k - 1) / 2;
      BelowRoot(s, n, parent, cmp);
      assert HeapAt(s, n, parent, cmp);
      assert 2 * parent + 1 == k || 2 * parent + 2 == k;
    } else {
      assert !(cmp(s[0], s[0]) < 0);
    }
  }

  /** Moving the root of the heap `s[..i + 1]` to slot `i` grows the sorted
      suffix by one and leaves a heap whose only faulty node is the root. */
  lemma ExtractStep<T(!new)>(s: seq<T>, t: seq<T>, i: int, cmp: (T, T) -> int)
    requires IsComparator(cmp) && 0 < i < |s|
    requires HeapFrom(s, i + 1, 0, cmp) && Sorted(s[i + 1..], cmp) && SplitAt(s, i + 1, cmp)
    requires t == Exchanged(s, 0, i)
    ensures SiftReady(t, i, 0, 0, cmp)
    ensures Sorted(t[i..], cmp) && SplitAt(t, i, cmp)
    ensures multiset(t) == multiset(s)
  {
    ExchangedSlots(s, 0, i);
    forall k | 0 < k < i ensures HeapAt(t, i, k, cmp) {
      assert HeapAt(s, i + 1, k, cmp);
    }
    forall p, q | 0 <= p < i <= q < |t| ensures cmp(t[p], t[q]) <= 0 {
      var p' := if p == 0 then i else p;
      assert t[p] == s[p'];
      BelowRoot(s, i + 1, p', cmp);
      if q > i {
        assert cmp(s[p'], s[q]) <= 0;
      }
    }
    var u := t[i..];
    forall x, y | 0 <= x < y < |u| ensures cmp(u[x], u[y]) <= 0 {
      assert u[y] == s[i + y];
      if x == 0 {
        assert cmp(s[0], s[i + y]) <= 0;
      } else {
        assert u[x] == s[i + x];
        assert cmp(s[i + 1..][x - 1], s[i + 1..][y - 1]) <= 0;
      }
    }
  }

  /** Sifting down the root of `t[..i]` permutes only the heap, so the
      sorted suffix stays sorted and stays above it. */
  lemma ExtractDone<T>(t: seq<T>, w: seq<T>, i: int, cmp: (T, T) -> int)
    requires 0 <= i <= |t| == |w| && multiset(w) == multiset(t) && w[i..] == t[i..]
    requires Sorted(t[i..], cmp) && SplitAt(t, i, cmp)
    ensures Sorted(w[i..], cmp) && SplitAt(w, i, cmp)
  {
    SegmentPermuted(t, w, 0, i);
    assert t[..0] == w[..0];
    forall p, q | 0 <= p < i <= q < |w| ensures cmp(w[p], w[q]) <= 0 {
      assert w[p] == w[0..i][p];
      assert w[p] in multiset(t[0..i]);
      var p' :| 0 <= p' < i && t[0..i][p'] == w[p];
      assert w[q] == w[i..][q - i] == t[i..][q - i] == t[q];
      assert cmp(t[p'], t[q]) <= 0;
    }
  }

  /** Heap sort in natural order. */
  method HeapSortNatural(a: array<int>)
    modifies a
    ensures forall i, j :: 0 <= i < j < a.Length ==> a[i] <= a[j]
    ensures multiset(a[..]) == old(multiset(a[..]))
  {
    IntCompareIsComparator();
    HeapSort(a, IntCompare);
    SortedIntAscending(a[..]);
  }
}

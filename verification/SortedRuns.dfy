/**
 The algorithms of the C++ standard library that flat_tree relies on, as functions on
 sequences, with what each does to the entries of every key.
 */
module SortedRuns {
  import opened Common
  import opened Ordering

  datatype Dupes = KeepFirstOfDupes | KeepLastOfDupes

  /** A sorted sequence that ends below x holds nothing for keys equivalent to x. */
  lemma ClassBelow<K(!new), V>(less: (K, K) -> bool, s: seq<Entry<K, V>>, x: K, k: K)
    requires StrictWeakOrder(less) && Sorted(less, s) && Equivalent(less, x, k)
    requires s != [] ==> less(s[|s| - 1].key, x)
    ensures Class(less, s, k) == []
  {
    forall i | 0 <= i < |s|
      ensures !Equivalent(less, s[i].key, k)
    {
      var last := s[|s| - 1].key;
      assert less(last, s[i].key) || less(s[i].key, x);
      assert less(s[i].key, k) || less(k, x);
    }
    NoClass(less, s, k);
  }

  lemma ClassOfEmpty<K, V>(less: (K, K) -> bool, s: seq<Entry<K, V>>, k: K)
    requires s == []
    ensures Class(less, s, k) == []
  {
  }

  // ----- std::lower_bound -----

  function LowerBound<K, V>(less: (K, K) -> bool, s: seq<Entry<K, V>>, k: K): (i: nat)
    ensures i <= |s|
    ensures forall j :: 0 <= j < i ==> less(s[j].key, k)
    ensures i < |s| ==> !less(s[i].key, k)
  {
    if s != [] && less(s[0].key, k) then 1 + LowerBound(less, s[1..], k) else 0
  }

  // ----- std::stable_sort -----

  /** Inserts e behind every entry that is not greater. */
  function InsertSorted<K, V>(less: (K, K) -> bool, s: seq<Entry<K, V>>, e: Entry<K, V>): (t: seq<Entry<K, V>>)
    ensures multiset(t) == multiset(s) + multiset{e}
  {
    if s == [] || !less(e.key, s[|s| - 1].key) then s + [e]
    else
      assert s == s[..|s| - 1] + [s[|s| - 1]];
      InsertSorted(less, s[..|s| - 1], e) + [s[|s| - 1]]
  }

  function StableSort<K, V>(less: (K, K) -> bool, s: seq<Entry<K, V>>): (t: seq<Entry<K, V>>)
    ensures multiset(t) == multiset(s)
  {
    if s == [] then []
    else
      assert s == s[..|s| - 1] + [s[|s| - 1]];
      InsertSorted(less, StableSort(less, s[..|s| - 1]), s[|s| - 1])
  }

  lemma {:induction false} InsertSortedSorts<K(!new), V>(less: (K, K) -> bool, s: seq<Entry<K, V>>, e: Entry<K, V>)
    requires StrictWeakOrder(less) && Sorted(less, s)
    ensures Sorted(less, InsertSorted(less, s, e))
    decreases |s|
  {
    hide StrictWeakOrder;
    if s == [] || !less(e.key, s[|s| - 1].key) {
      NoneAbove(less, s, e.key);
    } else {
      var init, last := s[..|s| - 1], s[|s| - 1];
      NotGreater(less, e.key, last.key);
      InsertSortedSorts(less, init, e);
      SortedExtend(less, InsertSorted(less, init, e), init + [e], last);
    }
  }

  /** A rearrangement of entries that are not greater than last stays sorted in front of it. */
  lemma SortedExtend<K, V>(less: (K, K) -> bool, t: seq<Entry<K, V>>, s: seq<Entry<K, V>>, last: Entry<K, V>)
    requires Sorted(less, t)
    requires forall x :: x in multiset(t) ==> x in multiset(s)
    requires forall i :: 0 <= i < |s| ==> !less(last.key, s[i].key)
    ensures Sorted(less, t + [last])
  {
    forall i | 0 <= i < |t|
      ensures !less(last.key, t[i].key)
    {
      assert t[i] in multiset(t);
      assert t[i] in s;
    }
  }

  lemma {:induction false} InsertSortedClass<K(!new), V>(
    less: (K, K) -> bool, s: seq<Entry<K, V>>, e: Entry<K, V>, k: K)
    requires StrictWeakOrder(less) && Sorted(less, s)
    ensures Class(less, InsertSorted(less, s, e), k) ==
            if Equivalent(less, e.key, k) then Class(less, s, k) + [e] else Class(less, s, k)
    decreases |s|
  {
    hide StrictWeakOrder;
    if s == [] || !less(e.key, s[|s| - 1].key) {
      ClassAppend(less, s, e, k);
    } else {
      var init, last := s[..|s| - 1], s[|s| - 1];
      assert less(e.key, k) || less(k, last.key) by { LessSplits(less, e.key, k, last.key); }
      InsertSortedClass(less, init, e, k);
      ClassAppend(less, InsertSorted(less, init, e), last, k);
    }
  }

  /** The result is sorted and keeps the entries of every key in their order: a stable sort. */
  lemma {:induction false} StableSortIsStable<K(!new), V>(less: (K, K) -> bool, s: seq<Entry<K, V>>)
    requires StrictWeakOrder(less)
    ensures Sorted(less, StableSort(less, s))
    ensures forall k :: Class(less, StableSort(less, s), k) == Class(less, s, k)
    decreases |s|
  {
    if s == [] {
    } else {
      var init, last := s[..|s| - 1], s[|s| - 1];
      StableSortIsStable(less, init);
      InsertSortedSorts(less, StableSort(less, init), last);
      forall k
        ensures Class(less, StableSort(less, s), k) == Class(less, s, k)
      {
        InsertSortedClass(less, StableSort(less, init), last, k);
      }
    }
  }

  /** Sorted with at most one entry for every key is strictly sorted. */
  lemma StrictBySingleClasses<K(!new), V>(less: (K, K) -> bool, s: seq<Entry<K, V>>)
    requires StrictWeakOrder(less) && Sorted(less, s)
    requires forall k :: |Class(less, s, k)| <= 1
    ensures StrictlySorted(less, s)
  {
    forall i, j | 0 <= i < j < |s|
      ensures less(s[i].key, s[j].key)
    {
      if !less(s[i].key, s[j].key) {
        var k := s[i].key;
        assert s == s[..j] + s[j..];
        ClassConcat(less, s[..j], s[j..], k);
        ClassMember(less, s[..j], k, s[i]);
        ClassMember(less, s[j..], k, s[j]);
      }
    }
  }

  lemma StrictIsSorted<K(!new), V>(less: (K, K) -> bool, s: seq<Entry<K, V>>)
    requires StrictWeakOrder(less) && StrictlySorted(less, s)
    ensures Sorted(less, s)
    ensures forall k :: |Class(less, s, k)| <= 1
  {
    forall k
      ensures |Class(less, s, k)| <= 1
    {
      if Class(less, s, k) != [] {
        var e := Class(less, s, k)[0];
        ClassMember(less, s, k, e);
        var i :| 0 <= i < |s| && s[i] == e;
        StrictClass(less, s, i, k);
      }
    }
  }

  // ----- std::unique and LastUnique -----

  /** The comparator of sort_and_unique: in a sorted range, not less means equivalent. */
  function SameKey<K, V>(less: (K, K) -> bool): (Entry<K, V>, Entry<K, V>) -> bool
  {
    (a: Entry<K, V>, b: Entry<K, V>) => !less(a.key, b.key)
  }

  /** The first element of every run of consecutive elements that are the same. */
  function FirstOfRuns<T>(same: (T, T) -> bool, s: seq<T>): seq<T>
  {
    if |s| <= 1 then s
    else
      var before := FirstOfRuns(same, s[..|s| - 1]);
      if same(s[|s| - 2], s[|s| - 1]) then before else before + [s[|s| - 1]]
  }

  /** The elements before index i that are not the same as their successor. */
  function RunEnds<T>(same: (T, T) -> bool, s: seq<T>, i: nat): (r: seq<T>)
    requires i < |s|
    ensures |r| <= i
  {
    if i == 0 then []
    else
      var before := RunEnds(same, s, i - 1);
      if same(s[i - 1], s[i]) then before else before + [s[i - 1]]
  }

  /** The last element of every run of consecutive elements that are the same. */
  function LastOfRuns<T>(same: (T, T) -> bool, s: seq<T>): (r: seq<T>)
    ensures |r| <= |s|
  {
    if s == [] then [] else RunEnds(same, s, |s| - 1) + [s[|s| - 1]]
  }

  /** What is left of the entries of one key when duplicates are dropped. */
  function Surviving<T>(c: seq<T>, dupes: Dupes): (r: seq<T>)
    ensures |r| <= 1
  {
    if c == [] then []
    else if dupes == KeepFirstOfDupes then [c[0]] else [c[|c| - 1]]
  }

  function DropDupes<K, V>(less: (K, K) -> bool, s: seq<Entry<K, V>>, dupes: Dupes): seq<Entry<K, V>>
  {
    match dupes
    case KeepFirstOfDupes => FirstOfRuns(SameKey(less), s)
    case KeepLastOfDupes => LastOfRuns(SameKey(less), s)
  }

  /** What stands behind the first i + 1 elements does not matter for them. */
  lemma {:induction false} RunEndsLocal<T>(same: (T, T) -> bool, a: seq<T>, b: seq<T>, i: nat)
    requires i < |a|
    ensures RunEnds(same, a + b, i) == RunEnds(same, a, i)
    decreases i
  {
    if i > 0 {
      RunEndsLocal(same, a, b, i - 1);
    }
  }

  /**
   For any relation: one more element takes the place of the last one kept if it goes on with
   its run, or joins behind.
   */
  lemma LastOfRunsAppend<T>(same: (T, T) -> bool, s: seq<T>, x: T)
    requires s != []
    ensures var kept := LastOfRuns(same, s);
            && kept != [] && kept[|kept| - 1] == s[|s| - 1]
            && LastOfRuns(same, s + [x]) == (if same(s[|s| - 1], x) then kept[..|kept| - 1] else kept) + [x]
  {
    RunEndsLocal(same, s, [x], |s| - 1);
  }

  lemma {:induction false} FirstOfRunsWithin<T>(same: (T, T) -> bool, s: seq<T>, x: T)
    requires x in FirstOfRuns(same, s)
    ensures x in s
    decreases |s|
  {
    if |s| > 1 && x in FirstOfRuns(same, s[..|s| - 1]) {
      FirstOfRunsWithin(same, s[..|s| - 1], x);
    }
  }

  lemma {:induction false} RunEndsWithin<T>(same: (T, T) -> bool, s: seq<T>, i: nat, x: T)
    requires i < |s| && x in RunEnds(same, s, i)
    ensures x in s[..i]
    decreases i
  {
    if x in RunEnds(same, s, i - 1) {
      RunEndsWithin(same, s, i - 1, x);
    } else {
      assert s[..i][i - 1] == s[i - 1];
    }
  }

  lemma {:induction false} FirstOfRunsSorted<K(!new), V>(less: (K, K) -> bool, s: seq<Entry<K, V>>)
    requires StrictWeakOrder(less) && Sorted(less, s)
    ensures Sorted(less, FirstOfRuns(SameKey(less), s))
    decreases |s|
  {
    if |s| > 1 {
      var init, last := s[..|s| - 1], s[|s| - 1];
      var kept := FirstOfRuns(SameKey(less), init);
      FirstOfRunsSorted(less, init);
      forall x | x in kept
        ensures !less(last.key, x.key)
      {
        FirstOfRunsWithin(SameKey(less), init, x);
      }
    }
  }

  lemma {:induction false} FirstOfRunsClass<K(!new), V>(less: (K, K) -> bool, s: seq<Entry<K, V>>, k: K)
    requires StrictWeakOrder(less) && Sorted(less, s)
    ensures Class(less, FirstOfRuns(SameKey(less), s), k) == Surviving(Class(less, s, k), KeepFirstOfDupes)
    decreases |s|
  {
    hide StrictWeakOrder;
    if |s| > 1 {
      var init, last := s[..|s| - 1], s[|s| - 1];
      var prev := init[|init| - 1];
      FirstOfRunsClass(less, init, k);
      ClassAppend(less, FirstOfRuns(SameKey(less), init), last, k);
      if Equivalent(less, last.key, k) {
        if less(prev.key, last.key) {
          ClassBelow(less, init, last.key, k);
        } else {
          EquivalentToSame(less, last.key, prev.key, k);
          ClassOfEquivalent(less, init, k, prev.key);
          LastOfClass(less, init);
        }
      }
    }
  }

  lemma {:induction false} RunEndsClass<K(!new), V>(less: (K, K) -> bool, s: seq<Entry<K, V>>, i: nat, k: K)
    requires StrictWeakOrder(less) && Sorted(less, s) && i < |s|
    ensures Class(less, RunEnds(SameKey(less), s, i), k) ==
            if Equivalent(less, s[i].key, k) then [] else Surviving(Class(less, s[..i], k), KeepLastOfDupes)
    decreases i
  {
    hide StrictWeakOrder, Class;
    if i == 0 {
      ClassOfEmpty(less, s[..0], k);
      ClassOfEmpty(less, RunEnds(SameKey(less), s, 0), k);
    } else {
      RunEndsClass(less, s, i - 1, k);
      ClassAppend(less, RunEnds(SameKey(less), s, i - 1), s[i - 1], k);
      assert s[..i] == s[..i - 1] + [s[i - 1]];
      ClassAppend(less, s[..i - 1], s[i - 1], k);
      if !less(s[i - 1].key, s[i].key) {
        EquivalentToSame(less, s[i - 1].key, s[i].key, k);
      } else if Equivalent(less, s[i].key, k) {
        ClassBelow(less, s[..i], s[i].key, k);
      }
    }
  }

  lemma {:induction false} RunEndsSorted<K(!new), V>(less: (K, K) -> bool, s: seq<Entry<K, V>>, i: nat)
    requires StrictWeakOrder(less) && Sorted(less, s) && i < |s|
    ensures Sorted(less, RunEnds(SameKey(less), s, i) + [s[i]])
    decreases i
  {
    if i > 0 {
      RunEndsSorted(less, s, i - 1);
      var ends := RunEnds(SameKey(less), s, i);
      assert ends == RunEnds(SameKey(less), s, i - 1) ||
             ends == RunEnds(SameKey(less), s, i - 1) + [s[i - 1]];
      assert Sorted(less, ends) by {
        var t := RunEnds(SameKey(less), s, i - 1) + [s[i - 1]];
        assert forall j :: 0 <= j < |ends| ==> ends[j] == t[j];
      }
      forall j | 0 <= j < |ends|
        ensures !less(s[i].key, ends[j].key)
      {
        RunEndsWithin(SameKey(less), s, i, ends[j]);
      }
    }
  }

  lemma LastOfRunsSorted<K(!new), V>(less: (K, K) -> bool, s: seq<Entry<K, V>>)
    requires StrictWeakOrder(less) && Sorted(less, s)
    ensures Sorted(less, LastOfRuns(SameKey(less), s))
  {
    if s == [] {
    } else {
      RunEndsSorted(less, s, |s| - 1);
    }
  }

  lemma LastOfRunsClass<K(!new), V>(less: (K, K) -> bool, s: seq<Entry<K, V>>, k: K)
    requires StrictWeakOrder(less) && Sorted(less, s)
    ensures Class(less, LastOfRuns(SameKey(less), s), k) == Surviving(Class(less, s, k), KeepLastOfDupes)
  {
    if s == [] {
    } else {
      var n := |s| - 1;
      RunEndsClass(less, s, n, k);
      ClassAppend(less, RunEnds(SameKey(less), s, n), s[n], k);
    }
  }

  /** Sorting and dropping duplicates is strictly sorted and keeps one entry of every key: the first or the last. */
  lemma SortAndUniqueKeeps<K(!new), V>(less: (K, K) -> bool, s: seq<Entry<K, V>>, dupes: Dupes)
    requires StrictWeakOrder(less)
    ensures StrictlySorted(less, DropDupes(less, StableSort(less, s), dupes))
    ensures forall k :: Class(less, DropDupes(less, StableSort(less, s), dupes), k) ==
                        Surviving(Class(less, s, k), dupes)
  {
    StableSortIsStable(less, s);
    var sorted := StableSort(less, s);
    match dupes {
      case KeepFirstOfDupes => FirstOfRunsSorted(less, sorted);
      case KeepLastOfDupes => LastOfRunsSorted(less, sorted);
    }
    forall k
      ensures Class(less, DropDupes(less, sorted, dupes), k) == Surviving(Class(less, s, k), dupes)
    {
      match dupes {
        case KeepFirstOfDupes => FirstOfRunsClass(less, sorted, k);
        case KeepLastOfDupes => LastOfRunsClass(less, sorted, k);
      }
      assert Class(less, sorted, k) == Class(less, s, k);
    }
    StrictBySingleClasses(less, DropDupes(less, sorted, dupes));
  }

  // ----- std::inplace_merge -----

  /** A stable merge: of equivalent entries, those of a come first. */
  function Merge<K, V>(less: (K, K) -> bool, a: seq<Entry<K, V>>, b: seq<Entry<K, V>>): (t: seq<Entry<K, V>>)
    ensures multiset(t) == multiset(a) + multiset(b)
    decreases |a| + |b|
  {
    if a == [] then b
    else if b == [] then a
    else
      var x, y := a[|a| - 1], b[|b| - 1];
      assert a == a[..|a| - 1] + [x] && b == b[..|b| - 1] + [y];
      if less(y.key, x.key) then Merge(less, a[..|a| - 1], b) + [x] else Merge(less, a, b[..|b| - 1]) + [y]
  }

  lemma NoneAbove<K(!new), V>(less: (K, K) -> bool, s: seq<Entry<K, V>>, x: K)
    requires StrictWeakOrder(less) && Sorted(less, s)
    requires s != [] ==> !less(x, s[|s| - 1].key)
    ensures forall i :: 0 <= i < |s| ==> !less(x, s[i].key)
  {
    hide StrictWeakOrder;
    forall i | 0 <= i < |s| - 1
      ensures !less(x, s[i].key)
    {
      NotGreaterTrans(less, s[i].key, s[|s| - 1].key, x);
    }
  }

  lemma {:induction false} MergeSorts<K(!new), V>(less: (K, K) -> bool, a: seq<Entry<K, V>>, b: seq<Entry<K, V>>)
    requires StrictWeakOrder(less) && Sorted(less, a) && Sorted(less, b)
    ensures Sorted(less, Merge(less, a, b))
    decreases |a| + |b|
  {
    hide StrictWeakOrder;
    if a != [] && b != [] {
      var x, y := a[|a| - 1], b[|b| - 1];
      if less(y.key, x.key) {
        NotGreater(less, y.key, x.key);
        MergeSorts(less, a[..|a| - 1], b);
        NoneAbove(less, b, x.key);
        SortedExtend(less, Merge(less, a[..|a| - 1], b), a[..|a| - 1] + b, x);
      } else {
        MergeSorts(less, a, b[..|b| - 1]);
        NoneAbove(less, a, y.key);
        SortedExtend(less, Merge(less, a, b[..|b| - 1]), a + b[..|b| - 1], y);
      }
    }
  }

  lemma {:induction false} MergeClass<K(!new), V>(less: (K, K) -> bool, a: seq<Entry<K, V>>, b: seq<Entry<K, V>>, k: K)
    requires StrictWeakOrder(less) && Sorted(less, a) && Sorted(less, b)
    ensures Class(less, Merge(less, a, b), k) == Class(less, a, k) + Class(less, b, k)
    decreases |a| + |b|
  {
    hide StrictWeakOrder;
    if a != [] && b != [] {
      var x, y := a[|a| - 1], b[|b| - 1];
      var a', b' := a[..|a| - 1], b[..|b| - 1];
      if less(y.key, x.key) {
        MergeClass(less, a', b, k);
        ClassAppend(less, Merge(less, a', b), x, k);
        if Equivalent(less, x.key, k) {
          ClassBelow(less, b, x.key, k);
        }
      } else {
        MergeClass(less, a, b', k);
        ClassAppend(less, Merge(less, a, b'), y, k);
        Associative(Class(less, a, k), Class(less, b', k), [y]);
      }
    }
  }

  lemma Associative<T>(a: seq<T>, b: seq<T>, c: seq<T>)
    ensures a + (b + c) == a + b + c
  {
  }
}

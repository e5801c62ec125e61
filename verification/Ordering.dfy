/** Strict weak orders on keys, and keyed entries ordered by them. */
module Ordering {
  import opened Common

  predicate Equivalent<K>(less: (K, K) -> bool, a: K, b: K)
  {
    !less(a, b) && !less(b, a)
  }

  ghost predicate StrictWeakOrder<K(!new)>(less: (K, K) -> bool)
  {
    && (forall a :: !less(a, a))
    && (forall a, b, c :: less(a, b) && less(b, c) ==> less(a, c))
    && (forall a, b, c :: less(a, c) ==> less(a, b) || less(b, c))
  }

  lemma NotGreater<K(!new)>(less: (K, K) -> bool, a: K, b: K)
    requires StrictWeakOrder(less) && less(a, b)
    ensures !less(b, a)
  {
  }

  lemma LessTrans<K(!new)>(less: (K, K) -> bool, a: K, b: K, c: K)
    requires StrictWeakOrder(less) && less(a, b) && less(b, c)
    ensures less(a, c)
  {
  }

  lemma NotGreaterTrans<K(!new)>(less: (K, K) -> bool, a: K, b: K, c: K)
    requires StrictWeakOrder(less) && !less(b, a) && !less(c, b)
    ensures !less(c, a)
  {
  }

  lemma LessSplits<K(!new)>(less: (K, K) -> bool, a: K, b: K, c: K)
    requires StrictWeakOrder(less) && less(a, c)
    ensures less(a, b) || less(b, c)
  {
  }

  lemma LessNotEquivalent<K(!new)>(less: (K, K) -> bool, a: K, b: K, k: K)
    requires StrictWeakOrder(less) && less(a, b)
    ensures !(Equivalent(less, a, k) && Equivalent(less, b, k))
  {
  }

  lemma EquivalentToSame<K(!new)>(less: (K, K) -> bool, a: K, b: K, k: K)
    requires StrictWeakOrder(less) && Equivalent(less, a, b)
    ensures Equivalent(less, a, k) <==> Equivalent(less, b, k)
  {
  }

  ghost predicate StrictlySorted<K, V>(less: (K, K) -> bool, s: seq<Entry<K, V>>)
  {
    forall i, j :: 0 <= i < j < |s| ==> less(s[i].key, s[j].key)
  }

  ghost predicate Sorted<K, V>(less: (K, K) -> bool, s: seq<Entry<K, V>>)
  {
    forall i, j :: 0 <= i < j < |s| ==> !less(s[j].key, s[i].key)
  }

  /** The entries of s whose key is equivalent to k, in order. */
  ghost function Class<K, V>(less: (K, K) -> bool, s: seq<Entry<K, V>>, k: K): (c: seq<Entry<K, V>>)
    ensures |c| <= |s|
  {
    if s == [] then []
    else
      var last, before := s[|s| - 1], Class(less, s[..|s| - 1], k);
      if Equivalent(less, last.key, k) then before + [last] else before
  }

  lemma {:induction false} ClassMember<K, V>(less: (K, K) -> bool, s: seq<Entry<K, V>>, k: K, e: Entry<K, V>)
    ensures e in Class(less, s, k) <==> e in s && Equivalent(less, e.key, k)
    decreases |s|
  {
    if s == [] {
    } else {
      ClassMember(less, s[..|s| - 1], k, e);
      assert s == s[..|s| - 1] + [s[|s| - 1]];
    }
  }

  lemma NoClass<K, V>(less: (K, K) -> bool, s: seq<Entry<K, V>>, k: K)
    requires forall i :: 0 <= i < |s| ==> !Equivalent(less, s[i].key, k)
    ensures Class(less, s, k) == []
  {
    if Class(less, s, k) != [] {
      ClassMember(less, s, k, Class(less, s, k)[0]);
      assert false;
    }
  }

  lemma ClassAppend<K, V>(less: (K, K) -> bool, s: seq<Entry<K, V>>, e: Entry<K, V>, k: K)
    ensures Class(less, s + [e], k) ==
            if Equivalent(less, e.key, k) then Class(less, s, k) + [e] else Class(less, s, k)
  {
    assert (s + [e])[..|s|] == s;
  }

  lemma {:induction false} ClassConcat<K, V>(less: (K, K) -> bool, s: seq<Entry<K, V>>, t: seq<Entry<K, V>>, k: K)
    ensures Class(less, s + t, k) == Class(less, s, k) + Class(less, t, k)
    decreases |t|
  {
    if t == [] {
      assert s + t == s;
    } else {
      var init, last := t[..|t| - 1], t[|t| - 1];
      assert t == init + [last];
      assert s + t == (s + init) + [last];
      ClassAppend(less, s + init, last, k);
      ClassConcat(less, s, init, k);
      ClassAppend(less, init, last, k);
    }
  }

  /** In a strictly sorted sequence an entry is the only one for its key. */
  lemma StrictClass<K(!new), V>(less: (K, K) -> bool, s: seq<Entry<K, V>>, i: nat, k: K)
    requires StrictWeakOrder(less) && StrictlySorted(less, s)
    requires i < |s| && Equivalent(less, s[i].key, k)
    ensures Class(less, s, k) == [s[i]]
  {
    hide StrictWeakOrder, Class;
    var left, right := s[..i], s[i + 1..];
    assert s == left + [s[i]] + right;
    ClassConcat(less, left + [s[i]], right, k);
    ClassAppend(less, left, s[i], k);
    forall j | 0 <= j < |left|
      ensures !Equivalent(less, left[j].key, k)
    {
      LessNotEquivalent(less, s[j].key, s[i].key, k);
    }
    forall j | 0 <= j < |right|
      ensures !Equivalent(less, right[j].key, k)
    {
      LessNotEquivalent(less, s[i].key, s[i + 1 + j].key, k);
    }
    NoClass(less, left, k);
    NoClass(less, right, k);
  }

  lemma LastOfClass<K(!new), V>(less: (K, K) -> bool, s: seq<Entry<K, V>>)
    requires StrictWeakOrder(less) && s != []
    ensures var e := s[|s| - 1];
            var c := Class(less, s, e.key);
            c != [] && c[|c| - 1] == e
  {
  }

  /** Equivalent keys select the same entries. */
  lemma {:induction false} ClassOfEquivalent<K(!new), V>(less: (K, K) -> bool, s: seq<Entry<K, V>>, k: K, k': K)
    requires StrictWeakOrder(less) && Equivalent(less, k, k')
    ensures Class(less, s, k) == Class(less, s, k')
    decreases |s|
  {
    if s == [] {
    } else {
      ClassOfEquivalent(less, s[..|s| - 1], k, k');
    }
  }

  /** The last entries of two sorted sequences that hold the same entries for every key are the same. */
  lemma SameLast<K(!new), V>(less: (K, K) -> bool, s: seq<Entry<K, V>>, t: seq<Entry<K, V>>)
    requires StrictWeakOrder(less) && Sorted(less, s) && Sorted(less, t) && s != [] && t != []
    requires forall k :: Class(less, s, k) == Class(less, t, k)
    ensures s[|s| - 1] == t[|t| - 1]
  {
    hide StrictWeakOrder, Class;
    var x, y := s[|s| - 1], t[|t| - 1];
    LastOfClass(less, s);
    LastOfClass(less, t);
    ClassMember(less, t, x.key, x);
    ClassMember(less, s, y.key, y);
    if x != y {
      NotGreaterThanLast(less, t, x);
      NotGreaterThanLast(less, s, y);
      ClassOfEquivalent(less, t, x.key, y.key);
    }
  }

  lemma NotGreaterThanLast<K, V>(less: (K, K) -> bool, s: seq<Entry<K, V>>, e: Entry<K, V>)
    requires Sorted(less, s) && e in s && e != s[|s| - 1]
    ensures !less(s[|s| - 1].key, e.key)
  {
  }

  /** A sorted sequence is determined by the entries it holds for each key. */
  lemma {:induction false} SortedByClasses<K(!new), V>(less: (K, K) -> bool, s: seq<Entry<K, V>>, t: seq<Entry<K, V>>)
    requires StrictWeakOrder(less) && Sorted(less, s) && Sorted(less, t)
    requires forall k :: Class(less, s, k) == Class(less, t, k)
    ensures s == t
    decreases |s|
  {
    if s == [] || t == [] {
      if t != [] {
        LastOfClass(less, t);
      }
      if s != [] {
        LastOfClass(less, s);
      }
    } else {
      SameLast(less, s, t);
      var x, s', t' := s[|s| - 1], s[..|s| - 1], t[..|t| - 1];
      assert s == s' + [x] && t == t' + [x];
      forall k
        ensures Class(less, s', k) == Class(less, t', k)
      {
        ClassAppend(less, s', x, k);
        ClassAppend(less, t', x, k);
        CancelTail(Class(less, s', k), Class(less, t', k), if Equivalent(less, x.key, k) then [x] else []);
      }
      SortedByClasses(less, s', t');
    }
  }

  lemma CancelTail<T>(a: seq<T>, b: seq<T>, tail: seq<T>)
    requires a + tail == b + tail
    ensures a == b
  {
    assert a == (a + tail)[..|a + tail| - |tail|];
    assert b == (b + tail)[..|b + tail| - |tail|];
  }
}

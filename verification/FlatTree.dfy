/**
 A sorted vector used as an ordered map: the value of a key is found by binary search.
 Keys are compared by a strict weak order, so different keys may be equivalent.
 */
module FlatTree {
  import opened Common
  import opened Ordering
  import opened SortedRuns
  import opened VectorBuffer

  // ----- The plain map a tree stands for -----

  /** The entry a strictly sorted body holds for k. */
  ghost function Find<K, V>(less: (K, K) -> bool, body: seq<Entry<K, V>>, k: K): Option<Entry<K, V>>
  {
    var c := Class(less, body, k);
    if c == [] then None else Some(c[0])
  }

  // ----- Operations on the body -----

  function InsertedBody<K, V>(
    less: (K, K) -> bool, body: seq<Entry<K, V>>, e: Entry<K, V>): (r: (seq<Entry<K, V>>, nat, bool))
    ensures r.1 < |r.0|
  {
    var i := LowerBound(less, body, e.key);
    if i == |body| || less(e.key, body[i].key) then (body[..i] + [e] + body[i..], i, true) else (body, i, false)
  }

  function AssignedBody<K, V>(
    less: (K, K) -> bool, body: seq<Entry<K, V>>, e: Entry<K, V>): (r: (seq<Entry<K, V>>, nat, bool))
  {
    var i := LowerBound(less, body, e.key);
    if i == |body| || less(e.key, body[i].key) then (body[..i] + [e] + body[i..], i, true)
    else (body[i := e], i, false)
  }

  /** What a range insert has to produce: all entries sorted stably, one kept of every run of equivalent keys. */
  function BatchBody<K, V>(
    less: (K, K) -> bool, body: seq<Entry<K, V>>, input: seq<Entry<K, V>>, dupes: Dupes): seq<Entry<K, V>>
  {
    DropDupes(less, StableSort(less, body + input), dupes)
  }

  function ErasedBody<K, V>(less: (K, K) -> bool, body: seq<Entry<K, V>>, k: K): seq<Entry<K, V>>
  {
    var i := LowerBound(less, body, k);
    if i == |body| || less(k, body[i].key) then body else body[..i] + body[i + 1..]
  }

  function Filter<K, V>(body: seq<Entry<K, V>>, drop: Entry<K, V> -> bool): seq<Entry<K, V>>
  {
    if body == [] then []
    else
      var before := Filter(body[..|body| - 1], drop);
      if drop(body[|body| - 1]) then before else before + [body[|body| - 1]]
  }

  // ----- Lookup -----

  /** The lower bound is the only place where an entry for k can be. */
  lemma LowerBoundDecides<K(!new), V>(less: (K, K) -> bool, body: seq<Entry<K, V>>, k: K)
    requires StrictWeakOrder(less) && StrictlySorted(less, body)
    ensures var i := LowerBound(less, body, k);
            Find(less, body, k) ==
            if i == |body| || less(k, body[i].key) then None else Some(body[i])
  {
    hide StrictWeakOrder, LowerBound, Class;
    var i := LowerBound(less, body, k);
    if i == |body| || less(k, body[i].key) {
      forall j | i < j < |body|
        ensures less(k, body[j].key)
      {
        LessTrans(less, k, body[i].key, body[j].key);
      }
      NoClass(less, body, k);
    } else {
      StrictClass(less, body, i, k);
    }
  }

  lemma FindMember<K(!new), V>(less: (K, K) -> bool, body: seq<Entry<K, V>>, k: K)
    requires StrictWeakOrder(less) && StrictlySorted(less, body)
    ensures Class(less, body, k) == match Find(less, body, k) case None => [] case Some(e) => [e]
  {
    StrictIsSorted(less, body);
    assert |Class(less, body, k)| <= 1;
  }

  lemma Neighbours<K(!new), V>(less: (K, K) -> bool, body: seq<Entry<K, V>>, i: nat, k: K)
    requires StrictWeakOrder(less) && StrictlySorted(less, body) && i <= |body|
    requires i > 0 ==> less(body[i - 1].key, k)
    requires i < |body| ==> less(k, body[i].key)
    ensures forall j :: 0 <= j < i ==> less(body[j].key, k)
    ensures forall j :: i <= j < |body| ==> less(k, body[j].key)
  {
    forall j | 0 <= j < i - 1 ensures less(body[j].key, k) { assert less(body[j].key, body[i - 1].key); }
    forall j | i < j < |body| ensures less(k, body[j].key) { assert less(body[i].key, body[j].key); }
  }

  /** A new entry put at a position between its smaller and its greater neighbours. */
  lemma InsertAt<K(!new), V>(less: (K, K) -> bool, body: seq<Entry<K, V>>, i: nat, e: Entry<K, V>)
    requires StrictWeakOrder(less) && StrictlySorted(less, body) && i <= |body|
    requires i > 0 ==> less(body[i - 1].key, e.key)
    requires i < |body| ==> less(e.key, body[i].key)
    ensures StrictlySorted(less, body[..i] + [e] + body[i..])
    ensures i == LowerBound(less, body, e.key)
    ensures forall k :: Find(less, body[..i] + [e] + body[i..], k) ==
                        if Equivalent(less, e.key, k) then Some(e) else Find(less, body, k)
  {
    var t := body[..i] + [e] + body[i..];
    Neighbours(less, body, i, e.key);
    LowerBoundIs(less, body, e.key, i);
    forall k
      ensures Find(less, t, k) == if Equivalent(less, e.key, k) then Some(e) else Find(less, body, k)
    {
      FindAfterInsertAt(less, body, i, e, k);
    }
  }

  lemma FindAfterInsertAt<K(!new), V>(less: (K, K) -> bool, body: seq<Entry<K, V>>, i: nat, e: Entry<K, V>, k: K)
    requires StrictWeakOrder(less) && i <= |body| && StrictlySorted(less, body[..i] + [e] + body[i..])
    ensures Find(less, body[..i] + [e] + body[i..], k) ==
            if Equivalent(less, e.key, k) then Some(e) else Find(less, body, k)
  {
    hide StrictWeakOrder;
    var t := body[..i] + [e] + body[i..];
    if Equivalent(less, e.key, k) {
      assert t[i] == e;
      StrictClass(less, t, i, k);
    } else {
      ClassConcat(less, body[..i] + [e], body[i..], k);
      ClassAppend(less, body[..i], e, k);
      ClassConcat(less, body[..i], body[i..], k);
      assert body == body[..i] + body[i..];
    }
  }

  lemma {:induction false} LowerBoundIs<K(!new), V>(less: (K, K) -> bool, body: seq<Entry<K, V>>, k: K, i: nat)
    requires i <= |body| && forall j :: 0 <= j < i ==> less(body[j].key, k)
    requires i < |body| ==> !less(body[i].key, k)
    ensures LowerBound(less, body, k) == i
    decreases |body|
  {
    if i > 0 {
      LowerBoundIs(less, body[1..], k, i - 1);
    }
  }

  /** Overwriting an entry by one with an equivalent key. */
  lemma OverwriteAt<K(!new), V>(less: (K, K) -> bool, body: seq<Entry<K, V>>, i: nat, e: Entry<K, V>)
    requires StrictWeakOrder(less) && StrictlySorted(less, body) && i < |body|
    requires Equivalent(less, body[i].key, e.key)
    ensures StrictlySorted(less, body[i := e])
    ensures forall k :: Find(less, body[i := e], k) ==
                        if Equivalent(less, e.key, k) then Some(e) else Find(less, body, k)
  {
    var t := body[i := e];
    forall a, b | 0 <= a < b < |t|
      ensures less(t[a].key, t[b].key)
    {
      assert less(body[a].key, body[b].key);
    }
    forall k
      ensures Find(less, t, k) == if Equivalent(less, e.key, k) then Some(e) else Find(less, body, k)
    {
      if Equivalent(less, e.key, k) {
        StrictClass(less, t, i, k);
      } else {
        EquivalentToSame(less, body[i].key, e.key, k);
        assert t == body[..i] + [e] + body[i + 1..];
        assert body == body[..i] + [body[i]] + body[i + 1..];
        ClassConcat(less, body[..i] + [e], body[i + 1..], k);
        ClassAppend(less, body[..i], e, k);
        ClassConcat(less, body[..i] + [body[i]], body[i + 1..], k);
        ClassAppend(less, body[..i], body[i], k);
      }
    }
  }

  // ----- Every operation keeps the order and acts on the plain map -----

  lemma InsertRefines<K(!new), V>(less: (K, K) -> bool, body: seq<Entry<K, V>>, e: Entry<K, V>)
    requires StrictWeakOrder(less) && StrictlySorted(less, body)
    ensures var (t, i, inserted) := InsertedBody(less, body, e);
            && StrictlySorted(less, t)
            && inserted == Find(less, body, e.key).None?
            && Equivalent(less, t[i].key, e.key)
            && forall k :: Find(less, t, k) ==
                           if inserted && Equivalent(less, e.key, k) then Some(e) else Find(less, body, k)
  {
    LowerBoundDecides(less, body, e.key);
    var i := LowerBound(less, body, e.key);
    if i == |body| || less(e.key, body[i].key) {
      InsertAt(less, body, i, e);
    }
  }

  lemma AssignRefines<K(!new), V>(less: (K, K) -> bool, body: seq<Entry<K, V>>, e: Entry<K, V>)
    requires StrictWeakOrder(less) && StrictlySorted(less, body)
    ensures var (t, i, inserted) := AssignedBody(less, body, e);
            && StrictlySorted(less, t)
            && inserted == Find(less, body, e.key).None?
            && i < |t| && t[i] == e
            && forall k :: Find(less, t, k) ==
                           if Equivalent(less, e.key, k) then Some(e) else Find(less, body, k)
  {
    LowerBoundDecides(less, body, e.key);
    var i := LowerBound(less, body, e.key);
    if i == |body| || less(e.key, body[i].key) {
      InsertAt(less, body, i, e);
    } else {
      OverwriteAt(less, body, i, e);
    }
  }

  lemma EraseRefines<K(!new), V>(less: (K, K) -> bool, body: seq<Entry<K, V>>, key: K)
    requires StrictWeakOrder(less) && StrictlySorted(less, body)
    ensures StrictlySorted(less, ErasedBody(less, body, key))
    ensures |body| - |ErasedBody(less, body, key)| == (if Find(less, body, key).None? then 0 else 1)
    ensures forall k :: Find(less, ErasedBody(less, body, key), k) ==
                        if Equivalent(less, key, k) then None else Find(less, body, k)
  {
    hide StrictWeakOrder, Class, LowerBound;
    LowerBoundDecides(less, body, key);
    var i := LowerBound(less, body, key);
    if i == |body| || less(key, body[i].key) {
      forall k | Equivalent(less, key, k)
        ensures Find(less, body, k) == None
      {
        ClassOfEquivalent(less, body, key, k);
      }
    } else {
      var t := body[..i] + body[i + 1..];
      forall k
        ensures Find(less, t, k) == if Equivalent(less, key, k) then None else Find(less, body, k)
      {
        EquivalentToSame(less, body[i].key, key, k);
        assert body == body[..i] + [body[i]] + body[i + 1..];
        ClassConcat(less, body[..i] + [body[i]], body[i + 1..], k);
        ClassAppend(less, body[..i], body[i], k);
        ClassConcat(less, body[..i], body[i + 1..], k);
        FindMember(less, body, k);
      }
    }
  }

  lemma {:induction false} FilterWithin<K, V>(body: seq<Entry<K, V>>, drop: Entry<K, V> -> bool, e: Entry<K, V>)
    ensures e in Filter(body, drop) <==> e in body && !drop(e)
    decreases |body|
  {
    if body == [] {
    } else {
      FilterWithin(body[..|body| - 1], drop, e);
      assert body == body[..|body| - 1] + [body[|body| - 1]];
    }
  }

  lemma {:induction false} FilterSorted<K(!new), V>(
    less: (K, K) -> bool, body: seq<Entry<K, V>>, drop: Entry<K, V> -> bool)
    requires StrictlySorted(less, body)
    ensures StrictlySorted(less, Filter(body, drop))
    decreases |body|
  {
    if body == [] {
    } else {
      var init := body[..|body| - 1];
      FilterSorted(less, init, drop);
      forall e | e in Filter(init, drop)
        ensures less(e.key, body[|body| - 1].key)
      {
        FilterWithin(init, drop, e);
      }
    }
  }

  lemma {:induction false} FilterRefines<K(!new), V>(
    less: (K, K) -> bool, body: seq<Entry<K, V>>, drop: Entry<K, V> -> bool, k: K)
    requires StrictWeakOrder(less) && StrictlySorted(less, body)
    ensures Find(less, Filter(body, drop), k) ==
            match Find(less, body, k) case None => None case Some(e) => if drop(e) then None else Some(e)
  {
    FilterSorted(less, body, drop);
    FindMember(less, body, k);
    FindMember(less, Filter(body, drop), k);
    var kept := Class(less, Filter(body, drop), k);
    if kept == [] {
    } else {
      ClassMember(less, Filter(body, drop), k, kept[0]);
      FilterWithin(body, drop, kept[0]);
      ClassMember(less, body, k, kept[0]);
    }
    if Class(less, body, k) != [] {
      var e := Class(less, body, k)[0];
      ClassMember(less, body, k, e);
      FilterWithin(body, drop, e);
      ClassMember(less, Filter(body, drop), k, e);
    }
  }

  /** A batch insert acts on the plain map: the first or the last entry of each key among the old one and the input. */
  lemma BatchRefines<K(!new), V>(less: (K, K) -> bool, body: seq<Entry<K, V>>, input: seq<Entry<K, V>>, dupes: Dupes)
    requires StrictWeakOrder(less)
    ensures StrictlySorted(less, BatchBody(less, body, input, dupes))
    ensures forall k :: Class(less, BatchBody(less, body, input, dupes), k) ==
                        Surviving(Class(less, body, k) + Class(less, input, k), dupes)
  {
    SortAndUniqueKeeps(less, body + input, dupes);
    forall k
      ensures Class(less, body + input, k) == Class(less, body, k) + Class(less, input, k)
    {
      ClassConcat(less, body, input, k);
    }
  }

  /** A strictly sorted body with the right entry for every key is the batch result. */
  lemma IsBatchBody<K(!new), V>(
    less: (K, K) -> bool, body: seq<Entry<K, V>>, input: seq<Entry<K, V>>, dupes: Dupes, t: seq<Entry<K, V>>)
    requires StrictWeakOrder(less) && Sorted(less, t)
    requires forall k :: Class(less, t, k) == Surviving(Class(less, body, k) + Class(less, input, k), dupes)
    ensures t == BatchBody(less, body, input, dupes)
  {
    BatchRefines(less, body, input, dupes);
    StrictIsSorted(less, BatchBody(less, body, input, dupes));
    SortedByClasses(less, t, BatchBody(less, body, input, dupes));
  }

  lemma EmptyBatch<K(!new), V>(less: (K, K) -> bool, body: seq<Entry<K, V>>, dupes: Dupes)
    requires StrictWeakOrder(less) && StrictlySorted(less, body)
    ensures body == BatchBody(less, body, [], dupes)
  {
    StrictIsSorted(less, body);
    IsBatchBody(less, body, [], dupes, body);
  }

  /** The two ways to insert a range of one entry in place are batches of one. */
  lemma SingleBatch<K(!new), V>(less: (K, K) -> bool, body: seq<Entry<K, V>>, e: Entry<K, V>)
    requires StrictWeakOrder(less) && StrictlySorted(less, body)
    ensures InsertedBody(less, body, e).0 == BatchBody(less, body, [e], KeepFirstOfDupes)
    ensures AssignedBody(less, body, e).0 == BatchBody(less, body, [e], KeepLastOfDupes)
  {
    hide StrictWeakOrder, InsertedBody, AssignedBody, BatchBody;
    InsertAgrees(less, body, e);
    AssignRefines(less, body, e);
    BatchOfOne(less, body, e, KeepFirstOfDupes, InsertedBody(less, body, e).0);
    BatchOfOne(less, body, e, KeepLastOfDupes, AssignedBody(less, body, e).0);
  }

  lemma BatchOfOne<K(!new), V>(
    less: (K, K) -> bool, body: seq<Entry<K, V>>, e: Entry<K, V>, dupes: Dupes, t: seq<Entry<K, V>>)
    requires StrictWeakOrder(less) && StrictlySorted(less, body) && StrictlySorted(less, t)
    requires forall k :: Find(less, t, k) ==
                         if Equivalent(less, e.key, k) && (dupes == KeepLastOfDupes || Find(less, body, k).None?) then
                           Some(e)
                         else Find(less, body, k)
    ensures t == BatchBody(less, body, [e], dupes)
  {
    hide StrictWeakOrder, BatchBody;
    StrictIsSorted(less, t);
    forall k
      ensures Class(less, t, k) == Surviving(Class(less, body, k) + Class(less, [e], k), dupes)
    {
      FindMember(less, t, k);
      FindMember(less, body, k);
      ClassAppend(less, [], e, k);
      assert [] + [e] == [e];
    }
    IsBatchBody(less, body, [e], dupes, t);
  }

  // ----- The loop of a range insert -----

  /**
   After the entries of done: the old entries, overwritten where duplicates win, are in head;
   the entries with new keys are in tail, unsorted; none of them belongs before position first.
   */
  ghost predicate Batching<K(!new), V>(
    less: (K, K) -> bool, body: seq<Entry<K, V>>, done: seq<Entry<K, V>>, dupes: Dupes,
    head: seq<Entry<K, V>>, tail: seq<Entry<K, V>>, first: nat)
  {
    && |head| == |body| && first <= |head| && StrictlySorted(less, head)
    && (forall k :: Class(less, head, k) ==
                    if Class(less, body, k) == [] then []
                    else Surviving(Class(less, body, k) + Class(less, done, k), dupes))
    && (forall k :: Class(less, tail, k) == if Class(less, body, k) == [] then Class(less, done, k) else [])
    && (forall i, j :: 0 <= i < first && 0 <= j < |tail| ==> less(head[i].key, tail[j].key))
  }

  lemma HeadIsSorted<K(!new), V>(
    less: (K, K) -> bool, body: seq<Entry<K, V>>, done: seq<Entry<K, V>>, dupes: Dupes,
    head: seq<Entry<K, V>>, tail: seq<Entry<K, V>>, first: nat)
    requires Batching(less, body, done, dupes, head, tail, first)
    ensures StrictlySorted(less, head)
  {
  }

  lemma BatchingStarts<K(!new), V>(less: (K, K) -> bool, body: seq<Entry<K, V>>, dupes: Dupes)
    requires StrictWeakOrder(less) && StrictlySorted(less, body)
    ensures Batching(less, body, [], dupes, body, [], |body|)
  {
    StrictIsSorted(less, body);
  }

  lemma BatchingNew<K(!new), V>(
    less: (K, K) -> bool, body: seq<Entry<K, V>>, done: seq<Entry<K, V>>, dupes: Dupes,
    head: seq<Entry<K, V>>, tail: seq<Entry<K, V>>, first: nat, e: Entry<K, V>, first': nat)
    requires StrictWeakOrder(less) && Batching(less, body, done, dupes, head, tail, first)
    requires Find(less, head, e.key).None? && first' <= first && first' <= LowerBound(less, head, e.key)
    ensures Batching(less, body, done + [e], dupes, head, tail + [e], first')
  {
    assert Class(less, head, e.key) == [];
    assert Class(less, body, e.key) == [];
    forall k
      ensures Class(less, head, k) ==
              if Class(less, body, k) == [] then []
              else Surviving(Class(less, body, k) + Class(less, done + [e], k), dupes)
      ensures Class(less, tail + [e], k) == if Class(less, body, k) == [] then Class(less, done + [e], k) else []
    {
      ClassAppend(less, done, e, k);
      ClassAppend(less, tail, e, k);
      if Equivalent(less, e.key, k) {
        ClassOfEquivalent(less, body, e.key, k);
      }
    }
  }

  lemma BatchingOld<K(!new), V>(
    less: (K, K) -> bool, body: seq<Entry<K, V>>, done: seq<Entry<K, V>>, dupes: Dupes,
    head: seq<Entry<K, V>>, tail: seq<Entry<K, V>>, first: nat, e: Entry<K, V>, i: nat)
    requires StrictWeakOrder(less) && Batching(less, body, done, dupes, head, tail, first)
    requires i < |head| && Equivalent(less, head[i].key, e.key)
    ensures Batching(less, body, done + [e], dupes,
                     if dupes == KeepFirstOfDupes then head else head[i := e], tail, first)
  {
    var head' := if dupes == KeepFirstOfDupes then head else head[i := e];
    OverwriteAt(less, head, i, e);
    forall k
      ensures Class(less, head', k) ==
              if Class(less, body, k) == [] then []
              else Surviving(Class(less, body, k) + Class(less, done + [e], k), dupes)
      ensures Class(less, tail, k) == if Class(less, body, k) == [] then Class(less, done + [e], k) else []
    {
      BatchingOldClass(less, body, done, dupes, head, tail, first, e, i, k);
    }
    forall a, b | 0 <= a < first && 0 <= b < |tail|
      ensures less(head'[a].key, tail[b].key)
    {
      assert less(head[a].key, tail[b].key);
    }
  }

  lemma BatchingOldClass<K(!new), V>(
    less: (K, K) -> bool, body: seq<Entry<K, V>>, done: seq<Entry<K, V>>, dupes: Dupes,
    head: seq<Entry<K, V>>, tail: seq<Entry<K, V>>, first: nat, e: Entry<K, V>, i: nat, k: K)
    requires StrictWeakOrder(less) && Batching(less, body, done, dupes, head, tail, first)
    requires i < |head| && Equivalent(less, head[i].key, e.key)
    ensures var head' := if dupes == KeepFirstOfDupes then head else head[i := e];
            Class(less, head', k) ==
            if Class(less, body, k) == [] then []
            else Surviving(Class(less, body, k) + Class(less, done + [e], k), dupes)
    ensures Class(less, tail, k) == if Class(less, body, k) == [] then Class(less, done + [e], k) else []
  {
    hide StrictWeakOrder;
    OverwriteAt(less, head, i, e);
    ClassAppend(less, done, e, k);
    FindMember(less, head[i := e], k);
    FindMember(less, head, k);
    if Equivalent(less, e.key, k) {
      EquivalentToSame(less, head[i].key, e.key, k);
      StrictClass(less, head, i, k);
      assert Class(less, body, k) != [];
    }
  }

  lemma MergeMember<K, V>(less: (K, K) -> bool, a: seq<Entry<K, V>>, b: seq<Entry<K, V>>, e: Entry<K, V>)
    requires e in Merge(less, a, b)
    ensures e in a || e in b
  {
    assert e in multiset(Merge(less, a, b));
  }

  lemma MergedIsSorted<K(!new), V>(less: (K, K) -> bool, head: seq<Entry<K, V>>, tail: seq<Entry<K, V>>, first: nat)
    requires StrictWeakOrder(less) && StrictlySorted(less, head) && Sorted(less, tail) && first <= |head|
    requires forall i, j :: 0 <= i < first && 0 <= j < |tail| ==> less(head[i].key, tail[j].key)
    ensures Sorted(less, head[..first] + Merge(less, head[first..], tail))
  {
    hide StrictWeakOrder, Merge;
    var left, right := head[..first], head[first..];
    var merged := Merge(less, right, tail);
    StrictIsSorted(less, head);
    MergeSorts(less, right, tail);
    forall i, j | 0 <= i < first && 0 <= j < |merged|
      ensures !less(merged[j].key, left[i].key)
    {
      MergeMember(less, right, tail, merged[j]);
      if merged[j] in right {
        var m :| 0 <= m < |right| && right[m] == merged[j];
        assert right[m] == head[first + m];
      } else {
        var m :| 0 <= m < |tail| && tail[m] == merged[j];
        NotGreater(less, left[i].key, tail[m].key);
      }
    }
  }

  lemma UniqueWithin<K(!new), V>(less: (K, K) -> bool, s: seq<Entry<K, V>>, dupes: Dupes, e: Entry<K, V>)
    requires StrictWeakOrder(less) && e in DropDupes(less, StableSort(less, s), dupes)
    ensures e in s
  {
    var unique := DropDupes(less, StableSort(less, s), dupes);
    SortAndUniqueKeeps(less, s, dupes);
    ClassMember(less, unique, e.key, e);
    ClassMember(less, s, e.key, e);
  }

  lemma MergedClass<K(!new), V>(less: (K, K) -> bool, head: seq<Entry<K, V>>, tail: seq<Entry<K, V>>, first: nat, k: K)
    requires StrictWeakOrder(less) && StrictlySorted(less, head) && Sorted(less, tail) && first <= |head|
    ensures Class(less, head[..first] + Merge(less, head[first..], tail), k) ==
            Class(less, head, k) + Class(less, tail, k)
  {
    hide StrictWeakOrder, Class, Merge;
    var left, right := head[..first], head[first..];
    assert head == left + right;
    assert Sorted(less, right) by { StrictIsSorted(less, head); }
    ClassConcat(less, left, Merge(less, right, tail), k);
    MergeClass(less, right, tail, k);
    ClassConcat(less, left, right, k);
    Associative(Class(less, left, k), Class(less, right, k), Class(less, tail, k));
  }

  /** Sorting the new entries and merging them in from position first on completes the batch. */
  lemma BatchingEnds<K(!new), V>(
    less: (K, K) -> bool, body: seq<Entry<K, V>>, input: seq<Entry<K, V>>, dupes: Dupes,
    head: seq<Entry<K, V>>, tail: seq<Entry<K, V>>, first: nat)
    requires StrictWeakOrder(less) && Batching(less, body, input, dupes, head, tail, first)
    ensures head[..first] + Merge(less, head[first..], DropDupes(less, StableSort(less, tail), dupes)) ==
            BatchBody(less, body, input, dupes)
  {
    hide StrictWeakOrder, Class, Merge, DropDupes, StableSort, BatchBody;
    var unique := DropDupes(less, StableSort(less, tail), dupes);
    SortAndUniqueKeeps(less, tail, dupes);
    StrictIsSorted(less, unique);
    forall i, j | 0 <= i < first && 0 <= j < |unique|
      ensures less(head[i].key, unique[j].key)
    {
      UniqueWithin(less, tail, dupes, unique[j]);
    }
    MergedIsSorted(less, head, unique, first);
    var t := head[..first] + Merge(less, head[first..], unique);
    forall k
      ensures Class(less, t, k) == Surviving(Class(less, body, k) + Class(less, input, k), dupes)
    {
      MergedClass(less, head, unique, first, k);
      assert Class(less, unique, k) == Surviving(Class(less, tail, k), dupes);
    }
    IsBatchBody(less, body, input, dupes, t);
  }

  // ----- LastUnique, in place -----

  /** A block whose slots from lo on hold the elements of s. */
  ghost predicate Holds<T>(a: array<Slot<T>>, lo: nat, s: seq<T>)
    reads a
  {
    lo + |s| <= a.Length && forall p :: lo <= p < lo + |s| ==> a[p] == Live(s[p - lo])
  }

  /** std::adjacent_find: the first element that is the same as its successor, or last. */
  method AdjacentFind<T>(
    a: array<Slot<T>>, first: nat, last: nat, same: (T, T) -> bool, ghost s: seq<T>) returns (i: nat)
    requires first + |s| == last && Holds(a, first, s)
    ensures first <= i <= last && (i < last ==> i + 1 < last && same(s[i - first], s[i + 1 - first]))
    ensures forall j :: 0 <= j < i - first && j + 1 < |s| ==> !same(s[j], s[j + 1])
  {
    if first == last {
      return last;
    }
    i := first;
    while i + 1 < last
      invariant first <= i < last
      invariant forall j :: 0 <= j < i - first ==> !same(s[j], s[j + 1])
    {
      if same(a[i].value, a[i + 1].value) {
        return;
      }
      i := i + 1;
    }
    i := last;
  }

  lemma RunEndsStep<T>(same: (T, T) -> bool, s: seq<T>, i: nat)
    requires i + 1 < |s|
    ensures RunEnds(same, s, i + 1) ==
            if same(s[i], s[i + 1]) then RunEnds(same, s, i) else RunEnds(same, s, i) + [s[i]]
  {
  }

  lemma {:induction false} NoRuns<T>(same: (T, T) -> bool, s: seq<T>, i: nat)
    requires i < |s| && forall j :: 0 <= j < i ==> !same(s[j], s[j + 1])
    ensures RunEnds(same, s, i) == s[..i]
    decreases i
  {
    if i > 0 {
      NoRuns(same, s, i - 1);
      assert s[..i] == s[..i - 1] + [s[i - 1]];
    }
  }

  /**
   Moves the last element of every run of same elements to the front of the range, in
   order, and returns the end of the moved part. Elements are only read while live.
   */
  method LastUnique<T>(
    a: array<Slot<T>>, first: nat, last: nat, same: (T, T) -> bool, ghost s: seq<T>) returns (end: nat)
    requires first + |s| == last && Holds(a, first, s)
    modifies a
    ensures first <= end <= last && end - first == |LastOfRuns(same, s)|
    ensures Holds(a, first, LastOfRuns(same, s))
    ensures forall i :: 0 <= i < first || last <= i < a.Length ==> a[i] == old(a[i])
  {
    var replacable := AdjacentFind(a, first, last, same, s);
    if replacable == last {
      if s != [] {
        NoRuns(same, s, |s| - 1);
        assert LastOfRuns(same, s) == s;
      }
      return last;
    }
    var cur := replacable + 1;
    // The source also returns here when cur == last, which AdjacentFind rules out.
    assert cur < last;
    NoRuns(same, s, replacable - first);
    end := CompactRuns(a, first, last, replacable, same, s);
  }

  /** The loop of LastUnique: everything before replacable is in place, cur is its successor. */
  method CompactRuns<T>(
    a: array<Slot<T>>, first: nat, last: nat, start: nat, same: (T, T) -> bool, ghost s: seq<T>) returns (end: nat)
    requires first + |s| == last && Holds(a, first, s) && first <= start && start + 1 < last
    requires same(s[start - first], s[start + 1 - first]) && RunEnds(same, s, start - first) == s[..start - first]
    modifies a
    ensures first <= end <= last && end - first == |LastOfRuns(same, s)|
    ensures Holds(a, first, LastOfRuns(same, s))
    ensures forall i :: 0 <= i < first || last <= i < a.Length ==> a[i] == old(a[i])
  {
    hide RunEnds;
    var replacable := start;
    var cur, next := start + 1, start + 2;
    RunEndsStep(same, s, start - first);
    while next != last
      invariant start < cur && next == cur + 1 <= last && first <= replacable < cur
      invariant Holds(a, first, RunEnds(same, s, cur - first)) && replacable - first == |RunEnds(same, s, cur - first)|
      invariant forall p :: cur <= p < last ==> a[p] == Live(s[p - first])
      invariant forall p :: 0 <= p < first || last <= p < a.Length ==> a[p] == old(a[p])
    {
      RunEndsStep(same, s, cur - first);
      assert a[cur] == Live(s[cur - first]) && a[next] == Live(s[next - first]);
      if !same(a[cur].value, a[next].value) {
        a[replacable] := a[cur];
        a[cur] := Dead;
        replacable := replacable + 1;
      }
      next := next + 1;
      cur := cur + 1;
    }
    assert a[cur] == Live(s[cur - first]);
    a[replacable] := a[cur];
    a[cur] := Dead;
    return replacable + 1;
  }

  // ----- The container -----

  class Tree<K(!new), V> {
    const less: (K, K) -> bool
    var body: seq<Entry<K, V>>

    ghost predicate Valid()
      reads this
    {
      StrictWeakOrder(less) && StrictlySorted(less, body)
    }

    /** Builds a tree from unsorted items. */
    constructor (items: seq<Entry<K, V>>, dupes: Dupes, less: (K, K) -> bool)
      requires StrictWeakOrder(less)
      ensures Valid() && this.less == less
      ensures body == BatchBody(less, [], items, dupes)
    {
      this.less := less;
      body := items;
      new;
      SortAndUniqueAll(dupes);
      BatchRefines(less, [], items, dupes);
      assert [] + items == items;
    }

    // ----- Search -----

    function LowerBoundOf(k: K): (i: nat)
      reads this
      ensures i <= |body| && i == LowerBound(less, body, k)
    {
      LowerBound(less, body, k)
    }

    /** The range of the entries with this key. */
    method EqualRange(k: K) returns (lo: nat, hi: nat)
      requires Valid()
      ensures lo <= hi <= |body| && body[lo..hi] == Class(less, body, k)
      ensures forall j :: 0 <= j < lo ==> less(body[j].key, k)
      ensures forall j :: lo <= j < hi ==> Equivalent(less, body[j].key, k)
      ensures forall j :: hi <= j < |body| ==> less(k, body[j].key)
    {
      LowerBoundDecides(less, body, k);
      FindMember(less, body, k);
      lo := LowerBoundOf(k);
      if lo == |body| || less(k, body[lo].key) {
        return lo, lo;
      }
      return lo, lo + 1;
    }

    /** The position of the entry with this key, or the end. */
    method FindPosition(k: K) returns (i: nat)
      requires Valid()
      ensures i <= |body| && Find(less, body, k) == if i == |body| then None else Some(body[i])
    {
      FindMember(less, body, k);
      var lo, hi := EqualRange(k);
      i := if lo == hi then |body| else lo;
    }

    method Count(k: K) returns (n: nat)
      requires Valid()
      ensures n == if Find(less, body, k).None? then 0 else 1
    {
      FindMember(less, body, k);
      var lo, hi := EqualRange(k);
      n := hi - lo;
    }

    // ----- Single inserts -----

    method EmplaceKeyArgs(e: Entry<K, V>) returns (i: nat, inserted: bool)
      requires Valid()
      modifies this
      ensures Valid() && (body, i, inserted) == InsertedBody(less, old(body), e)
    {
      InsertRefines(less, body, e);
      i := LowerBoundOf(e.key);
      inserted := i == |body| || less(e.key, body[i].key);
      if inserted {
        body := body[..i] + [e] + body[i..];
      }
    }

    /** Tries the hint first. A wrong hint costs time and changes nothing else. */
    method EmplaceHintKeyArgs(hint: nat, e: Entry<K, V>) returns (i: nat, inserted: bool)
      requires Valid() && hint <= |body|
      modifies this
      ensures Valid() && (body, i, inserted) == InsertedBody(less, old(body), e)
    {
      if hint == 0 || less(body[hint - 1].key, e.key) {
        if hint == |body| || less(e.key, body[hint].key) {
          InsertAt(less, body, hint, e);
          body := body[..hint] + [e] + body[hint..];
          return hint, true;
        }
        if !less(body[hint].key, e.key) {
          assert forall j :: 0 <= j < hint ==> less(body[j].key, e.key) by {
            forall j | 0 <= j < hint - 1 ensures less(body[j].key, e.key) {
              assert less(body[j].key, body[hint - 1].key);
            }
          }
          LowerBoundIs(less, body, e.key, hint);
          return hint, false;
        }
      }
      i, inserted := EmplaceKeyArgs(e);
    }

    method InsertOrAssign(e: Entry<K, V>) returns (i: nat, inserted: bool)
      requires Valid()
      modifies this
      ensures Valid() && (body, i, inserted) == AssignedBody(less, old(body), e)
    {
      AssignRefines(less, body, e);
      i := LowerBoundOf(e.key);
      inserted := i == |body| || less(e.key, body[i].key);
      body := if inserted then body[..i] + [e] + body[i..] else body[i := e];
    }

    // ----- Range insert -----

    /** Sorts a range of the body stably and drops duplicates from it. */
    method SortAndUnique(first: nat, last: nat, dupes: Dupes)
      requires StrictWeakOrder(less) && first <= last <= |body|
      modifies this
      ensures body == old(body)[..first] + DropDupes(less, StableSort(less, old(body)[first..last]), dupes) +
              old(body)[last..]
    {
      ghost var was := body;
      var sorted := StableSort(less, body[first..last]);
      var unique;
      match dupes {
        case KeepFirstOfDupes =>
          unique := FirstOfRuns(SameKey(less), sorted);
        case KeepLastOfDupes =>
          var range := new Slot<Entry<K, V>>[|sorted|](i requires 0 <= i < |sorted| => Live(sorted[i]));
          var end := LastUnique(range, 0, |sorted|, SameKey(less), sorted);
          unique := Values(range[..end]);
          assert unique == LastOfRuns(SameKey(less), sorted);
      }
      body := body[..first] + unique + body[last..];
    }

    method SortAndUniqueAll(dupes: Dupes)
      requires StrictWeakOrder(less)
      modifies this
      ensures body == DropDupes(less, StableSort(less, old(body)), dupes)
    {
      hide StrictWeakOrder, DropDupes, StableSort;
      assert body[0..|body|] == body;
      SortAndUnique(0, |body|, dupes);
    }

    /** Overwrites the entry of val among body[..last], or appends val; returns where val belongs. */
    method AppendOrAssign(last: nat, val: Entry<K, V>) returns (i: nat, appended: bool)
      requires StrictWeakOrder(less) && last <= |body| && StrictlySorted(less, body[..last])
      modifies this
      ensures i == LowerBound(less, old(body)[..last], val.key)
      ensures appended == Find(less, old(body)[..last], val.key).None?
      ensures if appended then body == old(body) + [val]
              else i < last && Equivalent(less, old(body)[i].key, val.key) && body == old(body)[i := val]
    {
      LowerBoundDecides(less, body[..last], val.key);
      i := LowerBound(less, body[..last], val.key);
      if i == last || less(val.key, body[i].key) {
        body := body + [val];
        return i, true;
      }
      body := body[i := val];
      return i, false;
    }

    /** Appends val unless its key is among body[..last]; returns where val belongs. */
    method AppendUnique(last: nat, val: Entry<K, V>) returns (i: nat, appended: bool)
      requires StrictWeakOrder(less) && last <= |body| && StrictlySorted(less, body[..last])
      modifies this
      ensures i == LowerBound(less, old(body)[..last], val.key)
      ensures appended == Find(less, old(body)[..last], val.key).None?
      ensures if appended then body == old(body) + [val]
              else i < last && Equivalent(less, old(body)[i].key, val.key) && body == old(body)
    {
      LowerBoundDecides(less, body[..last], val.key);
      i := LowerBound(less, body[..last], val.key);
      if i == last || less(val.key, body[i].key) {
        body := body + [val];
        return i, true;
      }
      return i, false;
    }

    /** Inserts a range of entries; multipass says whether the range may be looked at twice. */
    method InsertRange(input: seq<Entry<K, V>>, multipass: bool, dupes: Dupes)
      requires Valid()
      modifies this
      ensures Valid() && body == BatchBody(less, old(body), input, dupes)
    {
      BatchRefines(less, body, input, dupes);
      if input == [] {
        EmptyBatch(less, body, dupes);
        return;
      }
      var overwriteExisting := dupes == KeepLastOfDupes;
      if multipass && |input| == 1 {
        SingleBatch(less, body, input[0]);
        assert input == [input[0]];
        if overwriteExisting {
          var _, _ := InsertOrAssign(input[0]);
        } else {
          var _, _ := EmplaceHintKeyArgs(|body|, input[0]);
        }
        return;
      }
      AppendAll(input, dupes);
    }

    method AppendAll(input: seq<Entry<K, V>>, dupes: Dupes)
      requires Valid()
      modifies this
      ensures body == BatchBody(less, old(body), input, dupes)
    {
      hide StrictWeakOrder, Batching, Class, Merge, DropDupes, StableSort, BatchBody, LowerBound, Find;
      var originalSize := |body|;
      var posFirstNew: nat := originalSize;
      BatchingStarts(less, body, dupes);
      assert body[..originalSize] == body && body[originalSize..] == [] && input[..0] == [];
      for n := 0 to |input|
        invariant originalSize == |old(body)| <= |body| && posFirstNew <= originalSize
        invariant Batching(less, old(body), input[..n], dupes, body[..originalSize], body[originalSize..], posFirstNew)
      {
        ghost var head, tail := body[..originalSize], body[originalSize..];
        HeadIsSorted(less, old(body), input[..n], dupes, head, tail, posFirstNew);
        assert input[..n + 1] == input[..n] + [input[n]];
        var i, appended;
        if dupes == KeepLastOfDupes {
          i, appended := AppendOrAssign(originalSize, input[n]);
        } else {
          i, appended := AppendUnique(originalSize, input[n]);
        }
        if appended {
          BatchingNew(less, old(body), input[..n], dupes, head, tail, posFirstNew, input[n],
                      if i < posFirstNew then i else posFirstNew);
          posFirstNew := if i < posFirstNew then i else posFirstNew;
          assert body[..originalSize] == head && body[originalSize..] == tail + [input[n]];
        } else {
          BatchingOld(less, old(body), input[..n], dupes, head, tail, posFirstNew, input[n], i);
          assert body[originalSize..] == tail;
          assert body[..originalSize] == if dupes == KeepFirstOfDupes then head else head[i := input[n]];
        }
      }
      assert input[..|input|] == input;
      BatchingEnds(less, old(body), input, dupes, body[..originalSize], body[originalSize..], posFirstNew);
      MergeNew(originalSize, posFirstNew, dupes);
    }

    /** Post-processes the entries appended behind body[..middle] and merges them in from posFirstNew on. */
    method MergeNew(middle: nat, posFirstNew: nat, dupes: Dupes)
      requires StrictWeakOrder(less) && posFirstNew <= middle <= |body|
      modifies this
      ensures var head, tail := old(body)[..middle], old(body)[middle..];
              body == head[..posFirstNew] +
                Merge(less, head[posFirstNew..], DropDupes(less, StableSort(less, tail), dupes))
    {
      hide StrictWeakOrder, DropDupes, StableSort, Merge;
      ghost var head, tail := body[..middle], body[middle..];
      assert body[middle..|body|] == tail;
      SortAndUnique(middle, |body|, dupes);
      assert body[middle..] == DropDupes(less, StableSort(less, tail), dupes);
      assert body[posFirstNew..middle] == head[posFirstNew..];
      assert body[..posFirstNew] == head[..posFirstNew];
      body := body[..posFirstNew] + Merge(less, body[posFirstNew..middle], body[middle..]);
    }

    // ----- Erasing -----

    method EraseKey(k: K) returns (n: nat)
      requires Valid()
      modifies this
      ensures Valid() && body == ErasedBody(less, old(body), k)
      ensures n == if Find(less, old(body), k).None? then 0 else 1
    {
      EraseRefines(less, body, k);
      LowerBoundDecides(less, body, k);
      var i := LowerBoundOf(k);
      if i == |body| || less(k, body[i].key) {
        return 0;
      }
      body := body[..i] + body[i + 1..];
      return 1;
    }

    method EraseIf(drop: Entry<K, V> -> bool)
      requires Valid()
      modifies this
      ensures Valid() && body == Filter(old(body), drop)
    {
      FilterSorted(less, body, drop);
      body := Filter(body, drop);
    }
  }

  // ----- Whole runs -----

  datatype Op<!K, !V> =
    | Insert(e: Entry<K, V>)
    | InsertHinted(e: Entry<K, V>)
    | InsertOrAssign(e: Entry<K, V>)
    | InsertBatch(input: seq<Entry<K, V>>, dupes: Dupes)
    | EraseKey(k: K)
    | EraseIf(drop: Entry<K, V> -> bool)

  function BodyStep<K, V>(less: (K, K) -> bool, body: seq<Entry<K, V>>, op: Op<K, V>): seq<Entry<K, V>>
  {
    match op
    case Insert(e) => InsertedBody(less, body, e).0
    case InsertHinted(e) => InsertedBody(less, body, e).0
    case InsertOrAssign(e) => AssignedBody(less, body, e).0
    case InsertBatch(input, dupes) => BatchBody(less, body, input, dupes)
    case EraseKey(k) => ErasedBody(less, body, k)
    case EraseIf(drop) => Filter(body, drop)
  }

  /** What an operation makes of the entry that a plain map holds for k. */
  ghost function MapStep<K, V>(less: (K, K) -> bool, held: Option<Entry<K, V>>, op: Op<K, V>, k: K): Option<Entry<K, V>>
  {
    match op
    case Insert(e) => if held.None? && Equivalent(less, e.key, k) then Some(e) else held
    case InsertHinted(e) => if held.None? && Equivalent(less, e.key, k) then Some(e) else held
    case InsertOrAssign(e) => if Equivalent(less, e.key, k) then Some(e) else held
    case InsertBatch(input, dupes) => MapBatch(less, held, input, dupes, k)
    case EraseKey(key) => if Equivalent(less, key, k) then None else held
    case EraseIf(drop) => if held.Some? && drop(held.value) then None else held
  }

  ghost function MapBatch<K, V>(
    less: (K, K) -> bool, held: Option<Entry<K, V>>, input: seq<Entry<K, V>>, dupes: Dupes, k: K)
    : Option<Entry<K, V>>
  {
    var candidates := Class(less, input, k);
    if held.Some? && (dupes == KeepFirstOfDupes || candidates == []) then held
    else if candidates == [] then None
    else Some(if dupes == KeepFirstOfDupes then candidates[0] else candidates[|candidates| - 1])
  }

  /** The body after a run of operations on an empty tree. */
  function BodyAfter<K, V>(less: (K, K) -> bool, ops: seq<Op<K, V>>): seq<Entry<K, V>>
  {
    if ops == [] then [] else BodyStep(less, BodyAfter(less, ops[..|ops| - 1]), ops[|ops| - 1])
  }

  /** The plain map driven by the same operations, evaluated at one key. */
  ghost function MapAfter<K, V>(less: (K, K) -> bool, ops: seq<Op<K, V>>, k: K): Option<Entry<K, V>>
  {
    if ops == [] then None else MapStep(less, MapAfter(less, ops[..|ops| - 1], k), ops[|ops| - 1], k)
  }

  /** Over any run the tree stays strictly sorted and answers every lookup like the plain map. */
  lemma {:induction false} RunAgreesWithMap<K(!new), V>(less: (K, K) -> bool, ops: seq<Op<K, V>>)
    requires StrictWeakOrder(less)
    ensures StrictlySorted(less, BodyAfter(less, ops))
    ensures forall k :: Find(less, BodyAfter(less, ops), k) == MapAfter(less, ops, k)
    decreases |ops|
  {
    hide StrictWeakOrder, BodyStep, MapStep;
    if ops == [] {
    } else {
      var before, op := ops[..|ops| - 1], ops[|ops| - 1];
      RunAgreesWithMap(less, before);
      StepAgreesWithMap(less, BodyAfter(less, before), op);
    }
  }

  /** Every operation keeps the body strictly sorted and does to each lookup what it does to the plain map. */
  lemma StepAgreesWithMap<K(!new), V>(less: (K, K) -> bool, body: seq<Entry<K, V>>, op: Op<K, V>)
    requires StrictWeakOrder(less) && StrictlySorted(less, body)
    ensures StrictlySorted(less, BodyStep(less, body, op))
    ensures forall k :: Find(less, BodyStep(less, body, op), k) == MapStep(less, Find(less, body, k), op, k)
  {
    hide StrictWeakOrder, Find, InsertedBody, AssignedBody, BatchBody, ErasedBody, Filter, Class, MapBatch;
    match op
    case Insert(e) => InsertAgrees(less, body, e);
    case InsertHinted(e) => InsertAgrees(less, body, e);
    case InsertOrAssign(e) => AssignRefines(less, body, e);
    case InsertBatch(input, dupes) => BatchAgrees(less, body, input, dupes);
    case EraseKey(key) => EraseRefines(less, body, key);
    case EraseIf(drop) =>
      FilterSorted(less, body, drop);
      forall k
        ensures Find(less, Filter(body, drop), k) == MapStep(less, Find(less, body, k), op, k)
      {
        FilterRefines(less, body, drop, k);
      }
  }

  lemma BatchAgrees<K(!new), V>(less: (K, K) -> bool, body: seq<Entry<K, V>>, input: seq<Entry<K, V>>, dupes: Dupes)
    requires StrictWeakOrder(less) && StrictlySorted(less, body)
    ensures StrictlySorted(less, BatchBody(less, body, input, dupes))
    ensures forall k :: Find(less, BatchBody(less, body, input, dupes), k) ==
                        MapBatch(less, Find(less, body, k), input, dupes, k)
  {
    hide StrictWeakOrder, BatchBody, Class;
    BatchRefines(less, body, input, dupes);
    forall k
      ensures Find(less, BatchBody(less, body, input, dupes), k) == MapBatch(less, Find(less, body, k), input, dupes, k)
    {
      FindMember(less, body, k);
      FindMember(less, BatchBody(less, body, input, dupes), k);
    }
  }

  lemma InsertAgrees<K(!new), V>(less: (K, K) -> bool, body: seq<Entry<K, V>>, e: Entry<K, V>)
    requires StrictWeakOrder(less) && StrictlySorted(less, body)
    ensures StrictlySorted(less, InsertedBody(less, body, e).0)
    ensures forall k :: Find(less, InsertedBody(less, body, e).0, k) ==
                        if Find(less, body, k).None? && Equivalent(less, e.key, k) then Some(e) else Find(less, body, k)
  {
    InsertRefines(less, body, e);
    forall k | Equivalent(less, e.key, k)
      ensures Find(less, body, k) == Find(less, body, e.key)
    {
      ClassOfEquivalent(less, body, e.key, k);
    }
  }
}

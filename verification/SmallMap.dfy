/**
 A map that keeps up to arraySize entries in an array and switches to a real map when
 one more has to be added. A negative size means that the real map is in use.
 */
module SmallMap {
  import opened Common
  import opened VectorBuffer

  /** Entry i replaced by the last one. */
  function SwapRemove<T>(s: seq<T>, i: nat): (r: seq<T>)
    requires i < |s|
    ensures |r| == |s| - 1
  {
    var last := |s| - 1;
    if i == last then s[..last] else s[i := s[last]][..last]
  }

  /** The entries hold exactly the associations of m, one entry for each key. */
  ghost predicate Represents<K, V>(s: seq<Entry<K, V>>, m: map<K, V>)
  {
    && UniqueKeys(s)
    && (forall i :: 0 <= i < |s| ==> s[i].key in m && m[s[i].key] == s[i].val)
    && (forall k :: k in m ==> HasKey(s, k))
  }

  lemma RepresentsPush<K, V>(s: seq<Entry<K, V>>, m: map<K, V>, e: Entry<K, V>)
    requires Represents(s, m) && e.key !in m
    ensures Represents(s + [e], m[e.key := e.val])
  {
    var t := s + [e];
    forall k | k in m || k == e.key
      ensures HasKey(t, k)
    {
      if k == e.key {
        assert t[|s|].key == k;
      } else {
        var i :| 0 <= i < |s| && s[i].key == k;
        assert t[i].key == k;
      }
    }
  }

  lemma RepresentsUpdate<K, V>(s: seq<Entry<K, V>>, m: map<K, V>, i: nat, v: V)
    requires Represents(s, m) && i < |s|
    ensures Represents(s[i := Entry(s[i].key, v)], m[s[i].key := v])
  {
    var t := s[i := Entry(s[i].key, v)];
    assert forall j :: 0 <= j < |s| ==> t[j].key == s[j].key;
    forall k | k in m
      ensures HasKey(t, k)
    {
      var j :| 0 <= j < |s| && s[j].key == k;
      assert t[j].key == k;
    }
  }

  lemma RepresentsRemove<K, V>(s: seq<Entry<K, V>>, m: map<K, V>, i: nat)
    requires Represents(s, m) && i < |s|
    ensures Represents(SwapRemove(s, i), m - {s[i].key})
  {
    var t, last := SwapRemove(s, i), |s| - 1;
    assert forall j :: 0 <= j < |t| ==> t[j] == s[if j == i then last else j];
    forall k | k in m && k != s[i].key
      ensures HasKey(t, k)
    {
      var j :| 0 <= j < |s| && s[j].key == k;
      assert t[if j == last then i else j].key == k;
    }
  }

  // ----- Inserting a range -----

  ghost predicate FirstAt<K, V>(entries: seq<Entry<K, V>>, i: nat)
    requires i < |entries|
  {
    forall j :: 0 <= j < i ==> entries[j].key != entries[i].key
  }

  /** Keys that were there keep their values; every other key of the range gets the value of its first occurrence. */
  ghost predicate Gains<K, V>(before: map<K, V>, entries: seq<Entry<K, V>>, after: map<K, V>)
  {
    && (forall k :: k in before ==> k in after && after[k] == before[k])
    && (forall i :: 0 <= i < |entries| ==> entries[i].key in after)
    && (forall i :: 0 <= i < |entries| && entries[i].key !in before && FirstAt(entries, i) ==>
                      after[entries[i].key] == entries[i].val)
    && (forall k :: k in after ==> k in before || HasKey(entries, k))
  }

  lemma GainsNothing<K, V>(m: map<K, V>)
    ensures Gains(m, [], m)
  {
  }

  lemma GainsNext<K, V>(before: map<K, V>, entries: seq<Entry<K, V>>, n: nat, m: map<K, V>)
    requires n < |entries| && Gains(before, entries[..n], m)
    ensures var e := entries[n];
            Gains(before, entries[..n + 1], if e.key in m then m else m[e.key := e.val])
  {
    var e, longer := entries[n], entries[..n + 1];
    var after := if e.key in m then m else m[e.key := e.val];
    assert longer[n] == e && forall i :: 0 <= i < n ==> longer[i] == entries[..n][i];
    forall i | 0 <= i <= n && longer[i].key !in before && FirstAt(longer, i)
      ensures after[longer[i].key] == longer[i].val
    {
      if i < n {
        assert FirstAt(entries[..n], i);
      }
    }
    forall k | k in after
      ensures k in before || HasKey(longer, k)
    {
      if k in m && k !in before {
        var i :| 0 <= i < n && entries[..n][i].key == k;
        assert longer[i].key == k;
      }
    }
  }

  // ----- Erasing while iterating over the array form -----

  /** The entries met by a loop that erases what drop selects and goes on with the returned iterator. */
  function Visited<T>(s: seq<T>, i: nat, drop: T -> bool): seq<T>
    requires i <= |s|
    decreases |s| - i
  {
    if i == |s| then []
    else if drop(s[i]) then [s[i]] + Visited(SwapRemove(s, i), i, drop)
    else [s[i]] + Visited(s, i + 1, drop)
  }

  lemma VisitedStep<T>(visited: seq<T>, s: seq<T>, i: nat, drop: T -> bool)
    requires i < |s|
    ensures var t, j := if drop(s[i]) then SwapRemove(s, i) else s, if drop(s[i]) then i else i + 1;
            && visited + Visited(s, i, drop) == visited + [s[i]] + Visited(t, j, drop)
            && Remaining(s, i, drop) == Remaining(t, j, drop)
  {
  }

  lemma VisitedEnd<T>(visited: seq<T>, s: seq<T>, drop: T -> bool)
    ensures visited + Visited(s, |s|, drop) == visited && Remaining(s, |s|, drop) == s
  {
  }

  /** What is left when that loop ends. */
  function Remaining<T>(s: seq<T>, i: nat, drop: T -> bool): seq<T>
    requires i <= |s|
    decreases |s| - i
  {
    if i == |s| then s
    else if drop(s[i]) then Remaining(SwapRemove(s, i), i, drop)
    else Remaining(s, i + 1, drop)
  }

  /** Taking the last element only drops it. */
  lemma LastRemoved<T>(s: seq<T>, i: nat)
    requires i < |s|
    ensures var last := |s| - 1;
            SwapRemove(s, last)[i..] == s[i..last] && s[i..] == s[i..last] + [s[last]] &&
              SwapRemove(s, last)[..i] == s[..i]
  {
  }

  /** Taking an element before the last one puts the last one in its place. */
  lemma InnerRemoved<T>(s: seq<T>, i: nat, k: nat)
    requires i <= k < |s| - 1
    ensures var last := |s| - 1;
            && SwapRemove(s, k)[i..] == s[i..k] + [s[last]] + s[k + 1..last]
            && s[i..] == s[i..k] + [s[k]] + s[k + 1..last] + [s[last]]
            && SwapRemove(s, k)[..i] == s[..i]
  {
  }

  lemma RemovedOnce<T>(s: seq<T>, i: nat, k: nat)
    requires i <= k < |s|
    ensures multiset(s[i..]) == multiset{s[k]} + multiset(SwapRemove(s, k)[i..])
    ensures SwapRemove(s, k)[..i] == s[..i]
  {
    hide SwapRemove;
    if k < |s| - 1 {
      InnerRemoved(s, i, k);
    } else {
      LastRemoved(s, i);
    }
  }

  lemma ConsMultiset<T>(x: T, s: seq<T>)
    ensures multiset([x] + s) == multiset{x} + multiset(s)
  {
  }

  /** Although erasing moves the last entry into the gap, every entry is visited exactly once. */
  lemma {:induction false} VisitsEachOnce<T>(s: seq<T>, i: nat, drop: T -> bool)
    requires i <= |s|
    ensures multiset(Visited(s, i, drop)) == multiset(s[i..])
    decreases |s| - i
  {
    hide SwapRemove, Visited;
    VisitedStart(s, i, drop);
    if i == |s| {
    } else if drop(s[i]) {
      VisitsEachOnce(SwapRemove(s, i), i, drop);
      ConsMultiset(s[i], Visited(SwapRemove(s, i), i, drop));
      RemovedOnce(s, i, i);
    } else {
      VisitsEachOnce(s, i + 1, drop);
      ConsMultiset(s[i], Visited(s, i + 1, drop));
      ConsMultiset(s[i], s[i + 1..]);
      assert s[i..] == [s[i]] + s[i + 1..];
    }
  }

  lemma VisitedStart<T>(s: seq<T>, i: nat, drop: T -> bool)
    requires i <= |s|
    ensures Visited(s, i, drop) == if i == |s| then [] else
              [s[i]] + if drop(s[i]) then Visited(SwapRemove(s, i), i, drop) else Visited(s, i + 1, drop)
  {
  }

  /** And exactly the entries that drop rejects survive, each as often as before. */
  lemma {:induction false} KeepsTheRest<T>(s: seq<T>, i: nat, drop: T -> bool, x: T)
    requires i <= |s| && forall j :: 0 <= j < i ==> !drop(s[j])
    ensures multiset(Remaining(s, i, drop))[x] == if drop(x) then 0 else multiset(s)[x]
    decreases |s| - i
  {
    if i == |s| {
      assert x in multiset(s) <==> x in s;
    } else if drop(s[i]) {
      RemovedOnce(s, 0, i);
      RemovedOnce(s, i, i);
      assert s[0..] == s && SwapRemove(s, i)[0..] == SwapRemove(s, i);
      forall j | 0 <= j < i
        ensures !drop(SwapRemove(s, i)[j])
      {
        assert SwapRemove(s, i)[..i][j] == s[..i][j];
      }
      KeepsTheRest(SwapRemove(s, i), i, drop, x);
    } else {
      KeepsTheRest(s, i + 1, drop, x);
    }
  }

  // ----- The container -----

  /** An iterator of the array form or of the real map; the real map's end has no key. */
  datatype Iterator<K> = ArrayIter(i: nat) | MapIter(key: Option<K>)

  /** Such an order leads from key to key of the map, and never to the same one. */
  ghost predicate LeadsOn<K(!new), V(!new)>(following: (map<K, V>, K) -> Option<K>)
  {
    forall m, k :: k in m && following(m, k).Some? ==> following(m, k).value in m && following(m, k).value != k
  }

  class Map<K(==, !new), V(!new)> {
    const arraySize: nat
    const blank: V
    // The key behind a given one in the order of the real map, None at its end.
    const following: (map<K, V>, K) -> Option<K>
    var size: int
    var slots: array<Slot<Entry<K, V>>>
    var realMap: map<K, V>
    ghost var contents: map<K, V>

    ghost predicate Valid()
      reads this, slots
    {
      && 0 < arraySize == slots.Length
      && LeadsOn(following)
      && -1 <= size <= arraySize
      && AllDead(slots, if size < 0 then 0 else size, arraySize)
      && (if size < 0 then contents == realMap
          else AllLive(slots, 0, size) && Represents(Entries(), contents))
    }

    /** The entries of the array form, in the order of iteration. */
    ghost function Entries(): (s: seq<Entry<K, V>>)
      requires 0 <= size <= slots.Length && AllLive(slots, 0, size)
      reads this, slots
      ensures |s| == size && forall i :: 0 <= i < size ==> slots[i] == Live(s[i])
    {
      Values(slots[..size])
    }

    ghost predicate Denotes(it: Iterator<K>, k: K)
      requires Valid()
      reads this, slots
    {
      k in contents &&
      match it
      case ArrayIter(i) => 0 <= i < size && slots[i].value.key == k
      case MapIter(key) => size < 0 && key == Some(k)
    }

    predicate IsEnd(it: Iterator<K>)
      reads this
    {
      if size >= 0 then it == ArrayIter(size) else it == MapIter(None)
    }

    /** blank is the value that default construction of the mapped type gives. */
    constructor (arraySize: nat, blank: V, following: (map<K, V>, K) -> Option<K>)
      requires arraySize > 0 && LeadsOn(following)
      ensures Valid() && contents == map[] && size == 0 && fresh(slots)
      ensures this.arraySize == arraySize && this.blank == blank && this.following == following
    {
      this.arraySize, this.blank, this.following := arraySize, blank, following;
      size, realMap, contents := 0, map[], map[];
      slots := new Slot<Entry<K, V>>[arraySize](_ => Dead);
    }

    method Find(key: K) returns (it: Iterator<K>)
      requires Valid()
      ensures if key in contents then Denotes(it, key) else IsEnd(it)
    {
      if size < 0 {
        return MapIter(if key in realMap then Some(key) else None);
      }
      for i := 0 to size
        invariant forall j :: 0 <= j < i ==> slots[j].value.key != key
      {
        if slots[i].value.key == key {
          return ArrayIter(i);
        }
      }
      it := ArrayIter(size);
    }

    method Count(key: K) returns (n: nat)
      requires Valid()
      ensures n == if key in contents then 1 else 0
    {
      var it := Find(key);
      n := if IsEnd(it) then 0 else 1;
    }

    /** The number of entries of the plain map, in either form. */
    method Size() returns (n: nat)
      requires Valid()
      ensures n == |contents|
    {
      if size >= 0 {
        CountEntries(Entries(), contents);
        n := size;
      } else {
        n := |realMap|;
      }
    }

    /** Moves all the entries from the full array into a new real map. */
    method ConvertToRealMap()
      requires Valid() && size == arraySize
      modifies this`size, this`realMap, slots
      ensures Valid() && size == -1 && contents == old(contents)
    {
      hide Represents, UniqueKeys, Values;
      ghost var entries := Entries();
      UniqueIn(entries, contents);
      var temp := MoveOut();
      size := -1;
      realMap := InsertMoved(temp, entries);
      SameMap(entries, realMap, contents);
      Release(temp);
    }

    /** Moves the entries of the full array into a temporary one. */
    method MoveOut() returns (temp: array<Slot<Entry<K, V>>>)
      requires 0 <= size == slots.Length && AllLive(slots, 0, size)
      modifies slots
      ensures fresh(temp) && temp.Length == slots.Length
      ensures forall j :: 0 <= j < temp.Length ==> temp[j] == old(slots[j])
      ensures AllDead(slots, 0, slots.Length)
    {
      temp := Allocate<Entry<K, V>>(slots.Length);
      MoveRange(slots, 0, slots.Length, temp, 0);
    }

    /** Inserts the moved entries into a new real map one by one. */
    method InsertMoved(temp: array<Slot<Entry<K, V>>>, ghost entries: seq<Entry<K, V>>) returns (m: map<K, V>)
      requires |entries| == temp.Length && UniqueKeys(entries)
      requires forall j :: 0 <= j < temp.Length ==> temp[j] == Live(entries[j])
      modifies temp
      ensures AllDead(temp, 0, temp.Length) && Represents(entries, m)
    {
      m := map[];
      for i := 0 to temp.Length
        invariant forall j :: i <= j < temp.Length ==> temp[j] == Live(entries[j])
        invariant forall j :: 0 <= j < i ==> temp[j] == Dead
        invariant Represents(entries[..i], m)
      {
        var e := temp[i].value;
        assert entries[..i + 1] == entries[..i] + [e];
        NotYet(entries, i, m);
        RepresentsPush(entries[..i], m, e);
        if e.key !in m {
          m := m[e.key := e.val];
        }
        DestructRange(temp, i, i + 1);
      }
      assert entries[..temp.Length] == entries;
    }

    /** The element of a key, with a blank value if there was none. */
    method Subscript(key: K) returns (it: Iterator<K>)
      requires Valid()
      modifies this`size, this`realMap, this`contents, slots
      ensures Valid() && contents == if key in old(contents) then old(contents) else old(contents)[key := blank]
      ensures Denotes(it, key)
    {
      if size >= 0 {
        var i := size - 1;
        while i >= 0
          invariant -1 <= i < size
          invariant forall j :: i < j < size ==> slots[j].value.key != key
        {
          if slots[i].value.key == key {
            return ArrayIter(i);
          }
          i := i - 1;
        }
        assert key !in contents;
        if size == arraySize {
          ConvertToRealMap();
          if key !in realMap {
            realMap := realMap[key := blank];
          }
          contents := contents[key := blank];
          return MapIter(Some(key));
        }
        Append(Entry(key, blank));
        return ArrayIter(size - 1);
      }
      if key !in realMap {
        realMap := realMap[key := blank];
        contents := contents[key := blank];
      }
      it := MapIter(Some(key));
    }

    /** Writes through an iterator or a reference. */
    method Store(it: Iterator<K>, ghost key: K, v: V)
      requires Valid() && Denotes(it, key)
      modifies this`realMap, this`contents, slots
      ensures Valid() && contents == old(contents)[key := v]
    {
      match it {
        case ArrayIter(i) =>
          ghost var entries := Entries();
          slots[i] := Live(Entry(slots[i].value.key, v));
          RepresentsUpdate(entries, contents, i, v);
          assert Entries() == entries[i := Entry(key, v)];
        case MapIter(k) =>
          realMap := realMap[k.value := v];
      }
      contents := contents[key := v];
    }

    /** Constructs an entry behind the last one of the array. */
    method Append(e: Entry<K, V>)
      requires Valid() && 0 <= size < arraySize && e.key !in contents
      modifies this`size, this`contents, slots
      ensures Valid() && contents == old(contents)[e.key := e.val]
      ensures size == old(size) + 1 && slots[size - 1] == Live(e)
    {
      ghost var entries := Entries();
      Construct(slots, size, e);
      size := size + 1;
      RepresentsPush(entries, contents, e);
      assert Entries() == entries + [e];
      contents := contents[e.key := e.val];
    }

    /** Inserts an entry unless its key is there already. */
    method Insert(e: Entry<K, V>) returns (it: Iterator<K>, inserted: bool)
      requires Valid()
      modifies this`size, this`realMap, this`contents, slots
      ensures Valid() && inserted == (e.key !in old(contents))
      ensures contents == if inserted then old(contents)[e.key := e.val] else old(contents)
      ensures Denotes(it, e.key)
    {
      if size >= 0 {
        for i := 0 to size
          invariant forall j :: 0 <= j < i ==> slots[j].value.key != e.key
        {
          if slots[i].value.key == e.key {
            return ArrayIter(i), false;
          }
        }
        assert e.key !in contents;
        if size == arraySize {
          ConvertToRealMap();
          it, inserted := InsertReal(e);
        } else {
          Append(e);
          it, inserted := ArrayIter(size - 1), true;
        }
      } else {
        it, inserted := InsertReal(e);
      }
    }

    method InsertReal(e: Entry<K, V>) returns (it: Iterator<K>, inserted: bool)
      requires Valid() && size < 0
      modifies this`realMap, this`contents
      ensures Valid() && inserted == (e.key !in old(contents))
      ensures contents == if inserted then old(contents)[e.key := e.val] else old(contents)
      ensures Denotes(it, e.key)
    {
      inserted := e.key !in realMap;
      if inserted {
        realMap := realMap[e.key := e.val];
        contents := contents[e.key := e.val];
      }
      it := MapIter(Some(e.key));
    }

    /** Inserts the entries one after the other. */
    method InsertRange(entries: seq<Entry<K, V>>)
      requires Valid()
      modifies this`size, this`realMap, this`contents, slots
      ensures Valid() && Gains(old(contents), entries, contents)
    {
      hide Gains;
      GainsNothing(contents);
      assert entries[..0] == [];
      for n := 0 to |entries|
        invariant Valid() && Gains(old(contents), entries[..n], contents)
      {
        GainsNext(old(contents), entries, n, contents);
        var _, _ := Insert(entries[n]);
      }
      assert entries[..|entries|] == entries;
    }

    /**
     Removes the entry at it. In the array form the last entry takes its place, and the
     returned iterator denotes that one; in the map form it denotes the entry that followed, or the end.
     */
    method EraseAt(it: Iterator<K>, ghost key: K) returns (next: Iterator<K>)
      requires Valid() && Denotes(it, key)
      modifies this`size, this`realMap, this`contents, slots
      ensures Valid() && contents == old(contents) - {key} && (size < 0 <==> old(size) < 0)
      ensures size >= 0 ==> next == it && Entries() == SwapRemove(old(Entries()), it.i)
      ensures size >= 0 ==> size == old(size) - 1 && forall j :: 0 <= j < size ==>
                Entries()[j] == old(Entries())[if j == it.i then size else j]
      ensures size < 0 ==> next == MapIter(following(old(contents), key))
      ensures IsEnd(next) || exists k :: Denotes(next, k)
    {
      match it {
        case ArrayIter(i) =>
          EraseSlot(i);
          next := it;
          assert i < size ==> Denotes(next, Entries()[i].key);
        case MapIter(k) =>
          next := MapIter(following(realMap, k.value));
          realMap := realMap - {k.value};
          contents := contents - {key};
          assert next.key.Some? ==> Denotes(next, next.key.value);
      }
    }

    /** Destroys entry i of the array form and moves the last entry into the gap. */
    method EraseSlot(i: nat)
      requires Valid() && i < size
      modifies this`size, this`contents, slots
      ensures Valid() && size == old(size) - 1
      ensures contents == old(contents) - {old(Entries())[i].key}
      ensures Entries() == SwapRemove(old(Entries()), i)
    {
      hide Represents, UniqueKeys;
      ghost var entries := Entries();
      RepresentsRemove(entries, contents, i);
      DestructRange(slots, i, i + 1);
      size := size - 1;
      if i != size {
        MoveOne(slots, size, i);
      }
      contents := contents - {entries[i].key};
      assert Entries() == SwapRemove(entries, i);
    }

    /** The entry that an iterator of the array form denotes. */
    method Deref(it: Iterator<K>) returns (e: Entry<K, V>)
      requires Valid() && size >= 0 && it.ArrayIter? && it.i < size
      ensures e == Entries()[it.i] && Denotes(it, e.key)
    {
      e := slots[it.i].value;
      assert Entries()[it.i] == e;
    }

    /** A loop over the array form that erases what drop selects and goes on with the iterator erase returns. */
    method EraseMatching(drop: Entry<K, V> -> bool) returns (visited: seq<Entry<K, V>>)
      requires Valid() && size >= 0
      modifies this`size, this`realMap, this`contents, slots
      ensures Valid() && size >= 0
      ensures visited == Visited(old(Entries()), 0, drop)
      ensures Entries() == Remaining(old(Entries()), 0, drop)
    {
      hide Visited, Remaining, SwapRemove, Represents, Values;
      visited := [];
      var it := ArrayIter(0);
      ghost var entries := Entries();
      while !IsEnd(it)
        invariant Valid() && size >= 0 && it.ArrayIter? && it.i <= size && entries == Entries()
        invariant visited + Visited(entries, it.i, drop) == Visited(old(Entries()), 0, drop)
        invariant Remaining(entries, it.i, drop) == Remaining(old(Entries()), 0, drop)
        decreases size - it.i
      {
        VisitedStep(visited, entries, it.i, drop);
        var e;
        e, it := VisitAndAdvance(it, drop);
        visited := visited + [e];
        entries := Entries();
      }
      VisitedEnd(visited, entries, drop);
    }

    /** The body of that loop: it looks at an entry, and erases it or moves on. */
    method VisitAndAdvance(it: Iterator<K>, drop: Entry<K, V> -> bool) returns (e: Entry<K, V>, next: Iterator<K>)
      requires Valid() && size >= 0 && it.ArrayIter? && it.i < size
      modifies this`size, this`realMap, this`contents, slots
      ensures Valid() && size >= 0 && next.ArrayIter? && e == old(Entries())[it.i]
      ensures Entries() == if drop(e) then SwapRemove(old(Entries()), it.i) else old(Entries())
      ensures next.i == if drop(e) then it.i else it.i + 1
    {
      e := Deref(it);
      if drop(e) {
        next := EraseAt(it, e.key);
      } else {
        next := ArrayIter(it.i + 1);
      }
    }

    method EraseKey(key: K) returns (n: nat)
      requires Valid()
      modifies this`size, this`realMap, this`contents, slots
      ensures Valid() && contents == old(contents) - {key}
      ensures n == if key in old(contents) then 1 else 0
    {
      var it := Find(key);
      if IsEnd(it) {
        return 0;
      }
      var _ := EraseAt(it, key);
      return 1;
    }

    /** Removes everything; the array form is in use again. */
    method Clear()
      requires Valid()
      modifies this`size, this`realMap, this`contents, slots
      ensures Valid() && contents == map[] && size == 0
    {
      if size >= 0 {
        DestructRange(slots, 0, size);
      } else {
        realMap := map[];
      }
      size, contents := 0, map[];
    }

    /** Copies another map, in the form that one has, into this empty one. */
    method InitFrom(src: Map<K, V>)
      requires Valid() && size == 0 && src.Valid() && src.slots != slots && src.arraySize == arraySize
      modifies this, slots
      ensures Valid() && contents == src.contents && size == src.size && slots == old(slots)
      ensures size >= 0 ==> Entries() == src.Entries()
    {
      size := src.size;
      if src.size >= 0 {
        for i := 0 to src.size
          invariant slots == old(slots) && size == src.size && src.size <= arraySize
          invariant forall j :: 0 <= j < arraySize ==> slots[j] == if j < i then src.slots[j] else Dead
          modifies slots
        {
          Construct(slots, i, src.slots[i].value);
        }
        assert Entries() == src.Entries();
      } else {
        realMap := src.realMap;
      }
      contents := src.contents;
    }

    method Assign(src: Map<K, V>)
      requires Valid() && src.Valid() && src.arraySize == arraySize
      requires src != this ==> src.slots != slots
      modifies this, slots
      ensures Valid() && contents == old(src.contents)
    {
      if src == this {
        return;
      }
      Clear();
      InitFrom(src);
    }
  }

  lemma NotYet<K, V>(entries: seq<Entry<K, V>>, i: nat, m: map<K, V>)
    requires UniqueKeys(entries) && i < |entries| && Represents(entries[..i], m)
    ensures entries[i].key !in m
  {
    forall j | 0 <= j < i
      ensures entries[..i][j].key != entries[i].key
    {
      assert entries[..i][j] == entries[j];
    }
  }

  lemma UniqueIn<K, V>(s: seq<Entry<K, V>>, m: map<K, V>)
    requires Represents(s, m)
    ensures UniqueKeys(s)
  {
  }

  lemma SameMap<K, V>(s: seq<Entry<K, V>>, m: map<K, V>, m': map<K, V>)
    requires Represents(s, m) && Represents(s, m')
    ensures m == m'
  {
    forall k | k in m
      ensures k in m' && m'[k] == m[k]
    {
      var i :| 0 <= i < |s| && s[i].key == k;
    }
    forall k | k in m'
      ensures k in m
    {
      var i :| 0 <= i < |s| && s[i].key == k;
    }
  }

  lemma {:induction false} CountEntries<K, V>(s: seq<Entry<K, V>>, m: map<K, V>)
    requires Represents(s, m)
    ensures |m| == |s|
    decreases |s|
  {
    if s == [] {
      assert m == map[];
    } else {
      var last := |s| - 1;
      RepresentsRemove(s, m, last);
      CountEntries(s[..last], m - {s[last].key});
      assert m.Keys == (m - {s[last].key}).Keys + {s[last].key};
    }
  }
}

/**
 The slots of an observer list and its steps, as values. A live iterator keeps every slot
 in its place: removed observers leave a null, and the nulls go away when the last
 iterator does.
 */
module ObserverSlots {
  import opened Common

  /** One past the last slot an iterator may reach; Unlimited stands for the largest size_t. */
  datatype Limit = Unlimited | UpTo(n: nat)

  function Clamped(limit: Limit, size: nat): (max: nat)
    ensures max <= size
  {
    match limit
    case Unlimited => size
    case UpTo(n) => if n < size then n else size
  }

  // ----- The slots of a list -----

  predicate Has<O(==)>(slots: seq<Option<O>>, o: O)
  {
    Some(o) in slots
  }

  /** No observer is registered twice. */
  ghost predicate Distinct<O>(slots: seq<Option<O>>)
  {
    forall i, j :: 0 <= i < j < |slots| && slots[i].Some? ==> slots[i] != slots[j]
  }

  ghost predicate NoNulls<O>(slots: seq<Option<O>>)
  {
    forall i :: 0 <= i < |slots| ==> slots[i].Some?
  }

  function SlotOf<O(==)>(slots: seq<Option<O>>, o: O): (i: nat)
    requires Has(slots, o)
    ensures i < |slots| && slots[i] == Some(o)
  {
    if slots[0] == Some(o) then 0 else 1 + SlotOf(slots[1..], o)
  }

  function Added<O(==)>(slots: seq<Option<O>>, o: O): seq<Option<O>>
  {
    if Has(slots, o) then slots else slots + [Some(o)]
  }

  /** Removing leaves a null while an iterator is live, and closes the gap otherwise. */
  function Removed<O(==)>(slots: seq<Option<O>>, o: O, live: bool): seq<Option<O>>
  {
    if !Has(slots, o) then slots
    else if live then slots[SlotOf(slots, o) := None]
    else slots[..SlotOf(slots, o)] + slots[SlotOf(slots, o) + 1..]
  }

  function Cleared<O>(slots: seq<Option<O>>, live: bool): seq<Option<O>>
  {
    if live then seq(|slots|, _ => None) else []
  }

  /** The observers that are left, in their order. */
  function Compacted<O>(slots: seq<Option<O>>): (r: seq<Option<O>>)
    ensures |r| <= |slots| && NoNulls(r)
  {
    if slots == [] then []
    else
      var before := Compacted(slots[..|slots| - 1]);
      if slots[|slots| - 1].None? then before else before + [slots[|slots| - 1]]
  }

  /** The first slot from i on that is not null, or max. */
  function FirstValid<O>(slots: seq<Option<O>>, i: nat, max: nat): (r: nat)
    requires max <= |slots|
    ensures i <= r
    ensures i <= max ==> r <= max
    ensures forall j :: i <= j < r ==> j < max && slots[j].None?
    ensures r < max ==> slots[r].Some?
    decreases max - i
  {
    if i < max && slots[i].None? then FirstValid(slots, i + 1, max) else i
  }

  /** What may happen to the slots while an iterator is live: growth at the end, and slots becoming null. */
  ghost predicate Evolves<O>(before: seq<Option<O>>, after: seq<Option<O>>)
  {
    && |before| <= |after|
    && forall i :: 0 <= i < |before| ==> after[i] == before[i] || after[i].None?
  }

  /** The old slots stay where they are, and exactly one is added if the observer was not registered. */
  lemma AddedKeeps<O>(slots: seq<Option<O>>, o: O)
    requires Distinct(slots)
    ensures Distinct(Added(slots, o)) && Evolves(slots, Added(slots, o)) && Has(Added(slots, o), o)
    ensures NoNulls(slots) ==> NoNulls(Added(slots, o))
    ensures slots <= Added(slots, o) && |Added(slots, o)| == |slots| + if Has(slots, o) then 0 else 1
  {
    assert !Has(slots, o) ==> Added(slots, o)[|slots|] == Some(o);
  }

  /** The slots are the old ones, but where o stood there is a null. */
  ghost predicate NullFor<O>(slots: seq<Option<O>>, after: seq<Option<O>>, o: O)
  {
    && |after| == |slots|
    && forall i :: 0 <= i < |slots| ==> after[i] == if slots[i] == Some(o) then None else slots[i]
  }

  /** The slots are the old ones without the one of o. */
  ghost predicate Without<O>(slots: seq<Option<O>>, after: seq<Option<O>>, o: O)
  {
    if Some(o) in slots then exists i :: 0 <= i < |slots| && slots[i] == Some(o) && after == slots[..i] + slots[i + 1..]
    else after == slots
  }

  /** Removing an observer takes nobody else out and moves no slot while an iterator is live. */
  lemma RemovedKeeps<O>(slots: seq<Option<O>>, o: O, live: bool)
    requires Distinct(slots)
    ensures Distinct(Removed(slots, o, live)) && !Has(Removed(slots, o, live), o)
    ensures live ==> Evolves(slots, Removed(slots, o, live)) && NullFor(slots, Removed(slots, o, live), o)
    ensures !live ==> Without(slots, Removed(slots, o, live), o)
    ensures !live && NoNulls(slots) ==> NoNulls(Removed(slots, o, live))
    ensures forall x :: x != o ==> (Has(Removed(slots, o, live), x) <==> Has(slots, x))
  {
    hide Removed;
    RemovedShape(slots, o, live);
    if Has(slots, o) && !live {
      DroppedKeeps(slots, SlotOf(slots, o));
    } else {
      var r := Removed(slots, o, live);
      assert forall j :: 0 <= j < |slots| && slots[j] != Some(o) ==> r[j] == slots[j];
    }
  }

  lemma DroppedKeeps<O>(slots: seq<Option<O>>, i: nat)
    requires Distinct(slots) && i < |slots| && slots[i].Some?
    ensures var r := slots[..i] + slots[i + 1..];
            && Distinct(r) && slots[i] !in r && (NoNulls(slots) ==> NoNulls(r))
            && forall x :: x != slots[i] ==> (x in r <==> x in slots)
  {
    var r := slots[..i] + slots[i + 1..];
    assert forall j :: 0 <= j < |r| ==> r[j] == slots[if j < i then j else j + 1];
    forall x | x in slots && x != slots[i]
      ensures x in r
    {
      var j :| 0 <= j < |slots| && slots[j] == x;
      assert r[if j < i then j else j - 1] == x;
    }
  }

  lemma RemovedShape<O>(slots: seq<Option<O>>, o: O, live: bool)
    requires Distinct(slots)
    ensures var r := Removed(slots, o, live);
            if live || !Has(slots, o) then NullFor(slots, r, o)
            else r == slots[..SlotOf(slots, o)] + slots[SlotOf(slots, o) + 1..]
  {
  }

  lemma ClearedKeeps<O>(slots: seq<Option<O>>, live: bool)
    ensures Distinct(Cleared(slots, live)) && (live ==> Evolves(slots, Cleared(slots, live)))
    ensures !live ==> NoNulls(Cleared(slots, live))
    ensures |Cleared(slots, live)| == (if live then |slots| else 0) && forall x :: !Has(Cleared(slots, live), x)
  {
  }

  lemma {:induction false} CompactedMember<O>(slots: seq<Option<O>>, x: Option<O>)
    ensures x in Compacted(slots) <==> x.Some? && x in slots
    decreases |slots|
  {
    if slots == [] {
    } else {
      CompactedMember(slots[..|slots| - 1], x);
      assert slots == slots[..|slots| - 1] + [slots[|slots| - 1]];
    }
  }

  lemma {:induction false} CompactedDistinct<O>(slots: seq<Option<O>>)
    requires Distinct(slots)
    ensures Distinct(Compacted(slots))
    decreases |slots|
  {
    if slots == [] {
    } else {
      var init, last := slots[..|slots| - 1], slots[|slots| - 1];
      CompactedDistinct(init);
      if last.Some? {
        CompactedMember(init, last);
        assert last !in init;
      }
    }
  }

  lemma {:induction false} CompactedSame<O>(slots: seq<Option<O>>)
    requires NoNulls(slots)
    ensures Compacted(slots) == slots
    decreases |slots|
  {
    if slots == [] {
    } else {
      CompactedSame(slots[..|slots| - 1]);
    }
  }

  lemma {:induction false} SlotOfAppend<O>(slots: seq<Option<O>>, x: Option<O>, o: O)
    requires Has(slots, o)
    ensures Has(slots + [x], o) && SlotOf(slots + [x], o) == SlotOf(slots, o)
    decreases |slots|
  {
    assert (slots + [x])[SlotOf(slots, o)] == Some(o);
    if slots[0] != Some(o) {
      assert (slots + [x])[1..] == slots[1..] + [x];
      SlotOfAppend(slots[1..], x, o);
    }
  }

  lemma {:induction false} SlotOfLast<O>(slots: seq<Option<O>>, o: O)
    requires !Has(slots, o)
    ensures Has(slots + [Some(o)], o) && SlotOf(slots + [Some(o)], o) == |slots|
    decreases |slots|
  {
    assert (slots + [Some(o)])[|slots|] == Some(o);
    if slots == [] {
    } else {
      assert (slots + [Some(o)])[1..] == slots[1..] + [Some(o)];
      SlotOfLast(slots[1..], o);
    }
  }

  /** Compacting keeps the survivors in their order. */
  lemma {:induction false} CompactedOrder<O>(slots: seq<Option<O>>, i: nat, j: nat, a: O, b: O)
    requires Distinct(slots) && i < j < |slots| && slots[i] == Some(a) && slots[j] == Some(b)
    ensures Has(Compacted(slots), a) && Has(Compacted(slots), b)
    ensures SlotOf(Compacted(slots), a) < SlotOf(Compacted(slots), b)
    decreases |slots|
  {
    var init, last := slots[..|slots| - 1], slots[|slots| - 1];
    assert init[i] == Some(a);
    CompactedMember(init, Some(a));
    if j == |slots| - 1 {
      CompactedMember(init, Some(b));
      assert Some(b) !in init;
      SlotOfLast(Compacted(init), b);
      SlotOfAppend(Compacted(init), last, a);
    } else {
      CompactedOrder(init, i, j, a, b);
      SlotOfAppend(Compacted(init), last, a);
      SlotOfAppend(Compacted(init), last, b);
    }
  }

  // ----- The steps of a list and its iterators -----

  datatype Cursor = Cursor(index: nat, limit: Limit)

  /** A list with its live iterators, named by values of type I; live_iterator_count_ is the number of cursors. */
  datatype State<I, O> =
    State(slots: seq<Option<O>>, policy: Policy, cursors: map<I, Cursor>, alive: bool)

  datatype Action<I, O> =
    | Add(o: O)
    | Remove(o: O)
    | Clear
    | Begin(id: I)
    | Copy(from: I, id: I)
    | Assign(to: I, from: I)
    | Increment(id: I)
    | Destroy(id: I)
    | DestroyList

  ghost predicate Inv<I, O>(st: State<I, O>)
  {
    && Distinct(st.slots)
    && (forall id :: id in st.cursors ==> st.cursors[id].index <= Clamped(st.cursors[id].limit, |st.slots|))
    && (st.cursors == map[] ==> NoNulls(st.slots))
  }

  function LimitOf<I, O>(st: State<I, O>): Limit
  {
    if st.policy == All then Unlimited else UpTo(|st.slots|)
  }

  predicate Enabled<I(==), O>(st: State<I, O>, a: Action<I, O>)
  {
    st.alive &&
    match a
    case Add(_) => true
    case Remove(_) => true
    case Clear => true
    case Begin(id) => id !in st.cursors
    case Copy(from, id) => from in st.cursors && id !in st.cursors
    case Assign(to, from) => to in st.cursors && from in st.cursors
    case Increment(id) => id in st.cursors && st.cursors[id].index < Clamped(st.cursors[id].limit, |st.slots|)
    case Destroy(id) => id in st.cursors
    case DestroyList => true
  }

  function Apply<I(==), O(==)>(st: State<I, O>, a: Action<I, O>): State<I, O>
    requires Enabled(st, a)
  {
    var live := st.cursors != map[];
    match a
    case Add(o) => st.(slots := Added(st.slots, o))
    case Remove(o) => st.(slots := Removed(st.slots, o, live))
    case Clear => st.(slots := Cleared(st.slots, live))
    case Begin(id) => st.(cursors := st.cursors[id := Cursor(FirstValid(st.slots, 0, |st.slots|), LimitOf(st))])
    case Copy(from, id) => st.(cursors := st.cursors[id := st.cursors[from]])
    case Assign(to, from) => st.(cursors := st.cursors[to := st.cursors[from]])
    case Increment(id) =>
      var c := st.cursors[id];
      var index := FirstValid(st.slots, c.index + 1, Clamped(c.limit, |st.slots|));
      st.(cursors := st.cursors[id := c.(index := index)])
    case Destroy(id) =>
      var left := st.cursors - {id};
      st.(cursors := left, slots := if left == map[] then Compacted(st.slots) else st.slots)
    case DestroyList => st.(alive := false)
  }

  /** The step may happen, and leads from one state to the other. */
  ghost predicate Steps<I, O>(st: State<I, O>, a: Action<I, O>, after: State<I, O>)
  {
    Enabled(st, a) && after == Apply(st, a)
  }
}

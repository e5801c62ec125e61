/**
 Notification passes over an observer list, as runs of a transition system. Callbacks may
 add, remove and clear observers, start nested passes, copy and assign iterators and
 destroy the list; each of these is a step between two arrivals of the pass's iterator.
 */
module ObserverPass {
  import opened Common
  import opened ObserverSlots

  // ----- What every step keeps -----

  lemma EvolvesTransitive<O>(a: seq<Option<O>>, b: seq<Option<O>>, c: seq<Option<O>>)
    requires Evolves(a, b) && Evolves(b, c)
    ensures Evolves(a, c)
  {
    forall i | 0 <= i < |a|
      ensures c[i] == a[i] || c[i].None?
    {
      assert b[i] == a[i] || b[i].None?;
    }
  }

  lemma ClampedGrows(limit: Limit, n: nat, m: nat)
    requires n <= m
    ensures Clamped(limit, n) <= Clamped(limit, m)
  {
  }

  /** While some iterator stays live, no slot moves; when the last one goes, the nulls go. */
  lemma SlotsEvolve<I, O>(st: State<I, O>, a: Action<I, O>)
    requires Inv(st) && Enabled(st, a)
    ensures var after := Apply(st, a);
            && Distinct(after.slots)
            && (st.cursors != map[] && after.cursors != map[] ==> Evolves(st.slots, after.slots))
            && (st.cursors != map[] && after.cursors == map[] ==> after.slots == Compacted(st.slots))
            && (after.cursors == map[] ==> NoNulls(after.slots))
  {
    match a
    case Add(o) => AddedKeeps(st.slots, o);
    case Remove(o) => RemovedKeeps(st.slots, o, st.cursors != map[]);
    case Clear => ClearedKeeps(st.slots, st.cursors != map[]);
    case Destroy(id) => CompactedDistinct(st.slots);
    case _ =>
  }

  lemma StepKeepsInv<I, O>(st: State<I, O>, a: Action<I, O>)
    requires Inv(st) && Enabled(st, a)
    ensures Inv(Apply(st, a))
  {
    hide Distinct, NoNulls, Compacted, Removed, Added, Cleared;
    SlotsEvolve(st, a);
    var after := Apply(st, a);
    forall id | id in after.cursors
      ensures after.cursors[id].index <= Clamped(after.cursors[id].limit, |after.slots|)
    {
      if id in st.cursors {
        assert Evolves(st.slots, after.slots);
        ClampedGrows(st.cursors[id].limit, |st.slots|, |after.slots|);
      }
      if a.Assign? {
        ClampedGrows(st.cursors[a.from].limit, |st.slots|, |after.slots|);
      }
    }
  }

  // ----- Runs -----

  ghost predicate AllEnabled<I, O>(st: State<I, O>, acts: seq<Action<I, O>>)
    decreases |acts|, 0
  {
    acts == [] ||
    (AllEnabled(st, acts[..|acts| - 1]) && Enabled(After(st, acts[..|acts| - 1]), acts[|acts| - 1]))
  }

  ghost function After<I, O>(st: State<I, O>, acts: seq<Action<I, O>>): State<I, O>
    requires AllEnabled(st, acts)
    decreases |acts|, 1
  {
    if acts == [] then st else Apply(After(st, acts[..|acts| - 1]), acts[|acts| - 1])
  }

  lemma {:induction false} RunKeepsInv<I, O>(st: State<I, O>, acts: seq<Action<I, O>>)
    requires Inv(st) && AllEnabled(st, acts)
    ensures Inv(After(st, acts))
    decreases |acts|
  {
    if acts == [] {
    } else {
      RunKeepsInv(st, acts[..|acts| - 1]);
      StepKeepsInv(After(st, acts[..|acts| - 1]), acts[|acts| - 1]);
    }
  }

  /** The slots and the index at the moment when the pass's iterator has found its next slot. */
  datatype Arrival<O> = Arrival(slots: seq<Option<O>>, index: nat)

  /** The iterator of the pass belongs to the pass: callbacks may copy it, but not replace or destroy it. */
  predicate Hijacks<I(==), O>(a: Action<I, O>, p: I)
  {
    match a
    case Begin(id) => id == p
    case Copy(_, id) => id == p
    case Assign(to, _) => to == p
    case Destroy(id) => id == p
    case _ => false
  }

  ghost predicate PassRun<I, O>(st: State<I, O>, p: I, acts: seq<Action<I, O>>)
  {
    && AllEnabled(st, acts)
    && acts != [] && acts[0] == Begin(p)
    && forall k :: 1 <= k < |acts| ==> !Hijacks(acts[k], p)
  }

  ghost function Arrivals<I, O>(st: State<I, O>, p: I, acts: seq<Action<I, O>>): (arrs: seq<Arrival<O>>)
    requires PassRun(st, p, acts)
    ensures arrs != []
    decreases |acts|
  {
    var after := After(st, acts);
    var here := if p in after.cursors then after.cursors[p].index else 0;
    if |acts| == 1 then [Arrival(after.slots, here)]
    else if acts[|acts| - 1] == Increment(p) then Arrivals(st, p, acts[..|acts| - 1]) + [Arrival(after.slots, here)]
    else Arrivals(st, p, acts[..|acts| - 1])
  }

  // ----- One pass, as its arrivals -----

  ghost predicate Inside<O>(arr: Arrival<O>, limit: Limit)
  {
    arr.index < Clamped(limit, |arr.slots|)
  }

  /** The loop compares the iterator with the end at every arrival, and goes on only inside. */
  ghost predicate StopsAtEnd<O>(arrs: seq<Arrival<O>>, limit: Limit)
  {
    forall t :: 0 <= t < |arrs| - 1 ==> Inside(arrs[t], limit)
  }

  /** The first arrival is at the first observer, each later one at the next slot that is not null by then. */
  ghost predicate IsPass<O>(arrs: seq<Arrival<O>>, limit: Limit)
  {
    && arrs != []
    && (forall t :: 0 <= t < |arrs| ==> Distinct(arrs[t].slots))
    && arrs[0].index == FirstValid(arrs[0].slots, 0, Clamped(limit, |arrs[0].slots|))
    && (forall t :: 1 <= t < |arrs| ==> Advances(arrs[t - 1], arrs[t], limit))
  }

  ghost predicate Advances<O>(before: Arrival<O>, after: Arrival<O>, limit: Limit)
  {
    && Inside(before, limit)
    && Evolves(before.slots, after.slots)
    && after.index == FirstValid(after.slots, before.index + 1, Clamped(limit, |after.slots|))
  }

  /** Every run of a pass gives such arrivals, whatever the callbacks do in between. */
  lemma {:induction false} RunArrives<I, O>(st: State<I, O>, p: I, acts: seq<Action<I, O>>)
    requires Inv(st) && PassRun(st, p, acts) && StopsAtEnd(Arrivals(st, p, acts), LimitOf(st))
    ensures var arrs, after := Arrivals(st, p, acts), After(st, acts);
            && IsPass(arrs, LimitOf(st)) && arrs[0].slots == st.slots
            && Evolves(arrs[|arrs| - 1].slots, after.slots)
            && p in after.cursors && after.cursors[p] == Cursor(arrs[|arrs| - 1].index, LimitOf(st))
    decreases |acts|
  {
    var init, last := acts[..|acts| - 1], acts[|acts| - 1];
    if |acts| == 1 {
      assert After(st, init) == st;
      assert Clamped(LimitOf(st), |st.slots|) == |st.slots|;
    } else {
      assert PassRun(st, p, init);
      var arrs, shorter := Arrivals(st, p, acts), Arrivals(st, p, init);
      assert forall t :: 0 <= t < |shorter| ==> arrs[t] == shorter[t];
      RunArrives(st, p, init);
      RunKeepsInv(st, init);
      assert acts == init + [last];
      assert last == Increment(p) ==> Inside(arrs[|shorter| - 1], LimitOf(st));
      PassStep(st, p, init, last);
    }
  }

  lemma ExtendPass<O>(arrs: seq<Arrival<O>>, limit: Limit, arr: Arrival<O>)
    requires IsPass(arrs, limit) && Advances(arrs[|arrs| - 1], arr, limit) && Distinct(arr.slots)
    ensures IsPass(arrs + [arr], limit)
  {
    var longer := arrs + [arr];
    forall t | 1 <= t < |longer|
      ensures Advances(longer[t - 1], longer[t], limit)
    {
      if t < |arrs| {
        assert Advances(arrs[t - 1], arrs[t], limit);
      }
    }
  }

  /** Other steps leave the pass's iterator where it is, and never move a slot. */
  lemma CursorStays<I, O>(st: State<I, O>, a: Action<I, O>, p: I)
    requires Inv(st) && Enabled(st, a) && p in st.cursors && !Hijacks(a, p)
    ensures var after := Apply(st, a);
            && Evolves(st.slots, after.slots) && Distinct(after.slots)
            && p in after.cursors && after.cursors[p].limit == st.cursors[p].limit
            && (a != Increment(p) ==> after.cursors[p] == st.cursors[p])
            && (a == Increment(p) ==> after.slots == st.slots)
  {
    hide Inv, NoNulls, Distinct, Added, Removed, Cleared, Compacted, FirstValid;
    SlotsEvolve(st, a);
    assert p in Apply(st, a).cursors;
  }

  lemma PassStep<I, O>(st: State<I, O>, p: I, init: seq<Action<I, O>>, last: Action<I, O>)
    requires PassRun(st, p, init) && PassRun(st, p, init + [last]) && Inv(After(st, init))
    requires var arrs, before := Arrivals(st, p, init), After(st, init);
             && IsPass(arrs, LimitOf(st)) && arrs[0].slots == st.slots
             && Evolves(arrs[|arrs| - 1].slots, before.slots)
             && p in before.cursors && before.cursors[p] == Cursor(arrs[|arrs| - 1].index, LimitOf(st))
             && (last == Increment(p) ==> Inside(arrs[|arrs| - 1], LimitOf(st)))
    ensures var arrs, after := Arrivals(st, p, init + [last]), After(st, init + [last]);
            && IsPass(arrs, LimitOf(st)) && arrs[0].slots == st.slots
            && Evolves(arrs[|arrs| - 1].slots, after.slots)
            && p in after.cursors && after.cursors[p] == Cursor(arrs[|arrs| - 1].index, LimitOf(st))
  {
    hide IsPass, Inv, Distinct, Evolves, NoNulls, Added, Removed, Cleared, Compacted, FirstValid;
    var acts := init + [last];
    assert acts[..|acts| - 1] == init && acts[|acts| - 1] == last;
    assert !Hijacks(acts[|acts| - 1], p);
    var before, after := After(st, init), After(st, acts);
    assert after == Apply(before, last);
    CursorStays(before, last, p);
    var arrs := Arrivals(st, p, init);
    EvolvesTransitive(arrs[|arrs| - 1].slots, before.slots, after.slots);
    if last == Increment(p) {
      var arr := Arrival(after.slots, after.cursors[p].index);
      IncrementAdvances(arrs[|arrs| - 1], before, p, arr);
      ExtendPass(arrs, LimitOf(st), arr);
      assert Arrivals(st, p, acts) == arrs + [arr];
    } else {
      assert Arrivals(st, p, acts) == arrs;
    }
  }

  lemma IncrementAdvances<I, O>(last: Arrival<O>, before: State<I, O>, p: I, arr: Arrival<O>)
    requires Enabled(before, Increment(p)) && Evolves(last.slots, before.slots) && before.cursors[p].index == last.index
    requires last.index < Clamped(before.cursors[p].limit, |last.slots|)
    requires arr == Arrival(before.slots, Apply(before, Increment(p)).cursors[p].index)
    ensures Advances(last, arr, before.cursors[p].limit)
  {
  }

  // ----- What a pass does -----

  /** At arrival t the pass calls o, which stands in slot j. */
  ghost predicate Calls<O>(arrs: seq<Arrival<O>>, limit: Limit, t: nat, j: nat, o: O)
  {
    t < |arrs| && Inside(arrs[t], limit) && arrs[t].index == j && arrs[t].slots[j] == Some(o)
  }

  /** The pass has come to its end. */
  ghost predicate Complete<O>(arrs: seq<Arrival<O>>, limit: Limit)
  {
    arrs != [] && !Inside(arrs[|arrs| - 1], limit)
  }

  /** Slots are met in increasing order, so observers are called in registration order and no slot twice. */
  lemma {:induction false} InOrder<O>(arrs: seq<Arrival<O>>, limit: Limit, s: nat, t: nat)
    requires IsPass(arrs, limit) && s < t < |arrs|
    ensures arrs[s].index < arrs[t].index
    decreases t - s
  {
    assert Advances(arrs[t - 1], arrs[t], limit);
    if s < t - 1 {
      InOrder(arrs, limit, s, t - 1);
    }
  }

  lemma {:induction false} Evolved<O>(arrs: seq<Arrival<O>>, limit: Limit, s: nat, t: nat)
    requires IsPass(arrs, limit) && s <= t < |arrs|
    ensures Evolves(arrs[s].slots, arrs[t].slots)
    decreases t - s
  {
    if s < t {
      Evolved(arrs, limit, s, t - 1);
      assert Advances(arrs[t - 1], arrs[t], limit);
      EvolvesTransitive(arrs[s].slots, arrs[t - 1].slots, arrs[t].slots);
    }
  }

  /** The first arrival at or behind slot j: the turn of that slot. */
  ghost function Turn<O>(arrs: seq<Arrival<O>>, j: nat): (t: nat)
    requires arrs != [] && arrs[|arrs| - 1].index >= j
    ensures t < |arrs| && arrs[t].index >= j && forall s :: 0 <= s < t ==> arrs[s].index < j
  {
    FirstAtOrBehind(arrs, j, 0)
  }

  ghost function FirstAtOrBehind<O>(arrs: seq<Arrival<O>>, j: nat, from: nat): (t: nat)
    requires from < |arrs| && arrs[|arrs| - 1].index >= j && forall s :: 0 <= s < from ==> arrs[s].index < j
    ensures t < |arrs| && arrs[t].index >= j && forall s :: 0 <= s < t ==> arrs[s].index < j
    decreases |arrs| - from
  {
    if arrs[from].index >= j then from else FirstAtOrBehind(arrs, j, from + 1)
  }

  lemma EmptyWhenPassed<O>(arrs: seq<Arrival<O>>, limit: Limit, j: nat)
    requires IsPass(arrs, limit) && arrs[|arrs| - 1].index >= j
    requires j < arrs[Turn(arrs, j)].index
    ensures j < |arrs[Turn(arrs, j)].slots| && arrs[Turn(arrs, j)].slots[j].None?
  {
    var t := Turn(arrs, j);
    if t > 0 {
      assert Advances(arrs[t - 1], arrs[t], limit);
    }
  }

  /**
   A complete pass calls what stands in a slot below the limit when the slot's turn comes,
   exactly once, and nothing if the slot is null by then.
   */
  lemma EverySlotHasItsTurn<O>(arrs: seq<Arrival<O>>, limit: Limit, j: nat)
    requires IsPass(arrs, limit) && Complete(arrs, limit) && j < Clamped(limit, |arrs[|arrs| - 1].slots|)
    ensures arrs[|arrs| - 1].index >= j && j < |arrs[Turn(arrs, j)].slots|
    ensures match arrs[Turn(arrs, j)].slots[j]
            case Some(o) => forall t: nat, x :: Calls(arrs, limit, t, j, x) <==> t == Turn(arrs, j) && x == o
            case None => forall t: nat, x :: !Calls(arrs, limit, t, j, x)
  {
    var turn := Turn(arrs, j);
    TurnIsWithin(arrs, limit, j);
    forall t: nat, x | Calls(arrs, limit, t, j, x)
      ensures t == turn
    {
      if turn < t {
        InOrder(arrs, limit, turn, t);
      }
    }
    if j < arrs[turn].index {
      EmptyWhenPassed(arrs, limit, j);
    }
  }

  lemma TurnIsWithin<O>(arrs: seq<Arrival<O>>, limit: Limit, j: nat)
    requires IsPass(arrs, limit) && Complete(arrs, limit) && j < Clamped(limit, |arrs[|arrs| - 1].slots|)
    ensures arrs[|arrs| - 1].index > j && j < |arrs[Turn(arrs, j)].slots|
    ensures arrs[Turn(arrs, j)].index == j ==> Inside(arrs[Turn(arrs, j)], limit)
  {
    var last, turn := |arrs| - 1, Turn(arrs, j);
    if arrs[turn].index > j {
      EmptyWhenPassed(arrs, limit, j);
    } else {
      assert turn < last;
      assert Advances(arrs[turn], arrs[turn + 1], limit);
    }
  }

  // ----- Whole passes -----

  /** A run of a pass up to its end. */
  ghost predicate FullPass<I, O>(st: State<I, O>, p: I, acts: seq<Action<I, O>>)
  {
    && Inv(st) && PassRun(st, p, acts)
    && StopsAtEnd(Arrivals(st, p, acts), LimitOf(st))
    && Complete(Arrivals(st, p, acts), LimitOf(st))
  }

  /** Nothing is called at a slot from which it was removed, and slots are not reused. */
  lemma CalledWhereRegistered<O>(arrs: seq<Arrival<O>>, limit: Limit, s: nat, t: nat, j: nat, o: O)
    requires IsPass(arrs, limit) && Calls(arrs, limit, t, j, o) && s <= t && j < |arrs[s].slots|
    ensures arrs[s].slots[j] == Some(o)
  {
    Evolved(arrs, limit, s, t);
  }

  /**
   An observer registered at the start is called at its slot if and only if it is still
   there when the slot's turn comes, and then exactly once.
   */
  lemma StartedObserversAreCalled<I, O>(st: State<I, O>, p: I, acts: seq<Action<I, O>>, j: nat, o: O)
    requires FullPass(st, p, acts) && j < |st.slots| && st.slots[j] == Some(o)
    ensures var arrs, limit := Arrivals(st, p, acts), LimitOf(st);
            && arrs[|arrs| - 1].index >= j && j < |arrs[Turn(arrs, j)].slots|
            && forall t: nat :: Calls(arrs, limit, t, j, o) <==>
                                t == Turn(arrs, j) && arrs[Turn(arrs, j)].slots[j] == Some(o)
  {
    var arrs, limit := Arrivals(st, p, acts), LimitOf(st);
    RunArrives(st, p, acts);
    Evolved(arrs, limit, 0, |arrs| - 1);
    EverySlotHasItsTurn(arrs, limit, j);
    Evolved(arrs, limit, 0, Turn(arrs, j));
  }

  /** EXISTING_ONLY: whoever is called stood in the same slot when the pass began. */
  lemma NoneAddedIsCalled<I, O>(st: State<I, O>, p: I, acts: seq<Action<I, O>>, t: nat, j: nat, o: O)
    requires Inv(st) && PassRun(st, p, acts) && StopsAtEnd(Arrivals(st, p, acts), LimitOf(st))
    requires st.policy == ExistingOnly && Calls(Arrivals(st, p, acts), LimitOf(st), t, j, o)
    ensures j < |st.slots| && st.slots[j] == Some(o)
  {
    RunArrives(st, p, acts);
    CalledWhereRegistered(Arrivals(st, p, acts), LimitOf(st), 0, t, j, o);
  }

  /** ALL: every observer that is registered when the pass ends, added or not, was called once at its slot. */
  lemma AddedObserversAreCalled<I, O>(st: State<I, O>, p: I, acts: seq<Action<I, O>>, j: nat, o: O)
    requires FullPass(st, p, acts) && st.policy == All
    requires var arrs := Arrivals(st, p, acts);
             j < |arrs[|arrs| - 1].slots| && arrs[|arrs| - 1].slots[j] == Some(o)
    ensures var arrs, limit := Arrivals(st, p, acts), LimitOf(st);
            && arrs[|arrs| - 1].index >= j
            && forall t: nat, x :: Calls(arrs, limit, t, j, x) <==> t == Turn(arrs, j) && x == o
  {
    var arrs, limit := Arrivals(st, p, acts), LimitOf(st);
    RunArrives(st, p, acts);
    EverySlotHasItsTurn(arrs, limit, j);
    Evolved(arrs, limit, Turn(arrs, j), |arrs| - 1);
  }

  /** The slot is below the limit, and o stands there when its turn comes. */
  ghost predicate HeldAtTurn<O>(arrs: seq<Arrival<O>>, limit: Limit, i: nat, o: O)
    requires arrs != []
  {
    && i < Clamped(limit, |arrs[|arrs| - 1].slots|) && arrs[|arrs| - 1].index >= i
    && i < |arrs[Turn(arrs, i)].slots| && arrs[Turn(arrs, i)].slots[i] == Some(o)
  }

  /** Any policy, any observer: its callbacks are the turns of the slots in which it stands by then. */
  lemma CalledWhereHeldAtTurn<I, O>(st: State<I, O>, p: I, acts: seq<Action<I, O>>, t: nat, i: nat, o: O)
    requires FullPass(st, p, acts)
    ensures var arrs, limit := Arrivals(st, p, acts), LimitOf(st);
            Calls(arrs, limit, t, i, o) <==> HeldAtTurn(arrs, limit, i, o) && t == Turn(arrs, i)
  {
    var arrs, limit := Arrivals(st, p, acts), LimitOf(st);
    RunArrives(st, p, acts);
    if Calls(arrs, limit, t, i, o) {
      Evolved(arrs, limit, t, |arrs| - 1);
      ClampedGrows(limit, |arrs[t].slots|, |arrs[|arrs| - 1].slots|);
    }
    if i < Clamped(limit, |arrs[|arrs| - 1].slots|) {
      EverySlotHasItsTurn(arrs, limit, i);
    }
  }

  ghost predicate CalledExactlyOnce<O>(arrs: seq<Arrival<O>>, limit: Limit, o: O)
  {
    exists t: nat, i: nat :: Calls(arrs, limit, t, i, o) &&
                             forall t': nat, i': nat :: Calls(arrs, limit, t', i', o) ==> t' == t && i' == i
  }

  /** So an observer is called exactly once if and only if it stands in exactly one slot at the slot's turn. */
  lemma CalledOnceIff<I, O>(st: State<I, O>, p: I, acts: seq<Action<I, O>>, o: O)
    requires FullPass(st, p, acts)
    ensures var arrs, limit := Arrivals(st, p, acts), LimitOf(st);
            CalledExactlyOnce(arrs, limit, o) <==>
            exists i: nat :: HeldAtTurn(arrs, limit, i, o) &&
                             forall i': nat :: HeldAtTurn(arrs, limit, i', o) ==> i' == i
  {
    var arrs, limit := Arrivals(st, p, acts), LimitOf(st);
    hide FullPass, Calls, StopsAtEnd, Complete, Inv, Arrivals, Turn, LimitOf, PassRun;
    forall t: nat, i: nat
      ensures Calls(arrs, limit, t, i, o) ==> HeldAtTurn(arrs, limit, i, o) && t == Turn(arrs, i)
    {
      CalledWhereHeldAtTurn(st, p, acts, t, i, o);
    }
    forall i: nat | HeldAtTurn(arrs, limit, i, o)
      ensures Calls(arrs, limit, Turn(arrs, i), i, o)
    {
      CalledWhereHeldAtTurn(st, p, acts, Turn(arrs, i), i, o);
    }
  }

  /** The observer is never added while it is not registered. */
  ghost predicate NeverReturns<I, O>(st: State<I, O>, acts: seq<Action<I, O>>, o: O)
    requires AllEnabled(st, acts)
    decreases |acts|
  {
    acts == [] ||
    var init := acts[..|acts| - 1];
    NeverReturns(st, init, o) && (acts[|acts| - 1] == Add(o) ==> Has(After(st, init).slots, o))
  }

  ghost predicate OnlyAt<O>(slots: seq<Option<O>>, o: O, j: nat)
  {
    forall i :: 0 <= i < |slots| && slots[i] == Some(o) ==> i == j
  }

  lemma StaysOnlyAt<I, O>(st: State<I, O>, a: Action<I, O>, p: I, o: O, j: nat)
    requires Inv(st) && Enabled(st, a) && p in st.cursors && !Hijacks(a, p)
    requires OnlyAt(st.slots, o, j) && (a == Add(o) ==> Has(st.slots, o))
    ensures OnlyAt(Apply(st, a).slots, o, j)
  {
    hide Inv, Distinct, NoNulls, Compacted, FirstValid;
    if a.Destroy? {
      assert p in Apply(st, a).cursors;
    }
  }

  lemma {:induction false} RunStaysOnlyAt<I, O>(st: State<I, O>, p: I, acts: seq<Action<I, O>>, o: O, j: nat)
    requires Inv(st) && PassRun(st, p, acts) && StopsAtEnd(Arrivals(st, p, acts), LimitOf(st))
    requires NeverReturns(st, acts, o) && OnlyAt(st.slots, o, j)
    ensures OnlyAt(After(st, acts).slots, o, j)
    ensures forall arr :: arr in Arrivals(st, p, acts) ==> OnlyAt(arr.slots, o, j)
    decreases |acts|
  {
    hide Inv, Apply, Enabled, OnlyAt;
    var init, last := acts[..|acts| - 1], acts[|acts| - 1];
    if |acts| == 1 {
      BeginKeepsSlots(st, p, acts);
    } else {
      assert PassRun(st, p, init);
      var arrs, shorter := Arrivals(st, p, acts), Arrivals(st, p, init);
      assert forall t :: 0 <= t < |shorter| ==> arrs[t] == shorter[t];
      RunStaysOnlyAt(st, p, init, o, j);
      RunArrives(st, p, init);
      RunKeepsInv(st, init);
      StaysOnlyAt(After(st, init), last, p, o, j);
    }
  }

  lemma BeginKeepsSlots<I, O>(st: State<I, O>, p: I, acts: seq<Action<I, O>>)
    requires AllEnabled(st, acts) && acts == [Begin(p)]
    ensures After(st, acts).slots == st.slots
  {
    assert acts[..0] == [];
  }

  /**
   An observer registered at the start is called exactly once in all if it still is in its
   slot at the slot's turn, and otherwise not at all: always under EXISTING_ONLY, and under
   ALL if it does not leave and come back.
   */
  lemma StartedObserversAreCalledOnce<I, O>(st: State<I, O>, p: I, acts: seq<Action<I, O>>, j: nat, o: O)
    requires FullPass(st, p, acts) && j < |st.slots| && st.slots[j] == Some(o)
    requires st.policy == ExistingOnly || NeverReturns(st, acts, o)
    ensures var arrs, limit := Arrivals(st, p, acts), LimitOf(st);
            && arrs[|arrs| - 1].index >= j && j < |arrs[Turn(arrs, j)].slots|
            && forall t: nat, i: nat :: Calls(arrs, limit, t, i, o) <==>
                                        t == Turn(arrs, j) && i == j && arrs[Turn(arrs, j)].slots[j] == Some(o)
  {
    var arrs, limit := Arrivals(st, p, acts), LimitOf(st);
    StartedObserversAreCalled(st, p, acts, j, o);
    if st.policy != ExistingOnly {
      RunStaysOnlyAt(st, p, acts, o, j);
    }
    forall t: nat, i: nat | Calls(arrs, limit, t, i, o)
      ensures i == j
    {
      if st.policy == ExistingOnly {
        NoneAddedIsCalled(st, p, acts, t, i, o);
      } else {
        assert arrs[t] in arrs;
      }
    }
  }

  /** The steps that take the observer out of the list. */
  predicate Removes<I, O(==)>(a: Action<I, O>, o: O)
  {
    a == Remove(o) || a.Clear?
  }

  /** Every removal of the observer, by name or with all the others, comes after the turn of slot j. */
  ghost predicate KeptUntilTurn<I, O>(st: State<I, O>, p: I, acts: seq<Action<I, O>>, j: nat, o: O)
    requires PassRun(st, p, acts)
    decreases |acts|
  {
    |acts| == 1 ||
    var init := acts[..|acts| - 1];
    assert PassRun(st, p, init);
    KeptUntilTurn(st, p, init, j, o) &&
    (Removes(acts[|acts| - 1], o) ==> var arrs := Arrivals(st, p, init); arrs[|arrs| - 1].index >= j)
  }

  /**
   While an iterator is live, an observer leaves its slot in such a step and in no other, and
   nobody takes the slot.
   */
  lemma SlotChanges<I, O>(st: State<I, O>, a: Action<I, O>, p: I, j: nat, o: O)
    requires Inv(st) && Enabled(st, a) && p in st.cursors && !Hijacks(a, p)
    requires j < |st.slots| && st.slots[j] in {Some(o), None}
    ensures var after := Apply(st, a);
            j < |after.slots| && after.slots[j] == if Removes(a, o) then None else st.slots[j]
  {
    hide Compacted, FirstValid, Added, Removed, Cleared;
    assert st.cursors != map[];
    match a
    case Add(x) => AddedKeeps(st.slots, x);
    case Remove(x) => RemovedKeeps(st.slots, x, true);
    case Clear =>
      ClearedKeeps(st.slots, true);
      var cleared := Cleared(st.slots, true);
      assert cleared[j].Some? ==> Has(cleared, cleared[j].value);
    case Destroy(_) => assert p in Apply(st, a).cursors;
    case _ =>
  }

  /** One more arrival does not change the turn of a slot that has had it. */
  lemma TurnStays<O>(arrs: seq<Arrival<O>>, shorter: seq<Arrival<O>>, limit: Limit, j: nat)
    requires IsPass(arrs, limit) && shorter != [] && (arrs == shorter || arrs == shorter + [arrs[|arrs| - 1]])
    ensures var n := |shorter| - 1;
            if shorter[n].index >= j then arrs[|arrs| - 1].index >= j && Turn(arrs, j) == Turn(shorter, j)
            else arrs[|arrs| - 1].index >= j ==> Turn(arrs, j) == |arrs| - 1 == |shorter|
  {
    var n := |shorter| - 1;
    assert forall t :: 0 <= t <= n ==> arrs[t] == shorter[t];
    forall t | 0 <= t < |arrs| - 1
      ensures arrs[t].index < arrs[t + 1].index
    {
      InOrder(arrs, limit, t, t + 1);
    }
    if shorter[n].index < j <= arrs[|arrs| - 1].index && Turn(arrs, j) <= n {
      var turn := Turn(arrs, j);
      if turn < n {
        InOrder(arrs, limit, turn, n);
      }
      assert false;
    }
  }

  /** An observer is in its slot when the turn comes exactly if nobody has removed it before. */
  lemma {:induction false} KeptIsHeld<I, O>(st: State<I, O>, p: I, acts: seq<Action<I, O>>, j: nat, o: O)
    requires Inv(st) && PassRun(st, p, acts) && StopsAtEnd(Arrivals(st, p, acts), LimitOf(st))
    requires j < |st.slots| && st.slots[j] == Some(o)
    ensures var arrs := Arrivals(st, p, acts);
            var slots := if arrs[|arrs| - 1].index >= j then arrs[Turn(arrs, j)].slots else After(st, acts).slots;
            j < |slots| && slots[j] == if KeptUntilTurn(st, p, acts, j, o) then Some(o) else None
    decreases |acts|
  {
    hide Inv, Apply, Enabled, Distinct, Evolves;
    var init, last := acts[..|acts| - 1], acts[|acts| - 1];
    var arrs := Arrivals(st, p, acts);
    if |acts| == 1 {
      BeginKeepsSlots(st, p, acts);
    } else {
      assert PassRun(st, p, init);
      var shorter := Arrivals(st, p, init);
      assert forall t :: 0 <= t < |shorter| ==> arrs[t] == shorter[t];
      KeptIsHeld(st, p, init, j, o);
      RunArrives(st, p, acts);
      RunArrives(st, p, init);
      RunKeepsInv(st, init);
      TurnStays(arrs, shorter, LimitOf(st), j);
      if shorter[|shorter| - 1].index < j {
        SlotChanges(After(st, init), last, p, j, o);
      }
    }
  }

  /**
   The law of a pass in terms of what callbacks do: an observer registered at the start is
   called exactly once, at its slot's turn, if nobody removes it before that, and never if
   somebody does; always under EXISTING_ONLY, and under ALL if it does not leave and come back.
   */
  lemma CalledUnlessRemoved<I, O>(st: State<I, O>, p: I, acts: seq<Action<I, O>>, j: nat, o: O)
    requires FullPass(st, p, acts) && j < |st.slots| && st.slots[j] == Some(o)
    requires st.policy == ExistingOnly || NeverReturns(st, acts, o)
    ensures var arrs, limit := Arrivals(st, p, acts), LimitOf(st);
            && arrs[|arrs| - 1].index >= j
            && forall t: nat, i: nat :: Calls(arrs, limit, t, i, o) <==>
                                        KeptUntilTurn(st, p, acts, j, o) && t == Turn(arrs, j) && i == j
  {
    hide Calls;
    StartedObserversAreCalledOnce(st, p, acts, j, o);
    KeptIsHeld(st, p, acts, j, o);
  }

  /** An observer that holds its slot until the run ends has never been away. */
  lemma {:induction false} LoyalNeverReturns<I, O>(st: State<I, O>, p: I, acts: seq<Action<I, O>>, j: nat, o: O)
    requires Inv(st) && PassRun(st, p, acts) && StopsAtEnd(Arrivals(st, p, acts), LimitOf(st))
    requires j < |st.slots| <= |After(st, acts).slots| && After(st, acts).slots[j] == Some(o)
    ensures NeverReturns(st, acts, o)
    decreases |acts|
  {
    hide Inv, Apply, Enabled;
    var init := acts[..|acts| - 1];
    if |acts| == 1 {
      assert NeverReturns(st, init, o);
    } else {
      assert PassRun(st, p, init);
      var arrs, shorter := Arrivals(st, p, acts), Arrivals(st, p, init);
      assert forall t :: 0 <= t < |shorter| ==> arrs[t] == shorter[t];
      RunArrives(st, p, init);
      RunKeepsInv(st, init);
      Evolved(shorter, LimitOf(st), 0, |shorter| - 1);
      CursorStays(After(st, init), acts[|acts| - 1], p);
      assert After(st, init).slots[j] == Some(o);
      LoyalNeverReturns(st, p, init, j, o);
    }
  }

  /** Once called is once for each slot: an observer that leaves and registers again is called again. */
  lemma ReturningObserverIsCalledAgain()
    ensures var st: State<nat, int> := State([Some(7)], All, map[], true);
            var acts: seq<Action<nat, int>> := [Begin(0), Remove(7), Add(7), Increment(0)];
            && Inv(st) && PassRun(st, 0, acts) && StopsAtEnd(Arrivals(st, 0, acts), LimitOf(st))
            && Calls(Arrivals(st, 0, acts), LimitOf(st), 0, 0, 7)
            && Calls(Arrivals(st, 0, acts), LimitOf(st), 1, 1, 7)
  {
    var st: State<nat, int> := State([Some(7)], All, map[], true);
    ReturningArrivals(st);
    hide Arrivals, PassRun;
  }

  lemma ReturningArrivals(st: State<nat, int>)
    requires st == State([Some(7)], All, map[], true)
    ensures var acts: seq<Action<nat, int>> := [Begin(0), Remove(7), Add(7), Increment(0)];
            PassRun(st, 0, acts) && Arrivals(st, 0, acts) == [Arrival([Some(7)], 0), Arrival([None, Some(7)], 1)]
  {
    var a1: seq<Action<nat, int>> := [Begin(0)];
    var a2: seq<Action<nat, int>> := [Begin(0), Remove(7)];
    var a3: seq<Action<nat, int>> := [Begin(0), Remove(7), Add(7)];
    ReturningRun(st);
    assert a1 + [Remove(7)] == a2 && a2 + [Add(7)] == a3;
    assert a3 + [Increment(0)] == [Begin(0), Remove(7), Add(7), Increment(0)];
    hide AllEnabled, After, Apply, Enabled;
    assert Arrivals(st, 0, a1) == [Arrival([Some(7)], 0)];
    hide Arrivals;
    ArrivesOn(st, 0, a1, Remove(7));
    ArrivesOn(st, 0, a2, Add(7));
    ArrivesOn(st, 0, a3, Increment(0));
  }

  lemma ArrivesOn<I, O>(st: State<I, O>, p: I, acts: seq<Action<I, O>>, a: Action<I, O>)
    requires PassRun(st, p, acts) && AllEnabled(st, acts + [a]) && !Hijacks(a, p)
    ensures PassRun(st, p, acts + [a])
    ensures var arrs, after := Arrivals(st, p, acts), After(st, acts + [a]);
            Arrivals(st, p, acts + [a]) ==
            if a == Increment(p)
            then arrs + [Arrival(after.slots, if p in after.cursors then after.cursors[p].index else 0)]
            else arrs
  {
    hide AllEnabled, After, Apply, Enabled;
    assert (acts + [a])[..|acts|] == acts;
  }

  lemma ReturningRun(st: State<nat, int>)
    requires st == State([Some(7)], All, map[], true)
    ensures AllEnabled(st, [Begin(0)]) && After(st, [Begin(0)]) == st.(cursors := map[0 := Cursor(0, Unlimited)])
    ensures AllEnabled(st, [Begin(0), Remove(7)])
    ensures After(st, [Begin(0), Remove(7)]) == State([None], All, map[0 := Cursor(0, Unlimited)], true)
    ensures AllEnabled(st, [Begin(0), Remove(7), Add(7)])
    ensures After(st, [Begin(0), Remove(7), Add(7)]) ==
            State([None, Some(7)], All, map[0 := Cursor(0, Unlimited)], true)
    ensures AllEnabled(st, [Begin(0), Remove(7), Add(7), Increment(0)])
    ensures After(st, [Begin(0), Remove(7), Add(7), Increment(0)]) ==
            State([None, Some(7)], All, map[0 := Cursor(1, Unlimited)], true)
  {
    var a0: seq<Action<nat, int>> := [];
    var a1: seq<Action<nat, int>> := [Begin(0)];
    var a2: seq<Action<nat, int>> := [Begin(0), Remove(7)];
    var a3: seq<Action<nat, int>> := [Begin(0), Remove(7), Add(7)];
    assert a0 + [Begin(0)] == a1 && a1 + [Remove(7)] == a2 && a2 + [Add(7)] == a3;
    assert a3 + [Increment(0)] == [Begin(0), Remove(7), Add(7), Increment(0)];
    assert AllEnabled(st, a0) && After(st, a0) == st;
    hide AllEnabled, After, Enabled, Apply;
    ReturningSteps();
    RunExtends(st, a0, Begin(0));
    RunExtends(st, a1, Remove(7));
    RunExtends(st, a2, Add(7));
    RunExtends(st, a3, Increment(0));
  }

  lemma ReturningSteps()
    ensures var c: map<nat, Cursor> := map[0 := Cursor(0, Unlimited)];
            var s0: State<nat, int>, s1, s2, s3 := State([Some(7)], All, map[], true), State([Some(7)], All, c, true),
                                              State([None], All, c, true), State([None, Some(7)], All, c, true);
            && Enabled(s0, Begin(0)) && Apply(s0, Begin(0)) == s1
            && Enabled(s1, Remove(7)) && Apply(s1, Remove(7)) == s2
            && Enabled(s2, Add(7)) && Apply(s2, Add(7)) == s3
            && Enabled(s3, Increment(0)) && Apply(s3, Increment(0)) == s3.(cursors := map[0 := Cursor(1, Unlimited)])
  {
    RemovedAndAdded();
    assert 0 in map[0 := Cursor(0, Unlimited)];
  }

  lemma RemovedAndAdded()
    ensures Removed([Some(7)], 7, true) == [None] && Added([None], 7) == [None, Some(7)]
    ensures FirstValid([None, Some(7)], 1, 2) == 1
  {
    assert [Some(7)][0] == Some(7);
  }

  lemma RunExtends<I, O>(st: State<I, O>, acts: seq<Action<I, O>>, a: Action<I, O>)
    requires AllEnabled(st, acts) && Enabled(After(st, acts), a)
    ensures AllEnabled(st, acts + [a]) && After(st, acts + [a]) == Apply(After(st, acts), a)
  {
    assert (acts + [a])[..|acts|] == acts;
  }
}

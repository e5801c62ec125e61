/**
 A list of observers that may change while it is iterated over, with its iterators as
 objects. Each method does one step of ObserverSlots.
 */
module ObserverList {
  import opened Common
  import opened ObserverSlots

  class List<O(==)> {
    var observers: seq<Option<O>>
    var liveIteratorCount: int
    const policy: Policy
    // False once the list is destroyed, which turns every iterator's weak pointer null.
    var alive: bool
    ghost var iters: set<Iter<O>>

    ghost predicate Valid()
      reads this, iters
    {
      && liveIteratorCount == |iters|
      && (forall it :: it in iters ==> it.list == this && it.index <= Clamped(it.limit, |observers|))
      && Distinct(observers)
      && (iters == {} ==> NoNulls(observers))
    }

    /** The list as a value, its live iterators naming themselves. */
    ghost function Snapshot(): State<Iter<O>, O>
      reads this, iters
    {
      State(observers, policy, map it | it in iters :: Cursor(it.index, it.limit), alive)
    }

    lemma CursorsAreIters()
      ensures Snapshot().cursors.Keys == iters
      ensures Snapshot().cursors != map[] <==> iters != {}
    {
      assert iters != {} ==> exists it :: it in iters && it in Snapshot().cursors;
    }

    /** What Valid says of the objects, the invariant of the steps says of their value. */
    lemma ValidSnapshot()
      requires liveIteratorCount == |iters| && forall it :: it in iters ==> it.list == this
      ensures Valid() <==> Inv(Snapshot())
    {
      CursorsAreIters();
      assert forall it :: it in iters ==> Snapshot().cursors[it] == Cursor(it.index, it.limit);
    }

    /** An iterator, of this list or not, has become a copy of one in this list. */
    twostate lemma HasBecome(new it: Iter<O>, other: Iter<O>)
      requires other in old(iters) && alive == old(alive)
      requires observers == old(observers) && iters == old(iters) + {it}
      requires it.index == old(other.index) && it.limit == old(other.limit)
      requires forall x :: x in old(iters) && x != it ==> x.index == old(x.index) && x.limit == old(x.limit)
      ensures var was := old(Snapshot());
              && other in was.cursors && (it in was.cursors <==> it in old(iters)) && was.alive == alive
              && Snapshot() == was.(cursors := was.cursors[it := was.cursors[other]])
    {
    }

    /** An iterator has left this list, which was compacted if it was the last one. */
    twostate lemma HasLeft(it: Iter<O>)
      requires it in old(iters) && old(alive) && alive && iters == old(iters) - {it}
      requires observers == if iters == {} then Compacted(old(observers)) else old(observers)
      requires forall x :: x in iters ==> x.index == old(x.index) && x.limit == old(x.limit)
      ensures Steps(old(Snapshot()), Action.Destroy(it), Snapshot())
    {
      CursorsAreIters();
      assert Snapshot().cursors == old(Snapshot()).cursors - {it};
    }

    constructor (policy: Policy)
      ensures Valid() && Snapshot() == State([], policy, map[], true)
    {
      observers, liveIteratorCount, alive, iters := [], 0, true, {};
      this.policy := policy;
    }

    method HasObserver(o: O) returns (b: bool)
      ensures b == Has(observers, o)
    {
      b := Some(o) in observers;
    }

    method AddObserver(o: O)
      requires Valid()
      modifies this`observers
      ensures Valid() && observers == Added(old(observers), o)
      ensures old(observers) <= observers && Some(o) in observers
      ensures |observers| == |old(observers)| + if Some(o) in old(observers) then 0 else 1
      ensures alive ==> Steps(old(Snapshot()), Action.Add(o), Snapshot())
    {
      AddedKeeps(observers, o);
      var present := HasObserver(o);
      if present {
        return;
      }
      observers := observers + [Some(o)];
    }

    method RemoveObserver(o: O)
      requires Valid()
      modifies this`observers
      ensures Valid() && observers == Removed(old(observers), o, iters != {})
      ensures Some(o) !in observers && forall x :: x != o ==> (Some(x) in observers <==> Some(x) in old(observers))
      ensures if iters != {} then NullFor(old(observers), observers, o) else Without(old(observers), observers, o)
      ensures alive ==> Steps(old(Snapshot()), Action.Remove(o), Snapshot())
    {
      RemovedKeeps(observers, o, iters != {});
      CursorsAreIters();
      if Some(o) !in observers {
        return;
      }
      var i := SlotOf(observers, o);
      if liveIteratorCount != 0 {
        observers := observers[i := None];
      } else {
        observers := observers[..i] + observers[i + 1..];
      }
    }

    method Clear()
      requires Valid()
      modifies this`observers
      ensures Valid() && observers == Cleared(old(observers), iters != {})
      ensures |observers| == (if iters != {} then |old(observers)| else 0) && forall x :: Some(x) !in observers
      ensures alive ==> Steps(old(Snapshot()), Action.Clear, Snapshot())
    {
      CursorsAreIters();
      if liveIteratorCount != 0 {
        observers := seq(|observers|, _ => None);
      } else {
        observers := [];
      }
    }

    method Compact()
      requires liveIteratorCount == 0 && iters == {} && Distinct(observers)
      modifies this`observers
      ensures Valid() && observers == Compacted(old(observers))
    {
      CompactedDistinct(observers);
      observers := Compacted(observers);
    }

    /** An iterator at the first observer; the end iterator, unattached, if there are no slots. */
    method Begin() returns (it: Iter<O>)
      requires Valid() && alive
      modifies this`liveIteratorCount, this`iters
      ensures Valid() && fresh(it)
      ensures if observers == [] then it.list == null && iters == old(iters)
              else it.list == this && iters == old(iters) + {it} && it.index == FirstValid(observers, 0, |observers|)
                   && it.limit == if policy == All then Unlimited else UpTo(|observers|)
      ensures if observers == [] then Snapshot() == old(Snapshot())
              else Steps(old(Snapshot()), Action.Begin(it), Snapshot())
    {
      if observers == [] {
        it := new Iter.End();
      } else {
        it := new Iter(this);
      }
    }

    /** One more live iterator. */
    method Attach(it: Iter<O>)
      requires Valid() && it !in iters && it.list == this && it.index <= Clamped(it.limit, |observers|)
      modifies this`liveIteratorCount, this`iters
      ensures Valid() && iters == old(iters) + {it}
      ensures var was := old(Snapshot());
              Snapshot() == was.(cursors := was.cursors[it := Cursor(it.index, it.limit)])
    {
      liveIteratorCount := liveIteratorCount + 1;
      iters := iters + {it};
    }

    /** The bookkeeping when one iterator takes the place of another. */
    ghost method Exchange(gone: Iter<O>, come: Iter<O>)
      requires gone in iters && come !in iters && liveIteratorCount == |iters| && Distinct(observers)
      requires forall it :: (it in iters && it != gone) || it == come ==>
                 it.list == this && it.index <= Clamped(it.limit, |observers|)
      modifies this`iters
      ensures Valid() && iters == old(iters) - {gone} + {come}
    {
      assert |iters - {gone} + {come}| == |iters|;
      iters := iters - {gone} + {come};
    }

    /** Destruction; iterators notice through their weak pointers. */
    method Destroy()
      requires alive
      modifies this`alive
      ensures !alive && Steps(old(Snapshot()), Action.DestroyList, Snapshot())
    {
      alive := false;
    }
  }

  class Iter<O(==)> {
    var list: List?<O>
    var index: nat
    var limit: Limit

    predicate Attached()
      reads this, list
    {
      list != null && list.alive
    }

    constructor End()
      ensures list == null && index == 0 && limit == UpTo(0)
    {
      list, index, limit := null, 0, UpTo(0);
    }

    constructor (l: List<O>)
      requires l.Valid() && l.alive
      modifies l`liveIteratorCount, l`iters
      ensures l.Valid() && l.iters == old(l.iters) + {this}
      ensures list == l && index == FirstValid(l.observers, 0, |l.observers|)
      ensures limit == if l.policy == All then Unlimited else UpTo(|l.observers|)
      ensures this !in old(l.iters) && Steps(old(l.Snapshot()), Action.Begin(this), l.Snapshot())
    {
      list, index := l, 0;
      limit := if l.policy == All then Unlimited else UpTo(|l.observers|);
      new;
      EnsureValidIndex();
      assert l.Snapshot() == old(l.Snapshot());
      l.Attach(this);
    }

    constructor Copy(other: Iter<O>)
      requires other.Attached() ==> other.list.Valid() && other in other.list.iters
      modifies other.list
      ensures list == other.list && index == other.index && limit == other.limit
      ensures other.list == old(other.list) && other.index == old(other.index) && other.limit == old(other.limit)
      ensures other.Attached() == old(other.Attached())
      ensures old(other.Attached()) ==>
                && other.list.Valid() && other.list.iters == old(other.list.iters) + {this}
                && other.list.observers == old(other.list.observers) && this !in old(other.list.iters)
                && Steps(old(other.list.Snapshot()), Action.Copy(other, this), other.list.Snapshot())
    {
      list, index, limit := other.list, other.index, other.limit;
      new;
      if list != null && list.alive {
        list.Attach(this);
      }
    }

    /**
     Assignment: a copy of other is swapped with this iterator and then destroyed, so the
     list this iterator leaves may be compacted.
     */
    method Assign(other: Iter<O>)
      requires Attached() ==> list.Valid() && this in list.iters
      requires other.Attached() ==> other.list.Valid() && other in other.list.iters
      modifies this, list, other.list
      ensures list == old(other.list) && index == old(other.index) && limit == old(other.limit)
      ensures Attached() == old(other.Attached())
      ensures Attached() ==> list.Valid() && list.iters == old(other.list.iters) + {this}
      ensures Attached() ==> list.observers == old(other.list.observers)
      ensures old(Attached()) && old(list) != list ==>
                && old(list).Valid() && old(list).iters == old(list.iters) - {this}
                && old(list).observers ==
                   (if old(list).iters == {} then Compacted(old(list.observers)) else old(list.observers))
                && Steps(old(list.Snapshot()), Action.Destroy(this), old(list).Snapshot())
      ensures Attached() && old(list) != list ==>
                Steps(old(other.list.Snapshot()), Action.Copy(other, this), list.Snapshot())
      ensures Attached() && old(list) == list ==>
                Steps(old(list.Snapshot()), Action.Assign(this, other), list.Snapshot())
    {
      hide Compacted, Distinct, NoNulls, FirstValid, Added, Removed, Cleared, List.Snapshot;
      ghost var left, joined := list, other.list;
      CopyAndSwap(other);
      if old(Attached()) && left != joined {
        left.HasLeft(this);
      }
      if Attached() {
        joined.HasBecome(this, other);
      }
    }

    method CopyAndSwap(other: Iter<O>)
      requires Attached() ==> list.Valid() && this in list.iters
      requires other.Attached() ==> other.list.Valid() && other in other.list.iters
      modifies this, list, other.list
      ensures list == old(other.list) && index == old(other.index) && limit == old(other.limit)
      ensures Attached() == old(other.Attached()) && (old(Attached()) ==> old(list).alive)
      ensures Attached() ==> list.Valid() && list.iters == old(other.list.iters) + {this}
      ensures Attached() ==> list.observers == old(other.list.observers)
      ensures old(Attached()) && old(list) != list ==>
                && old(list).Valid() && old(list).iters == old(list.iters) - {this}
                && old(list).observers ==
                   (if old(list).iters == {} then Compacted(old(list.observers)) else old(list.observers))
    {
      hide Compacted, Distinct, NoNulls, FirstValid, Apply, List.Snapshot;
      var temp := new Iter.Copy(other);
      assert temp.Attached() ==> temp.list.iters - {temp} + {this} == old(other.list.iters) + {this};
      TakeFrom(temp);
    }

    /** Swaps with a temporary iterator and destroys it. */
    method TakeFrom(temp: Iter<O>)
      requires temp != this
      requires Attached() ==> list.Valid() && this in list.iters && (temp.list == list || temp !in list.iters)
      requires temp.Attached() ==> temp.list.Valid() && temp in temp.list.iters
      requires temp.Attached() ==> temp.list == list || this !in temp.list.iters
      modifies this, temp, list, temp.list
      ensures list == old(temp.list) && index == old(temp.index) && limit == old(temp.limit)
      ensures Attached() == old(temp.Attached()) && (old(Attached()) ==> old(list).alive)
      ensures Attached() ==> list.Valid() && list.iters == old(temp.list.iters) - {temp} + {this} &&
                             list.observers == old(temp.list.observers)
      ensures old(Attached()) && old(list) != list ==>
                && old(list).Valid() && old(list).iters == old(list.iters) - {this}
                && old(list).observers ==
                   (if old(list).iters == {} then Compacted(old(list.observers)) else old(list.observers))
    {
      hide Compacted, Distinct, NoNulls, FirstValid, Apply, List.Snapshot;
      SwapWith(temp);
      temp.Destroy();
    }

    method SwapWith(temp: Iter<O>)
      requires temp != this
      requires Attached() ==> list.Valid() && this in list.iters && (temp.list == list || temp !in list.iters)
      requires temp.Attached() ==> temp.list.Valid() && temp in temp.list.iters
      requires temp.Attached() ==> temp.list == list || this !in temp.list.iters
      modifies this, temp
      modifies list, temp.list
      ensures list == old(temp.list) && index == old(temp.index) && limit == old(temp.limit)
      ensures temp.list == old(list) && temp.index == old(index) && temp.limit == old(limit)
      ensures Attached() == old(temp.Attached()) && temp.Attached() == old(Attached())
      ensures Attached() ==> list.Valid() && list.observers == old(temp.list.observers) &&
                             list.iters == if temp.list == list then old(temp.list.iters)
                               else old(temp.list.iters) - {temp} + {this}
      ensures temp.Attached() ==> temp.list.Valid() && temp.list.observers == old(list.observers) &&
                                  temp.list.iters == if temp.list == list then old(list.iters)
                                    else old(list.iters) - {this} + {temp}
    {
      list, temp.list := temp.list, list;
      index, temp.index := temp.index, index;
      limit, temp.limit := temp.limit, limit;
      if list != temp.list {
        if list != null && list.alive {
          list.Exchange(temp, this);
        }
        if temp.list != null && temp.list.alive {
          temp.list.Exchange(this, temp);
        }
      }
    }

    /** Moves index to the next slot that is not null, if there is one before the limit. */
    method EnsureValidIndex()
      requires Attached() && index <= Clamped(limit, |list.observers|)
      modifies this`index
      ensures index == FirstValid(list.observers, old(index), Clamped(limit, |list.observers|))
    {
      var maxIndex := Clamped(limit, |list.observers|);
      while index < maxIndex && list.observers[index].None?
        invariant index <= maxIndex
        invariant FirstValid(list.observers, index, maxIndex) == FirstValid(list.observers, old(index), maxIndex)
      {
        index := index + 1;
      }
    }

    predicate IsEnd()
      reads this, list
    {
      !Attached() || index == Clamped(limit, |list.observers|)
    }

    /** Two iterators are equal at the end, or in the same list at the same slot. */
    predicate Equals(other: Iter<O>)
      reads this, list, other, other.list
    {
      (IsEnd() && other.IsEnd()) ||
      ((if Attached() then list else null) == (if other.Attached() then other.list else null) && index == other.index)
    }

    /** The test that ends a loop: an iterator equals the unattached end iterator just when it is at its end. */
    lemma EqualsEnd(end: Iter<O>)
      requires end.list == null && end.index == 0
      ensures Equals(end) <==> IsEnd()
    {
    }

    /** Two iterators that have not come to their end are equal just when they are at the same slot of one list. */
    lemma EqualsInside(other: Iter<O>)
      requires !IsEnd() && !other.IsEnd()
      ensures Equals(other) <==> list == other.list && index == other.index
      ensures Equals(other) <==> other.Equals(this)
    {
    }

    method Increment()
      requires Attached() ==> list.Valid() && this in list.iters && !IsEnd()
      modifies this`index
      ensures Attached() ==> list.Valid() &&
                             index == FirstValid(list.observers, old(index) + 1, Clamped(limit, |list.observers|))
      ensures !Attached() ==> index == old(index)
      ensures Attached() ==> Steps(old(list.Snapshot()), Action.Increment(this), list.Snapshot())
    {
      hide Distinct, NoNulls, Compacted, Added, Removed, Cleared, FirstValid;
      if list != null && list.alive {
        index := index + 1;
        EnsureValidIndex();
      }
    }

    /** The current observer; null if it was removed since the iterator came here. */
    method GetCurrent() returns (o: Option<O>)
      requires Attached() && list.Valid() && this in list.iters && !IsEnd()
      ensures o == list.observers[index]
    {
      o := list.observers[index];
    }

    /** The destructor: the last live iterator compacts the list. */
    method Destroy()
      requires Attached() ==> list.Valid() && this in list.iters
      modifies list
      ensures list == old(list) && Attached() == old(Attached())
      ensures Attached() ==> list.Valid() && list.iters == old(list.iters) - {this}
      ensures Attached() ==>
                && list.observers == (if list.iters == {} then Compacted(old(list.observers)) else old(list.observers))
                && Steps(old(list.Snapshot()), Action.Destroy(this), list.Snapshot())
    {
      if list == null || !list.alive {
        return;
      }
      list.liveIteratorCount := list.liveIteratorCount - 1;
      assert |list.iters - {this}| == |list.iters| - 1;
      list.iters := list.iters - {this};
      if list.liveIteratorCount == 0 {
        list.Compact();
      }
      list.HasLeft(this);
    }
  }
}

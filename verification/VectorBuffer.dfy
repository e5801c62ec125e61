/**
 The raw storage under a circular deque: a fixed block of slots whose objects are
 constructed, moved and destroyed one by one. A slot is either Dead (raw memory) or
 Live (holds a constructed object). The preconditions are the life-cycle rules: an
 object is constructed only in a dead slot, and moved or destroyed only while live.
 */
module VectorBuffer {

  datatype Slot<T> = Dead | Live(value: T)

  function Values<T>(slots: seq<Slot<T>>): (values: seq<T>)
    requires forall i :: 0 <= i < |slots| ==> slots[i].Live?
    ensures |values| == |slots| && forall i :: 0 <= i < |slots| ==> slots[i] == Live(values[i])
  {
    seq(|slots|, i requires 0 <= i < |slots| => slots[i].value)
  }

  ghost predicate AllLive<T>(a: array<Slot<T>>, lo: nat, hi: nat)
    requires lo <= hi <= a.Length
    reads a
  {
    forall i :: lo <= i < hi ==> a[i].Live?
  }

  ghost predicate AllDead<T>(a: array<Slot<T>>, lo: nat, hi: nat)
    requires lo <= hi <= a.Length
    reads a
  {
    forall i :: lo <= i < hi ==> a[i].Dead?
  }

  method Allocate<T>(capacity: nat) returns (a: array<Slot<T>>)
    ensures fresh(a) && a.Length == capacity
    ensures forall i :: 0 <= i < capacity ==> a[i].Dead?
  {
    a := new Slot<T>[capacity](_ => Dead);
  }

  /** Freeing a block that still holds an object would leak it. */
  method Release<T>(a: array<Slot<T>>)
    requires AllDead(a, 0, a.Length)
  {
  }

  method Construct<T>(a: array<Slot<T>>, i: nat, value: T)
    requires i < a.Length && a[i].Dead?
    modifies a
    ensures forall k :: 0 <= k < a.Length ==> a[k] == if k == i then Live(value) else old(a[k])
  {
    a[i] := Live(value);
  }

  method DestructRange<T>(a: array<Slot<T>>, lo: nat, hi: nat)
    requires lo <= hi <= a.Length && AllLive(a, lo, hi)
    modifies a
    ensures forall k :: 0 <= k < a.Length ==> a[k] == if lo <= k < hi then Dead else old(a[k])
  {
    for i := lo to hi
      invariant forall k :: 0 <= k < a.Length ==> a[k] == if lo <= k < i then Dead else old(a[k])
    {
      a[i] := Dead;
    }
  }

  /** Moves from[lo..hi] to to[at..] of another block; the source slots are dead afterwards. */
  method MoveRange<T>(from: array<Slot<T>>, lo: nat, hi: nat, to: array<Slot<T>>, at: nat)
    requires from != to && lo <= hi <= from.Length && at + (hi - lo) <= to.Length
    requires AllLive(from, lo, hi) && AllDead(to, at, at + (hi - lo))
    modifies from, to
    ensures forall k :: 0 <= k < to.Length ==>
              to[k] == if at <= k < at + (hi - lo) then old(from[k - at + lo]) else old(to[k])
    ensures forall k :: 0 <= k < from.Length ==> from[k] == if lo <= k < hi then Dead else old(from[k])
  {
    for i := lo to hi
      invariant forall k :: 0 <= k < to.Length ==>
                  to[k] == if at <= k < at + (i - lo) then old(from[k - at + lo]) else old(to[k])
      invariant forall k :: 0 <= k < from.Length ==> from[k] == if lo <= k < i then Dead else old(from[k])
    {
      to[at + (i - lo)] := from[i];
      from[i] := Dead;
    }
  }

  /** Moves the single object at src to dest within one block. */
  method MoveOne<T>(a: array<Slot<T>>, src: nat, dest: nat)
    requires src < a.Length && dest < a.Length && a[src].Live? && a[dest].Dead?
    modifies a
    ensures forall k :: 0 <= k < a.Length ==>
              a[k] == if k == dest then old(a[src]) else if k == src then Dead else old(a[k])
  {
    a[dest] := a[src];
    a[src] := Dead;
  }
}

/**
 A double-ended queue over a ring of slots. One slot is always left free so that
 begin == end means empty; an unallocated deque has no slots at all.
 */
module CircularDeque {
  import opened VectorBuffer

  /** The smallest capacity ever allocated by growing. */
  const INITIAL_CAPACITY := 3

  // ----- Ring arithmetic: n is the number of slots, a position is a slot index -----

  function Offset(n: nat, begin: nat, pos: nat): (off: nat)
    requires begin <= n && pos <= n
  {
    if pos >= begin then pos - begin else n - begin + pos
  }

  lemma WrapMod(x: nat, n: nat)
    requires n > 0 && x < 2 * n
    ensures x % n == if x < n then x else x - n
  {
    if x >= n {
      assert x == n * 1 + (x - n);
      assert x / n == 1;
    }
  }

  /** The slot d steps after pos. */
  method StepForward(n: nat, ghost begin: nat, pos: nat, d: nat) returns (result: nat)
    requires begin < n && pos < n && Offset(n, begin, pos) + d < n
    ensures result < n && Offset(n, begin, result) == Offset(n, begin, pos) + d
  {
    WrapMod(pos + d, n);
    result := (pos + d) % n;
  }

  /** The slot d steps before pos. */
  method StepBack(n: nat, pos: nat, d: nat) returns (result: nat)
    requires pos < n && d < n
    ensures result < n && Offset(n, result, pos) == d
  {
    WrapMod(pos + n - d, n);
    result := (pos + n - d) % n;
  }

  function Copies<T>(count: nat, value: T): (s: seq<T>)
    ensures |s| == count && forall i :: 0 <= i < count ==> s[i] == value
  {
    seq(count, _ => value)
  }

  // ----- Logical slots -----

  /** The slot at logical offset off when s is stored with a hole of c free slots after its first k elements. */
  function Gap<T>(s: seq<T>, k: nat, c: nat, off: nat): Slot<T>
    requires k <= |s|
  {
    if off < k then Live(s[off])
    else if off < k + c then Dead
    else if off < |s| + c then Live(s[off - c])
    else Dead
  }

  /** The same, with the first i slots of the hole at p already holding items[..i]. */
  function Filled<T>(s: seq<T>, p: nat, items: seq<T>, i: nat, off: nat): Slot<T>
    requires p <= |s| && i <= |items|
  {
    if p <= off < p + i then Live(items[off - p]) else Gap(s, p, |items|, off)
  }

  lemma FilledUp<T>(s: seq<T>, p: nat, items: seq<T>, off: nat)
    requires p <= |s|
    ensures var t := s[..p] + items + s[p..];
            Filled(s, p, items, |items|, off) == Gap(t, |t|, 0, off)
  {
  }

  // ----- Resize policy -----

  function Max(a: nat, b: nat): (m: nat)
    ensures a <= m && b <= m && (m == a || m == b)
  {
    if a >= b then a else b
  }

  /** Growing gives the least capacity that is enough, at least the smallest one and at least a quarter more. */
  ghost predicate Grows(needed: nat, before: nat, after: nat)
  {
    if before >= needed then after == before
    else
      && needed <= after && INITIAL_CAPACITY <= after && 5 * before / 4 <= after
      && after in {needed, INITIAL_CAPACITY, 5 * before / 4}
  }

  /** Shrinking leaves a quarter of the size free, and happens only when at least half of the space is unused. */
  ghost predicate Shrinks(size: nat, before: nat, after: nat)
  {
    if before <= INITIAL_CAPACITY || before < 2 * size then after == before
    else after == if 5 * size / 4 <= INITIAL_CAPACITY then INITIAL_CAPACITY else 5 * size / 4
  }

  /** Less than half of the space is unused. */
  ghost predicate Tight(size: nat, capacity: nat)
  {
    capacity <= INITIAL_CAPACITY || capacity < 2 * size
  }

  function GrownCapacity(size: nat, capacity: nat, additional: nat): (c: nat)
    ensures size + additional <= c && capacity <= c && Grows(size + additional, capacity, c)
  {
    if capacity >= size + additional then capacity
    else Max(Max(size + additional, INITIAL_CAPACITY), capacity + capacity / 4)
  }

  function ShrunkCapacity(size: nat, capacity: nat): (c: nat)
    requires size <= capacity
    ensures size <= c <= capacity && Shrinks(size, capacity, c) && Tight(size, c)
  {
    if capacity <= INITIAL_CAPACITY || capacity - size < size then capacity
    else
      var wanted := Max(INITIAL_CAPACITY, size + size / 4);
      if wanted < capacity then wanted else capacity
  }

  function MovedBy(size: nat, before: nat, after: nat): nat
  {
    if before == after then 0 else size
  }

  /** What the resize policy looks at, and the elements moved by reallocation so far. */
  datatype Measure = Measure(size: nat, capacity: nat, moved: nat)

  datatype EndOp = Push | Pop

  ghost predicate Sound(m: Measure)
  {
    m.size <= m.capacity
  }

  ghost predicate Allowed(m: Measure, op: EndOp)
  {
    op == Pop ==> m.size > 0
  }

  ghost function After(m: Measure, op: EndOp): (m': Measure)
    requires Sound(m) && Allowed(m, op)
    ensures Sound(m')
  {
    match op
    case Push =>
      var capacity := GrownCapacity(m.size, m.capacity, 1);
      Measure(m.size + 1, capacity, m.moved + MovedBy(m.size, m.capacity, capacity))
    case Pop =>
      var capacity := ShrunkCapacity(m.size - 1, m.capacity);
      Measure(m.size - 1, capacity, m.moved + MovedBy(m.size - 1, m.capacity, capacity))
  }

  ghost predicate AllAllowed(m: Measure, ops: seq<EndOp>)
    requires Sound(m)
    decreases |ops|
  {
    ops == [] || (Allowed(m, ops[0]) && AllAllowed(After(m, ops[0]), ops[1..]))
  }

  ghost function AfterAll(m: Measure, ops: seq<EndOp>): (m': Measure)
    requires Sound(m) && AllAllowed(m, ops)
    decreases |ops|
  {
    if ops == [] then m else AfterAll(After(m, ops[0]), ops[1..])
  }

  ghost function Potential(m: Measure): nat
  {
    var d := 5 * m.size - 4 * m.capacity;
    if d >= 0 then d else -d
  }

  /** One push or pop pays for its share of all reallocations with 8 units. */
  lemma AmortizedStep(m: Measure, op: EndOp)
    requires Sound(m) && Allowed(m, op)
    ensures var m' := After(m, op); m'.moved + Potential(m') <= m.moved + Potential(m) + 8
  {
  }

  /** Over any run of pushes and pops at either end, reallocation moves a linear number of elements. */
  lemma {:induction false} AmortizedRun(m: Measure, ops: seq<EndOp>)
    requires Sound(m) && AllAllowed(m, ops)
    ensures AfterAll(m, ops).moved + Potential(AfterAll(m, ops)) <= m.moved + Potential(m) + 8 * |ops|
    decreases |ops|
  {
    if ops == [] {
    } else {
      AmortizedStep(m, ops[0]);
      AmortizedRun(After(m, ops[0]), ops[1..]);
    }
  }

  /** From an unallocated deque: at most 8 moved elements for each operation. */
  lemma {:induction false} LinearRun(ops: seq<EndOp>)
    requires AllAllowed(Measure(0, 0, 0), ops)
    ensures AfterAll(Measure(0, 0, 0), ops).moved <= 8 * |ops|
  {
    AmortizedRun(Measure(0, 0, 0), ops);
  }

  /** No run of k pushes and pops can move an element while k slots are free and k elements are above half full. */
  lemma {:induction false} QuietRun(m: Measure, ops: seq<EndOp>)
    requires Sound(m) && AllAllowed(m, ops)
    requires m.size + |ops| <= m.capacity
    requires |ops| <= m.size && m.capacity < 2 * (m.size - |ops|)
    ensures AfterAll(m, ops).moved == m.moved && AfterAll(m, ops).capacity == m.capacity
    decreases |ops|
  {
    if ops == [] {
    } else {
      QuietRun(After(m, ops[0]), ops[1..]);
    }
  }

  /** After a reallocation that moved elements, about a quarter of the size passes before another one can. */
  lemma {:induction false} NoThrashing(m: Measure, op: EndOp, ops: seq<EndOp>)
    requires Sound(m) && Allowed(m, op) && After(m, op).moved > m.moved
    requires AllAllowed(After(m, op), ops) && |ops| + 2 <= After(m, op).size / 4
    ensures AfterAll(After(m, op), ops).moved == After(m, op).moved
  {
    QuietRun(After(m, op), ops);
  }

  lemma TightStep(m: Measure, op: EndOp)
    requires Sound(m) && Allowed(m, op) && (Tight(m.size, m.capacity) || op == Pop)
    ensures var m' := After(m, op); Tight(m'.size, m'.capacity)
  {
  }

  /**
   The space never gets twice the size or more, above the smallest capacity: in a run from
   a tight deque, such as an unallocated one or a copy, always, and in every run from the
   first pop on.
   */
  lemma {:induction false} SpaceRun(m: Measure, ops: seq<EndOp>)
    requires Sound(m) && AllAllowed(m, ops) && (Tight(m.size, m.capacity) || Pop in ops)
    ensures var m' := AfterAll(m, ops); Tight(m'.size, m'.capacity)
    decreases |ops|
  {
    hide After, Tight;
    if ops == [] {
    } else {
      if Tight(m.size, m.capacity) || ops[0] == Pop {
        TightStep(m, ops[0]);
      }
      SpaceRun(After(m, ops[0]), ops[1..]);
    }
  }

  /** The first push on an unallocated deque gives the smallest capacity. */
  lemma FirstPush()
    ensures After(Measure(0, 0, 0), Push) == Measure(1, 3, 0)
  {
  }

  class Deque<T> {
    var buffer: array<Slot<T>>
    var begin: nat
    var end: nat
    ghost var contents: seq<T>
    // The number of elements moved so far because the buffer was replaced.
    ghost var moved: nat

    ghost predicate Indexed()
      reads `buffer, `begin, `end
    {
      if buffer.Length == 0 then begin == 0 && end == 0
      else begin < buffer.Length && end < buffer.Length
    }

    /** Every slot is as Gap(s, k, c, _) says at its offset from begin. */
    ghost predicate Shaped(s: seq<T>, k: nat, c: nat)
      requires k <= |s|
      reads `buffer, `begin, buffer
    {
      && begin <= buffer.Length
      && forall p :: 0 <= p < buffer.Length ==> buffer[p] == Gap(s, k, c, Offset(buffer.Length, begin, p))
    }

    ghost predicate Valid()
      reads this, buffer
    {
      && Indexed()
      && Shaped(contents, |contents|, 0)
      && (buffer.Length > 0 ==> |contents| < buffer.Length)
      && |contents| == Offset(buffer.Length, begin, end)
    }

    /** pos is an iterator of this deque: an element's slot, or the end. */
    ghost predicate IsPosition(pos: nat)
      reads this, buffer
    {
      && Indexed()
      && (if buffer.Length == 0 then pos == 0 else pos < buffer.Length)
      && Offset(buffer.Length, begin, pos) <= Offset(buffer.Length, begin, end)
    }

    ghost function Measured(): Measure
      reads this, buffer
    {
      Measure(|contents|, Capacity(), moved)
    }

    constructor ()
      ensures Valid() && fresh(buffer)
      ensures contents == [] && Measured() == Measure(0, 0, 0)
    {
      buffer := new Slot<T>[0];
      begin, end := 0, 0;
      contents, moved := [], 0;
    }

    // ----- Iterators -----

    function OffsetFromBegin(pos: nat): (off: nat)
      requires IsPosition(pos)
      reads this, buffer
      ensures off == Offset(buffer.Length, begin, pos)
    {
      if pos >= begin then pos - begin else buffer.Length - begin + pos
    }

    function Increment(pos: nat): (next: nat)
      requires IsPosition(pos) && pos != end
      reads this, buffer
      ensures IsPosition(next) && OffsetFromBegin(next) == OffsetFromBegin(pos) + 1
    {
      if pos + 1 == buffer.Length then 0 else pos + 1
    }

    function Decrement(pos: nat): (previous: nat)
      requires IsPosition(pos) && pos != begin
      reads this, buffer
      ensures IsPosition(previous) && OffsetFromBegin(previous) == OffsetFromBegin(pos) - 1
    {
      if pos == 0 then buffer.Length - 1 else pos - 1
    }

    function Advance(pos: nat, delta: int): (result: nat)
      requires IsPosition(pos) && 0 <= OffsetFromBegin(pos) + delta <= Size()
      reads this, buffer
      ensures IsPosition(result) && OffsetFromBegin(result) == OffsetFromBegin(pos) + delta
    {
      if delta == 0 then pos
      else
        WrapMod(OffsetFromBegin(pos) + delta + begin, buffer.Length);
        (OffsetFromBegin(pos) + delta + begin) % buffer.Length
    }

    // ----- Accessors -----

    function Size(): (n: nat)
      requires Indexed()
      reads this, buffer
      ensures n == Offset(buffer.Length, begin, end)
    {
      if begin <= end then end - begin else buffer.Length - begin + end
    }

    function Capacity(): nat
      reads this, buffer
    {
      if buffer.Length == 0 then 0 else buffer.Length - 1
    }

    method At(i: nat) returns (x: T)
      requires Valid() && i < |contents|
      ensures x == contents[i]
    {
      var rightSize := buffer.Length - begin;
      if begin <= end || i < rightSize {
        assert buffer[begin + i] == Live(contents[i]);
        x := buffer[begin + i].value;
      } else {
        assert buffer[i - rightSize] == Live(contents[i]);
        x := buffer[i - rightSize].value;
      }
    }

    method Front() returns (x: T)
      requires Valid() && contents != []
      ensures x == contents[0]
    {
      x := buffer[begin].value;
    }

    method Back() returns (x: T)
      requires Valid() && contents != []
      ensures x == contents[|contents| - 1]
    {
      x := buffer[Decrement(end)].value;
    }

    // ----- Memory management -----

    method SetCapacityTo(newCapacity: nat)
      requires Valid() && |contents| <= newCapacity
      modifies this, buffer
      ensures Valid() && fresh(buffer) && contents == old(contents)
      ensures Capacity() == newCapacity && buffer.Length == newCapacity + 1
      ensures moved == old(moved) + |contents|
    {
      var newBuffer := Allocate<T>(newCapacity + 1);
      var newEnd := MoveBuffer(newBuffer);
      Release(buffer);
      buffer, begin, end := newBuffer, 0, newEnd;
      moved := moved + |contents|;
    }

    /** Moves every element to the start of the given buffer, in order, leaving all slots of this one dead. */
    method MoveBuffer(to: array<Slot<T>>) returns (toEnd: nat)
      requires Valid() && to != buffer && |contents| < to.Length && AllDead(to, 0, to.Length)
      modifies buffer, to
      ensures toEnd == |contents|
      ensures forall i :: 0 <= i < to.Length ==> to[i] == Gap(contents, |contents|, 0, i)
      ensures AllDead(buffer, 0, buffer.Length)
    {
      if begin < end {
        MoveRange(buffer, begin, end, to, 0);
        toEnd := end - begin;
      } else if begin > end {
        toEnd := MoveWrapped(to);
      } else {
        toEnd := 0;
      }
    }

    /** The discontiguous case: the right side goes to the start of the new buffer, the left side behind it. */
    method MoveWrapped(to: array<Slot<T>>) returns (toEnd: nat)
      requires Valid() && begin > end && to != buffer && |contents| < to.Length && AllDead(to, 0, to.Length)
      modifies buffer, to
      ensures toEnd == |contents|
      ensures forall i :: 0 <= i < to.Length ==> to[i] == Gap(contents, |contents|, 0, i)
      ensures AllDead(buffer, 0, buffer.Length)
    {
      hide Valid;
      Wrapped();
      var rightSize := buffer.Length - begin;
      MoveRange(buffer, begin, buffer.Length, to, 0);
      MoveRange(buffer, 0, end, to, rightSize);
      toEnd := rightSize + end;
    }

    /** The two sides of a deque that wraps. */
    lemma Wrapped()
      requires Valid() && begin > end
      ensures begin < buffer.Length && |contents| == buffer.Length - begin + end
      ensures forall i :: begin <= i < buffer.Length ==> buffer[i] == Live(contents[i - begin])
      ensures forall i :: 0 <= i < end ==> buffer[i] == Live(contents[buffer.Length - begin + i])
      ensures forall i :: end <= i < begin ==> buffer[i] == Dead
    {
    }

    method ExpandCapacityIfNecessary(additional: nat)
      requires Valid()
      modifies this, buffer
      ensures Valid() && contents == old(contents) && (buffer == old(buffer) || fresh(buffer))
      ensures Capacity() == GrownCapacity(|contents|, old(Capacity()), additional)
      ensures Grows(|contents| + additional, old(Capacity()), Capacity())
      ensures Capacity() == old(Capacity()) ==> buffer == old(buffer) && begin == old(begin) && end == old(end)
      ensures moved == old(moved) + MovedBy(|contents|, old(Capacity()), Capacity())
    {
      var minNewCapacity := Size() + additional;
      if Capacity() >= minNewCapacity {
        return;
      }
      minNewCapacity := Max(minNewCapacity, INITIAL_CAPACITY);
      var newCapacity := Max(minNewCapacity, Capacity() + Capacity() / 4);
      SetCapacityTo(newCapacity);
    }

    method ShrinkCapacityIfNecessary()
      requires Valid()
      modifies this, buffer
      ensures Valid() && contents == old(contents) && (buffer == old(buffer) || fresh(buffer))
      ensures Capacity() == ShrunkCapacity(|contents|, old(Capacity()))
      ensures Shrinks(|contents|, old(Capacity()), Capacity()) && Tight(|contents|, Capacity())
      ensures moved == old(moved) + MovedBy(|contents|, old(Capacity()), Capacity())
    {
      if Capacity() <= INITIAL_CAPACITY {
        return;
      }
      var sz := Size();
      var emptySpaces := Capacity() - sz;
      if emptySpaces < sz {
        return;
      }
      var newCapacity := Max(INITIAL_CAPACITY, sz + sz / 4);
      if newCapacity < Capacity() {
        SetCapacityTo(newCapacity);
      }
    }

    method Reserve(newCapacity: nat)
      requires Valid()
      modifies this, buffer
      ensures Valid() && contents == old(contents) && (buffer == old(buffer) || fresh(buffer))
      ensures Capacity() == Max(old(Capacity()), newCapacity)
    {
      if newCapacity > Capacity() {
        SetCapacityTo(newCapacity);
      }
    }

    method ShrinkToFit()
      requires Valid()
      modifies this, buffer
      ensures Valid() && contents == old(contents) && (buffer == old(buffer) || fresh(buffer))
      ensures Capacity() == |contents|
    {
      if begin == end {
        if buffer.Length != 0 {
          Release(buffer);
          buffer := Allocate(0);
          begin, end := 0, 0;
        }
      } else {
        SetCapacityTo(Size());
      }
    }

    /** Destroys the elements from one position up to another, which may lie before it in the buffer. */
    method DestructPositions(first: nat, last: nat)
      requires Valid() && IsPosition(first) && IsPosition(last)
      requires OffsetFromBegin(first) <= OffsetFromBegin(last)
      modifies buffer
      ensures forall p :: 0 <= p < buffer.Length ==>
                buffer[p] == if OffsetFromBegin(first) <= Offset(buffer.Length, begin, p) < OffsetFromBegin(last)
                             then Dead else old(buffer[p])
    {
      if last == first {
      } else if last > first {
        DestructRange(buffer, first, last);
      } else {
        DestructRange(buffer, first, buffer.Length);
        DestructRange(buffer, 0, last);
      }
    }

    method ClearRetainCapacity()
      requires Valid()
      modifies this, buffer
      ensures Valid() && contents == [] && buffer == old(buffer) && begin == 0 && moved == old(moved)
    {
      DestructPositions(begin, end);
      begin, end, contents := 0, 0, [];
    }

    method Clear()
      requires Valid()
      modifies this, buffer
      ensures Valid() && contents == [] && Capacity() == 0 && fresh(buffer)
    {
      ClearRetainCapacity();
      Release(buffer);
      buffer := Allocate(0);
    }

    // ----- Moving begin -----

    /** Once the first c elements are dead, begin may move behind them. */
    lemma BeginMovedForward(oldBegin: nat, s: seq<T>, c: nat)
      requires begin < buffer.Length && oldBegin < buffer.Length && Offset(buffer.Length, oldBegin, begin) == c
      requires |s| + c < buffer.Length
      requires forall q :: 0 <= q < buffer.Length ==> buffer[q] == Gap(s, 0, c, Offset(buffer.Length, oldBegin, q))
      ensures Shaped(s, |s|, 0)
    {
      forall q | 0 <= q < buffer.Length
        ensures buffer[q] == Gap(s, |s|, 0, Offset(buffer.Length, begin, q))
      {
        assert buffer[q] == Gap(s, 0, c, Offset(buffer.Length, oldBegin, q));
      }
    }

    /** Begin may move back over c free slots, which then are a hole before the first element. */
    lemma BeginMovedBack(oldBegin: nat, s: seq<T>, c: nat)
      requires begin < buffer.Length && oldBegin < buffer.Length && Offset(buffer.Length, begin, oldBegin) == c
      requires |s| + c < buffer.Length
      requires forall q :: 0 <= q < buffer.Length ==> buffer[q] == Gap(s, |s|, 0, Offset(buffer.Length, oldBegin, q))
      ensures Shaped(s, 0, c)
    {
      forall q | 0 <= q < buffer.Length
        ensures buffer[q] == Gap(s, 0, c, Offset(buffer.Length, begin, q))
      {
        assert buffer[q] == Gap(s, |s|, 0, Offset(buffer.Length, oldBegin, q));
      }
    }

    /** Constructs an element in a hole of one slot, which completes the contents. */
    method ConstructInHole(pos: nat, value: T, ghost p: nat)
      requires p <= |contents| && Indexed() && Shaped(contents, p, 1)
      requires Offset(buffer.Length, begin, end) == |contents| + 1
      requires pos < buffer.Length && Offset(buffer.Length, begin, pos) == p
      modifies this`contents, buffer
      ensures Valid() && contents == old(contents)[..p] + [value] + old(contents)[p..]
    {
      Construct(buffer, pos, value);
      ghost var longer := contents[..p] + [value] + contents[p..];
      forall q | 0 <= q < buffer.Length
        ensures buffer[q] == Gap(longer, |longer|, 0, Offset(buffer.Length, begin, q))
      {
        assert Offset(buffer.Length, begin, q) == p <==> q == pos;
        FilledUp(contents, p, [value], Offset(buffer.Length, begin, q));
      }
      contents := longer;
    }

    // ----- Pushing and popping -----

    method EmplaceFront(value: T)
      requires Valid()
      modifies this, buffer
      ensures Valid() && (buffer == old(buffer) || fresh(buffer))
      ensures contents == [value] + old(contents)
      ensures Measured() == After(old(Measured()), Push)
      ensures Grows(|contents|, old(Capacity()), Capacity())
    {
      ExpandCapacityIfNecessary(1);
      PlaceFront(value);
    }

    /** EmplaceFront once a slot is free. */
    method PlaceFront(value: T)
      requires Valid() && |contents| < Capacity()
      modifies this`begin, this`contents, buffer
      ensures Valid() && contents == [value] + old(contents)
    {
      ghost var oldBegin := begin;
      if begin == 0 {
        begin := buffer.Length - 1;
      } else {
        begin := begin - 1;
      }
      BeginMovedBack(oldBegin, contents, 1);
      ConstructInHole(begin, value, 0);
    }

    method EmplaceBack(value: T)
      requires Valid()
      modifies this, buffer
      ensures Valid() && (buffer == old(buffer) || fresh(buffer))
      ensures contents == old(contents) + [value]
      ensures Measured() == After(old(Measured()), Push)
      ensures Grows(|contents|, old(Capacity()), Capacity())
    {
      ExpandCapacityIfNecessary(1);
      PlaceBack(value);
    }

    /** EmplaceBack once a slot is free. */
    method PlaceBack(value: T)
      requires Valid() && |contents| < Capacity()
      modifies this`end, this`contents, buffer
      ensures Valid() && contents == old(contents) + [value]
    {
      Construct(buffer, end, value);
      if end == buffer.Length - 1 {
        end := 0;
      } else {
        end := end + 1;
      }
      contents := contents + [value];
    }

    /** A copy gets just the room it needs, so filling it moves nothing. */
    constructor Copy(other: Deque<T>)
      requires other.Valid()
      ensures Valid() && fresh(buffer) && contents == other.contents
      ensures Measured() == Measure(|contents|, |contents|, 0)
    {
      buffer := new Slot<T>[other.Size() + 1](_ => Dead);
      begin, end := 0, 0;
      contents, moved := [], 0;
      new;
      hide Grows, Shrinks, Tight;
      for i := 0 to other.Size()
        invariant Valid() && fresh(buffer) && other.Valid()
        invariant contents == other.contents[..i]
        invariant Measured() == Measure(i, |other.contents|, 0)
      {
        var x := other.At(i);
        EmplaceBack(x);
      }
    }

    method PopFront()
      requires Valid() && contents != []
      modifies this, buffer
      ensures Valid() && (buffer == old(buffer) || fresh(buffer))
      ensures contents == old(contents)[1..]
      ensures Measured() == After(old(Measured()), Pop)
      ensures Shrinks(|contents|, old(Capacity()), Capacity()) && Tight(|contents|, Capacity())
    {
      DropFront();
      ShrinkCapacityIfNecessary();
    }

    /** PopFront before it considers shrinking. */
    method DropFront()
      requires Valid() && contents != []
      modifies this`begin, this`contents, buffer
      ensures Valid() && contents == old(contents)[1..]
    {
      ghost var oldBegin := begin;
      DestructRange(buffer, begin, begin + 1);
      begin := begin + 1;
      if begin == buffer.Length {
        begin := 0;
      }
      BeginMovedForward(oldBegin, contents[1..], 1);
      contents := contents[1..];
    }

    method PopBack()
      requires Valid() && contents != []
      modifies this, buffer
      ensures Valid() && (buffer == old(buffer) || fresh(buffer))
      ensures contents == old(contents)[..|old(contents)| - 1]
      ensures Measured() == After(old(Measured()), Pop)
      ensures Shrinks(|contents|, old(Capacity()), Capacity()) && Tight(|contents|, Capacity())
    {
      DropLast();
      ShrinkCapacityIfNecessary();
    }

    /** PopBack before it considers shrinking. */
    method DropLast()
      requires Valid() && contents != []
      modifies this`end, this`contents, buffer
      ensures Valid() && contents == old(contents)[..|old(contents)| - 1]
    {
      if end == 0 {
        end := buffer.Length - 1;
      } else {
        end := end - 1;
      }
      DestructRange(buffer, end, end + 1);
      contents := contents[..|contents| - 1];
    }

    /** Appending copies of value, or dropping elements from the end. */
    method Resize(count: nat, value: T)
      requires Valid()
      modifies this, buffer
      ensures Valid() && (buffer == old(buffer) || fresh(buffer))
      ensures contents == if count <= |old(contents)| then old(contents)[..count]
                          else old(contents) + Copies(count - |old(contents)|, value)
      ensures Capacity() == if count <= |old(contents)| then
              (if count == |old(contents)| then old(Capacity()) else ShrunkCapacity(count, old(Capacity())))
                            else GrownCapacity(|old(contents)|, old(Capacity()), count - |old(contents)|)
      ensures count < |old(contents)| ==> Shrinks(count, old(Capacity()), Capacity()) && Tight(count, Capacity())
      ensures count > |old(contents)| ==> Grows(count, old(Capacity()), Capacity())
    {
      hide Shaped, Grows, Shrinks, Tight;
      if count > Size() {
        ExpandCapacityIfNecessary(count - Size());
        AppendCopies(count, value);
      } else if count < Size() {
        DropBack(count);
        ShrinkCapacityIfNecessary();
      }
    }

    /** The loop of Resize: there is room for all the copies. */
    method AppendCopies(count: nat, value: T)
      requires Valid() && |contents| <= count <= Capacity()
      modifies this, buffer
      ensures Valid() && (buffer == old(buffer) || fresh(buffer)) && Capacity() == old(Capacity())
      ensures contents == old(contents) + Copies(count - |old(contents)|, value)
    {
      hide Shaped, Grows, Shrinks, Tight;
      while Size() < count
        invariant Valid() && (buffer == old(buffer) || fresh(buffer)) && Capacity() == old(Capacity())
        invariant |old(contents)| <= |contents| <= count
        invariant contents == old(contents) + Copies(|contents| - |old(contents)|, value)
        decreases count - |contents|
      {
        EmplaceBack(value);
      }
    }

    /** Destroys the elements from offset count on. */
    method DropBack(count: nat)
      requires Valid() && count < |contents|
      modifies this`end, this`contents, buffer
      ensures Valid() && contents == old(contents)[..count]
    {
      var newEnd := StepForward(buffer.Length, begin, begin, count);
      DestructPositions(newEnd, end);
      end, contents := newEnd, contents[..count];
    }

    // ----- Inserting and erasing in the middle -----

    /**
     Opens a hole of count dead slots before the element at position pos. The elements
     behind it move to the right, the last one first, so that none lands on another.
     */
    method MakeRoomFor(count: nat, pos: nat) returns (insertBegin: nat, insertEnd: nat)
      requires Valid() && IsPosition(pos)
      modifies this, buffer
      ensures Indexed() && (buffer == old(buffer) || fresh(buffer)) && contents == old(contents)
      ensures Shaped(contents, old(OffsetFromBegin(pos)), count)
      ensures |contents| + count == Offset(buffer.Length, begin, end)
      ensures IsPosition(insertBegin) && OffsetFromBegin(insertBegin) == old(OffsetFromBegin(pos))
      ensures IsPosition(insertEnd) && OffsetFromBegin(insertEnd) == old(OffsetFromBegin(pos)) + count
      ensures Capacity() == GrownCapacity(|contents|, old(Capacity()), count)
      ensures moved == old(moved) + MovedBy(|old(contents)|, old(Capacity()), Capacity())
    {
      if count == 0 {
        return pos, pos;
      }
      var beginOffset := OffsetFromBegin(pos);
      ExpandCapacityIfNecessary(count);
      insertBegin, insertEnd := OpenHole(count, beginOffset);
    }

    /** MakeRoomFor once the buffer is large enough. */
    method OpenHole(count: nat, beginOffset: nat) returns (insertBegin: nat, insertEnd: nat)
      requires Valid() && beginOffset <= |contents| && 0 < count && |contents| + count < buffer.Length
      modifies this`end, buffer
      ensures Indexed() && Shaped(contents, beginOffset, count)
      ensures |contents| + count == Offset(buffer.Length, begin, end)
      ensures IsPosition(insertBegin) && OffsetFromBegin(insertBegin) == beginOffset
      ensures IsPosition(insertEnd) && OffsetFromBegin(insertEnd) == beginOffset + count
    {
      GapBehind(count);
      insertBegin := StepForward(buffer.Length, begin, begin, beginOffset);
      insertEnd := StepForward(buffer.Length, begin, insertBegin, count);

      var src := end;
      end := StepForward(buffer.Length, begin, end, count);
      var dest := end;
      ShiftRight(src, dest, insertBegin, count);
    }

    /** The free slots behind the last element are a hole of any size. */
    lemma GapBehind(count: nat)
      requires Valid()
      ensures Shaped(contents, |contents|, count)
    {
      forall q | 0 <= q < buffer.Length
        ensures buffer[q] == Gap(contents, |contents|, count, Offset(buffer.Length, begin, q))
      {
      }
    }

    /** Moves one element from one side of the hole to the other, so that the hole moves by one slot. */
    method MoveAcrossGap(src: nat, dest: nat, ghost s: seq<T>, ghost k: nat, ghost k': nat, ghost c: nat)
      requires c > 0 && k <= |s| && k' <= |s| && Shaped(s, k, c) && |s| + c < buffer.Length
      requires IsPosition(src) && IsPosition(dest)
      requires if k' == k + 1 then OffsetFromBegin(src) == k + c && OffsetFromBegin(dest) == k
               else k' + 1 == k && OffsetFromBegin(src) == k' && OffsetFromBegin(dest) == k' + c
      modifies buffer
      ensures Shaped(s, k', c)
    {
      ghost var n := buffer.Length;
      ghost var from, to := OffsetFromBegin(src), OffsetFromBegin(dest);
      MoveOne(buffer, src, dest);
      forall p | 0 <= p < n
        ensures buffer[p] == Gap(s, k', c, Offset(n, begin, p))
      {
        assert Offset(n, begin, p) == from <==> p == src;
        assert Offset(n, begin, p) == to <==> p == dest;
      }
    }

    /** Moves the elements of [stop, src) to the slots before dest, the last one first. */
    method ShiftRight(from: nat, to: nat, stop: nat, ghost count: nat)
      requires count > 0 && IsPosition(from) && IsPosition(to) && IsPosition(stop)
      requires OffsetFromBegin(stop) <= OffsetFromBegin(from) == |contents|
      requires OffsetFromBegin(to) == OffsetFromBegin(from) + count
      requires Shaped(contents, |contents|, count) && |contents| + count < buffer.Length
      modifies buffer
      ensures Shaped(contents, OffsetFromBegin(stop), count)
    {
      var src, dest := from, to;
      while src != stop
        invariant IsPosition(src) && IsPosition(dest)
        invariant OffsetFromBegin(stop) <= OffsetFromBegin(src) <= |contents|
        invariant OffsetFromBegin(dest) == OffsetFromBegin(src) + count
        invariant Shaped(contents, OffsetFromBegin(src), count)
        decreases OffsetFromBegin(src)
      {
        src := Decrement(src);
        dest := Decrement(dest);
        MoveAcrossGap(src, dest, contents, OffsetFromBegin(src) + 1, OffsetFromBegin(src), count);
      }
    }

    /** Constructs items one by one in the hole that starts at position cur. */
    method FillHole(ghost p: nat, items: seq<T>, first: nat, last: nat)
      requires p <= |contents| && Indexed() && Shaped(contents, p, |items|)
      requires Offset(buffer.Length, begin, end) == |contents| + |items|
      requires IsPosition(first) && OffsetFromBegin(first) == p
      requires IsPosition(last) && OffsetFromBegin(last) == p + |items|
      modifies this`contents, buffer
      ensures Valid() && contents == old(contents)[..p] + items + old(contents)[p..]
    {
      var cur, i := first, 0;
      while OffsetFromBegin(cur) < OffsetFromBegin(last)
        invariant IsPosition(cur) && IsPosition(last) && OffsetFromBegin(cur) == p + i
        invariant i <= |items| && FilledTo(p, items, i)
        decreases |items| - i
        modifies buffer
      {
        hide FilledTo;
        ConstructNext(p, items, i, cur);
        cur := Increment(cur);
        i := i + 1;
      }
      ghost var longer := contents[..p] + items + contents[p..];
      forall q | 0 <= q < buffer.Length
        ensures buffer[q] == Gap(longer, |longer|, 0, Offset(buffer.Length, begin, q))
      {
        FilledUp(contents, p, items, Offset(buffer.Length, begin, q));
      }
      contents := longer;
    }

    /** The first i slots of the hole at p hold items[..i]. */
    ghost predicate FilledTo(p: nat, items: seq<T>, i: nat)
      requires p <= |contents| && i <= |items|
      reads this, buffer
    {
      && begin <= buffer.Length
      && forall q :: 0 <= q < buffer.Length ==>
                       buffer[q] == Filled(contents, p, items, i, Offset(buffer.Length, begin, q))
    }

    /** One step of FillHole. */
    method ConstructNext(ghost p: nat, items: seq<T>, i: nat, cur: nat)
      requires p <= |contents| && i < |items| && FilledTo(p, items, i)
      requires cur < buffer.Length && Offset(buffer.Length, begin, cur) == p + i
      modifies buffer
      ensures FilledTo(p, items, i + 1)
    {
      Construct(buffer, cur, items[i]);
      assert forall q :: 0 <= q < buffer.Length && Offset(buffer.Length, begin, q) == p + i ==> q == cur;
    }

    method PushFrontCopies(count: nat, value: T)
      requires Valid()
      modifies this, buffer
      ensures Valid() && (buffer == old(buffer) || fresh(buffer))
      ensures contents == Copies(count, value) + old(contents)
      ensures Capacity() == GrownCapacity(|old(contents)|, old(Capacity()), count)
      ensures moved == old(moved) + MovedBy(|old(contents)|, old(Capacity()), Capacity())
    {
      hide Valid, Copies;
      ExpandCapacityIfNecessary(count);
      for i := 0 to count
        invariant Valid() && (buffer == old(buffer) || fresh(buffer))
        invariant contents == Copies(i, value) + old(contents)
        invariant Capacity() == GrownCapacity(|old(contents)|, old(Capacity()), count)
        invariant moved == old(moved) + MovedBy(|old(contents)|, old(Capacity()), Capacity())
      {
        EmplaceFront(value);
        assert Copies(i + 1, value) == [value] + Copies(i, value);
      }
    }

    /** Inserts count copies of value before position pos. */
    method InsertCopies(pos: nat, count: nat, value: T)
      requires Valid() && IsPosition(pos)
      modifies this, buffer
      ensures Valid() && (buffer == old(buffer) || fresh(buffer))
      ensures var p := old(OffsetFromBegin(pos));
              contents == old(contents)[..p] + Copies(count, value) + old(contents)[p..]
      ensures Capacity() == GrownCapacity(|old(contents)|, old(Capacity()), count)
      ensures moved == old(moved) + MovedBy(|old(contents)|, old(Capacity()), Capacity())
    {
      if pos == begin {
        PushFrontCopies(count, value);
        return;
      }
      ghost var p := OffsetFromBegin(pos);
      var insertBegin, insertEnd := MakeRoomFor(count, pos);
      FillHole(p, Copies(count, value), insertBegin, insertEnd);
    }

    /** Opens a hole of count slots in front of the first element; nothing needs to be shifted. */
    method OpenFront(count: nat) returns (oldBegin: nat)
      requires Valid() && count > 0
      modifies this, buffer
      ensures Indexed() && (buffer == old(buffer) || fresh(buffer)) && contents == old(contents)
      ensures Shaped(contents, 0, count) && |contents| + count == Offset(buffer.Length, begin, end)
      ensures IsPosition(begin) && IsPosition(oldBegin) && OffsetFromBegin(oldBegin) == count
      ensures Capacity() == GrownCapacity(|contents|, old(Capacity()), count)
      ensures moved == old(moved) + MovedBy(|old(contents)|, old(Capacity()), Capacity())
    {
      ExpandCapacityIfNecessary(count);
      oldBegin := begin;
      begin := StepBack(buffer.Length, begin, count);
      BeginMovedBack(oldBegin, contents, count);
    }

    /** Inserts a range before position pos. */
    method InsertRange(pos: nat, items: seq<T>)
      requires Valid() && IsPosition(pos)
      modifies this, buffer
      ensures Valid() && (buffer == old(buffer) || fresh(buffer))
      ensures var p := old(OffsetFromBegin(pos));
              contents == old(contents)[..p] + items + old(contents)[p..]
      ensures Capacity() == GrownCapacity(|old(contents)|, old(Capacity()), |items|)
      ensures moved == old(moved) + MovedBy(|old(contents)|, old(Capacity()), Capacity())
    {
      if |items| == 0 {
        return;
      }
      ghost var p := OffsetFromBegin(pos);
      var insertBegin, insertEnd;
      if pos == begin {
        insertEnd := OpenFront(|items|);
        insertBegin := begin;
      } else {
        insertBegin, insertEnd := MakeRoomFor(|items|, pos);
      }
      FillHole(p, items, insertBegin, insertEnd);
    }

    /** Inserts one element before position pos and returns its position. */
    method Emplace(pos: nat, value: T) returns (inserted: nat)
      requires Valid() && IsPosition(pos)
      modifies this, buffer
      ensures Valid() && (buffer == old(buffer) || fresh(buffer))
      ensures var p := old(OffsetFromBegin(pos));
              && contents == old(contents)[..p] + [value] + old(contents)[p..]
              && IsPosition(inserted) && OffsetFromBegin(inserted) == p
      ensures Capacity() == GrownCapacity(|old(contents)|, old(Capacity()), 1)
      ensures moved == old(moved) + MovedBy(|old(contents)|, old(Capacity()), Capacity())
    {
      if pos == begin {
        EmplaceFront(value);
        return begin;
      }
      ghost var p := OffsetFromBegin(pos);
      var insertBegin, insertEnd := MakeRoomFor(1, pos);
      ConstructInHole(insertBegin, value, p);
      return insertBegin;
    }

    /** Erases the elements from position first up to position last; the result is the position after them. */
    method Erase(first: nat, last: nat) returns (after: nat)
      requires Valid() && IsPosition(first) && IsPosition(last)
      requires OffsetFromBegin(first) <= OffsetFromBegin(last)
      modifies this, buffer
      ensures Valid() && buffer == old(buffer) && moved == old(moved)
      ensures var a, b := old(OffsetFromBegin(first)), old(OffsetFromBegin(last));
              && contents == old(contents)[..a] + old(contents)[b..]
              && IsPosition(after) && OffsetFromBegin(after) == a
    {
      ghost var a, b := OffsetFromBegin(first), OffsetFromBegin(last);
      ghost var kept := contents[..a] + contents[b..];
      if first == last {
        assert kept == contents;
        return first;
      }
      DestructPositions(first, last);
      forall q | 0 <= q < buffer.Length
        ensures buffer[q] == Gap(kept, a, b - a, Offset(buffer.Length, begin, q))
      {
        assert old(buffer[q]) == Gap(contents, |contents|, 0, Offset(buffer.Length, begin, q));
      }
      after := CloseHole(first, last, kept);
    }

    /** Closes the hole of dead slots from first up to last, moving begin or the elements behind the hole. */
    method CloseHole(first: nat, last: nat, ghost kept: seq<T>) returns (after: nat)
      requires first != last && IsPosition(first) && IsPosition(last)
      requires OffsetFromBegin(first) < OffsetFromBegin(last) && OffsetFromBegin(first) <= |kept|
      requires |kept| + OffsetFromBegin(last) - OffsetFromBegin(first) == Offset(buffer.Length, begin, end)
      requires Shaped(kept, OffsetFromBegin(first), OffsetFromBegin(last) - OffsetFromBegin(first))
      modifies this, buffer
      ensures Valid() && buffer == old(buffer) && moved == old(moved) && contents == kept
      ensures IsPosition(after) && OffsetFromBegin(after) == old(OffsetFromBegin(first))
    {
      if first == begin {
        ghost var b := OffsetFromBegin(last);
        begin := last;
        BeginMovedForward(first, kept, b);
        contents := kept;
        return last;
      }
      var newEnd := ShiftLeft(last, first, kept, OffsetFromBegin(last) - OffsetFromBegin(first));
      end, contents := newEnd, kept;
      return first;
    }

    /** Moves the elements of [src, end) to the slots from dest on, the first one first. */
    method ShiftLeft(from: nat, to: nat, ghost kept: seq<T>, ghost count: nat) returns (dest: nat)
      requires count > 0 && IsPosition(from) && IsPosition(to) && IsPosition(end)
      requires OffsetFromBegin(from) == OffsetFromBegin(to) + count
      requires OffsetFromBegin(end) == |kept| + count
      requires OffsetFromBegin(to) <= |kept| && |kept| + count < buffer.Length
      requires Shaped(kept, OffsetFromBegin(to), count)
      modifies buffer
      ensures IsPosition(dest) && OffsetFromBegin(dest) == |kept|
      ensures Shaped(kept, |kept|, count)
    {
      var src := from;
      dest := to;
      while OffsetFromBegin(src) < OffsetFromBegin(end)
        invariant IsPosition(src) && IsPosition(dest)
        invariant count <= OffsetFromBegin(src) <= |kept| + count
        invariant OffsetFromBegin(dest) == OffsetFromBegin(src) - count
        invariant Shaped(kept, OffsetFromBegin(dest), count)
        decreases |kept| + count - OffsetFromBegin(src)
      {
        MoveAcrossGap(src, dest, kept, OffsetFromBegin(dest), OffsetFromBegin(dest) + 1, count);
        src := Increment(src);
        dest := Increment(dest);
      }
    }

    method EraseAt(pos: nat) returns (after: nat)
      requires Valid() && IsPosition(pos) && pos != end
      modifies this, buffer
      ensures Valid() && buffer == old(buffer) && moved == old(moved)
      ensures var a := old(OffsetFromBegin(pos));
              && contents == old(contents)[..a] + old(contents)[a + 1..]
              && IsPosition(after) && OffsetFromBegin(after) == a
    {
      after := Erase(pos, Advance(pos, 1));
    }

    // ----- Whole-container operations -----

    method Swap(other: Deque<T>)
      requires Valid() && other.Valid()
      modifies this, other
      ensures Valid() && other.Valid()
      ensures contents == old(other.contents) && other.contents == old(contents)
      ensures buffer == old(other.buffer) && other.buffer == old(buffer)
    {
      buffer, other.buffer := other.buffer, buffer;
      begin, other.begin := other.begin, begin;
      end, other.end := other.end, end;
      contents, other.contents := other.contents, contents;
    }

    /** Replaces the contents by the elements of a range, in order. */
    method Assign(items: seq<T>)
      requires Valid()
      modifies this, buffer
      ensures Valid() && contents == items && (buffer == old(buffer) || fresh(buffer))
    {
      ClearRetainCapacity();
      for i := 0 to |items|
        invariant Valid() && contents == items[..i] && (buffer == old(buffer) || fresh(buffer))
      {
        EmplaceBack(items[i]);
      }
    }
  }
}

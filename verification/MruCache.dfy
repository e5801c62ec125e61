/**
 A cache that keeps its items in a list, most recently used first, and an index from
 keys to list nodes. A maximum size of NO_AUTO_EVICT means that nothing is evicted.
 */
module MruCache {
  import opened Common

  const NO_AUTO_EVICT := 0

  // ----- The cache as a sequence of items, most recent first -----

  function Without<K(==), V>(s: seq<Entry<K, V>>, k: K): (r: seq<Entry<K, V>>)
    ensures |r| <= |s|
  {
    if s == [] then [] else if s[0].key == k then s[1..] else [s[0]] + Without(s[1..], k)
  }

  function Truncated<T>(s: seq<T>, maxSize: nat): seq<T>
  {
    if maxSize == NO_AUTO_EVICT || |s| <= maxSize then s else s[..maxSize]
  }

  /** Put: in front, the old occurrence removed, the oldest items evicted. */
  function AfterPut<K(==), V>(s: seq<Entry<K, V>>, k: K, v: V, maxSize: nat): seq<Entry<K, V>>
  {
    Truncated([Entry(k, v)] + Without(s, k), maxSize)
  }

  /** The first position of a key, or the end. */
  function FirstOf<K(==), V>(s: seq<Entry<K, V>>, k: K): (i: nat)
    ensures i <= |s| && (i < |s| <==> HasKey(s, k))
    ensures i < |s| ==> s[i].key == k
  {
    if s == [] then 0
    else if s[0].key == k then 0
    else
      assert forall j :: 0 < j < |s| ==> s[1..][j - 1] == s[j];
      1 + FirstOf(s[1..], k)
  }

  /** Get: moved to the front on a hit. */
  function AfterGet<K(==), V>(s: seq<Entry<K, V>>, k: K): seq<Entry<K, V>>
  {
    var i := FirstOf(s, k);
    if i < |s| then [s[i]] + Without(s, k) else s
  }

  lemma {:induction false} WithoutAt<K, V>(s: seq<Entry<K, V>>, i: nat)
    requires UniqueKeys(s) && i < |s|
    ensures Without(s, s[i].key) == s[..i] + s[i + 1..]
    decreases |s|
  {
    if i > 0 {
      WithoutAt(s[1..], i - 1);
      assert s[..i] + s[i + 1..] == [s[0]] + (s[1..][..i - 1] + s[1..][i..]);
    }
  }

  lemma {:induction false} WithoutShrinks<K, V>(s: seq<Entry<K, V>>, k: K)
    requires HasKey(s, k)
    ensures |Without(s, k)| == |s| - 1
    decreases |s|
  {
    if s[0].key != k {
      var i :| 0 <= i < |s| && s[i].key == k;
      assert s[1..][i - 1].key == k;
      WithoutShrinks(s[1..], k);
    }
  }

  lemma FirstIsOnly<K, V>(s: seq<Entry<K, V>>, i: nat)
    requires UniqueKeys(s) && i < |s|
    ensures FirstOf(s, s[i].key) == i
  {
  }

  lemma {:induction false} WithoutAbsent<K, V>(s: seq<Entry<K, V>>, k: K)
    requires !HasKey(s, k)
    ensures Without(s, k) == s
    decreases |s|
  {
    if s == [] {
    } else {
      assert forall i :: 0 <= i < |s| - 1 ==> s[1..][i] == s[i + 1];
      WithoutAbsent(s[1..], k);
    }
  }

  // ----- The container -----

  class Node<K, V> {
    const key: K
    const payload: V

    constructor (key: K, payload: V)
      ensures this.key == key && this.payload == payload
    {
      this.key, this.payload := key, payload;
    }
  }

  function ItemsOf<K, V>(nodes: seq<Node<K, V>>): (items: seq<Entry<K, V>>)
    ensures |items| == |nodes|
    ensures forall i :: 0 <= i < |nodes| ==> items[i] == Entry(nodes[i].key, nodes[i].payload)
  {
    seq(|nodes|, i requires 0 <= i < |nodes| => Entry(nodes[i].key, nodes[i].payload))
  }

  function Position<T(==)>(s: seq<T>, x: T): (i: nat)
    requires x in s
    ensures i < |s| && s[i] == x
  {
    if s[0] == x then 0 else 1 + Position(s[1..], x)
  }

  /** As many keys as items, when keys are unique. */
  lemma {:induction false} CountKeys<K, V>(nodes: seq<Node<K, V>>, keys: set<K>)
    requires forall i, j :: 0 <= i < j < |nodes| ==> nodes[i].key != nodes[j].key
    requires keys == set i | 0 <= i < |nodes| :: nodes[i].key
    ensures |keys| == |nodes|
    decreases |nodes|
  {
    if nodes == [] {
    } else {
      var n := |nodes| - 1;
      var rest := set i | 0 <= i < |nodes[..n]| :: nodes[..n][i].key;
      CountKeys(nodes[..n], rest);
      assert keys == rest + {nodes[n].key};
    }
  }

  /** The index and the list are in exact bijection. */
  ghost predicate Linked<K, V>(ordering: seq<Node<K, V>>, index: map<K, Node<K, V>>)
  {
    && UniqueKeys(ItemsOf(ordering))
    && (forall i :: 0 <= i < |ordering| ==> ordering[i].key in index && index[ordering[i].key] == ordering[i])
    && (forall k :: k in index ==> index[k] in ordering && index[k].key == k)
  }

  lemma Bijection<K, V>(ordering: seq<Node<K, V>>, index: map<K, Node<K, V>>)
    requires Linked(ordering, index)
    ensures |index| == |ordering|
    ensures forall k :: k in index <==> HasKey(ItemsOf(ordering), k)
  {
    forall k | k in index
      ensures HasKey(ItemsOf(ordering), k)
    {
      assert ItemsOf(ordering)[Position(ordering, index[k])].key == k;
    }
    assert index.Keys == set i | 0 <= i < |ordering| :: ordering[i].key;
    CountKeys(ordering, index.Keys);
  }

  lemma UniqueErase<K, V>(s: seq<Entry<K, V>>, i: nat)
    requires UniqueKeys(s) && i < |s|
    ensures UniqueKeys(s[..i] + s[i + 1..])
    ensures forall j :: 0 <= j < |s| && j != i ==> s[j].key != s[i].key
  {
    var rest := s[..i] + s[i + 1..];
    forall a, b | 0 <= a < b < |rest|
      ensures rest[a].key != rest[b].key
    {
      var a', b' := if a < i then a else a + 1, if b < i then b else b + 1;
      assert rest[a] == s[a'] && rest[b] == s[b'];
    }
  }

  lemma ItemsErase<K, V>(ordering: seq<Node<K, V>>, i: nat)
    requires UniqueKeys(ItemsOf(ordering)) && i < |ordering|
    ensures ItemsOf(ordering[..i] + ordering[i + 1..]) == Without(ItemsOf(ordering), ordering[i].key)
    ensures UniqueKeys(ItemsOf(ordering[..i] + ordering[i + 1..]))
    ensures forall j :: 0 <= j < |ordering| && j != i ==> ordering[j].key != ordering[i].key
  {
    hide UniqueKeys, Without;
    var items := ItemsOf(ordering);
    UniqueErase(items, i);
    WithoutAt(items, i);
    assert ItemsOf(ordering[..i] + ordering[i + 1..]) == items[..i] + items[i + 1..];
    forall j | 0 <= j < |ordering| && j != i
      ensures ordering[j].key != ordering[i].key
    {
      assert items[j].key != items[i].key;
    }
  }

  lemma PositionIs<K, V>(ordering: seq<Node<K, V>>, i: nat)
    requires i < |ordering| && forall j :: 0 <= j < |ordering| && j != i ==> ordering[j].key != ordering[i].key
    ensures Position(ordering, ordering[i]) == i
  {
    var p := Position(ordering, ordering[i]);
    assert ordering[p].key == ordering[i].key;
  }

  lemma StillListed<K, V>(ordering: seq<Node<K, V>>, i: nat, node: Node<K, V>)
    requires i < |ordering| && node in ordering && node != ordering[i]
    ensures node in ordering[..i] + ordering[i + 1..]
  {
    var j := Position(ordering, node);
    assert (ordering[..i] + ordering[i + 1..])[if j < i then j else j - 1] == node;
  }

  /** Dropping a node from the list and its key from the index. */
  lemma LinkedErase<K, V>(ordering: seq<Node<K, V>>, index: map<K, Node<K, V>>, i: nat)
    requires Linked(ordering, index) && i < |ordering|
    ensures Linked(ordering[..i] + ordering[i + 1..], index - {ordering[i].key})
    ensures ItemsOf(ordering[..i] + ordering[i + 1..]) == Without(ItemsOf(ordering), ordering[i].key)
    ensures Position(ordering, ordering[i]) == i
  {
    hide UniqueKeys, Without, Position, ItemsOf;
    var rest, index' := ordering[..i] + ordering[i + 1..], index - {ordering[i].key};
    ItemsErase(ordering, i);
    PositionIs(ordering, i);
    forall j | 0 <= j < |rest|
      ensures rest[j].key in index' && index'[rest[j].key] == rest[j]
    {
      assert rest[j] == ordering[if j < i then j else j + 1];
    }
    forall k | k in index'
      ensures index'[k] in rest && index'[k].key == k
    {
      StillListed(ordering, i, index[k]);
    }
  }

  /** Adding a node with a new key at the front. */
  lemma LinkedPush<K, V>(ordering: seq<Node<K, V>>, index: map<K, Node<K, V>>, node: Node<K, V>)
    requires Linked(ordering, index) && node.key !in index
    ensures Linked([node] + ordering, index[node.key := node])
    ensures ItemsOf([node] + ordering) == [Entry(node.key, node.payload)] + ItemsOf(ordering)
  {
    var longer := index[node.key := node];
    assert forall k :: k in longer ==> longer[k] in [node] + ordering;
  }

  /** The nodes in their order, but for the one that the index has for k. */
  ghost function Others<K, V>(ordering: seq<Node<K, V>>, index: map<K, Node<K, V>>, k: K): (others: seq<Node<K, V>>)
    requires Linked(ordering, index)
    ensures if k in index
            then exists i :: 0 <= i < |ordering| && ordering[i].key == k && others == ordering[..i] + ordering[i + 1..]
            else others == ordering && forall i :: 0 <= i < |ordering| ==> ordering[i].key != k
  {
    hide UniqueKeys, ItemsOf;
    if k !in index then ordering
    else
      var i := Position(ordering, index[k]);
      ordering[..i] + ordering[i + 1..]
  }

  class Cache<K(==), V> {
    var ordering: seq<Node<K, V>>
    var index: map<K, Node<K, V>>
    var maxSize: nat

    ghost predicate Valid()
      reads this
    {
      Linked(ordering, index) && (maxSize != NO_AUTO_EVICT ==> |ordering| <= maxSize)
    }

    function Items(): (items: seq<Entry<K, V>>)
      reads this
      ensures items == ItemsOf(ordering)
    {
      ItemsOf(ordering)
    }

    constructor (maxSize: nat)
      ensures Valid() && Items() == [] && this.maxSize == maxSize
    {
      ordering, index, this.maxSize := [], map[], maxSize;
    }

    /** The number of items, taken from the index. */
    function Size(): (n: nat)
      requires Linked(ordering, index)
      reads this
      ensures n == |Items()|
    {
      Bijection(ordering, index);
      |index|
    }

    /** Removes one node; the result is the node behind it, or None at the end. */
    method Erase(pos: Node<K, V>) returns (next: Option<Node<K, V>>)
      requires Linked(ordering, index) && pos in ordering
      modifies this
      ensures Linked(ordering, index) && maxSize == old(maxSize)
      ensures index == old(index) - {pos.key}
      ensures Items() == Without(old(Items()), pos.key)
      ensures var i := Position(old(ordering), pos);
              && ordering == old(ordering)[..i] + old(ordering)[i + 1..]
              && next == if i < |ordering| then Some(ordering[i]) else None
    {
      hide Linked, Without;
      var i := Position(ordering, pos);
      LinkedErase(ordering, index, i);
      index := index - {pos.key};
      ordering := ordering[..i] + ordering[i + 1..];
      next := if i < |ordering| then Some(ordering[i]) else None;
    }

    /** Drops the oldest items until newSize of them are left. */
    method ShrinkToSize(newSize: nat)
      requires Linked(ordering, index)
      modifies this
      ensures Linked(ordering, index) && maxSize == old(maxSize)
      ensures ordering == if |old(ordering)| <= newSize then old(ordering) else old(ordering)[..newSize]
      ensures index.Keys <= old(index).Keys
    {
      hide Linked, Without, Position, ItemsOf;
      var i := Size();
      while i > newSize
        invariant Linked(ordering, index) && maxSize == old(maxSize)
        invariant i == |ordering| <= |old(ordering)| && ordering == old(ordering)[..i]
        invariant |old(ordering)| <= newSize ==> i == |old(ordering)|
        invariant newSize <= |old(ordering)| ==> newSize <= i
        invariant index.Keys <= old(index).Keys
      {
        var last := ordering[|ordering| - 1];
        LinkedErase(ordering, index, |ordering| - 1);
        var _ := Erase(last);
        i := i - 1;
      }
    }

    /**
     Makes an item the most recent one, replacing the item with the same key if there is
     one. All the other items stay behind it in their order; only the oldest goes, and only
     if the cache is full.
     */
    method Put(key: K, payload: V) returns (front: Node<K, V>)
      requires Valid()
      modifies this
      ensures Valid() && maxSize == old(maxSize)
      ensures Items() == AfterPut(old(Items()), key, payload, maxSize)
      ensures front.key == key && front.payload == payload && fresh(front)
      ensures var others := Others(old(ordering), old(index), key);
              var room := if maxSize == NO_AUTO_EVICT || |others| < maxSize then |others| else maxSize - 1;
              ordering == [front] + others[..room]
    {
      hide Linked, Without, Others;
      MakeRoom(key);
      front := new Node(key, payload);
      LinkedPush(ordering, index, front);
      ordering := [front] + ordering;
      index := index[key := front];
    }

    /** The first half of Put: the old item with this key goes, or else the oldest one if the cache is full. */
    method MakeRoom(key: K)
      requires Valid()
      modifies this
      ensures Linked(ordering, index) && maxSize == old(maxSize) && key !in index
      ensures var others := Others(old(ordering), old(index), key);
              var room := if maxSize == NO_AUTO_EVICT || |others| < maxSize then |others| else maxSize - 1;
              ordering == others[..room]
      ensures var others := Without(old(Items()), key);
              Items() == if maxSize == NO_AUTO_EVICT || |others| < maxSize then others else others[..maxSize - 1]
    {
      hide Linked, Without, HasKey;
      Bijection(ordering, index);
      ghost var items := Items();
      if key in index {
        KeyOfIndexed(key);
        WithoutShrinks(items, key);
        var _ := Erase(index[key]);
      } else {
        WithoutAbsent(items, key);
        if maxSize != NO_AUTO_EVICT {
          ShrinkToSize(maxSize - 1);
        }
      }
    }

    lemma UniqueItems()
      requires Linked(ordering, index)
      ensures UniqueKeys(Items())
    {
    }

    lemma KeyOfIndexed(k: K)
      requires Linked(ordering, index) && k in index
      ensures index[k] in ordering && index[k].key == k
    {
    }

    /** The item of a key, which becomes the most recent one; None if there is none. */
    method Get(key: K) returns (r: Option<Node<K, V>>)
      requires Valid()
      modifies this`ordering
      ensures Valid()
      ensures Items() == AfterGet(old(Items()), key)
      ensures r == if key in index then Some(index[key]) else None
      ensures r.Some? ==> ordering[0] == r.value && r.value.key == key
      ensures ordering == if r.Some? then [r.value] + Others(old(ordering), index, key) else old(ordering)
    {
      hide Linked, Without, HasKey;
      Bijection(ordering, index);
      if key !in index {
        return None;
      }
      KeyOfIndexed(key);
      var node := index[key];
      var i := Position(ordering, node);
      UniqueItems();
      FirstIsOnly(Items(), i);
      LinkedErase(ordering, index, i);
      LinkedPush(ordering[..i] + ordering[i + 1..], index - {key}, node);
      assert (index - {key})[key := node] == index;
      ordering := [node] + (ordering[..i] + ordering[i + 1..]);
      r := Some(node);
    }

    /** The item of a key; the order does not change. */
    method Peek(key: K) returns (r: Option<Node<K, V>>)
      requires Valid()
      ensures r.Some? <==> HasKey(Items(), key)
      ensures r.Some? ==> r.value in ordering && r.value.key == key
    {
      Bijection(ordering, index);
      r := if key in index then Some(index[key]) else None;
    }

    method Swap(other: Cache<K, V>)
      requires Valid() && other.Valid()
      modifies this, other
      ensures Valid() && other.Valid()
      ensures ordering == old(other.ordering) && other.ordering == old(ordering)
      ensures maxSize == old(other.maxSize) && other.maxSize == old(maxSize)
    {
      ordering, other.ordering := other.ordering, ordering;
      index, other.index := other.index, index;
      maxSize, other.maxSize := other.maxSize, maxSize;
    }

    method Clear()
      requires Valid()
      modifies this
      ensures Valid() && Items() == [] && maxSize == old(maxSize)
    {
      index := map[];
      ordering := [];
    }
  }

  // ----- Least recently used: a larger cache holds everything a smaller one does -----

  /** What Get, and on a miss Put, does to the keys. */
  function AfterAccess<K(==), V>(s: seq<Entry<K, V>>, k: K, v: V, maxSize: nat): seq<Entry<K, V>>
  {
    if FirstOf(s, k) < |s| then AfterGet(s, k) else AfterPut(s, k, v, maxSize)
  }

  /** A client gets an item, and puts it if it is not there; or puts it in any case. */
  datatype Use<K, V> = Access(key: K, val: V) | Replace(key: K, val: V)

  function AfterUse<K(==), V>(s: seq<Entry<K, V>>, use: Use<K, V>, maxSize: nat): seq<Entry<K, V>>
  {
    match use
    case Access(k, v) => AfterAccess(s, k, v, maxSize)
    case Replace(k, v) => AfterPut(s, k, v, maxSize)
  }

  /** The items of an initially empty cache after a trace of uses. */
  function AfterTrace<K(==), V>(trace: seq<Use<K, V>>, maxSize: nat): seq<Entry<K, V>>
  {
    if trace == [] then [] else AfterUse(AfterTrace(trace[..|trace| - 1], maxSize), trace[|trace| - 1], maxSize)
  }

  function WithoutKey<K(==)>(keys: seq<K>, k: K): seq<K>
  {
    if keys == [] then [] else if keys[0] == k then keys[1..] else [keys[0]] + WithoutKey(keys[1..], k)
  }

  lemma {:induction false} WithoutKeys<K, V>(s: seq<Entry<K, V>>, k: K)
    ensures KeysOf(Without(s, k)) == WithoutKey(KeysOf(s), k)
    decreases |s|
  {
    if s == [] {
    } else {
      WithoutKeys(s[1..], k);
      assert KeysOf(s)[1..] == KeysOf(s[1..]);
    }
  }

  /** Among the first n keys, removing one key from all of them or from the first n + 1 is the same. */
  lemma {:induction false} WithoutKeyOfPrefix<K>(keys: seq<K>, k: K, n: nat)
    requires n < |keys|
    ensures n <= |WithoutKey(keys, k)| && n <= |WithoutKey(keys[..n + 1], k)|
    ensures WithoutKey(keys, k)[..n] == WithoutKey(keys[..n + 1], k)[..n]
    decreases |keys|
  {
    if n > 0 && keys[0] != k {
      WithoutKeyOfPrefix(keys[1..], k, n - 1);
      assert keys[..n + 1][1..] == keys[1..][..n];
    } else if n > 0 {
      assert keys[..n + 1][1..] == keys[1..][..n];
    }
  }

  /** The keys after a use, hit or miss: the key in front, its old occurrence gone, cut off at the limit. */
  lemma UseKeepsOrder<K, V>(s: seq<Entry<K, V>>, use: Use<K, V>, maxSize: nat)
    requires UniqueKeys(s) && maxSize > 0 && |s| <= maxSize
    ensures var t := AfterUse(s, use, maxSize);
            && UniqueKeys(t) && |t| <= maxSize
            && KeysOf(t) == Truncated([use.key] + WithoutKey(KeysOf(s), use.key), maxSize)
  {
    hide UniqueKeys, Without;
    WithoutKeys(s, use.key);
    OthersUnique(s, use.key);
    var i := FirstOf(s, use.key);
    PushKeeps(Without(s, use.key), if use.Access? && i < |s| then s[i] else Entry(use.key, use.val), maxSize);
  }

  lemma OthersUnique<K, V>(s: seq<Entry<K, V>>, k: K)
    requires UniqueKeys(s)
    ensures UniqueKeys(Without(s, k)) && forall i :: 0 <= i < |Without(s, k)| ==> Without(s, k)[i].key != k
    ensures HasKey(s, k) ==> |Without(s, k)| == |s| - 1
  {
    var i := FirstOf(s, k);
    if i < |s| {
      WithoutAt(s, i);
      UniqueErase(s, i);
    } else {
      WithoutAbsent(s, k);
    }
  }

  lemma PushKeeps<K, V>(s: seq<Entry<K, V>>, e: Entry<K, V>, maxSize: nat)
    requires UniqueKeys(s) && forall i :: 0 <= i < |s| ==> s[i].key != e.key
    ensures UniqueKeys(Truncated([e] + s, maxSize))
    ensures KeysOf(Truncated([e] + s, maxSize)) == Truncated([e.key] + KeysOf(s), maxSize)
  {
    var t := [e] + s;
    assert UniqueKeys(t) by {
      forall i, j | 0 <= i < j < |t|
        ensures t[i].key != t[j].key
      {
        assert t[j] == s[j - 1] && (i > 0 ==> t[i] == s[i - 1]);
      }
    }
    assert KeysOf(t) == [e.key] + KeysOf(s);
    if maxSize != NO_AUTO_EVICT && |t| > maxSize {
      assert KeysOf(t[..maxSize]) == KeysOf(t)[..maxSize];
    }
  }

  lemma {:induction false} TraceKeepsOrder<K, V>(trace: seq<Use<K, V>>, maxSize: nat)
    requires maxSize > 0
    ensures UniqueKeys(AfterTrace(trace, maxSize)) && |AfterTrace(trace, maxSize)| <= maxSize
    decreases |trace|
  {
    if trace == [] {
    } else {
      var before, last := trace[..|trace| - 1], trace[|trace| - 1];
      TraceKeepsOrder(before, maxSize);
      UseKeepsOrder(AfterTrace(before, maxSize), last, maxSize);
    }
  }

  lemma TruncatedTwice<T>(s: seq<T>, m: nat, M: nat)
    requires 0 < m <= M
    ensures Truncated(Truncated(s, M), m) == Truncated(s, m)
  {
  }

  /** One access to two key lists, the shorter of which is the longer one cut off at its limit. */
  lemma InclusionStep<K>(large: seq<K>, k: K, m: nat, M: nat)
    requires 0 < m <= M
    ensures Truncated([k] + WithoutKey(Truncated(large, m), k), m) ==
            Truncated(Truncated([k] + WithoutKey(large, k), M), m)
  {
    TruncatedTwice([k] + WithoutKey(large, k), m, M);
    if |large| > m {
      WithoutKeyOfPrefix(large, k, m - 1);
      assert forall s: seq<K> :: |s| >= m - 1 ==> Truncated([k] + s, m) == [k] + s[..m - 1];
    }
  }

  /**
   After the same trace the keys of the smaller cache are those of the larger one, cut off
   at the smaller limit: a prefix, in the same order.
   */
  lemma {:induction false} Inclusion<K, V>(trace: seq<Use<K, V>>, m: nat, M: nat)
    requires 0 < m <= M
    ensures KeysOf(AfterTrace(trace, m)) == Truncated(KeysOf(AfterTrace(trace, M)), m)
    decreases |trace|
  {
    if trace == [] {
    } else {
      var before, last := trace[..|trace| - 1], trace[|trace| - 1];
      Inclusion(before, m, M);
      TraceKeepsOrder(before, m);
      TraceKeepsOrder(before, M);
      UseKeepsOrder(AfterTrace(before, m), last, m);
      UseKeepsOrder(AfterTrace(before, M), last, M);
      InclusionStep(KeysOf(AfterTrace(before, M)), last.key, m, M);
    }
  }

  /** So a larger limit never turns a hit into a miss. */
  lemma {:induction false} LargerCacheHitsToo<K, V>(trace: seq<Use<K, V>>, k: K, m: nat, M: nat)
    requires 0 < m <= M && HasKey(AfterTrace(trace, m), k)
    ensures HasKey(AfterTrace(trace, M), k)
  {
    Inclusion(trace, m, M);
    var small, large := AfterTrace(trace, m), AfterTrace(trace, M);
    var i :| 0 <= i < |small| && small[i].key == k;
    assert KeysOf(small)[i] == KeysOf(large)[i];
    assert large[i].key == k;
  }
}

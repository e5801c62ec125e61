/** Datatypes shared by the containers and the observer lists. */
module Common {

  datatype Option<+T> = None | Some(value: T)

  /** A value of a map container: a key with its mapped value. */
  datatype Entry<+K, +V> = Entry(key: K, val: V)

  /** Whether observers added during a notification are notified too. */
  datatype Policy = All | ExistingOnly

  predicate UniqueKeys<K(==), V>(s: seq<Entry<K, V>>)
  {
    forall i, j :: 0 <= i < j < |s| ==> s[i].key != s[j].key
  }

  predicate HasKey<K(==), V>(s: seq<Entry<K, V>>, k: K)
  {
    exists i :: 0 <= i < |s| && s[i].key == k
  }

  function KeysOf<K, V>(s: seq<Entry<K, V>>): (keys: seq<K>)
    ensures |keys| == |s| && forall i :: 0 <= i < |s| ==> keys[i] == s[i].key
  {
    seq(|s|, i requires 0 <= i < |s| => s[i].key)
  }
}

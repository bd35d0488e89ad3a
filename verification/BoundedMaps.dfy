/** A map that forgets its oldest entry past a capacity: a hash map and a queue of its keys, standing
    for one list of entries, oldest first. */
module BoundedMaps {
  import opened Basics

  datatype Entry<K, V> = Entry(key: K, value: V)

  // ---- The list ----

  ghost predicate DistinctKeys<K, V>(list: seq<Entry<K, V>>) {
    forall i, j :: 0 <= i < j < |list| ==> list[i].key != list[j].key
  }

  /** Where `key` is in a list of keys. */
  function IndexIn<K(==)>(keys: seq<K>, key: K): (at: Option<nat>)
    ensures at.Some? ==> at.value < |keys| && keys[at.value] == key
    ensures at.None? <==> key !in keys
  {
    if keys == [] then None
    else if keys[|keys| - 1] == key then Some(|keys| - 1)
    else IndexIn(keys[..|keys| - 1], key)
  }

  function KeysOf<K, V>(list: seq<Entry<K, V>>): (keys: seq<K>)
    ensures |keys| == |list| && forall i :: 0 <= i < |list| ==> keys[i] == list[i].key
  {
    if list == [] then [] else KeysOf(list[..|list| - 1]) + [list[|list| - 1].key]
  }

  function Without<T>(s: seq<T>, at: nat): seq<T>
    requires at < |s|
  {
    s[..at] + s[at + 1..]
  }

  function Lookup<K(==), V>(list: seq<Entry<K, V>>, key: K): Option<V> {
    var at := IndexIn(KeysOf(list), key);
    if at.None? then None else Some(list[at.value].value)
  }

  function Removed<K(==), V>(list: seq<Entry<K, V>>, key: K): seq<Entry<K, V>> {
    var at := IndexIn(KeysOf(list), key);
    if at.None? then list else Without(list, at.value)
  }

  /** The entry moved to the newest place. */
  function Renewed<K(==), V>(list: seq<Entry<K, V>>, key: K): seq<Entry<K, V>> {
    var at := IndexIn(KeysOf(list), key);
    if at.None? then list else Without(list, at.value) + [list[at.value]]
  }

  function Newest<T>(s: seq<T>, n: nat): seq<T> { if |s| <= n then s else s[|s| - n..] }

  /** The entry at the newest place, the key's old one gone, and the oldest past the capacity gone. */
  function Inserted<K(==), V>(list: seq<Entry<K, V>>, key: K, value: V, capacity: nat): seq<Entry<K, V>> {
    Newest(Removed(list, key) + [Entry(key, value)], capacity)
  }

  function Retained<K, V>(list: seq<Entry<K, V>>, keep: (K, V) -> bool): seq<Entry<K, V>> {
    if list == [] then []
    else
      var last := list[|list| - 1];
      Retained(list[..|list| - 1], keep) + if keep(last.key, last.value) then [last] else []
  }

  // ---- What the operations do, entry by entry ----

  /** A lookup finds exactly the entry of the key. */
  lemma LookupFinds<K, V>(list: seq<Entry<K, V>>, key: K, value: V)
    requires DistinctKeys(list)
    ensures Lookup(list, key) == Some(value) <==> Entry(key, value) in list
  {
    hide IndexIn;
    if Entry(key, value) in list {
      var i :| 0 <= i < |list| && list[i] == Entry(key, value);
      assert KeysOf(list)[i] == key;
    }
  }

  lemma LookupFindsNone<K, V>(list: seq<Entry<K, V>>, key: K)
    ensures Lookup(list, key).None? <==> forall i :: 0 <= i < |list| ==> list[i].key != key
  {
    hide IndexIn;
    if Lookup(list, key).None? {
      forall i | 0 <= i < |list| ensures list[i].key != key {
        assert KeysOf(list)[i] in KeysOf(list);
      }
    }
  }

  ghost predicate Precedes<T>(list: seq<T>, a: T, b: T) {
    exists i, j :: 0 <= i < j < |list| && list[i] == a && list[j] == b
  }

  /** Some entries of `list`, each key once, in their order. */
  ghost predicate PartOf<K(!new), V(!new)>(part: seq<Entry<K, V>>, list: seq<Entry<K, V>>) {
    && |part| <= |list| && DistinctKeys(part)
    && (forall e <- part :: e in list)
    && (forall a, b :: Precedes(part, a, b) ==> Precedes(list, a, b))
  }

  lemma PartByIndex<K(!new), V(!new)>(part: seq<Entry<K, V>>, list: seq<Entry<K, V>>, from: seq<nat>)
    requires DistinctKeys(list) && |from| == |part| <= |list|
    requires forall i :: 0 <= i < |part| ==> from[i] < |list| && part[i] == list[from[i]]
    requires forall i, j :: 0 <= i < j < |part| ==> from[i] < from[j]
    ensures PartOf(part, list)
  {
    forall a, b | Precedes(part, a, b) ensures Precedes(list, a, b) {
      var i, j :| 0 <= i < j < |part| && part[i] == a && part[j] == b;
      assert list[from[i]] == a && list[from[j]] == b;
    }
  }

  /** The indices of a list without one of them. */
  function Skipping(n: nat, at: nat): (from: seq<nat>)
    ensures |from| == n && forall i :: 0 <= i < n ==> from[i] == if i < at then i else i + 1
  {
    if n == 0 then [] else Skipping(n - 1, at) + [if n - 1 < at then n - 1 else n]
  }

  /** A removal takes the key's entry and no other. */
  lemma RemovedTakesOne<K(!new), V(!new)>(list: seq<Entry<K, V>>, key: K)
    requires DistinctKeys(list)
    ensures PartOf(Removed(list, key), list)
    ensures forall e :: e in Removed(list, key) <==> e in list && e.key != key
  {
    hide IndexIn, Skipping, PartOf;
    var left, at := Removed(list, key), IndexIn(KeysOf(list), key);
    if at.Some? {
      PartByIndex(left, list, Skipping(|left|, at.value));
      forall e | e in list && e.key != key ensures e in left {
        var i :| 0 <= i < |list| && list[i] == e;
        assert left[if i < at.value then i else i - 1] == e;
      }
      forall e | e in left ensures e in list && e.key != key {
        var i :| 0 <= i < |left| && left[i] == e;
        assert list[if i < at.value then i else i + 1] == e;
      }
    } else {
      LookupFindsNone(list, key);
      PartOfItself(list);
    }
  }

  lemma PartOfItself<K(!new), V(!new)>(list: seq<Entry<K, V>>)
    requires DistinctKeys(list)
    ensures PartOf(list, list)
  {
  }

  /** Keeping takes exactly the entries asked for, in their order. */
  lemma {:induction false} RetainedTakes<K(!new), V(!new)>(list: seq<Entry<K, V>>, keep: (K, V) -> bool)
    requires DistinctKeys(list)
    ensures PartOf(Retained(list, keep), list)
    ensures forall e :: e in Retained(list, keep) <==> e in list && keep(e.key, e.value)
  {
    if list == [] {
      PartOfItself(list);
    } else {
      var front, last := list[..|list| - 1], list[|list| - 1];
      assert list == front + [last];
      RetainedTakes(front, keep);
      PartPushed(Retained(front, keep), front, last);
      assert Retained(front, keep) + [] == Retained(front, keep);
    }
  }

  lemma PartPushed<K(!new), V(!new)>(part: seq<Entry<K, V>>, list: seq<Entry<K, V>>, last: Entry<K, V>)
    requires PartOf(part, list) && DistinctKeys(list + [last])
    ensures PartOf(part, list + [last]) && PartOf(part + [last], list + [last])
  {
    var all := list + [last];
    assert forall i :: 0 <= i < |list| ==> all[i] == list[i];
    assert all[|list|] == last;
    forall a, b | Precedes(part + [last], a, b) ensures Precedes(all, a, b) {
      var i, j :| 0 <= i < j < |part + [last]| && (part + [last])[i] == a && (part + [last])[j] == b;
      if j < |part| {
        assert Precedes(part, a, b);
        var k, l :| 0 <= k < l < |list| && list[k] == a && list[l] == b;
        assert all[k] == a && all[l] == b;
      } else {
        assert part[i] == a && a in list;
        var k :| 0 <= k < |list| && list[k] == a;
        assert all[k] == a && all[|list|] == b;
      }
    }
    forall a, b | Precedes(part, a, b) ensures Precedes(all, a, b) {
      var k, l :| 0 <= k < l < |list| && list[k] == a && list[l] == b;
      assert all[k] == a && all[l] == b;
    }
    forall i | 0 <= i < |part| ensures part[i].key != last.key {
      assert part[i] in list;
      var k :| 0 <= k < |list| && list[k] == part[i];
      assert all[k].key != all[|list|].key;
    }
  }

  /** An insertion ends with its own entry, in place of the key's old one; as many of the others stay as
      fit beside it, and any that left came before all that stay. */
  lemma InsertedHolds<K(!new), V(!new)>(list: seq<Entry<K, V>>, key: K, value: V, capacity: pos)
    requires DistinctKeys(list)
    ensures var after, others := Inserted(list, key, value, capacity), Removed(list, key);
      && DistinctKeys(after) && |after| == Min(|others| + 1, capacity)
      && after[|after| - 1] == Entry(key, value)
      && PartOf(after[..|after| - 1], others)
      && (forall a <- others, b <- after[..|after| - 1] :: a in after || Precedes(others, a, b))
  {
    hide Removed, PartOf;
    RemovedTakesOne(list, key);
    var after, others := Inserted(list, key, value, capacity), Removed(list, key);
    assert DistinctKeys(others) by { PartIsDistinct(others, list); }
    NewestIsPart(others, after[..|after| - 1]);
    forall i | 0 <= i < |others| ensures others[i].key != key {
      assert others[i] in others;
    }
  }

  lemma PartIsDistinct<K(!new), V(!new)>(part: seq<Entry<K, V>>, list: seq<Entry<K, V>>)
    requires PartOf(part, list)
    ensures DistinctKeys(part) && |part| <= |list|
  {
  }

  /** A renewal makes the key's entry the newest and leaves the others in their order. */
  lemma RenewedHolds<K(!new), V(!new)>(list: seq<Entry<K, V>>, key: K)
    requires DistinctKeys(list) && Lookup(list, key).Some?
    ensures var after := Renewed(list, key);
      && |after| > 0 && after[|after| - 1] == Entry(key, Lookup(list, key).value)
      && PartOf(after[..|after| - 1], list)
      && (forall e :: e in after[..|after| - 1] <==> e in list && e.key != key)
  {
    hide IndexIn, Removed, PartOf, Lookup, Renewed;
    RenewedIs(list, key);
    RemovedTakesOne(list, key);
    assert Renewed(list, key)[..|Removed(list, key)|] == Removed(list, key);
  }

  lemma NewestIsPart<K(!new), V(!new)>(list: seq<Entry<K, V>>, newest: seq<Entry<K, V>>)
    requires DistinctKeys(list) && |newest| <= |list| && newest == list[|list| - |newest|..]
    ensures PartOf(newest, list)
    ensures forall a <- list, b <- newest :: a in newest || Precedes(list, a, b)
  {
    var gone := |list| - |newest|;
    assert forall k :: gone <= k < |list| ==> list[k] == newest[k - gone];
    forall a, b | Precedes(newest, a, b) ensures Precedes(list, a, b) {
      var i, j :| 0 <= i < j < |newest| && newest[i] == a && newest[j] == b;
      assert list[gone + i] == a && list[gone + j] == b;
    }
    forall a, b | a in list && b in newest && a !in newest ensures Precedes(list, a, b) {
      var i :| 0 <= i < |list| && list[i] == a;
      var j :| 0 <= j < |newest| && newest[j] == b;
      assert list[gone + j] == b;
    }
  }

  // ---- The map and the queue ----

  /** The entries of `keys`, in their order. */
  function ListOf<K, V>(keys: seq<K>, entries: map<K, V>): (list: seq<Entry<K, V>>)
    requires forall k :: k in keys ==> k in entries
    ensures |list| == |keys| && forall i :: 0 <= i < |keys| ==> list[i] == Entry(keys[i], entries[keys[i]])
  {
    if keys == [] then [] else ListOf(keys[..|keys| - 1], entries) + [Entry(keys[|keys| - 1], entries[keys[|keys| - 1]])]
  }

  lemma KeysOfList<K, V>(keys: seq<K>, entries: map<K, V>)
    requires forall k :: k in keys ==> k in entries
    ensures KeysOf(ListOf(keys, entries)) == keys
  {
  }

  lemma {:induction false} DistinctSize<K>(keys: seq<K>, all: set<K>)
    requires forall i, j :: 0 <= i < j < |keys| ==> keys[i] != keys[j]
    requires forall k :: k in all <==> k in keys
    ensures |all| == |keys|
  {
    if keys == [] {
      assert all == {};
    } else {
      var front, last := keys[..|keys| - 1], keys[|keys| - 1];
      assert keys == front + [last];
      DistinctSize(front, all - {last});
    }
  }

  /** The queue holds the keys of the map, each once. */
  ghost predicate Agree<K(!new), V>(order: seq<K>, entries: map<K, V>) {
    && (forall i, j :: 0 <= i < j < |order| ==> order[i] != order[j])
    && (forall k :: k in entries <==> k in order)
  }

  /** The queue and the map stand for `list`. */
  ghost predicate Stands<K(!new), V>(order: seq<K>, entries: map<K, V>, list: seq<Entry<K, V>>) {
    Agree(order, entries) && ListOf(order, entries) == list
  }

  lemma SizeIsLength<K(!new), V>(order: seq<K>, entries: map<K, V>)
    requires Agree(order, entries)
    ensures |entries| == |order| && forall k :: k in order ==> k in entries
  {
    DistinctSize(order, entries.Keys);
    assert |entries| == |entries.Keys|;
  }

  lemma WithoutHolds<T>(s: seq<T>, at: nat)
    requires at < |s| && forall i, j :: 0 <= i < j < |s| ==> s[i] != s[j]
    ensures forall i, j :: 0 <= i < j < |Without(s, at)| ==> Without(s, at)[i] != Without(s, at)[j]
    ensures forall x :: x in Without(s, at) <==> x in s && x != s[at]
  {
    var w := Without(s, at);
    forall x | x in s && x != s[at]
      ensures x in w
    {
      var i :| 0 <= i < |s| && s[i] == x;
      assert w[if i < at then i else i - 1] == x;
    }
    forall x | x in w
      ensures x in s && x != s[at]
    {
      var i :| 0 <= i < |w| && w[i] == x;
      assert s[if i < at then i else i + 1] == x;
    }
  }

  lemma RemovedAgrees<K(!new), V>(order: seq<K>, entries: map<K, V>, key: K)
    requires Agree(order, entries) && key in entries
    ensures IndexIn(order, key).Some?
    ensures var left := Without(order, IndexIn(order, key).value);
            Agree(left, entries - {key}) && ListOf(left, entries - {key}) == Removed(ListOf(order, entries), key)
  {
    hide IndexIn, ListOf, KeysOf, Without;
    var at := IndexIn(order, key).value;
    WithoutHolds(order, at);
    KeysOfList(order, entries);
    ListOfWithout(order, entries, at);
  }

  lemma ListOfWithout<K(!new), V>(order: seq<K>, entries: map<K, V>, at: nat)
    requires Agree(order, entries) && at < |order|
    ensures forall k :: k in Without(order, at) ==> k in entries - {order[at]}
    ensures ListOf(Without(order, at), entries - {order[at]}) == Without(ListOf(order, entries), at)
  {
    hide ListOf;
    WithoutHolds(order, at);
  }

  lemma PushedAgrees<K(!new), V>(order: seq<K>, entries: map<K, V>, key: K, value: V)
    requires Agree(order, entries) && key !in entries
    ensures Agree(order + [key], entries[key := value])
    ensures ListOf(order + [key], entries[key := value]) == ListOf(order, entries) + [Entry(key, value)]
  {
    hide ListOf;
    assert forall k :: k in order + [key] <==> k in order || k == key;
  }

  lemma PoppedAgrees<K(!new), V>(order: seq<K>, entries: map<K, V>)
    requires Agree(order, entries) && order != []
    ensures Agree(order[1..], entries - {order[0]})
    ensures ListOf(order[1..], entries - {order[0]}) == ListOf(order, entries)[1..]
  {
    hide ListOf;
    assert order == [order[0]] + order[1..];
  }

  /** The oldest leave while more are held than fit. */
  function Evicted<K, V>(order: seq<K>, entries: map<K, V>, capacity: nat): (seq<K>, map<K, V>)
    decreases |order|
  {
    if |entries| <= capacity || order == [] then (order, entries)
    else Evicted(order[1..], entries - {order[0]}, capacity)
  }

  lemma {:induction false} EvictedAgrees<K(!new), V>(order: seq<K>, entries: map<K, V>, capacity: nat)
    requires Agree(order, entries)
    ensures var (left, kept) := Evicted(order, entries, capacity);
      && Agree(left, kept) && |left| <= capacity
      && ListOf(left, kept) == Newest(ListOf(order, entries), capacity)
    decreases |order|
  {
    hide ListOf, Agree;
    SizeIsLength(order, entries);
    if |entries| > capacity {
      PoppedAgrees(order, entries);
      SizeIsLength(order[1..], entries - {order[0]});
      EvictedAgrees(order[1..], entries - {order[0]}, capacity);
      NewestOfRest(ListOf(order, entries), capacity);
    }
  }

  lemma NewestOfRest<T>(s: seq<T>, n: nat)
    requires |s| > n
    ensures Newest(s[1..], n) == Newest(s, n)
  {
  }

  function Kept<K, V>(entries: map<K, V>, keep: (K, V) -> bool): map<K, V> {
    map k | k in entries && keep(k, entries[k]) :: entries[k]
  }

  /** The keys still in the map. */
  function KeysIn<K(==), V>(keys: seq<K>, entries: map<K, V>): seq<K> {
    if keys == [] then []
    else KeysIn(keys[..|keys| - 1], entries) + if keys[|keys| - 1] in entries then [keys[|keys| - 1]] else []
  }

  lemma {:induction false} KeysInAre<K(!new), V>(keys: seq<K>, entries: map<K, V>)
    ensures forall k :: k in KeysIn(keys, entries) <==> k in keys && k in entries
    ensures (forall i, j :: 0 <= i < j < |keys| ==> keys[i] != keys[j]) ==>
              forall i, j :: 0 <= i < j < |KeysIn(keys, entries)| ==> KeysIn(keys, entries)[i] != KeysIn(keys, entries)[j]
  {
    if keys != [] {
      var front, last := keys[..|keys| - 1], keys[|keys| - 1];
      KeysInAre(front, entries);
      assert keys == front + [last];
      assert (forall i, j :: 0 <= i < j < |keys| ==> keys[i] != keys[j]) ==> last !in front;
    }
  }

  lemma {:induction false} RetainedList<K(!new), V>(keys: seq<K>, entries: map<K, V>, keep: (K, V) -> bool)
    requires forall k :: k in keys ==> k in entries
    ensures forall k :: k in KeysIn(keys, Kept(entries, keep)) ==> k in Kept(entries, keep)
    ensures ListOf(KeysIn(keys, Kept(entries, keep)), Kept(entries, keep)) == Retained(ListOf(keys, entries), keep)
  {
    hide ListOf, KeysIn, Retained, Kept;
    var kept := Kept(entries, keep);
    KeysInAre(keys, kept);
    if keys == [] {
      NoneListed(entries, kept, keep);
    } else {
      var front, last := keys[..|keys| - 1], keys[|keys| - 1];
      assert keys == front + [last];
      RetainedList(front, entries, keep);
      OneMoreListed(front, last, entries);
      OneMoreRetained(ListOf(front, entries), Entry(last, entries[last]), keep);
      OneMoreKey(front, last, kept);
      IsKept(last, entries, keep);
      if last in kept {
        OneMoreListed(KeysIn(front, kept), last, kept);
      } else {
        assert KeysIn(front, kept) + [] == KeysIn(front, kept);
      }
    }
  }

  lemma NoneListed<K(!new), V>(entries: map<K, V>, kept: map<K, V>, keep: (K, V) -> bool)
    ensures KeysIn([], kept) == [] && ListOf([], kept) == [] && Retained(ListOf([], entries), keep) == []
  {
  }

  lemma IsKept<K(!new), V>(key: K, entries: map<K, V>, keep: (K, V) -> bool)
    requires key in entries
    ensures key in Kept(entries, keep) <==> keep(key, entries[key])
    ensures key in Kept(entries, keep) ==> Kept(entries, keep)[key] == entries[key]
  {
  }

  lemma OneMoreListed<K(!new), V>(keys: seq<K>, key: K, entries: map<K, V>)
    requires forall k :: k in keys + [key] ==> k in entries
    ensures forall k :: k in keys ==> k in entries
    ensures key in entries && ListOf(keys + [key], entries) == ListOf(keys, entries) + [Entry(key, entries[key])]
  {
    assert (keys + [key])[|keys|] == key;
    assert forall k :: k in keys ==> k in keys + [key];
  }

  lemma OneMoreRetained<K, V>(list: seq<Entry<K, V>>, e: Entry<K, V>, keep: (K, V) -> bool)
    ensures Retained(list + [e], keep) == Retained(list, keep) + if keep(e.key, e.value) then [e] else []
  {
    assert (list + [e])[..|list|] == list;
  }

  lemma RetainedAgrees<K(!new), V>(order: seq<K>, entries: map<K, V>, keep: (K, V) -> bool)
    requires Agree(order, entries)
    ensures Stands(KeysIn(order, Kept(entries, keep)), Kept(entries, keep), Retained(ListOf(order, entries), keep))
    ensures |KeysIn(order, Kept(entries, keep))| <= |order|
  {
    hide ListOf, KeysIn, Retained;
    KeysInAre(order, Kept(entries, keep));
    RetainedList(order, entries, keep);
    FewerKeys(order, Kept(entries, keep));
  }

  lemma {:induction false} FewerKeys<K, V>(keys: seq<K>, entries: map<K, V>)
    ensures |KeysIn(keys, entries)| <= |keys|
  {
    if keys != [] {
      FewerKeys(keys[..|keys| - 1], entries);
    }
  }

  lemma ListIsDistinct<K(!new), V>(order: seq<K>, entries: map<K, V>)
    requires Agree(order, entries)
    ensures DistinctKeys(ListOf(order, entries))
  {
  }

  lemma LookedUp<K(!new), V>(order: seq<K>, entries: map<K, V>, key: K)
    requires Agree(order, entries)
    ensures Lookup(ListOf(order, entries), key) == if key in entries then Some(entries[key]) else None
  {
    hide IndexIn, ListOf, KeysOf;
    KeysOfList(order, entries);
  }

  lemma RemovedNothing<K(!new), V>(order: seq<K>, entries: map<K, V>, key: K)
    requires Agree(order, entries) && key !in entries
    ensures Removed(ListOf(order, entries), key) == ListOf(order, entries)
    ensures Renewed(ListOf(order, entries), key) == ListOf(order, entries)
  {
    hide IndexIn, ListOf, KeysOf;
    KeysOfList(order, entries);
  }

  lemma RenewedIs<K(!new), V>(list: seq<Entry<K, V>>, key: K)
    requires Lookup(list, key).Some?
    ensures Renewed(list, key) == Removed(list, key) + [Entry(key, Lookup(list, key).value)]
  {
    hide IndexIn, KeysOf;
  }

  class BoundedMap<K(==,!new), V> {
    var entries: map<K, V>
    var order: seq<K>
    const capacity: nat

    ghost predicate Valid()
      reads this
    {
      capacity > 0 && |order| <= capacity && Agree(order, entries)
    }

    ghost function View(): (list: seq<Entry<K, V>>)
      requires Valid()
      reads this
    {
      ListOf(order, entries)
    }

    constructor (capacity: nat)
      ensures Valid() && View() == [] && this.capacity == Max(capacity, 1)
    {
      entries, order, this.capacity := map[], [], if capacity > 1 then capacity else 1;
    }

    method Get(key: K) returns (value: Option<V>)
      requires Valid()
      ensures value == Lookup(View(), key)
    {
      LookedUp(order, entries, key);
      return if key in entries then Some(entries[key]) else None;
    }

    /** Takes the key out of the queue. */
    method ForgetOrder(key: K)
      modifies this`order
      ensures order == if IndexIn(old(order), key).None? then old(order)
                       else Without(old(order), IndexIn(old(order), key).value)
    {
      var pos := IndexIn(order, key);
      if pos.Some? {
        order := order[..pos.value] + order[pos.value + 1..];
      }
    }

    /** A lookup that also renews: the entry found becomes the last one an insert would evict. */
    method GetRenewed(key: K) returns (value: Option<V>)
      requires Valid()
      modifies this`order
      ensures Valid() && View() == Renewed(old(View()), key) && value == Lookup(old(View()), key)
    {
      hide Agree, ListOf, KeysOf, IndexIn, Removed, Renewed, Lookup;
      LookedUp(order, entries, key);
      if key in entries {
        RemovedAgrees(order, entries, key);
        ForgetOrder(key);
        PushedAgrees(order, entries - {key}, key, entries[key]);
        assert (entries - {key})[key := entries[key]] == entries;
        RenewedIs(old(View()), key);
        order := order + [key];
      } else {
        RemovedNothing(order, entries, key);
      }
      return if key in entries then Some(entries[key]) else None;
    }

    method Insert(key: K, value: V) returns (replaced: Option<V>)
      requires Valid()
      modifies this
      ensures Valid() && View() == Inserted(old(View()), key, value, capacity) && replaced == Lookup(old(View()), key)
    {
      hide Agree, ListOf, KeysOf, IndexIn, Removed, Lookup, Newest;
      LookedUp(order, entries, key);
      replaced := if key in entries then Some(entries[key]) else None;
      ghost var before := entries;
      entries := entries[key := value];
      if replaced.Some? {
        RemovedAgrees(order, before, key);
        ForgetOrder(key);
        PushedAgrees(order, before - {key}, key, value);
        assert (before - {key})[key := value] == entries;
      } else {
        RemovedNothing(order, before, key);
        PushedAgrees(order, before, key, value);
      }
      order := order + [key];
      EvictPastCapacity();
    }

    /** The eviction loop: the newest up to the capacity stay. */
    method EvictPastCapacity()
      requires capacity > 0 && Agree(order, entries)
      modifies this
      ensures Valid() && View() == Newest(ListOf(old(order), old(entries)), capacity)
    {
      hide Agree, ListOf, Newest;
      EvictedAgrees(order, entries, capacity);
      while |entries| > capacity && order != []
        invariant Evicted(order, entries, capacity) == Evicted(old(order), old(entries), capacity)
        decreases |order|
      {
        var oldest := order[0];
        order := order[1..];
        entries := entries - {oldest};
      }
    }

    method Remove(key: K) returns (removed: Option<V>)
      requires Valid()
      modifies this
      ensures Valid() && View() == Removed(old(View()), key) && removed == Lookup(old(View()), key)
    {
      hide Agree, ListOf, KeysOf, IndexIn, Removed, Lookup;
      LookedUp(order, entries, key);
      if key !in entries {
        RemovedNothing(order, entries, key);
        return None;
      }
      RemovedAgrees(order, entries, key);
      removed := Some(entries[key]);
      entries := entries - {key};
      ForgetOrder(key);
    }

    /** Keeps the entries `keep` takes, in their order. */
    method Retain(keep: (K, V) -> bool)
      requires Valid()
      modifies this
      ensures Valid() && View() == Retained(old(View()), keep)
    {
      hide Agree, ListOf, KeysOf, KeysIn, Retained;
      RetainedAgrees(order, entries, keep);
      var left, keys, kept := Kept(entries, keep), order, [];
      NoKeys<K, V>(left);
      for i := 0 to |keys|
        invariant kept == KeysIn(keys[..i], left)
      {
        OneMoreKey(keys[..i], keys[i], left);
        assert keys[..i + 1] == keys[..i] + [keys[i]];
        if keys[i] in left {
          kept := kept + [keys[i]];
        }
      }
      assert keys[..|keys|] == keys;
      entries, order := left, kept;
    }
  }

  lemma NoKeys<K, V>(entries: map<K, V>)
    ensures KeysIn([], entries) == []
  {
  }

  lemma OneMoreKey<K, V>(keys: seq<K>, key: K, entries: map<K, V>)
    ensures KeysIn(keys + [key], entries) == KeysIn(keys, entries) + if key in entries then [key] else []
  {
    assert (keys + [key])[..|keys|] == keys;
  }
}

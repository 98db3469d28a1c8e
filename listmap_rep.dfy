/** The representation of listmap.go's ListMap: a hash index from key to
    Slot beside a list of keys, the invariant that ties the two together,
    the abstract state they stand for, and one lemma per operation showing
    how a change to the two structures moves the abstract state. */
module ListMapRep {
  import opened OrderedView
  import KeyList
  import Spec = ListMapSpec

  /** What the hash index stores for a key: its value and the handle of its
      list element (the Value struct of listmap.go). */
  datatype Slot<V> = Slot(val: Nullable<V>, element: KeyList.Handle)

  /** The value each slot of the hash index holds. */
  ghost function ValsOf<K, V>(entries: map<K, Slot<V>>): (r: map<K, Nullable<V>>)
    ensures r.Keys == entries.Keys
  {
    map k | k in entries :: entries[k].val
  }

  /** Storing a slot stores its value. */
  lemma ValsOfUpdate<K, V>(entries: map<K, Slot<V>>, key: K, slot: Slot<V>)
    ensures ValsOf(entries[key := slot]) == ValsOf(entries)[key := slot.val]
  {
  }

  /** Dropping a slot drops its value. */
  lemma ValsOfRemove<K, V>(entries: map<K, Slot<V>>, key: K)
    ensures ValsOf(entries - {key}) == ValsOf(entries) - {key}
  {
  }

  /** The abstract state of a key list and a hash index: the keys of the
      list, front to back, and the value stored for each key. */
  ghost function Abstract<K, V>(keys: seq<KeyList.Element<K>>, entries: map<K, Slot<V>>): State<K, V>
  {
    State(KeyList.Values(keys), ValsOf(entries))
  }

  /** Dual consistency of the two structures: the list holds every key of
      the hash index once, every handle it holds was issued before `next`,
      and each key's slot holds the handle of the list element that carries
      that same key. */
  ghost predicate Consistent<K, V>(keys: seq<KeyList.Element<K>>, entries: map<K, Slot<V>>, next: KeyList.Handle)
  {
    && KeyList.UniqueHandles(keys)
    && (forall i :: 0 <= i < |keys| ==> keys[i].handle < next)
    && Distinct(KeyList.Values(keys))
    && entries.Keys == Elems(KeyList.Values(keys))
    && (forall i :: 0 <= i < |keys| ==> keys[i].value in entries && entries[keys[i].value].element == keys[i].handle)
  }

  /** Consistent structures stand for a consistent abstract map. */
  lemma AbstractValid<K, V>(keys: seq<KeyList.Element<K>>, entries: map<K, Slot<V>>, next: KeyList.Handle)
    requires Consistent(keys, entries, next)
    ensures Spec.Valid(Abstract(keys, entries))
    ensures Abstract(keys, entries).vals.Keys == entries.Keys
  {
  }

  /** The position in the list of a key the hash index holds. */
  lemma PositionOf<K, V>(keys: seq<KeyList.Element<K>>, entries: map<K, Slot<V>>, next: KeyList.Handle, key: K)
    returns (i: nat)
    requires Consistent(keys, entries, next) && key in entries
    ensures i < |keys| && keys[i].value == key
  {
    assert key in KeyList.Values(keys);
    var j :| 0 <= j < |KeyList.Values(keys)| && KeyList.Values(keys)[j] == key;
    i := j;
  }

  /** Storing a new value in a present key's slot keeps the structures
      consistent. */
  lemma PutPresentConsistent<K, V>(keys: seq<KeyList.Element<K>>, entries: map<K, Slot<V>>, next: KeyList.Handle, key: K, value: Nullable<V>)
    requires Consistent(keys, entries, next) && key in entries
    ensures Consistent(keys, entries[key := Slot(value, entries[key].element)], next)
  {
  }

  /** Put of a present key: the slot gets the new value, the list is untouched. */
  lemma PutPresent<K, V>(keys: seq<KeyList.Element<K>>, entries: map<K, Slot<V>>, next: KeyList.Handle, key: K, value: Nullable<V>)
    requires Consistent(keys, entries, next) && key in entries
    ensures Abstract(keys, entries[key := Slot(value, entries[key].element)]) == Spec.Put(Abstract(keys, entries), key, value)
  {
    var e := entries[key := Slot(value, entries[key].element)];
    var s := Abstract(keys, entries);
    assert key in s.vals;
    assert Spec.Put(s, key, value) == State(s.order, s.vals[key := value]);
    ValsOfUpdate(entries, key, Slot(value, entries[key].element));
  }

  /** Pushing an element with the next handle keeps the handles unique and
      below the advanced counter. */
  lemma PushHandles<K>(keys: seq<KeyList.Element<K>>, next: KeyList.Handle, key: K, l: seq<KeyList.Element<K>>)
    requires KeyList.UniqueHandles(keys) && forall i :: 0 <= i < |keys| ==> keys[i].handle < next
    requires l == keys + [KeyList.Element(next, key)]
    ensures KeyList.UniqueHandles(l)
    ensures forall i :: 0 <= i < |l| ==> l[i].handle < next + 1
  {
    KeyList.UniqueSnoc(keys, KeyList.Element(next, key));
    forall i | 0 <= i < |l| ensures l[i].handle < next + 1 {
      if i < |keys| { assert l[i] == keys[i]; }
    }
  }

  /** Pushing a new key keeps the list free of duplicates and in step with
      the keys of the hash index. */
  lemma PushKeys<K, V>(keys: seq<KeyList.Element<K>>, entries: map<K, Slot<V>>, next: KeyList.Handle, key: K, value: Nullable<V>,
                       l: seq<KeyList.Element<K>>)
    requires Distinct(KeyList.Values(keys)) && entries.Keys == Elems(KeyList.Values(keys)) && key !in entries
    requires l == keys + [KeyList.Element(next, key)]
    ensures Distinct(KeyList.Values(l))
    ensures entries[key := Slot(value, next)].Keys == Elems(KeyList.Values(l))
  {
    KeyList.ValuesSnoc(keys, KeyList.Element(next, key));
    DistinctSnoc(KeyList.Values(keys), key);
    assert Elems(KeyList.Values(keys) + [key]) == Elems(KeyList.Values(keys)) + {key};
  }

  /** After the push, every element's key has a slot holding that element's
      handle. */
  lemma PushSlots<K, V>(keys: seq<KeyList.Element<K>>, entries: map<K, Slot<V>>, next: KeyList.Handle, key: K, value: Nullable<V>,
                        l: seq<KeyList.Element<K>>)
    requires forall i :: 0 <= i < |keys| ==> keys[i].value in entries && entries[keys[i].value].element == keys[i].handle
    requires key !in entries
    requires l == keys + [KeyList.Element(next, key)]
    ensures forall i :: 0 <= i < |l| ==>
              l[i].value in entries[key := Slot(value, next)] && entries[key := Slot(value, next)][l[i].value].element == l[i].handle
  {
    var e := entries[key := Slot(value, next)];
    forall i | 0 <= i < |l| ensures l[i].value in e && e[l[i].value].element == l[i].handle {
      if i < |keys| { assert l[i] == keys[i]; }
    }
  }

  /** Pushing a fresh element for a new key keeps the structures consistent. */
  lemma PutFreshConsistent<K, V>(keys: seq<KeyList.Element<K>>, entries: map<K, Slot<V>>, next: KeyList.Handle, key: K, value: Nullable<V>)
    requires Consistent(keys, entries, next) && key !in entries
    ensures Consistent(keys + [KeyList.Element(next, key)], entries[key := Slot(value, next)], next + 1)
  {
    var l := keys + [KeyList.Element(next, key)];
    PushHandles(keys, next, key, l);
    PushKeys(keys, entries, next, key, value, l);
    PushSlots(keys, entries, next, key, value, l);
  }

  /** Put of a new key: a fresh element is pushed at the back of the list and
      the new slot records its handle. */
  lemma PutFresh<K, V>(keys: seq<KeyList.Element<K>>, entries: map<K, Slot<V>>, next: KeyList.Handle, key: K, value: Nullable<V>)
    requires Consistent(keys, entries, next) && key !in entries
    ensures Abstract(keys + [KeyList.Element(next, key)], entries[key := Slot(value, next)])
      == Spec.Put(Abstract(keys, entries), key, value)
  {
    var l := keys + [KeyList.Element(next, key)];
    var e := entries[key := Slot(value, next)];
    var s := Abstract(keys, entries);
    assert key !in s.vals;
    assert Spec.Put(s, key, value) == State(s.order + [key], s.vals[key := value]);
    assert KeyList.Values(l) == s.order + [key];
    ValsOfUpdate(entries, key, Slot(value, next));
  }

  /** Unlinking the element at position `i` and dropping its key's slot
      keeps the structures consistent. */
  lemma DeleteConsistent<K, V>(keys: seq<KeyList.Element<K>>, entries: map<K, Slot<V>>, next: KeyList.Handle, key: K, i: nat,
                                l: seq<KeyList.Element<K>>)
    requires Consistent(keys, entries, next)
    requires i < |keys| && keys[i].value == key
    requires l == keys[..i] + keys[i + 1..]
    ensures Consistent(l, entries - {key}, next)
  {
    var order := KeyList.Values(keys);
    KeyList.UniqueWithout(keys, i);
    KeyList.ValuesWithout(keys, i);
    WithoutAt(order, i);
    assert order[i] == key;
    var rest := KeyList.Values(l);
    assert rest == Without(order, key);
    assert Distinct(rest) && Elems(rest) == Elems(order) - {key};
    forall a | 0 <= a < |l|
      ensures l[a].handle < next
      ensures l[a].value in entries - {key} && (entries - {key})[l[a].value].element == l[a].handle
    {
      DropAt(keys, i, a);
      assert rest[a] == l[a].value;
    }
  }

  /** Delete of a present key at position `i`: its element is unlinked by its
      handle and its slot is dropped. */
  lemma DeleteAt<K, V>(keys: seq<KeyList.Element<K>>, entries: map<K, Slot<V>>, next: KeyList.Handle, key: K, i: nat)
    requires Consistent(keys, entries, next)
    requires i < |keys| && keys[i].value == key
    ensures key in entries
    ensures Abstract(keys[..i] + keys[i + 1..], entries - {key}) == Spec.Delete(Abstract(keys, entries), key)
  {
    var s := Abstract(keys, entries);
    KeyList.ValuesWithout(keys, i);
    assert s.order[i] == key;
    WithoutAt(s.order, i);
    assert key in s.vals;
    assert Spec.Delete(s, key) == State(s.order[..i] + s.order[i + 1..], s.vals - {key});
    ValsOfRemove(entries, key);
  }

  /** Pop on a non-empty list: unlinking the back element and dropping its
      key's slot keeps the structures consistent. */
  lemma PopConsistent<K, V>(keys: seq<KeyList.Element<K>>, entries: map<K, Slot<V>>, next: KeyList.Handle)
    requires Consistent(keys, entries, next) && keys != []
    ensures Consistent(keys[..|keys| - 1], entries - {keys[|keys| - 1].value}, next)
  {
    var n := |keys| - 1;
    assert keys[..n] + keys[n + 1..] == keys[..n];
    DeleteConsistent(keys, entries, next, keys[n].value, n, keys[..n]);
  }

  /** Pop on a non-empty list: the back key leaves the list and the hash
      index, and its slot's value is the one returned. */
  lemma PopBack<K, V>(keys: seq<KeyList.Element<K>>, entries: map<K, Slot<V>>, next: KeyList.Handle)
    requires Consistent(keys, entries, next) && keys != []
    ensures keys[|keys| - 1].value in entries
    ensures (Abstract(keys[..|keys| - 1], entries - {keys[|keys| - 1].value}), entries[keys[|keys| - 1].value].val)
      == Spec.Pop(Abstract(keys, entries))
  {
    var n := |keys| - 1;
    var key := keys[n].value;
    var s := Abstract(keys, entries);
    assert s.order[n] == key && key in s.vals;
    assert Spec.Pop(s) == (State(s.order[..n], s.vals - {key}), s.vals[key]);
    assert KeyList.Values(keys[..n]) == s.order[..n];
    ValsOfRemove(entries, key);
  }

  /** Pull on a non-empty list: unlinking the front element and dropping its
      key's slot keeps the structures consistent. */
  lemma PullConsistent<K, V>(keys: seq<KeyList.Element<K>>, entries: map<K, Slot<V>>, next: KeyList.Handle)
    requires Consistent(keys, entries, next) && keys != []
    ensures Consistent(keys[1..], entries - {keys[0].value}, next)
  {
    assert keys[..0] + keys[1..] == keys[1..];
    DeleteConsistent(keys, entries, next, keys[0].value, 0, keys[1..]);
  }

  /** Pull on a non-empty list: the front key leaves the list and the hash
      index, and its slot's value is the one returned. */
  lemma PullFront<K, V>(keys: seq<KeyList.Element<K>>, entries: map<K, Slot<V>>, next: KeyList.Handle)
    requires Consistent(keys, entries, next) && keys != []
    ensures keys[0].value in entries
    ensures (Abstract(keys[1..], entries - {keys[0].value}), entries[keys[0].value].val)
      == Spec.Pull(Abstract(keys, entries))
  {
    var key := keys[0].value;
    var s := Abstract(keys, entries);
    assert s.order[0] == key && key in s.vals;
    assert Spec.Pull(s) == (State(s.order[1..], s.vals - {key}), s.vals[key]);
    assert KeyList.Values(keys[1..]) == s.order[1..];
    ValsOfRemove(entries, key);
  }

  /** Put as one step of the structures: `k1`, `e1`, `n1` are the list, the
      hash index and the handle counter after Put(key, value). */
  lemma PutStep<K, V>(k0: seq<KeyList.Element<K>>, e0: map<K, Slot<V>>, n0: KeyList.Handle, key: K, value: Nullable<V>,
                      k1: seq<KeyList.Element<K>>, e1: map<K, Slot<V>>, n1: KeyList.Handle)
    requires Consistent(k0, e0, n0)
    requires key in e0 ==> k1 == k0 && e1 == e0[key := Slot(value, e0[key].element)] && n1 == n0
    requires key !in e0 ==> k1 == k0 + [KeyList.Element(n0, key)] && e1 == e0[key := Slot(value, n0)] && n1 == n0 + 1
    ensures Consistent(k1, e1, n1)
    ensures Abstract(k1, e1) == Spec.Put(Abstract(k0, e0), key, value)
  {
    if key in e0 {
      PutPresentConsistent(k0, e0, n0, key, value);
      PutPresent(k0, e0, n0, key, value);
    } else {
      PutFreshConsistent(k0, e0, n0, key, value);
      PutFresh(k0, e0, n0, key, value);
    }
  }

  /** Delete as one step of the structures. */
  lemma DeleteStep<K, V>(k0: seq<KeyList.Element<K>>, e0: map<K, Slot<V>>, n: KeyList.Handle, key: K,
                         k1: seq<KeyList.Element<K>>, e1: map<K, Slot<V>>)
    requires Consistent(k0, e0, n)
    requires key in e0 ==> k1 == KeyList.Remove(k0, e0[key].element) && e1 == e0 - {key}
    requires key !in e0 ==> k1 == k0 && e1 == e0
    ensures Consistent(k1, e1, n)
    ensures Abstract(k1, e1) == Spec.Delete(Abstract(k0, e0), key)
  {
    if key in e0 {
      var i := PositionOf(k0, e0, n, key);
      KeyList.RemoveAt(k0, e0[key].element, i);
      DeleteConsistent(k0, e0, n, key, i, k1);
      DeleteAt(k0, e0, n, key, i);
    } else {
      assert key !in Abstract(k0, e0).vals;
    }
  }

  /** Pop on a non-empty list as one step of the structures; `r` is the
      value read from the back key's slot. */
  lemma PopStep<K, V>(k0: seq<KeyList.Element<K>>, e0: map<K, Slot<V>>, n: KeyList.Handle,
                      k1: seq<KeyList.Element<K>>, e1: map<K, Slot<V>>, r: Nullable<V>)
    requires Consistent(k0, e0, n) && k0 != []
    requires k1 == k0[..|k0| - 1] && e1 == e0 - {k0[|k0| - 1].value}
    requires k0[|k0| - 1].value in e0 ==> r == e0[k0[|k0| - 1].value].val
    ensures Consistent(k1, e1, n)
    ensures (Abstract(k1, e1), r) == Spec.Pop(Abstract(k0, e0))
  {
    PopConsistent(k0, e0, n);
    PopBack(k0, e0, n);
  }

  /** Pull on a non-empty list as one step of the structures; `r` is the
      value read from the front key's slot. */
  lemma PullStep<K, V>(k0: seq<KeyList.Element<K>>, e0: map<K, Slot<V>>, n: KeyList.Handle,
                       k1: seq<KeyList.Element<K>>, e1: map<K, Slot<V>>, r: Nullable<V>)
    requires Consistent(k0, e0, n) && k0 != []
    requires k1 == k0[1..] && e1 == e0 - {k0[0].value}
    requires k0[0].value in e0 ==> r == e0[k0[0].value].val
    ensures Consistent(k1, e1, n)
    ensures (Abstract(k1, e1), r) == Spec.Pull(Abstract(k0, e0))
  {
    PullConsistent(k0, e0, n);
    PullFront(k0, e0, n);
  }

  /** The values read slot by slot along the list are ValuesOf the abstract state. */
  lemma ValuesOfSlots<K, V>(keys: seq<KeyList.Element<K>>, entries: map<K, Slot<V>>, vs: seq<Nullable<V>>)
    requires |vs| == |keys|
    requires forall j :: 0 <= j < |keys| ==> keys[j].value in entries && vs[j] == entries[keys[j].value].val
    ensures vs == ValuesOf(KeyList.Values(keys), ValsOf(entries))
  {
    var want := ValuesOf(KeyList.Values(keys), ValsOf(entries));
    assert |want| == |keys|;
  }

  /** The pairs read slot by slot along the list are EntriesOf the abstract state. */
  lemma EntriesOfSlots<K, V>(keys: seq<KeyList.Element<K>>, entries: map<K, Slot<V>>, es: seq<Entry<K, V>>)
    requires |es| == |keys|
    requires forall j :: 0 <= j < |keys| ==> keys[j].value in entries && es[j] == Entry(keys[j].value, entries[keys[j].value].val)
    ensures es == EntriesOf(KeyList.Values(keys), ValsOf(entries))
  {
    var want := EntriesOf(KeyList.Values(keys), ValsOf(entries));
    assert |want| == |keys|;
  }
}

/** The insertion-ordered map of listmap.go as a class over the hash index
    and the key list of ListMapRep. Every method is proved against the
    specification functions of ListMapSpec. */
module ListMaps {
  import opened OrderedView
  import KeyList
  import Spec = ListMapSpec
  import opened ListMapRep

  /** The walk of Keys: the key of each list element, front to back. */
  method WalkKeys<K>(keys: seq<KeyList.Element<K>>) returns (ks: seq<K>)
    ensures ks == KeyList.Values(keys)
  {
    ghost var want := KeyList.Values(keys);
    ks := [];
    var i := 0;
    while i < |keys|
      invariant 0 <= i <= |keys|
      invariant ks == want[..i]
    {
      assert want[..i + 1] == want[..i] + [keys[i].value];
      ks := ks + [keys[i].value];
      i := i + 1;
    }
  }

  /** The walk of Values: for each list element, front to back, the value in
      the slot of its key. */
  method WalkValues<K, V>(keys: seq<KeyList.Element<K>>, entries: map<K, Slot<V>>) returns (vs: seq<Nullable<V>>)
    requires forall i | 0 <= i < |keys| :: keys[i].value in entries
    ensures vs == ValuesOf(KeyList.Values(keys), ValsOf(entries))
  {
    vs := [];
    var i := 0;
    while i < |keys|
      invariant 0 <= i <= |keys| && |vs| == i
      invariant forall j :: 0 <= j < i ==> vs[j] == entries[keys[j].value].val
    {
      vs := vs + [entries[keys[i].value].val];
      i := i + 1;
    }
    ValuesOfSlots(keys, entries, vs);
  }

  /** The walk of Entries: for each list element, front to back, its key
      paired with the value in the slot of that key. */
  method WalkEntries<K, V>(keys: seq<KeyList.Element<K>>, entries: map<K, Slot<V>>) returns (es: seq<Entry<K, V>>)
    requires forall i | 0 <= i < |keys| :: keys[i].value in entries
    ensures es == EntriesOf(KeyList.Values(keys), ValsOf(entries))
  {
    es := [];
    var i := 0;
    while i < |keys|
      invariant 0 <= i <= |keys| && |es| == i
      invariant forall j :: 0 <= j < i ==> es[j] == Entry(keys[j].value, entries[keys[j].value].val)
    {
      var k := keys[i].value;
      es := es + [Entry(k, entries[k].val)];
      i := i + 1;
    }
    EntriesOfSlots(keys, entries, es);
  }

  class ListMap<K(==), V> {
    var entries: map<K, Slot<V>>
    var keys: seq<KeyList.Element<K>>
    /** The handle the list gives to the next element it creates. */
    var nextHandle: KeyList.Handle

    ghost predicate Valid()
      reads this
    {
      Consistent(keys, entries, nextHandle)
    }

    ghost function Model(): State<K, V>
      reads this
    {
      Abstract(keys, entries)
    }

    /** New (listmap.go:22): an empty map. */
    constructor ()
      ensures Valid() && Model() == State([], map[])
    {
      entries := map[];
      keys := [];
      nextHandle := 0;
    }

    /** Init (listmap.go:24-32): empties both structures. */
    method Init()
      modifies this
      ensures Valid() && Model() == State([], map[])
    {
      entries := map[];
      keys := [];
    }

    /** Put (listmap.go:34-41). A present key keeps its list element: only
        the value in its slot changes. A new key is pushed at the back of the
        list and its slot records the new element's handle. */
    method Put(key: K, value: Nullable<V>)
      requires Valid()
      modifies this
      ensures Valid()
      ensures Model() == Spec.Put(old(Model()), key, value)
      ensures key in old(entries) ==> entries[key].element == old(entries[key].element)
    {
      ghost var k0, e0, n0 := keys, entries, nextHandle;
      if key in entries {
        entries := entries[key := Slot(value, entries[key].element)];
      } else {
        var e := KeyList.Element(nextHandle, key);
        keys := keys + [e];
        nextHandle := nextHandle + 1;
        entries := entries[key := Slot(value, e.handle)];
      }
      PutStep(k0, e0, n0, key, value, keys, entries, nextHandle);
    }

    /** PutMap (listmap.go:43-48): Put for each pair of a Go map, in an order
        the caller does not choose. `picked` is the order the loop took: each
        key of `m` once, with its value. Whatever that order, the values of
        `m` are merged into the map and the old keys keep their positions. */
    method PutMap(m: map<K, Nullable<V>>) returns (ghost picked: seq<Entry<K, V>>)
      requires Valid()
      modifies this
      ensures Valid()
      ensures Picked(picked, m, {})
      ensures Model() == Spec.PutEntries(old(Model()), picked)
      ensures Model().vals == old(Model()).vals + m
      ensures |old(Model()).order| <= |Model().order|
      ensures Model().order[..|old(Model()).order|] == old(Model()).order
    {
      AbstractValid(keys, entries, nextHandle);
      ghost var start := Model();
      picked := [];
      var rest := m.Keys;
      while rest != {}
        invariant Valid()
        invariant Picked(picked, m, rest)
        invariant Model() == Spec.PutEntries(start, picked)
        decreases rest
      {
        var k := AnyKey(rest);
        Put(k, m[k]);
        Spec.PutEntriesSnoc(start, picked, Entry(k, m[k]));
        ghost var picked0, rest0 := picked, rest;
        picked := picked + [Entry(k, m[k])];
        rest := rest - {k};
        PickOne(picked0, m, rest0, k, picked, rest);
      }
      PickedAll(picked, m);
      Spec.PutEntriesMerge(start, picked, m);
      Spec.PutEntriesExtends(start, picked);
    }

    /** PutEntries (listmap.go:50-55): Put for each entry, first to last. */
    method PutEntries(es: seq<Entry<K, V>>)
      requires Valid()
      modifies this
      ensures Valid()
      ensures Model() == Spec.PutEntries(old(Model()), es)
    {
      for j := 0 to |es|
        invariant Valid()
        invariant Spec.PutEntries(Model(), es[j..]) == Spec.PutEntries(old(Model()), es)
      {
        Spec.PutEntriesCons(Model(), es, j);
        Put(es[j].key, es[j].value);
      }
    }

    /** Delete (listmap.go:57-63): a present key's element is unlinked by its
        handle and its slot is removed; an absent key changes nothing. */
    method Delete(key: K)
      requires Valid()
      modifies this
      ensures Valid()
      ensures Model() == Spec.Delete(old(Model()), key)
    {
      ghost var k0, e0 := keys, entries;
      if key in entries {
        keys := KeyList.Remove(keys, entries[key].element);
        entries := entries - {key};
      }
      DeleteStep(k0, e0, nextHandle, key, keys, entries);
    }

    /** DeleteAll (listmap.go:65-70): Delete for each key, first to last. */
    method DeleteAll(ks: seq<K>)
      requires Valid()
      modifies this
      ensures Valid()
      ensures Model() == Spec.DeleteAll(old(Model()), ks)
    {
      for j := 0 to |ks|
        invariant Valid()
        invariant Spec.DeleteAll(Model(), ks[j..]) == Spec.DeleteAll(old(Model()), ks)
      {
        assert ks[j..][1..] == ks[j + 1..];
        Delete(ks[j]);
      }
    }

    /** Keys (listmap.go:72-78): walks the list front to back. The snapshot
        holds every stored key exactly once, in insertion order. */
    method Keys() returns (ks: seq<K>)
      requires Valid()
      ensures ks == Model().order
      ensures Distinct(ks) && Elems(ks) == Model().vals.Keys
    {
      AbstractValid(keys, entries, nextHandle);
      ks := WalkKeys(keys);
    }

    /** Values (listmap.go:84-90): walks the list front to back; position i
        holds the value stored for the i-th key. */
    method Values() returns (vs: seq<Nullable<V>>)
      requires Valid()
      ensures vs == ValuesOf(Model().order, Model().vals)
    {
      vs := WalkValues(keys, entries);
    }

    /** Entries (listmap.go:92-98): walks the list front to back; position i
        pairs the i-th key with its stored value. */
    method Entries() returns (es: seq<Entry<K, V>>)
      requires Valid()
      ensures es == EntriesOf(Model().order, Model().vals)
    {
      es := WalkEntries(keys, entries);
    }

    /** Get (listmap.go:100-105): the value stored for a key in the list,
        nil for a key the map does not hold. */
    function Get(key: K): (r: Nullable<V>)
      reads this
      requires Valid()
      ensures key in Model().order ==> r == Model().vals[key]
      ensures key !in Model().order ==> r == Nil
    {
      AbstractValid(keys, entries, nextHandle);
      if key in entries then entries[key].val else Nil
    }

    /** Contains (listmap.go:107-110): asks the hash index, which agrees
        with the key list. */
    function Contains(key: K): (r: bool)
      reads this
      requires Valid()
      ensures r <==> key in Model().order
    {
      AbstractValid(keys, entries, nextHandle);
      key in entries
    }

    /** ContainsAll (listmap.go:112-117): true when every given key is held;
        true for no keys at all. */
    method ContainsAll(ks: seq<K>) returns (r: bool)
      requires Valid()
      ensures r <==> forall i :: 0 <= i < |ks| ==> ks[i] in Model().order
    {
      assert entries.Keys == Elems(Model().order);
      for i := 0 to |ks|
        invariant forall j :: 0 <= j < i ==> ks[j] in entries
      {
        if ks[i] !in entries {
          return false;
        }
      }
      return true;
    }

    /** ContainsAny (listmap.go:119-124): true when some given key is held;
        false for no keys at all. */
    method ContainsAny(ks: seq<K>) returns (r: bool)
      requires Valid()
      ensures r <==> exists i :: 0 <= i < |ks| && ks[i] in Model().order
    {
      assert entries.Keys == Elems(Model().order);
      for i := 0 to |ks|
        invariant forall j :: 0 <= j < i ==> ks[j] !in entries
      {
        if ks[i] in entries {
          return true;
        }
      }
      return false;
    }

    /** Len (listmap.go:126-128): the length of the list, which is also the
        number of entries in the hash index. */
    function Len(): (r: nat)
      reads this
      requires Valid()
      ensures r == |Model().order| && r == |Model().vals|
    {
      AbstractValid(keys, entries, nextHandle);
      Spec.LenIsEntryCount(Model());
      |keys|
    }

    /** Head (listmap.go:130-133): the value of the first key, nil when empty. */
    function Head(): (r: Nullable<V>)
      reads this
      requires Valid()
      ensures Model().order == [] ==> r == Nil
      ensures Model().order != [] ==> r == Model().vals[Model().order[0]]
    {
      AbstractValid(keys, entries, nextHandle);
      if NotEmpty() then entries[keys[0].value].val else Nil
    }

    /** Tail (listmap.go:135-138): the value of the last key, nil when empty. */
    function Tail(): (r: Nullable<V>)
      reads this
      requires Valid()
      ensures Model().order == [] ==> r == Nil
      ensures Model().order != [] ==> r == Model().vals[Model().order[|Model().order| - 1]]
    {
      AbstractValid(keys, entries, nextHandle);
      if NotEmpty() then entries[keys[|keys| - 1].value].val else Nil
    }

    /** Pop (listmap.go:140-148): unlinks the back element, drops its key from
        the hash index and returns the value it had. */
    method Pop() returns (r: Nullable<V>)
      requires Valid()
      modifies this
      ensures Valid()
      ensures (Model(), r) == Spec.Pop(old(Model()))
    {
      r := Nil;
      if NotEmpty() {
        ghost var k0, e0 := keys, entries;
        var key := keys[|keys| - 1].value;
        keys := keys[..|keys| - 1];
        if key in entries {
          r := entries[key].val;
        }
        entries := entries - {key};
        PopStep(k0, e0, nextHandle, keys, entries, r);
      }
    }

    /** Pull (listmap.go:150-158): unlinks the front element, drops its key
        from the hash index and returns the value it had. */
    method Pull() returns (r: Nullable<V>)
      requires Valid()
      modifies this
      ensures Valid()
      ensures (Model(), r) == Spec.Pull(old(Model()))
    {
      r := Nil;
      if NotEmpty() {
        ghost var k0, e0 := keys, entries;
        var key := keys[0].value;
        keys := keys[1..];
        if key in entries {
          r := entries[key].val;
        }
        entries := entries - {key};
        PullStep(k0, e0, nextHandle, keys, entries, r);
      }
    }

    /** Empty (listmap.go:160-162): decided by the list; true exactly when
        the hash index holds nothing. */
    function Empty(): (r: bool)
      reads this
      requires Valid()
      ensures r <==> Model().vals == map[]
    {
      AbstractValid(keys, entries, nextHandle);
      assert |keys| > 0 ==> KeyList.Values(keys)[0] in entries;
      |keys| == 0
    }

    /** NotEmpty (listmap.go:164-166): decided by the list; true exactly when
        the hash index holds some entry. */
    function NotEmpty(): (r: bool)
      reads this
      requires Valid()
      ensures r <==> Model().vals != map[]
      ensures r <==> keys != []
    {
      AbstractValid(keys, entries, nextHandle);
      assert |keys| > 0 ==> KeyList.Values(keys)[0] in entries;
      |keys| > 0
    }
  }
}

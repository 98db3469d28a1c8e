/** The sorted map of treemap.go as a class over the hash index and the
    tree's ascending key sequence. Every method is proved against the
    specification functions of TreeMapSpec. */
module TreeMaps {
  import opened OrderedView
  import opened SortedKeys
  import Spec = TreeMapSpec

  class TreeMap<V> {
    var entries: map<int, Nullable<V>>
    /** The B-tree, as the ascending sequence of the keys it holds. */
    var keys: seq<int>

    ghost predicate Valid()
      reads this
    {
      Spec.Valid(Model())
    }

    ghost function Model(): State<int, V>
      reads this
    {
      State(keys, entries)
    }

    /** New (treemap.go:17): an empty map. */
    constructor ()
      ensures Valid() && Model() == State([], map[])
    {
      entries := map[];
      keys := [];
    }

    /** Init (treemap.go:19-27): empties the hash index and the tree. */
    method Init()
      modifies this
      ensures Valid() && Model() == State([], map[])
    {
      entries := map[];
      keys := [];
    }

    /** Put (treemap.go:29-33): inserts the key into the tree and stores the
        value in the hash index. */
    method Put(key: int, value: Nullable<V>)
      requires Valid()
      modifies this
      ensures Valid()
      ensures Model() == Spec.Put(old(Model()), key, value)
    {
      keys := Insert(keys, key);
      entries := entries[key := value];
    }

    /** PutMap (treemap.go:35-40): Put for each pair of a Go map, in an order
        the caller does not choose. `picked` is the order the loop took: each
        key of `m` once, with its value. Whatever that order, the values of
        `m` are merged in, and the tree's order is the same for every order
        the loop could take. */
    method PutMap(m: map<int, Nullable<V>>) returns (ghost picked: seq<Entry<int, V>>)
      requires Valid()
      modifies this
      ensures Valid()
      ensures Picked(picked, m, {})
      ensures Model() == Spec.PutEntries(old(Model()), picked)
      ensures Model().vals == old(Model()).vals + m
      ensures Elems(Model().order) == Elems(old(Model()).order) + m.Keys
    {
      ghost var start := Model();
      picked := [];
      var rest := m.Keys;
      while rest != {}
        invariant Valid()
        invariant Picked(picked, m, rest)
        invariant Model() == Spec.PutEntries(start, picked)
        decreases rest
      {
        var k := AnyKey(rest);
        Put(k, m[k]);
        Spec.PutEntriesSnoc(start, picked, Entry(k, m[k]));
        ghost var picked0, rest0 := picked, rest;
        picked := picked + [Entry(k, m[k])];
        rest := rest - {k};
        PickOne(picked0, m, rest0, k, picked, rest);
      }
      PickedAll(picked, m);
      Spec.PutEntriesMerge(start, picked, m);
    }

    /** PutEntries (treemap.go:42-47): Put for each entry, first to last. */
    method PutEntries(es: seq<Entry<int, V>>)
      requires Valid()
      modifies this
      ensures Valid()
      ensures Model() == Spec.PutEntries(old(Model()), es)
    {
      for j := 0 to |es|
        invariant Valid()
        invariant Spec.PutEntries(Model(), es[j..]) == Spec.PutEntries(old(Model()), es)
      {
        assert es[j..][1..] == es[j + 1..];
        Put(es[j].key, es[j].value);
      }
    }

    /** Delete (treemap.go:49-53): removes the key from the tree and writes
        nil for it into the hash index. */
    method Delete(key: int)
      requires Valid()
      modifies this
      ensures Valid()
      ensures Model() == Spec.Delete(old(Model()), key)
    {
      keys := Without(keys, key);
      entries := entries[key := Nil];
      assert Model() == Spec.Delete(old(Model()), key);
    }

    /** DeleteAll (treemap.go:55-60): Delete for each key, first to last. */
    method DeleteAll(ks: seq<int>)
      requires Valid()
      modifies this
      ensures Valid()
      ensures Model() == Spec.DeleteAll(old(Model()), ks)
    {
      for j := 0 to |ks|
        invariant Valid()
        invariant Spec.DeleteAll(Model(), ks[j..]) == Spec.DeleteAll(old(Model()), ks)
      {
        assert ks[j..][1..] == ks[j + 1..];
        Delete(ks[j]);
      }
    }

    /** Keys (treemap.go:62-64): the tree's keys, ascending; every one of
        them is in the hash index. */
    method Keys() returns (ks: seq<int>)
      requires Valid()
      ensures ks == Model().order
      ensures Ascending(ks) && Elems(ks) <= Model().vals.Keys
    {
      ks := keys;
    }

    /** Values (treemap.go:70-78): fills an array as long as the tree, slot i
        with what the hash index holds for the i-th key. */
    method Values() returns (vs: seq<Nullable<V>>)
      requires Valid()
      ensures vs == ValuesOf(Model().order, Model().vals)
    {
      var ks := keys;
      var length := |ks|;
      var a := new Nullable<V>[length](_ => Nil);
      for i := 0 to length
        invariant forall j :: 0 <= j < i ==> a[j] == Lookup(entries, ks[j])
      {
        a[i] := Lookup(entries, ks[i]);
      }
      vs := a[..];
    }

    /** Entries (treemap.go:80-88): fills an array as long as the tree, slot
        i with the i-th key and what the hash index holds for it. */
    method Entries() returns (es: seq<Entry<int, V>>)
      requires Valid()
      ensures es == EntriesOf(Model().order, Model().vals)
    {
      var ks := keys;
      var length := |ks|;
      var a := new Entry<int, V>[length](_ => Entry(0, Nil));
      for i := 0 to length
        invariant forall j :: 0 <= j < i ==> a[j] == Entry(ks[j], Lookup(entries, ks[j]))
      {
        a[i] := Entry(ks[i], Lookup(entries, ks[i]));
      }
      es := a[..];
    }

    /** Get (treemap.go:94-96): reads the hash index; nil for a key it does
        not hold, and nil for a deleted key too. */
    function Get(key: int): (r: Nullable<V>)
      reads this
      requires Valid()
      ensures key in Model().vals ==> r == Model().vals[key]
      ensures key !in Model().order ==> r == Nil
    {
      Lookup(entries, key)
    }

    /** Contains (treemap.go:98-101): asks the hash index, not the tree, so a
        deleted key is still contained. Every key of the tree is. */
    function Contains(key: int): (r: bool)
      reads this
      requires Valid()
      ensures r <==> key in Model().vals
      ensures key in Model().order ==> r
    {
      assert key in Elems(keys) ==> key in entries;
      key in entries
    }

    /** ContainsAll (treemap.go:103-109): true when the hash index holds
        every given key; true for no keys at all. */
    method ContainsAll(ks: seq<int>) returns (r: bool)
      requires Valid()
      ensures r <==> forall i :: 0 <= i < |ks| ==> ks[i] in Model().vals
    {
      for i := 0 to |ks|
        invariant forall j :: 0 <= j < i ==> ks[j] in Model().vals
      {
        if ks[i] !in entries {
          return false;
        }
      }
      return true;
    }

    /** ContainsAny (treemap.go:111-117): true when the hash index holds some
        given key; false for no keys at all. */
    method ContainsAny(ks: seq<int>) returns (r: bool)
      requires Valid()
      ensures r <==> exists i :: 0 <= i < |ks| && ks[i] in Model().vals
    {
      for i := 0 to |ks|
        invariant forall j :: 0 <= j < i ==> ks[j] !in Model().vals
      {
        if ks[i] in entries {
          return true;
        }
      }
      return false;
    }

    /** Len (treemap.go:119-121): the number of keys in the tree, which may
        be fewer than the entries of the hash index. */
    function Len(): (r: nat)
      reads this
      requires Valid()
      ensures r == |Model().order| && r <= |Model().vals|
    {
      Spec.LenAtMostEntries(Model());
      |keys|
    }

    /** Head (treemap.go:123-125): the value stored for the least key. */
    function Head(): (r: Nullable<V>)
      reads this
      requires Valid() && NotEmpty()
      ensures r == Model().vals[Model().order[0]]
      ensures forall x | x in Model().order :: Model().order[0] <= x
    {
      AscendingBounds(keys);
      assert keys[0] in Elems(keys);
      Lookup(entries, keys[0])
    }

    /** Tail (treemap.go:127-129): the value stored for the greatest key. */
    function Tail(): (r: Nullable<V>)
      reads this
      requires Valid() && NotEmpty()
      ensures r == Model().vals[Model().order[|Model().order| - 1]]
      ensures forall x | x in Model().order :: x <= Model().order[|Model().order| - 1]
    {
      AscendingBounds(keys);
      assert keys[|keys| - 1] in Elems(keys);
      Lookup(entries, keys[|keys| - 1])
    }

    /** Pop (treemap.go:131-136): takes the greatest key out of the tree,
        returns its value and overwrites its entry with nil. */
    method Pop() returns (r: Nullable<V>)
      requires Valid() && NotEmpty()
      modifies this
      ensures Valid()
      ensures (Model(), r) == Spec.Pop(old(Model()))
    {
      var key := keys[|keys| - 1];
      keys := keys[..|keys| - 1];
      r := Lookup(entries, key);
      entries := entries[key := Nil];
    }

    /** Pull (treemap.go:138-143): takes the least key out of the tree,
        returns its value and overwrites its entry with nil. */
    method Pull() returns (r: Nullable<V>)
      requires Valid() && NotEmpty()
      modifies this
      ensures Valid()
      ensures (Model(), r) == Spec.Pull(old(Model()))
    {
      var key := keys[0];
      keys := keys[1..];
      r := Lookup(entries, key);
      entries := entries[key := Nil];
    }

    /** Empty (treemap.go:145-147): decided by the tree, so a map whose keys
        were all deleted is empty though its hash index is not. */
    function Empty(): (r: bool)
      reads this
      requires Valid()
      ensures r <==> Model().order == []
      ensures !r ==> Model().vals != map[]
    {
      assert keys != [] ==> keys[0] in Elems(keys);
      |keys| == 0
    }

    /** NotEmpty (treemap.go:149-151): decided by the tree. */
    function NotEmpty(): (r: bool)
      reads this
      requires Valid()
      ensures r <==> Model().order != []
      ensures r ==> Model().vals != map[]
    {
      assert keys != [] ==> keys[0] in Elems(keys);
      |keys| > 0
    }
  }
}

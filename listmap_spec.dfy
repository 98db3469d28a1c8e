/** What the insertion-ordered map (listmap.go) does to its abstract state:
    each operation as a function on OrderedView.State, with the properties
    the map promises stated on those functions and proved as lemmas. */
module ListMapSpec {
  import opened OrderedView

  /** Dual consistency: the hash index and the key list hold the same keys,
      and the list holds each key once. */
  ghost predicate Valid<K, V>(s: State<K, V>)
  {
    Distinct(s.order) && s.vals.Keys == Elems(s.order)
  }

  /** Put (listmap.go:34-41): a new key is pushed at the back of the list;
      a present key gets its new value and stays where it is. */
  ghost function Put<K, V>(s: State<K, V>, k: K, v: Nullable<V>): (r: State<K, V>)
    ensures Valid(s) ==> Valid(r)
    ensures k in r.vals && r.vals[k] == v
    ensures r.vals.Keys == s.vals.Keys + {k}
    ensures forall x | x in s.vals && x != k :: r.vals[x] == s.vals[x]
    ensures |s.order| <= |r.order| && r.order[..|s.order|] == s.order
    ensures Valid(s) && k in s.vals ==> r.order == s.order
    ensures Valid(s) && k !in s.vals ==> r.order == s.order + [k]
  {
    if k in s.vals then State(s.order, s.vals[k := v])
    else State(s.order + [k], s.vals[k := v])
  }

  /** PutEntries (listmap.go:50-55): Put for each entry, first to last. The
      map stays consistent and gains exactly the keys it is given. */
  ghost function PutEntries<K, V>(s: State<K, V>, es: seq<Entry<K, V>>): (r: State<K, V>)
    ensures Valid(s) ==> Valid(r)
    ensures r.vals.Keys == s.vals.Keys + Elems(KeysOf(es))
    decreases |es|
  {
    if es == [] then s
    else
      KeysOfCons(es);
      PutEntries(Put(s, es[0].key, es[0].value), es[1..])
  }

  /** The first of the remaining entries is one Put, the rest PutEntries. */
  lemma PutEntriesCons<K, V>(s: State<K, V>, es: seq<Entry<K, V>>, j: nat)
    requires j < |es|
    ensures PutEntries(s, es[j..]) == PutEntries(Put(s, es[j].key, es[j].value), es[j + 1..])
  {
    assert es[j..][1..] == es[j + 1..];
  }

  /** PutEntries moves none of the keys already present: the old key list
      is a prefix of the new one. */
  lemma {:induction false} PutEntriesExtends<K, V>(s: State<K, V>, es: seq<Entry<K, V>>)
    ensures |s.order| <= |PutEntries(s, es).order| && PutEntries(s, es).order[..|s.order|] == s.order
    decreases |es|
  {
    if es != [] {
      var t := Put(s, es[0].key, es[0].value);
      PutEntriesExtends(t, es[1..]);
      var r := PutEntries(t, es[1..]);
      assert r.order[..|s.order|] == r.order[..|t.order|][..|s.order|];
    }
  }

  /** Delete (listmap.go:57-63): a present key leaves both the list and the
      hash index; an absent key changes nothing. */
  ghost function Delete<K, V>(s: State<K, V>, k: K): (r: State<K, V>)
    ensures Valid(s) ==> Valid(r)
    ensures r.vals.Keys == s.vals.Keys - {k}
    ensures k in s.vals ==> Elems(r.order) == Elems(s.order) - {k}
    ensures forall x | x in r.vals :: r.vals[x] == s.vals[x]
    ensures k !in s.vals ==> r == s
    ensures Valid(s) ==> forall i :: 0 <= i < |s.order| && s.order[i] == k ==> r.order == s.order[..i] + s.order[i + 1..]
  {
    if k in s.vals then
      assert forall i :: 0 <= i < |s.order| && s.order[i] == k && Distinct(s.order) ==>
          Without(s.order, k) == s.order[..i] + s.order[i + 1..] by {
        forall i | 0 <= i < |s.order| && s.order[i] == k && Distinct(s.order)
          ensures Without(s.order, k) == s.order[..i] + s.order[i + 1..]
        {
          WithoutAt(s.order, i);
        }
      }
      State(Without(s.order, k), s.vals - {k})
    else s
  }

  /** Deleting a key twice is deleting it once. */
  lemma DeleteIdempotent<K, V>(s: State<K, V>, k: K)
    ensures Delete(Delete(s, k), k) == Delete(s, k)
  {
  }

  /** DeleteAll (listmap.go:65-70): Delete for each key, first to last. The
      surviving keys keep their values and their relative order. */
  ghost function DeleteAll<K, V>(s: State<K, V>, ks: seq<K>): (r: State<K, V>)
    ensures Valid(s) ==> Valid(r)
    ensures r.vals.Keys == s.vals.Keys - Elems(ks)
    ensures forall x | x in r.vals :: r.vals[x] == s.vals[x]
    ensures Valid(s) ==> r.order == WithoutAll(s.order, Elems(ks))
    decreases |ks|
  {
    if ks == [] then
      WithoutNone(s.order);
      assert Elems(ks) == {};
      s
    else
      assert Elems(ks) == {ks[0]} + Elems(ks[1..]) by {
        assert ks == [ks[0]] + ks[1..];
      }
      var t := Delete(s, ks[0]);
      WithoutOne(s.order, ks[0]);
      WithoutAllTwice(s.order, {ks[0]}, Elems(ks[1..]));
      assert Valid(s) ==> t.order == Without(s.order, ks[0]);
      DeleteAll(t, ks[1..])
  }

  /** Pop (listmap.go:140-148): takes the last key out of both structures and
      returns its value; an empty map returns nil and stays as it is. */
  ghost function Pop<K, V>(s: State<K, V>): (r: (State<K, V>, Nullable<V>))
    ensures Valid(s) ==> Valid(r.0)
    ensures s.order == [] ==> r == (s, Nil)
    ensures s.order != [] ==>
      var last := s.order[|s.order| - 1];
      && r.0.order == s.order[..|s.order| - 1]
      && r.1 == Lookup(s.vals, last)
      && r.0.vals.Keys == s.vals.Keys - {last}
    ensures forall x | x in r.0.vals :: r.0.vals[x] == s.vals[x]
  {
    if s.order == [] then (s, Nil)
    else
      var last := s.order[|s.order| - 1];
      var rest := s.order[..|s.order| - 1];
      assert Distinct(s.order) ==> last !in rest && Distinct(rest);
      (State(rest, s.vals - {last}), Lookup(s.vals, last))
  }

  /** Pull (listmap.go:150-158): takes the first key out of both structures
      and returns its value; an empty map returns nil and stays as it is. */
  ghost function Pull<K, V>(s: State<K, V>): (r: (State<K, V>, Nullable<V>))
    ensures Valid(s) ==> Valid(r.0)
    ensures s.order == [] ==> r == (s, Nil)
    ensures s.order != [] ==>
      && r.0.order == s.order[1..]
      && r.1 == Lookup(s.vals, s.order[0])
      && r.0.vals.Keys == s.vals.Keys - {s.order[0]}
    ensures forall x | x in r.0.vals :: r.0.vals[x] == s.vals[x]
  {
    if s.order == [] then (s, Nil)
    else
      var first := s.order[0];
      var rest := s.order[1..];
      assert Distinct(s.order) ==> first !in rest && Distinct(rest) by {
        if Distinct(s.order) {
          forall a | 0 <= a < |rest| ensures rest[a] != first { assert rest[a] == s.order[a + 1]; }
        }
      }
      (State(rest, s.vals - {first}), Lookup(s.vals, first))
  }

  /** The values returned by calling Pull `n` times, and the state after. */
  ghost function Pulls<K, V>(s: State<K, V>, n: nat): (State<K, V>, seq<Nullable<V>>)
    decreases n
  {
    if n == 0 then (s, [])
    else
      var p := Pull(s);
      var q := Pulls(p.0, n - 1);
      (q.0, [p.1] + q.1)
  }

  /** The values returned by calling Pop `n` times, and the state after. */
  ghost function Pops<K, V>(s: State<K, V>, n: nat): (State<K, V>, seq<Nullable<V>>)
    decreases n
  {
    if n == 0 then (s, [])
    else
      var p := Pop(s);
      var q := Pops(p.0, n - 1);
      (q.0, [p.1] + q.1)
  }

  /** Len (listmap.go:126-128) counts the list; dual consistency makes it the
      number of entries in the hash index too. */
  lemma LenIsEntryCount<K, V>(s: State<K, V>)
    requires Valid(s)
    ensures |s.vals| == |s.order|
  {
    DistinctCard(s.order);
    assert s.vals.Keys == set k | k in s.order;
  }

  /** After a Pull, the remaining values are the old ones without the first. */
  lemma ValuesAfterPull<K, V>(s: State<K, V>)
    requires Valid(s) && s.order != []
    ensures ValuesOf(s.order, s.vals) == [Pull(s).1] + ValuesOf(Pull(s).0.order, Pull(s).0.vals)
  {
    var t := Pull(s).0;
    var got := [Pull(s).1] + ValuesOf(t.order, t.vals);
    forall i | 0 <= i < |s.order| ensures got[i] == ValuesOf(s.order, s.vals)[i] {
      if i > 0 {
        assert t.order[i - 1] == s.order[i] && s.order[i] in t.vals;
      }
    }
  }

  /** After a Pop, the remaining values are the old ones without the last. */
  lemma ValuesAfterPop<K, V>(s: State<K, V>)
    requires Valid(s) && s.order != []
    ensures ValuesOf(s.order, s.vals) == ValuesOf(Pop(s).0.order, Pop(s).0.vals) + [Pop(s).1]
  {
    var t := Pop(s).0;
    var got := ValuesOf(t.order, t.vals) + [Pop(s).1];
    forall i | 0 <= i < |s.order| ensures got[i] == ValuesOf(s.order, s.vals)[i] {
      if i < |s.order| - 1 {
        assert t.order[i] == s.order[i] && s.order[i] in t.vals;
      }
    }
  }

  /** FIFO extraction: pulling every key yields the values in list order and
      leaves the map empty. */
  lemma {:induction false} PullsDrainInOrder<K, V>(s: State<K, V>)
    requires Valid(s)
    ensures Pulls(s, |s.order|).0 == State([], map[])
    ensures Pulls(s, |s.order|).1 == ValuesOf(s.order, s.vals)
    decreases |s.order|
  {
    if s.order == [] {
      assert s.vals.Keys == {};
    } else {
      ValuesAfterPull(s);
      PullsDrainInOrder(Pull(s).0);
    }
  }

  /** LIFO extraction: popping every key yields the values in reverse list
      order and leaves the map empty. */
  lemma {:induction false} PopsDrainReversed<K, V>(s: State<K, V>)
    requires Valid(s)
    ensures Pops(s, |s.order|).0 == State([], map[])
    ensures Pops(s, |s.order|).1 == Reversed(ValuesOf(s.order, s.vals))
    decreases |s.order|
  {
    if s.order == [] {
      assert s.vals.Keys == {};
    } else {
      ValuesAfterPop(s);
      PopsDrainReversed(Pop(s).0);
      ReversedSnoc(ValuesOf(Pop(s).0.order, Pop(s).0.vals), Pop(s).1);
    }
  }

  /** Putting a fresh key adds its entry at the back of Entries. */
  lemma EntriesAfterPutFresh<K, V>(s: State<K, V>, e: Entry<K, V>)
    requires Valid(s) && e.key !in s.vals
    ensures EntriesOf(Put(s, e.key, e.value).order, Put(s, e.key, e.value).vals) == EntriesOf(s.order, s.vals) + [e]
  {
    assert Put(s, e.key, e.value) == State(s.order + [e.key], s.vals[e.key := e.value]);
    EntriesOfFresh(s.order, s.vals, e.key, e.value);
  }

  /** One step of the round trip: after putting the first entry, the rest
      of the entries still have distinct keys none of which is present. */
  lemma RoundTripStep<K, V>(s: State<K, V>, es: seq<Entry<K, V>>)
    requires Valid(s) && es != []
    requires Distinct(KeysOf(es))
    requires s.vals.Keys !! Elems(KeysOf(es))
    ensures var t := Put(s, es[0].key, es[0].value);
      && Valid(t)
      && t.order == s.order + [es[0].key]
      && Distinct(KeysOf(es[1..]))
      && t.vals.Keys !! Elems(KeysOf(es[1..]))
  {
    assert KeysOf(es) == [es[0].key] + KeysOf(es[1..]);
    DistinctCons(es[0].key, KeysOf(es[1..]));
  }

  /** Entries with distinct fresh keys are appended to the key list in the
      order they were given. */
  lemma {:induction false} PutEntriesOrder<K, V>(s: State<K, V>, es: seq<Entry<K, V>>)
    requires Valid(s)
    requires Distinct(KeysOf(es))
    requires s.vals.Keys !! Elems(KeysOf(es))
    ensures PutEntries(s, es).order == s.order + KeysOf(es)
    decreases |es|
  {
    if es != [] {
      RoundTripStep(s, es);
      var t := Put(s, es[0].key, es[0].value);
      PutEntriesOrder(t, es[1..]);
      assert PutEntries(s, es) == PutEntries(t, es[1..]);
      assert KeysOf(es) == [es[0].key] + KeysOf(es[1..]);
      AppendAssoc(s.order, [es[0].key], KeysOf(es[1..]));
    }
  }

  /** Entries with distinct keys are all stored, and keys they do not name
      keep their values. */
  lemma {:induction false} PutEntriesValues<K, V>(s: State<K, V>, es: seq<Entry<K, V>>)
    requires Distinct(KeysOf(es))
    ensures forall i :: 0 <= i < |es| ==> Lookup(PutEntries(s, es).vals, es[i].key) == es[i].value
    ensures forall k | k in s.vals && k !in Elems(KeysOf(es)) :: Lookup(PutEntries(s, es).vals, k) == s.vals[k]
    decreases |es|
  {
    if es != [] {
      var t := Put(s, es[0].key, es[0].value);
      var rest := es[1..];
      assert KeysOf(es) == [es[0].key] + KeysOf(rest);
      DistinctCons(es[0].key, KeysOf(rest));
      PutEntriesValues(t, rest);
      var r := PutEntries(s, es);
      assert r == PutEntries(t, rest);
      forall i | 0 <= i < |es| ensures Lookup(r.vals, es[i].key) == es[i].value {
        if i > 0 {
          assert es[i] == rest[i - 1];
        } else {
          assert es[0].key == KeysOf(es)[0] && es[0].key !in Elems(KeysOf(rest));
        }
      }
    }
  }

  /** Round trip: entries with distinct keys put into an empty map come back
      from Entries exactly as they were given. */
  lemma {:induction false} PutEntriesRoundTrip<K, V>(es: seq<Entry<K, V>>)
    requires Distinct(KeysOf(es))
    ensures EntriesOf(PutEntries(State([], map[]), es).order, PutEntries(State([], map[]), es).vals) == es
    decreases |es|
  {
    if es != [] {
      var s: State<K, V> := State([], map[]);
      var n := |es| - 1;
      var init, e := es[..n], es[n];
      assert es == init + [e];
      assert KeysOf(es) == KeysOf(init) + [e.key];
      DistinctInit(KeysOf(init), e.key);
      PutEntriesRoundTrip(init);
      var t := PutEntries(s, init);
      PutEntriesSnoc(s, init, e);
      EntriesAfterPutFresh(t, e);
    }
  }

  /** Order stability on update: re-putting keys that are all present
      changes no position in the key list. */
  lemma {:induction false} PutEntriesPresentKeepsOrder<K, V>(s: State<K, V>, es: seq<Entry<K, V>>)
    requires Valid(s)
    requires Elems(KeysOf(es)) <= s.vals.Keys
    ensures PutEntries(s, es).order == s.order
    decreases |es|
  {
    if es != [] {
      var t := Put(s, es[0].key, es[0].value);
      assert KeysOf(es) == [es[0].key] + KeysOf(es[1..]);
      assert t.order == s.order && t.vals.Keys == s.vals.Keys;
      PutEntriesPresentKeepsOrder(t, es[1..]);
    }
  }

  /** PutEntries with one more entry at the back is one more Put. */
  lemma {:induction false} PutEntriesSnoc<K, V>(s: State<K, V>, es: seq<Entry<K, V>>, e: Entry<K, V>)
    ensures PutEntries(s, es + [e]) == Put(PutEntries(s, es), e.key, e.value)
    decreases |es|
  {
    if es == [] {
      assert es + [e] == [e] && [e][1..] == [];
    } else {
      assert (es + [e])[0] == es[0] && (es + [e])[1..] == es[1..] + [e];
      PutEntriesSnoc(Put(s, es[0].key, es[0].value), es[1..], e);
    }
  }

  /** Putting the pairs of a map, each key once and in any order, merges the
      map in: its values win, every other key keeps its value. */
  lemma PutEntriesMerge<K, V>(s: State<K, V>, es: seq<Entry<K, V>>, m: map<K, Nullable<V>>)
    requires Distinct(KeysOf(es)) && Elems(KeysOf(es)) == m.Keys
    requires forall i :: 0 <= i < |es| ==> es[i].key in m && es[i].value == m[es[i].key]
    ensures PutEntries(s, es).vals == s.vals + m
  {
    PutEntriesValues(s, es);
    var r := PutEntries(s, es).vals;
    forall k | k in r ensures r[k] == (s.vals + m)[k] {
      if k in m {
        assert k in KeysOf(es);
        var i :| 0 <= i < |es| && KeysOf(es)[i] == k;
        assert Lookup(r, es[i].key) == es[i].value;
      } else {
        assert Lookup(r, k) == s.vals[k];
      }
    }
  }
}

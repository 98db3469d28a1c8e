/** Vocabulary shared by both ordered maps: Go's nil-able values, the Entry
    pair of a snapshot, the abstract state (keys in iteration order plus the
    hash index) and the snapshots Values and Entries read from it. */
module OrderedView {

  /** A Go `interface{}` value as the maps store and return it: nil, or a value. */
  datatype Nullable<V> = Nil | Val(v: V)

  /** One (key, value) pair of an Entries snapshot. */
  datatype Entry<K, V> = Entry(key: K, value: Nullable<V>)

  /** The abstract state of an ordered map: the keys of the order structure,
      in iteration order, and the value stored in the hash index for each key. */
  datatype State<K, V> = State(order: seq<K>, vals: map<K, Nullable<V>>)

  /** Reading a Go map: a missing key reads as the zero value nil. */
  function Lookup<K, V>(m: map<K, Nullable<V>>, k: K): Nullable<V>
  {
    if k in m then m[k] else Nil
  }

  /** The keys a sequence holds, as a set. */
  function Elems<K>(s: seq<K>): set<K>
  {
    set x | x in s
  }

  /** Only the empty sequence holds no keys. */
  lemma EmptyElems<K>(s: seq<K>)
    ensures Elems(s) == {} <==> s == []
  {
    if s != [] {
      assert s[0] in Elems(s);
    }
  }

  /** No key occurs twice. */
  predicate Distinct<K(==)>(s: seq<K>)
  {
    forall i, j :: 0 <= i < j < |s| ==> s[i] != s[j]
  }

  /** The values read from `m` for the keys of `order`, position by position. */
  function ValuesOf<K, V>(order: seq<K>, m: map<K, Nullable<V>>): (r: seq<Nullable<V>>)
    ensures |r| == |order|
    ensures forall i :: 0 <= i < |order| ==> r[i] == Lookup(m, order[i])
  {
    if order == [] then [] else [Lookup(m, order[0])] + ValuesOf(order[1..], m)
  }

  /** The (key, value) pairs for the keys of `order`, position by position. */
  function EntriesOf<K, V>(order: seq<K>, m: map<K, Nullable<V>>): (r: seq<Entry<K, V>>)
    ensures |r| == |order|
    ensures forall i :: 0 <= i < |order| ==> r[i] == Entry(order[i], Lookup(m, order[i]))
  {
    if order == [] then [] else [Entry(order[0], Lookup(m, order[0]))] + EntriesOf(order[1..], m)
  }

  /** Entries for one more key at the back: one more pair at the back. */
  lemma EntriesOfSnoc<K, V>(order: seq<K>, m: map<K, Nullable<V>>, k: K)
    ensures EntriesOf(order + [k], m) == EntriesOf(order, m) + [Entry(k, Lookup(m, k))]
  {
    var got := EntriesOf(order + [k], m);
    var want := EntriesOf(order, m) + [Entry(k, Lookup(m, k))];
    forall i | 0 <= i < |got| ensures got[i] == want[i] {
      if i < |order| { assert (order + [k])[i] == order[i]; }
    }
  }

  /** Two maps that agree on the keys of `order` give the same entries. */
  lemma EntriesOfAgree<K, V>(order: seq<K>, m1: map<K, Nullable<V>>, m2: map<K, Nullable<V>>)
    requires forall i :: 0 <= i < |order| ==> Lookup(m1, order[i]) == Lookup(m2, order[i])
    ensures EntriesOf(order, m1) == EntriesOf(order, m2)
  {
    var a := EntriesOf(order, m1);
    var b := EntriesOf(order, m2);
    forall i | 0 <= i < |order| ensures a[i] == b[i] {
    }
  }

  /** Storing a value under a key the order does not hold yet and appending
      that key adds exactly one entry at the back. */
  lemma EntriesOfFresh<K, V>(order: seq<K>, m: map<K, Nullable<V>>, k: K, v: Nullable<V>)
    requires Elems(order) <= m.Keys && k !in m
    ensures EntriesOf(order + [k], m[k := v]) == EntriesOf(order, m) + [Entry(k, v)]
  {
    EntriesOfSnoc(order, m[k := v], k);
    forall i | 0 <= i < |order| ensures Lookup(m[k := v], order[i]) == Lookup(m, order[i]) {
      assert order[i] in Elems(order);
    }
    EntriesOfAgree(order, m[k := v], m);
  }

  /** The keys of a list of entries, in order. */
  function KeysOf<K, V>(es: seq<Entry<K, V>>): (r: seq<K>)
    ensures |r| == |es|
    ensures forall i :: 0 <= i < |es| ==> r[i] == es[i].key
  {
    if es == [] then [] else [es[0].key] + KeysOf(es[1..])
  }

  /** The keys of a non-empty list: the first entry's key, then the rest. */
  lemma KeysOfCons<K, V>(es: seq<Entry<K, V>>)
    requires es != []
    ensures KeysOf(es) == [es[0].key] + KeysOf(es[1..])
    ensures Elems(KeysOf(es)) == {es[0].key} + Elems(KeysOf(es[1..]))
  {
    assert KeysOf(es) == [es[0].key] + KeysOf(es[1..]);
  }

  /** The next key a `range` loop over a Go map visits: some key not yet
      visited, in an order Go leaves unspecified. */
  method AnyKey<K>(rest: set<K>) returns (k: K)
    requires rest != {}
    ensures k in rest
  {
    k :| k in rest;
  }

  /** The pairs of `m` a PutMap loop has put so far, in the order it took
      them: each key once, with its value in `m`, and the keys not yet taken
      are `rest`. */
  ghost predicate Picked<K, V>(picked: seq<Entry<K, V>>, m: map<K, Nullable<V>>, rest: set<K>)
  {
    && rest <= m.Keys
    && Distinct(KeysOf(picked))
    && Elems(KeysOf(picked)) == m.Keys - rest
    && (forall i :: 0 <= i < |picked| ==> picked[i].key in m && picked[i].value == m[picked[i].key])
  }

  /** Taking one more key `k` of `rest` keeps Picked. */
  lemma PickOne<K, V>(picked0: seq<Entry<K, V>>, m: map<K, Nullable<V>>, rest0: set<K>, k: K,
                      picked: seq<Entry<K, V>>, rest: set<K>)
    requires Picked(picked0, m, rest0) && k in rest0
    requires picked == picked0 + [Entry(k, m[k])] && rest == rest0 - {k}
    ensures Picked(picked, m, rest)
  {
    var ks := KeysOf(picked);
    assert ks == KeysOf(picked0) + [k] by {
      forall i | 0 <= i < |ks| ensures ks[i] == (KeysOf(picked0) + [k])[i] {
        if i < |picked0| { assert picked[i] == picked0[i]; }
      }
    }
    DistinctSnoc(KeysOf(picked0), k);
    assert Elems(ks) == Elems(KeysOf(picked0)) + {k};
    forall i | 0 <= i < |picked| ensures picked[i].key in m && picked[i].value == m[picked[i].key] {
      if i < |picked0| { assert picked[i] == picked0[i]; }
    }
  }

  /** The distinct keys of `picked` are all of `m`'s keys. */
  lemma PickedAll<K, V>(picked: seq<Entry<K, V>>, m: map<K, Nullable<V>>)
    requires Picked(picked, m, {})
    ensures Distinct(KeysOf(picked)) && Elems(KeysOf(picked)) == m.Keys
    ensures forall i :: 0 <= i < |picked| ==> picked[i].key in m && picked[i].value == m[picked[i].key]
  {
  }

  /** A state that lists exactly the keys of `es`, holding their values,
      gives back `es` from Entries. */
  lemma EntriesAre<K, V>(r: State<K, V>, es: seq<Entry<K, V>>)
    requires r.order == KeysOf(es)
    requires forall i :: 0 <= i < |es| ==> Lookup(r.vals, es[i].key) == es[i].value
    ensures EntriesOf(r.order, r.vals) == es
  {
    var got := EntriesOf(r.order, r.vals);
    forall i | 0 <= i < |es| ensures got[i] == es[i] {
      assert r.order[i] == es[i].key;
    }
  }

  /** `s` back to front. */
  function Reversed<T>(s: seq<T>): (r: seq<T>)
    ensures |r| == |s|
    ensures forall i :: 0 <= i < |s| ==> r[i] == s[|s| - 1 - i]
  {
    if s == [] then [] else Reversed(s[1..]) + [s[0]]
  }

  /** Reversing a sequence with one more element at the back puts it in front. */
  lemma ReversedSnoc<T>(s: seq<T>, x: T)
    ensures Reversed(s + [x]) == [x] + Reversed(s)
  {
  }

  /** Concatenation regroups freely. */
  lemma AppendAssoc<T>(a: seq<T>, b: seq<T>, c: seq<T>)
    ensures (a + b) + c == a + (b + c)
  {
  }

  /** Position `a` of `s` with position `i` taken out. */
  lemma DropAt<T>(s: seq<T>, i: nat, a: nat)
    requires i < |s| && a < |s| - 1
    ensures (s[..i] + s[i + 1..])[a] == if a < i then s[a] else s[a + 1]
  {
    if a < i {
      assert (s[..i] + s[i + 1..])[a] == s[..i][a];
    } else {
      assert (s[..i] + s[i + 1..])[a] == s[i + 1..][a - i];
    }
  }

  /** A key can be put in front of a list without duplicates exactly when
      the list does not hold it. */
  lemma DistinctCons<K>(a: K, s: seq<K>)
    ensures Distinct([a] + s) <==> a !in s && Distinct(s)
  {
    var t := [a] + s;
    if a !in s && Distinct(s) {
      forall i, j | 0 <= i < j < |t| ensures t[i] != t[j] {
        assert t[j] == s[j - 1];
        if i > 0 { assert t[i] == s[i - 1]; }
      }
    }
    if Distinct(t) {
      forall i, j | 0 <= i < j < |s| ensures s[i] != s[j] {
        assert s[i] == t[i + 1] && s[j] == t[j + 1];
      }
      forall i | 0 <= i < |s| ensures s[i] != a {
        assert s[i] == t[i + 1] && a == t[0];
      }
    }
  }

  /** `s` with every occurrence of `x` taken out, the others kept in order. */
  function Without<K(==)>(s: seq<K>, x: K): (r: seq<K>)
    ensures Elems(r) == Elems(s) - {x}
    ensures x !in s ==> r == s
    ensures Distinct(s) ==> Distinct(r)
  {
    if s == [] then []
    else
      var r := Without(s[1..], x);
      assert Elems(s) == {s[0]} + Elems(s[1..]) by { assert s == [s[0]] + s[1..]; }
      DistinctCons(s[0], s[1..]);
      assert s == [s[0]] + s[1..];
      if s[0] == x then r
      else
        DistinctCons(s[0], r);
        assert Elems([s[0]] + r) == {s[0]} + Elems(r);
        [s[0]] + r
  }

  /** `s` with every key of `gone` taken out, the others kept in order. */
  ghost function WithoutAll<K>(s: seq<K>, gone: set<K>): (r: seq<K>)
    ensures Elems(r) == Elems(s) - gone
    ensures |r| <= |s|
  {
    if s == [] then []
    else
      var r := WithoutAll(s[1..], gone);
      assert Elems(s) == {s[0]} + Elems(s[1..]) by { assert s == [s[0]] + s[1..]; }
      if s[0] in gone then r
      else
        assert Elems([s[0]] + r) == {s[0]} + Elems(r);
        [s[0]] + r
  }

  /** Taking out no keys leaves the sequence as it was. */
  lemma {:induction false} WithoutNone<K>(s: seq<K>)
    ensures WithoutAll(s, {}) == s
  {
    if s != [] {
      WithoutNone(s[1..]);
      assert s == [s[0]] + s[1..];
    }
  }

  /** Taking out one key is taking out the set of just that key. */
  lemma {:induction false} WithoutOne<K>(s: seq<K>, x: K)
    ensures Without(s, x) == WithoutAll(s, {x})
  {
    if s != [] {
      WithoutOne(s[1..], x);
    }
  }

  /** Taking out one set of keys and then another is taking out both. */
  lemma {:induction false} WithoutAllTwice<K>(s: seq<K>, a: set<K>, b: set<K>)
    ensures WithoutAll(WithoutAll(s, a), b) == WithoutAll(s, a + b)
  {
    if s != [] {
      var rest := WithoutAll(s[1..], a);
      WithoutAllTwice(s[1..], a, b);
      if s[0] !in a {
        var t := [s[0]] + rest;
        assert WithoutAll(s, a) == t;
        assert t[0] == s[0] && t[1..] == rest;
      }
    }
  }

  /** In a list without duplicates, removing `x` removes exactly its position. */
  lemma {:induction false} WithoutAt<K>(s: seq<K>, i: nat)
    requires Distinct(s) && i < |s|
    ensures Without(s, s[i]) == s[..i] + s[i + 1..]
  {
    var rest := s[1..];
    assert s == [s[0]] + rest;
    DistinctCons(s[0], rest);
    if i == 0 {
      assert Without(s, s[0]) == Without(rest, s[0]);
      assert s[1..] == rest;
    } else {
      assert rest[i - 1] == s[i];
      WithoutAt(rest, i - 1);
      assert Without(s, s[i]) == [s[0]] + Without(rest, s[i]);
      assert s[..i] == [s[0]] + rest[..i - 1];
      assert s[i + 1..] == rest[i..];
      AppendAssoc([s[0]], rest[..i - 1], rest[i..]);
    }
  }

  /** A list without duplicates with one key at the back: the front has no
      duplicates and does not hold that key. */
  lemma DistinctInit<K>(s: seq<K>, x: K)
    requires Distinct(s + [x])
    ensures Distinct(s) && x !in s
  {
    var t := s + [x];
    forall i, j | 0 <= i < j < |s| ensures s[i] != s[j] {
      assert s[i] == t[i] && s[j] == t[j];
    }
    forall i | 0 <= i < |s| ensures s[i] != x {
      assert s[i] == t[i] && x == t[|s|];
    }
  }

  /** A key not yet in a list without duplicates can be appended to it. */
  lemma DistinctSnoc<K>(s: seq<K>, x: K)
    requires Distinct(s) && x !in s
    ensures Distinct(s + [x])
  {
    var t := s + [x];
    forall i, j | 0 <= i < j < |t| ensures t[i] != t[j] {
      assert t[i] == s[i];
      if j < |s| { assert t[j] == s[j]; }
    }
  }

  /** A sequence without duplicates has as many distinct elements as positions. */
  lemma {:induction false} DistinctCard<K>(s: seq<K>)
    requires Distinct(s)
    ensures |Elems(s)| == |s|
  {
    if s != [] {
      var rest := s[1..];
      assert Distinct(rest) by {
        forall i, j | 0 <= i < j < |rest| ensures rest[i] != rest[j] {
          assert rest[i] == s[i + 1] && rest[j] == s[j + 1];
        }
      }
      DistinctCard(rest);
      assert s[0] !in rest by {
        forall i | 0 <= i < |rest| ensures rest[i] != s[0] {
          assert rest[i] == s[i + 1];
        }
      }
      assert Elems(s) == Elems(rest) + {s[0]} by {
        assert s == [s[0]] + rest;
      }
    }
  }

  /** A subset is no larger than its superset. */
  lemma {:induction false} SubsetCard<K>(a: set<K>, b: set<K>)
    requires a <= b
    ensures |a| <= |b|
    decreases |a|
  {
    if a != {} {
      var x :| x in a;
      SubsetCard(a - {x}, b - {x});
    }
  }
}

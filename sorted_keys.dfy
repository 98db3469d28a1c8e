/** The B-tree behind the sorted map (treemap.go), seen from outside: the
    set of keys it holds, as a strictly ascending sequence. Insert and
    Remove are the two updates the map asks of it. */
module SortedKeys {
  import opened OrderedView

  /** Strictly ascending: the order in which the tree lists its keys. */
  predicate Ascending(s: seq<int>)
  {
    forall i, j :: 0 <= i < j < |s| ==> s[i] < s[j]
  }

  /** A key can be put in front of an ascending sequence exactly when it is
      below all of its keys. */
  lemma AscendingCons(x: int, s: seq<int>)
    ensures Ascending([x] + s) <==> (forall y | y in s :: x < y) && Ascending(s)
  {
    var t := [x] + s;
    if Ascending(t) {
      forall i, j | 0 <= i < j < |s| ensures s[i] < s[j] {
        assert s[i] == t[i + 1] && s[j] == t[j + 1];
      }
      forall y | y in s ensures x < y {
        var i :| 0 <= i < |s| && s[i] == y;
        assert t[0] == x && t[i + 1] == y;
      }
    }
    if (forall y | y in s :: x < y) && Ascending(s) {
      forall i, j | 0 <= i < j < |t| ensures t[i] < t[j] {
        assert t[j] == s[j - 1] && s[j - 1] in s;
        if i > 0 { assert t[i] == s[i - 1]; }
      }
    }
  }

  /** The tail of an ascending sequence is ascending and lies above its head. */
  lemma AscendingTail(s: seq<int>)
    requires Ascending(s) && s != []
    ensures Ascending(s[1..]) && forall y | y in s[1..] :: s[0] < y
    ensures Elems(s[1..]) == Elems(s) - {s[0]}
  {
    assert s == [s[0]] + s[1..];
    AscendingCons(s[0], s[1..]);
    assert Elems(s) == {s[0]} + Elems(s[1..]);
  }

  /** Without its last key, an ascending sequence stays ascending, lies
      below that key and holds every other key. */
  lemma AscendingInit(s: seq<int>, init: seq<int>)
    requires Ascending(s) && s != [] && init == s[..|s| - 1]
    ensures Ascending(init)
    ensures forall y | y in init :: y < s[|s| - 1]
    ensures Elems(init) == Elems(s) - {s[|s| - 1]}
  {
    var n := |s| - 1;
    forall y | y in init ensures y < s[n] {
      var i :| 0 <= i < |init| && init[i] == y;
      assert s[i] == y;
    }
    assert s == init + [s[n]];
    assert Elems(s) == Elems(init) + {s[n]};
  }

  /** The first key of an ascending sequence is its least, the last its greatest. */
  lemma AscendingBounds(s: seq<int>)
    requires Ascending(s) && s != []
    ensures forall y | y in s :: s[0] <= y <= s[|s| - 1]
  {
    forall y | y in s ensures s[0] <= y <= s[|s| - 1] {
      var i :| 0 <= i < |s| && s[i] == y;
    }
  }

  /** A set of keys has one ascending listing: two ascending sequences with
      the same keys are equal. */
  lemma {:induction false} AscendingUnique(a: seq<int>, b: seq<int>)
    requires Ascending(a) && Ascending(b) && Elems(a) == Elems(b)
    ensures a == b
  {
    if a == [] || b == [] {
      EmptyElems(a);
      EmptyElems(b);
    } else {
      AscendingBounds(a);
      AscendingBounds(b);
      assert a[0] in Elems(b) && b[0] in Elems(a);
      AscendingTail(a);
      AscendingTail(b);
      assert a == [a[0]] + a[1..] && b == [b[0]] + b[1..];
      assert Elems(a[1..]) == Elems(a) - {a[0]};
      assert Elems(b[1..]) == Elems(b) - {b[0]};
      AscendingUnique(a[1..], b[1..]);
    }
  }

  /** Insert of a key below the first: it goes in front. */
  lemma InsertBelow(k: int, s: seq<int>)
    requires s != [] && k < s[0]
    ensures Elems([k] + s) == Elems(s) + {k}
    ensures Ascending(s) ==> k !in s && Ascending([k] + s)
  {
    assert Elems([k] + s) == {k} + Elems(s);
    if Ascending(s) {
      AscendingBounds(s);
      AscendingCons(k, s);
    }
  }

  /** Insert of a key above the first: the first stays in front of the
      tail with the key inserted. */
  lemma InsertAbove(s: seq<int>, k: int, r: seq<int>)
    requires s != [] && s[0] < k
    requires Elems(r) == Elems(s[1..]) + {k}
    requires Ascending(s[1..]) ==> Ascending(r)
    requires Ascending(s[1..]) && k in s[1..] ==> r == s[1..]
    requires Ascending(s[1..]) && k !in s[1..] ==> |r| == |s[1..]| + 1
    ensures Elems([s[0]] + r) == Elems(s) + {k}
    ensures Ascending(s) ==> Ascending([s[0]] + r)
    ensures Ascending(s) && k in s ==> [s[0]] + r == s
    ensures Ascending(s) && k !in s ==> |[s[0]] + r| == |s| + 1
  {
    assert s == [s[0]] + s[1..];
    assert Elems(s) == {s[0]} + Elems(s[1..]);
    assert Elems([s[0]] + r) == {s[0]} + Elems(r);
    if Ascending(s) {
      AscendingTail(s);
      forall y | y in r ensures s[0] < y {
        assert y in Elems(r);
      }
      AscendingCons(s[0], r);
    }
  }

  /** Insert (the tree's insertion, treemap.go:30): the key joins the set;
      a key already held leaves the tree as it was. */
  function Insert(s: seq<int>, k: int): (r: seq<int>)
    ensures Elems(r) == Elems(s) + {k}
    ensures Ascending(s) ==> Ascending(r)
    ensures Ascending(s) && k in s ==> r == s
    ensures Ascending(s) && k !in s ==> |r| == |s| + 1
  {
    if s == [] then [k]
    else if k < s[0] then
      InsertBelow(k, s);
      [k] + s
    else if k == s[0] then s
    else
      var r := Insert(s[1..], k);
      InsertAbove(s, k, r);
      [s[0]] + r
  }

  /** The tree's deletion (treemap.go:50) is Without on its keys: the key
      leaves the set, the others stay ascending, and exactly one position
      goes when the key was held. */
  lemma {:induction false} WithoutAscending(s: seq<int>, k: int)
    requires Ascending(s)
    ensures Ascending(Without(s, k))
    ensures k in s ==> |Without(s, k)| == |s| - 1
  {
    if s != [] {
      var rest := s[1..];
      assert s == [s[0]] + rest;
      AscendingTail(s);
      WithoutAscending(rest, k);
      if s[0] == k {
        assert Without(s, k) == Without(rest, k);
        assert k !in Elems(rest);
      } else {
        var r := Without(rest, k);
        assert Without(s, k) == [s[0]] + r;
        forall y | y in r ensures s[0] < y {
          assert y in Elems(r);
        }
        AscendingCons(s[0], r);
      }
    }
  }
}

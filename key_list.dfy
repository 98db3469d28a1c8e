/** The doubly linked list of keys (Go's container/list) as a sequence of
    elements. Each element carries the handle that the list hands out when
    the element is pushed; the list removes an element by that handle. */
module KeyList {
  import opened OrderedView

  /** Stands for a *list.Element: it names one element for its lifetime. */
  type Handle = nat

  datatype Element<K> = Element(handle: Handle, value: K)

  /** The keys the list holds, front to back. */
  function Values<K>(s: seq<Element<K>>): (r: seq<K>)
    ensures |r| == |s|
    ensures forall i :: 0 <= i < |s| ==> r[i] == s[i].value
  {
    if s == [] then [] else [s[0].value] + Values(s[1..])
  }

  /** No two elements share a handle. */
  predicate UniqueHandles<K>(s: seq<Element<K>>)
  {
    forall i, j :: 0 <= i < j < |s| ==> s[i].handle != s[j].handle
  }

  /** list.Remove(e): unlinks the element with handle `h`; a handle that
      names no element of the list leaves it unchanged. */
  function Remove<K>(s: seq<Element<K>>, h: Handle): (r: seq<Element<K>>)
    ensures (forall i :: 0 <= i < |s| ==> s[i].handle != h) ==> r == s
    ensures forall e :: e in r ==> e in s
  {
    if s == [] then []
    else if s[0].handle == h then s[1..]
    else [s[0]] + Remove(s[1..], h)
  }

  /** Removing a present handle takes out exactly the element at its position. */
  lemma {:induction false} RemoveAt<K>(s: seq<Element<K>>, h: Handle, i: nat)
    requires UniqueHandles(s)
    requires i < |s| && s[i].handle == h
    ensures Remove(s, h) == s[..i] + s[i + 1..]
  {
    if i > 0 {
      assert s[0].handle != h;
      var rest := s[1..];
      assert UniqueHandles(rest) by {
        forall a, b | 0 <= a < b < |rest| ensures rest[a].handle != rest[b].handle {
          assert rest[a] == s[a + 1] && rest[b] == s[b + 1];
        }
      }
      RemoveAt(rest, h, i - 1);
      assert s[..i] + s[i + 1..] == [s[0]] + (rest[..i - 1] + rest[i..]);
    }
  }

  /** Dropping one element keeps the handles of the others unique. */
  lemma UniqueWithout<K>(s: seq<Element<K>>, i: nat)
    requires UniqueHandles(s) && i < |s|
    ensures UniqueHandles(s[..i] + s[i + 1..])
  {
    var l := s[..i] + s[i + 1..];
    forall a, b | 0 <= a < b < |l| ensures l[a].handle != l[b].handle {
      DropAt(s, i, a);
      DropAt(s, i, b);
    }
  }

  /** Dropping one element keeps the rest of the keys in their order. */
  lemma ValuesWithout<K>(s: seq<Element<K>>, i: nat)
    requires i < |s|
    ensures Values(s[..i] + s[i + 1..]) == Values(s)[..i] + Values(s)[i + 1..]
  {
    var l := s[..i] + s[i + 1..];
    assert |Values(l)| == |Values(s)[..i] + Values(s)[i + 1..]|;
    forall j | 0 <= j < |l|
      ensures Values(l)[j] == (Values(s)[..i] + Values(s)[i + 1..])[j]
    {
      DropAt(s, i, j);
      DropAt(Values(s), i, j);
    }
  }

  /** Pushing an element at the back adds its key at the back. */
  lemma ValuesSnoc<K>(s: seq<Element<K>>, e: Element<K>)
    ensures Values(s + [e]) == Values(s) + [e.value]
  {
    var l := s + [e];
    forall j | 0 <= j < |l| ensures Values(l)[j] == (Values(s) + [e.value])[j] {
      if j < |s| { assert l[j] == s[j]; }
    }
  }

  /** Pushing an element whose handle is above every handle in the list
      keeps the handles unique. */
  lemma UniqueSnoc<K>(s: seq<Element<K>>, e: Element<K>)
    requires UniqueHandles(s)
    requires forall i :: 0 <= i < |s| ==> s[i].handle < e.handle
    ensures UniqueHandles(s + [e])
  {
    var l := s + [e];
    forall a, b | 0 <= a < b < |l| ensures l[a].handle != l[b].handle {
      assert l[a] == s[a];
      if b < |s| { assert l[b] == s[b]; }
    }
  }
}

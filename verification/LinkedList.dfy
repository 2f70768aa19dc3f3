/**
 The singly linked list with first and last pointers (utility/list.h). Each
 element carries a key; Append and Prepend give it the key 0.
 */
module LinkedLists {
  import opened Basics

  datatype Pair<T> = Pair(key: int, item: T)

  // ----- lists as sequences -----

  /** The index of the first element with a larger key. */
  function InsertAt<T>(s: seq<Pair<T>>, key: int): (i: nat)
    ensures i <= |s|
  {
    if s == [] || key < s[0].key then 0 else 1 + InsertAt(s[1..], key)
  }

  function Inserted<T>(s: seq<Pair<T>>, e: Pair<T>): seq<Pair<T>> {
    s[..InsertAt(s, e.key)] + [e] + s[InsertAt(s, e.key)..]
  }

  ghost predicate Sorted<T>(s: seq<Pair<T>>) {
    |s| <= 1 || (s[|s| - 2].key <= s[|s| - 1].key && Sorted(s[..|s| - 1]))
  }

  lemma {:induction false} SortedMeans<T>(s: seq<Pair<T>>)
    ensures Sorted(s) <==> forall i, j :: 0 <= i < j < |s| ==> s[i].key <= s[j].key
  {
    if |s| > 1 {
      var n := |s| - 1;
      SortedMeans(s[..n]);
      assert forall i :: 0 <= i < n ==> s[i] == s[..n][i];
      assert s[..n][n - 1] == s[n - 1];
    }
  }

  lemma {:induction false} InsertAtMeans<T>(s: seq<Pair<T>>, key: int)
    ensures forall i :: 0 <= i < InsertAt(s, key) ==> s[i].key <= key
    ensures InsertAt(s, key) < |s| ==> key < s[InsertAt(s, key)].key
  {
    if s != [] && s[0].key <= key {
      InsertAtMeans(s[1..], key);
      assert forall i :: 1 <= i < InsertAt(s, key) ==> s[i] == s[1..][i - 1];
    }
  }

  lemma {:induction false} InsertAtIs<T>(s: seq<Pair<T>>, key: int, n: nat)
    requires n <= |s| && (forall i :: 0 <= i < n ==> s[i].key <= key) && (n < |s| ==> key < s[n].key)
    ensures InsertAt(s, key) == n
  {
    if n > 0 {
      InsertAtIs(s[1..], key, n - 1);
    }
  }

  lemma InsertedOrder<T>(s: seq<Pair<T>>, e: Pair<T>)
    requires Sorted(s)
    ensures Sorted(Inserted(s, e))
  {
    InsertAtMeans(s, e.key);
    SortedMeans(s);
    var n := InsertAt(s, e.key);
    var r := Inserted(s, e);
    SortedMeans(r);
    forall i, j | 0 <= i < j < |r|
      ensures r[i].key <= r[j].key
    {
      InsertedNode(s, n, e, r, i);
      InsertedNode(s, n, e, r, j);
      assert n < j ==> s[n].key <= s[j - 1].key;
    }
  }

  /** Insertion keeps a sorted list sorted and adds exactly the new element. */
  lemma InsertedIsSorted<T>(s: seq<Pair<T>>, e: Pair<T>)
    requires Sorted(s)
    ensures Sorted(Inserted(s, e)) && multiset(Inserted(s, e)) == multiset(s) + multiset{e}
  {
    InsertedOrder(s, e);
    InsertedElements(s, e);
  }

  lemma InsertedElements<T>(s: seq<Pair<T>>, e: Pair<T>)
    ensures multiset(Inserted(s, e)) == multiset(s) + multiset{e}
  {
    var i := InsertAt(s, e.key);
    assert s == s[..i] + s[i..];
  }

  lemma {:induction false} SortedTail<T>(s: seq<Pair<T>>)
    requires Sorted(s) && s != []
    ensures Sorted(s[1..])
  {
    if |s| > 2 {
      var n := |s| - 1;
      SortedTail(s[..n]);
      assert s[1..][..n - 1] == s[..n][1..];
    }
  }

  /** Taking the head of a sorted list takes a least key and leaves a sorted list. */
  lemma HeadIsLeast<T>(s: seq<Pair<T>>)
    requires Sorted(s) && s != []
    ensures Sorted(s[1..]) && multiset(s) == multiset(s[1..]) + multiset{s[0]}
    ensures forall i :: 0 <= i < |s| ==> s[0].key <= s[i].key
  {
    SortedMeans(s);
    SortedTail(s);
    assert s == [s[0]] + s[1..];
  }

  /** The first occurrence of an item. */
  function IndexOf<T(==)>(s: seq<Pair<T>>, item: T): (i: nat)
    ensures i <= |s|
  {
    if s == [] || s[0].item == item then 0 else 1 + IndexOf(s[1..], item)
  }

  lemma {:induction false} IndexOfMeans<T>(s: seq<Pair<T>>, item: T)
    ensures IndexOf(s, item) < |s| ==> s[IndexOf(s, item)].item == item
    ensures forall j :: 0 <= j < IndexOf(s, item) ==> s[j].item != item
  {
    if s != [] && s[0].item != item {
      IndexOfMeans(s[1..], item);
      assert forall j :: 1 <= j < |s| ==> s[j] == s[1..][j - 1];
    }
  }

  function ZeroKeys<T>(s: seq<Pair<T>>): (r: seq<Pair<T>>)
    ensures |r| == |s|
  {
    if s == [] then [] else ZeroKeys(s[..|s| - 1]) + [Pair(0, s[|s| - 1].item)]
  }

  /** The list after n of RemoveItem's rotations. */
  function Turned<T>(s: seq<Pair<T>>, n: nat): (r: seq<Pair<T>>)
    ensures |r| == |s|
  {
    if n == 0 || s == [] then s else
      var r := Turned(s, n - 1);
      r[1..] + [Pair(0, r[0].item)]
  }

  lemma {:induction false} TurnedIs<T>(s: seq<Pair<T>>, n: nat)
    requires n <= |s|
    ensures Turned(s, n) == s[n..] + ZeroKeys(s[..n])
  {
    if n > 0 {
      TurnedIs(s, n - 1);
      assert s[..n][..n - 1] == s[..n - 1];
    }
  }

  ghost predicate HasItem<T>(s: seq<Pair<T>>, item: T) { exists i :: 0 <= i < |s| && s[i].item == item }

  /** Rotating neither adds nor loses items. */
  lemma {:induction false} TurnedItems<T>(s: seq<Pair<T>>, n: nat, item: T)
    ensures HasItem(Turned(s, n), item) <==> HasItem(s, item)
  {
    if n > 0 && s != [] {
      TurnedItems(s, n - 1, item);
      TurnItems(Turned(s, n - 1), Turned(s, n), item);
    }
  }

  lemma TurnItems<T>(r: seq<Pair<T>>, r': seq<Pair<T>>, item: T)
    requires r != [] && r' == r[1..] + [Pair(0, r[0].item)]
    ensures HasItem(r', item) <==> HasItem(r, item)
  {
    if i :| 0 <= i < |r| && r[i].item == item {
      assert r'[if i == 0 then |r'| - 1 else i - 1].item == item;
    }
    if i :| 0 <= i < |r'| && r'[i].item == item {
      assert r[if i == |r'| - 1 then 0 else i + 1].item == item;
    }
  }

  /** RemoveItem's rotation brings the item to the front exactly when the list
      has it: on an absent item, no number of turns ends the loop. */
  lemma RotationEndsIff<T>(s: seq<Pair<T>>, item: T)
    ensures (exists n: nat :: s != [] && Turned(s, n)[0].item == item) <==> IndexOf(s, item) < |s|
  {
    IndexOfMeans(s, item);
    if IndexOf(s, item) < |s| {
      TurnedHead(s, IndexOf(s, item));
    }
    if n: nat :| s != [] && Turned(s, n)[0].item == item {
      assert HasItem(Turned(s, n), item);
      TurnedItems(s, n, item);
    }
  }

  lemma TurnedHead<T>(s: seq<Pair<T>>, n: nat)
    requires n < |s|
    ensures Turned(s, n)[0] == s[n]
  {
    TurnedIs(s, n);
  }

  lemma ValuesInsert<T>(nodes: seq<ListElement<T>>, n: nat, e: ListElement<T>)
    requires n <= |nodes|
    ensures Values(nodes[..n] + [e] + nodes[n..]) == Values(nodes)[..n] + [e.Value()] + Values(nodes)[n..]
  {
    ValuesOne(e);
    ValuesAppend(nodes[..n], [e]);
    ValuesAppend(nodes[..n] + [e], nodes[n..]);
    ValuesAppend(nodes[..n], nodes[n..]);
    assert nodes == nodes[..n] + nodes[n..];
  }

  /** NoDup, element by element from the end of the list. */
  ghost predicate Distinct<T>(s: seq<T>) {
    s == [] || (s[|s| - 1] !in s[..|s| - 1] && Distinct(s[..|s| - 1]))
  }

  lemma {:induction false} DistinctIsNoDup<T>(s: seq<T>)
    ensures Distinct(s) <==> NoDup(s)
  {
    if s != [] {
      var r := s[..|s| - 1];
      DistinctIsNoDup(r);
      assert forall i :: 0 <= i < |r| ==> r[i] == s[i];
      if NoDup(r) && s[|s| - 1] !in r {
        assert forall i, j :: 0 <= i < j < |s| ==> s[i] in r && (j < |r| ==> r[i] != r[j]);
      }
    }
  }

  lemma DistinctMeans<T>(s: seq<T>, n: nat)
    requires Distinct(s) && n < |s|
    ensures forall i :: 0 <= i < |s| && i != n ==> s[i] != s[n]
  {
    DistinctIsNoDup(s);
  }

  lemma {:induction false} DistinctInsert<T>(s: seq<T>, n: nat, x: T)
    requires n <= |s| && Distinct(s) && x !in s
    ensures Distinct(s[..n] + [x] + s[n..])
  {
    var r := s[..n] + [x] + s[n..];
    if n == |s| {
      assert r[..|r| - 1] == s;
    } else {
      var s' := s[..|s| - 1];
      DistinctInsert(s', n, x);
      assert r[..|r| - 1] == s'[..n] + [x] + s'[n..];
    }
  }

  lemma {:induction false} DistinctTail<T>(s: seq<T>)
    requires Distinct(s) && s != []
    ensures Distinct(s[1..])
  {
    if |s| > 1 {
      DistinctTail(s[..|s| - 1]);
      assert s[1..][..|s| - 2] == s[..|s| - 1][1..];
    }
  }

  // ----- the linked structure -----

  class ListElement<T> {
    var next: ListElement?<T>
    const key: int
    const item: T

    constructor (item: T, key: int)
      ensures this.item == item && this.key == key && next == null
    {
      this.item, this.key, next := item, key, null;
    }

    ghost function Value(): Pair<T> { Pair(key, item) }
  }

  ghost function Values<T>(nodes: seq<ListElement<T>>): (s: seq<Pair<T>>)
    ensures |s| == |nodes|
  {
    if nodes == [] then [] else Values(nodes[..|nodes| - 1]) + [nodes[|nodes| - 1].Value()]
  }

  lemma {:induction false} ValuesAt<T>(nodes: seq<ListElement<T>>)
    ensures forall i :: 0 <= i < |nodes| ==> Values(nodes)[i] == nodes[i].Value()
  {
    if nodes != [] {
      ValuesAt(nodes[..|nodes| - 1]);
    }
  }

  /** A list made of two parts has the values of the parts. */
  lemma {:induction false} ValuesAppend<T>(a: seq<ListElement<T>>, b: seq<ListElement<T>>)
    ensures Values(a + b) == Values(a) + Values(b)
  {
    if b == [] {
      assert a + b == a;
    } else {
      assert (a + b)[..|a + b| - 1] == a + b[..|b| - 1];
      ValuesAppend(a, b[..|b| - 1]);
    }
  }

  lemma ValuesOne<T>(e: ListElement<T>)
    ensures Values([e]) == [e.Value()]
  {
  }

  lemma InsertedNode<T>(before: seq<T>, n: nat, e: T, after: seq<T>, i: nat)
    requires n <= |before| && after == before[..n] + [e] + before[n..] && i < |after|
    ensures after[i] == if i < n then before[i] else if i == n then e else before[i - 1]
  {
  }

  class List<T(==)> {
    var first: ListElement?<T>
    var last: ListElement?<T>
    ghost var nodes: seq<ListElement<T>>

    ghost function Repr(): set<ListElement<T>>
      reads this
    {
      set i | 0 <= i < |nodes| :: nodes[i]
    }

    /** The elements are distinct, each points to the next and the last to none. */
    ghost predicate Linked()
      reads this, Repr()
    {
      && Distinct(nodes)
      && (forall i {:trigger nodes[i].next} :: 0 <= i < |nodes| - 1 ==> nodes[i].next == nodes[i + 1])
      && (nodes != [] ==> nodes[|nodes| - 1].next == null)
    }

    ghost predicate Valid()
      reads this, Repr()
    {
      && Linked()
      && (nodes == [] ==> first == null && last == null)
      && (nodes != [] ==> first == nodes[0] && last == nodes[|nodes| - 1])
    }

    ghost function Contents(): (s: seq<Pair<T>>)
      reads this
      ensures |s| == |nodes|
    {
      Values(nodes)
    }

    constructor ()
      ensures Valid() && Contents() == [] && Repr() == {}
    {
      first, last, nodes := null, null, [];
    }

    method IsEmpty() returns (b: bool)
      requires Valid()
      ensures b <==> Contents() == []
    {
      b := first == null;
    }

    method LinkFirst(element: ListElement<T>)
      requires Valid() && element !in Repr() && element.next == null
      modifies this, element
      ensures Valid() && Repr() <= old(Repr()) + {element} && Contents() == [element.Value()] + old(Contents())
    {
      assert element !in nodes;
      if first == null {
        first, last := element, element;
      } else {
        element.next := first;
        first := element;
      }
      ValuesOne(element);
      ValuesAppend([element], nodes);
      DistinctInsert(nodes, 0, element);
      assert nodes[..0] + [element] + nodes[0..] == [element] + nodes;
      nodes := [element] + nodes;
    }

    method LinkLast(element: ListElement<T>)
      requires Valid() && element !in Repr() && element.next == null
      modifies this, last
      ensures Valid() && Repr() <= old(Repr()) + {element} && Contents() == old(Contents()) + [element.Value()]
    {
      assert element !in nodes;
      if first == null {
        first, last := element, element;
      } else {
        last.next := element;
        last := element;
      }
      ValuesOne(element);
      ValuesAppend(nodes, [element]);
      DistinctInsert(nodes, |nodes|, element);
      assert nodes[..|nodes|] + [element] + nodes[|nodes|..] == nodes + [element];
      nodes := nodes + [element];
    }

    method Prepend(item: T)
      requires Valid()
      modifies this
      ensures Valid() && Contents() == [Pair(0, item)] + old(Contents())
      ensures fresh(Repr() - old(Repr()))
    {
      var element := new ListElement(item, 0);
      LinkFirst(element);
    }

    method Append(item: T)
      requires Valid()
      modifies this, last
      ensures Valid() && Contents() == old(Contents()) + [Pair(0, item)]
      ensures fresh(Repr() - old(Repr()))
    {
      var element := new ListElement(item, 0);
      LinkLast(element);
    }

    /** Links a new element in behind the n-th one. */
    method LinkAfter(ptr: ListElement<T>, element: ListElement<T>, ghost n: nat)
      requires Valid() && n + 1 < |nodes| && ptr == nodes[n] && element !in Repr() && element.next == null
      modifies this, ptr, element
      ensures Valid() && Repr() <= old(Repr()) + {element}
      ensures Contents() == old(Contents())[..n + 1] + [element.Value()] + old(Contents())[n + 1..]
    {
      ghost var before := nodes;
      assert element !in before;
      DistinctMeans(before, n);
      assert ptr.next == before[n + 1];
      DistinctInsert(before, n + 1, element);
      ValuesInsert(before, n + 1, element);
      element.next := ptr.next;
      ptr.next := element;
      nodes := nodes[..n + 1] + [element] + nodes[n + 1..];
      assert nodes[0] == before[0] && nodes[|nodes| - 1] == before[|before| - 1];
      assert before[|before| - 1].next == null;
      forall i {:trigger nodes[i].next} | 0 <= i < |nodes| - 1
        ensures nodes[i].next == nodes[i + 1]
      {
        InsertedNode(before, n + 1, element, nodes, i);
        InsertedNode(before, n + 1, element, nodes, i + 1);
        if i < n {
          assert nodes[i] == before[i] && old(before[i].next) == before[i + 1];
        } else if i > n + 1 {
          assert nodes[i] == before[i - 1] && old(before[i - 1].next) == before[i];
        }
      }
      assert Linked();
    }

    /** Puts the element behind every element whose key is not larger. */
    method SortedInsert(item: T, sortKey: int)
      requires Valid()
      modifies this, Repr()
      ensures Valid() && Contents() == Inserted(old(Contents()), Pair(sortKey, item))
      ensures fresh(Repr() - old(Repr()))
    {
      ghost var s := Contents();
      ValuesAt(nodes);
      var element := new ListElement(item, sortKey);
      if first == null || sortKey < first.key {
        LinkFirst(element);
      } else {
        var ptr := first;
        ghost var n := 0;
        while ptr.next != null
          invariant n < |nodes| && ptr == nodes[n] && Valid()
          invariant forall i :: 0 <= i <= n ==> nodes[i].key <= sortKey
          invariant n < |nodes| - 1 ==> ptr.next == nodes[n + 1]
          decreases |nodes| - n
        {
          if sortKey < ptr.next.key {
            InsertAtIs(s, sortKey, n + 1);
            LinkAfter(ptr, element, n);
            return;
          }
          ptr := ptr.next;
          n := n + 1;
        }
        InsertAtIs(s, sortKey, |s|);
        LinkLast(element);
      }
    }

    method SortedRemove() returns (r: Option<Pair<T>>)
      requires Valid()
      modifies this
      ensures Valid() && Repr() <= old(Repr())
      ensures r == if old(Contents()) == [] then None else Some(old(Contents())[0])
      ensures Contents() == if old(Contents()) == [] then [] else old(Contents())[1..]
    {
      if first == null {
        return None;
      }
      DistinctMeans(nodes, 0);
      DistinctTail(nodes);
      assert first != first.next;
      r := Some(Pair(first.key, first.item));
      if first == last {
        first, last := null, null;
      } else {
        first := first.next;
      }
      ValuesAppend(nodes[..1], nodes[1..]);
      assert nodes == nodes[..1] + nodes[1..];
      ValuesAt(nodes);
      nodes := nodes[1..];
    }

    method Search(item: T) returns (found: bool)
      requires Valid()
      ensures found <==> IndexOf(Contents(), item) < |Contents()|
    {
      if first == null {
        return false;
      }
      ValuesAt(nodes);
      var element := first;
      ghost var n := 0;
      while element != last && element.item != item
        invariant n < |nodes| && element == nodes[n]
        invariant forall i :: 0 <= i < n ==> Contents()[i].item != item
        decreases |nodes| - n
      {
        element := element.next;
        n := n + 1;
      }
      found := element.item == item;
      IndexOfMeans(Contents(), item);
      assert element.Value() == Contents()[n];
    }

    /** Puts an item at the end and takes the first one. */
    method Rotate(item: T) returns (r: Option<Pair<T>>)
      requires Valid()
      modifies this, last
      ensures Valid() && fresh(Repr() - old(Repr()))
      ensures var s := old(Contents()) + [Pair(0, item)]; r == Some(s[0]) && Contents() == s[1..]
    {
      Append(item);
      r := SortedRemove();
    }

    /** Takes elements off the front, putting each back at the end, until the item comes. */
    method RotateTo(item: T, ghost k: nat)
      requires Valid() && k < |Contents()| && Contents()[k].item == item
      requires forall j :: 0 <= j < k ==> Contents()[j].item != item
      modifies this, Repr()
      ensures Valid() && fresh(Repr() - old(Repr()))
      ensures Contents() == Turned(old(Contents()), k)[1..]
    {
      ghost var s, n := Contents(), 0;
      var temp := SortedRemove();
      while temp.value.item != item
        invariant Valid() && fresh(Repr() - old(Repr())) && n <= k && temp.Some?
        invariant temp.value == Turned(s, n)[0] == s[n] && Contents() == Turned(s, n)[1..]
        decreases k - n
      {
        assert s[n].item != item && n < k;
        TurnedHead(s, n + 1);
        temp := Rotate(temp.value.item);
        n := n + 1;
      }
    }

    /** Rotates the list until the item is at the front and drops it there. */
    method RemoveItem(item: T)
      requires Valid() && IndexOf(Contents(), item) < |Contents()|
      modifies this, Repr()
      ensures Valid() && fresh(Repr() - old(Repr()))
      ensures var s, k := old(Contents()), IndexOf(old(Contents()), item);
              Contents() == s[k + 1..] + ZeroKeys(s[..k])
    {
      ghost var s, k := Contents(), IndexOf(Contents(), item);
      IndexOfMeans(s, item);
      TurnedIs(s, k);
      RotateTo(item, k);
    }
  }
}

// The kernel's intrusive list: a circular doubly linked list of items closed by an end marker
// that belongs to the list itself.  The ghost sequence nodes is the marker followed by the
// items in order.
module KernelList {
  import opened Words

  const MAX_DELAY: u32 := 0xFFFF_FFFF

  class ListItem {
    var value: u32
    var next: ListItem?
    var previous: ListItem?
    var container: List?

    /** vListInitialiseItem. */
    constructor (v: u32)
      ensures value == v && container == null
    {
      value, next, previous, container := v, null, null, null;
    }
  }

  function Succ(i: nat, n: nat): nat { if i + 1 < n then i + 1 else 0 }

  function Pred(i: nat, n: nat): int { if i > 0 then i - 1 else n - 1 }

  /** The values of a run of items. */
  ghost function Values(items: seq<ListItem>): (vs: seq<u32>)
    reads items
    ensures |vs| == |items|
    ensures forall i :: 0 <= i < |items| ==> vs[i] == items[i].value
  {
    if items == [] then [] else [items[0].value] + Values(items[1..])
  }

  /** Index of the first value greater than v. */
  function Position(vs: seq<u32>, v: u32): (k: nat)
    ensures k <= |vs|
    ensures forall i :: 0 <= i < k ==> vs[i] <= v
    ensures k < |vs| ==> vs[k] > v
  {
    if vs == [] || vs[0] > v then 0 else 1 + Position(vs[1..], v)
  }

  function InsertAt<T>(s: seq<T>, k: nat, x: T): seq<T>
    requires k <= |s|
  {
    s[..k] + [x] + s[k..]
  }

  ghost predicate Sorted(vs: seq<u32>) {
    forall i, j :: 0 <= i < j < |vs| ==> vs[i] <= vs[j]
  }

  /** Inserting at the position the scan finds keeps a list sorted, and puts the new value
      behind every equal one and before every greater one. */
  lemma InsertKeepsSorted(vs: seq<u32>, v: u32)
    requires Sorted(vs)
    ensures Sorted(InsertAt(vs, Position(vs, v), v))
    ensures forall i :: 0 <= i < |vs| ==> (vs[i] <= v <==> i < Position(vs, v))
  {
    var k := Position(vs, v);
    forall i | k <= i < |vs|
      ensures vs[i] > v
    {
      assert vs[k] <= vs[i];
    }
  }

  lemma RemoveKeepsSorted(vs: seq<u32>, k: nat)
    requires Sorted(vs) && k < |vs|
    ensures Sorted(vs[..k] + vs[k + 1..])
  {
    var r := vs[..k] + vs[k + 1..];
    forall i, j | 0 <= i < j < |r|
      ensures r[i] <= r[j]
    {
      var i', j' := if i < k then i else i + 1, if j < k then j else j + 1;
      assert r[i] == vs[i'] && r[j] == vs[j'];
    }
  }

  ghost predicate Distinct(nodes: seq<ListItem>) {
    forall i, j :: 0 <= i < j < |nodes| ==> nodes[i] != nodes[j]
  }

  /** Circular in both directions. */
  ghost predicate Ring(nodes: seq<ListItem>)
    reads nodes
  {
    && (forall i {:trigger nodes[i].next} :: 0 <= i < |nodes| ==> nodes[i].next == nodes[Succ(i, |nodes|)])
    && (forall i {:trigger nodes[i].previous} :: 0 <= i < |nodes| ==> nodes[i].previous == nodes[Pred(i, |nodes|)])
  }

  lemma RingAt(nodes: seq<ListItem>, p: nat)
    requires p < |nodes| && Ring(nodes)
    ensures nodes[p].next == nodes[Succ(p, |nodes|)] && nodes[p].previous == nodes[Pred(p, |nodes|)]
  {
  }

  lemma DistinctAt(nodes: seq<ListItem>, p: nat)
    requires p < |nodes| && Distinct(nodes)
    ensures forall i :: 0 <= i < |nodes| && i != p ==> nodes[i] != nodes[p]
  {
  }

  lemma DistinctInsert(nodes: seq<ListItem>, k: nat, x: ListItem)
    requires Distinct(nodes) && x !in nodes && k <= |nodes|
    ensures Distinct(InsertAt(nodes, k, x))
  {
  }

  lemma InsertAtIndex<T>(s: seq<T>, k: nat, x: T)
    requires k <= |s|
    ensures |InsertAt(s, k, x)| == |s| + 1 && InsertAt(s, k, x)[k] == x
    ensures forall i :: 0 <= i < k ==> InsertAt(s, k, x)[i] == s[i]
    ensures forall i :: k < i <= |s| ==> InsertAt(s, k, x)[i] == s[i - 1]
  {
  }

  lemma InsertAtTail<T>(s: seq<T>, p: nat, x: T)
    requires p < |s|
    ensures InsertAt(s, p + 1, x)[1..] == InsertAt(s[1..], p, x)
    ensures p + 1 == |s| ==> InsertAt(s, p + 1, x)[1..] == s[1..] + [x]
  {
  }

  // A ring into which x has been spliced behind node p: only the links beside x have changed.
  lemma SplicedIn(nodes: seq<ListItem>, p: nat, x: ListItem)
    requires p < |nodes|
    requires forall i :: 0 <= i < |nodes| ==> nodes[i].next == if i == p then x else nodes[Succ(i, |nodes|)]
    requires forall i :: 0 <= i < |nodes| ==>
               nodes[i].previous == if i == Succ(p, |nodes|) then x else nodes[Pred(i, |nodes|)]
    requires x.next == nodes[Succ(p, |nodes|)] && x.previous == nodes[p]
    ensures Ring(InsertAt(nodes, p + 1, x))
  {
    hide InsertAt, Ring;
    InsertAtIndex(nodes, p + 1, x);
    var n := |nodes|;
    var after := InsertAt(nodes, p + 1, x);
    forall j | 0 <= j <= n
      ensures after[j].next == after[Succ(j, n + 1)] && after[j].previous == after[Pred(j, n + 1)]
    {
      if j <= p {
        assert after[j] == nodes[j];
      } else if j > p + 1 {
        assert after[j] == nodes[j - 1];
      }
    }
    RingIs(after);
  }

  lemma RingIs(nodes: seq<ListItem>)
    requires forall j :: 0 <= j < |nodes| ==>
               nodes[j].next == nodes[Succ(j, |nodes|)] && nodes[j].previous == nodes[Pred(j, |nodes|)]
    ensures Ring(nodes)
  {
  }

  function Without<T>(s: seq<T>, k: nat): seq<T>
    requires k < |s|
  {
    s[..k] + s[k + 1..]
  }

  lemma WithoutIndex<T>(s: seq<T>, k: nat)
    requires k < |s|
    ensures |Without(s, k)| == |s| - 1
    ensures forall i :: 0 <= i < |s| - 1 ==> Without(s, k)[i] == s[if i < k then i else i + 1]
  {
  }

  lemma DistinctWithout(nodes: seq<ListItem>, p: nat)
    requires Distinct(nodes) && p < |nodes|
    ensures Distinct(Without(nodes, p)) && nodes[p] !in Without(nodes, p)
  {
    hide Without;
    WithoutIndex(nodes, p);
    DistinctAt(nodes, p);
  }

  // A ring from which node p has been taken out: only the links beside it have changed.
  lemma TakenOut(nodes: seq<ListItem>, p: nat)
    requires 1 <= p < |nodes|
    requires forall i :: 0 <= i < |nodes| && i != p ==>
               nodes[i].next == if i == p - 1 then nodes[Succ(p, |nodes|)] else nodes[Succ(i, |nodes|)]
    requires forall i :: 0 <= i < |nodes| && i != p ==>
               nodes[i].previous == if i == Succ(p, |nodes|) then nodes[p - 1] else nodes[Pred(i, |nodes|)]
    ensures Ring(Without(nodes, p))
  {
    hide Without, Ring;
    WithoutIndex(nodes, p);
    var n := |nodes|;
    var after := Without(nodes, p);
    forall j | 0 <= j < n - 1
      ensures after[j].next == after[Succ(j, n - 1)] && after[j].previous == after[Pred(j, n - 1)]
    {
      assert after[j] == nodes[if j < p then j else j + 1];
    }
    RingIs(after);
  }

  class List {
    var count: nat
    var index: ListItem
    const end: ListItem
    ghost var nodes: seq<ListItem>

    ghost predicate Valid()
      reads this, nodes
    {
      && |nodes| > 0 && nodes[0] == end && end.value == MAX_DELAY
      && count == |nodes| - 1
      && index in nodes
      && Distinct(nodes) && Ring(nodes)
      && (forall i {:trigger nodes[i].container} :: 1 <= i < |nodes| ==> nodes[i].container == this)
    }

    ghost function Items(): (s: seq<ListItem>)
      requires Valid()
      reads this, nodes
      ensures |s| == count
    {
      nodes[1..]
    }

    ghost function NodeSet(): set<ListItem>
      reads this`nodes
    {
      set y | y in nodes
    }

    /** vListInitialise. */
    constructor ()
      ensures Valid() && Items() == [] && fresh(end) && index == end
    {
      var marker := new ListItem(MAX_DELAY);
      end, index, count, nodes := marker, marker, 0, [marker];
      new;
      end.next := end;
      end.previous := end;
    }

    /** The four link assignments shared by the two insertions, and the bookkeeping. */
    method LinkAfter(x: ListItem, iterator_: ListItem, ghost p: nat)
      requires Valid() && p < |nodes| && nodes[p] == iterator_ && x !in nodes
      modifies this`count, this`nodes, x`next, x`previous, x`container
      modifies NodeSet()`next
      modifies NodeSet()`previous
      ensures Valid() && nodes == InsertAt(old(nodes), p + 1, x) && x.container == this
    {
      hide Ring, Distinct, InsertAt;
      ghost var before, n := nodes, |nodes|;
      RingAt(before, p);
      DistinctAt(before, p);
      DistinctAt(before, Succ(p, n));
      RingEverywhere(before);
      x.next := iterator_.next;
      x.next.previous := x;
      x.previous := iterator_;
      iterator_.next := x;
      x.container := this;
      count := count + 1;
      nodes := InsertAt(before, p + 1, x);
      SplicedIn(before, p, x);
      DistinctInsert(before, p + 1, x);
      InsertAtIndex(before, p + 1, x);
      IndexKept(before, p + 1, x, index);
    }

    /** The scan of vListInsert: from the end marker to the last item not greater than v.  It stops
        before the first greater value, at the latest at the marker itself. */
    method ScanFor(v: u32) returns (iter: ListItem)
      requires Valid()
      ensures var p := Position(Values(Items()), v); p < |nodes| && iter == nodes[p]
    {
      hide Ring, Distinct, Position, Values;
      ghost var vs := Values(Items());
      ghost var p := 0;
      RingAt(nodes, 0);
      if v == MAX_DELAY {
        iter := end.previous;
        p := |nodes| - 1;
        PositionOfMaximum(vs);
      } else {
        iter := end;
        while iter.next.value <= v
          invariant 0 <= p < |nodes| && nodes[p] == iter && iter.next == nodes[Succ(p, |nodes|)]
          invariant forall i :: 0 <= i < p ==> vs[i] <= v
          decreases |nodes| - p
        {
          assert p + 1 < |nodes|;
          iter := iter.next;
          p := p + 1;
          RingAt(nodes, p);
          assert vs[p - 1] == nodes[p].value;
        }
        assert p < |vs| ==> vs[p] == nodes[p + 1].value;
        PositionIs(vs, v, p);
      }
    }

    /** vListInsert. */
    method Insert(x: ListItem)
      requires Valid() && x !in nodes
      modifies this`count, this`nodes, x`next, x`previous, x`container
      modifies NodeSet()`next
      modifies NodeSet()`previous
      ensures Valid() && x.container == this && index == old(index)
      ensures Items() == InsertAt(old(Items()), Position(old(Values(Items())), x.value), x)
      ensures Values(Items()) == InsertAt(old(Values(Items())), Position(old(Values(Items())), x.value), x.value)
    {
      hide Ring, Distinct, Position, Values, InsertAt;
      ghost var before, vs := nodes, Values(Items());
      ghost var p := Position(vs, x.value);
      var iter := ScanFor(x.value);
      LinkAfter(x, iter, p);
      InsertAtTail(before, p, x);
      InsertAtIndex(before[1..], p, x);
      InsertAtIndex(vs, p, x.value);
      assert Values(Items()) == InsertAt(vs, p, x.value);
    }

    /** vListInsertEnd: the new item becomes the last one before the index. */
    method InsertEnd(x: ListItem)
      requires Valid() && x !in nodes
      modifies this`count, this`nodes, x`next, x`previous, x`container
      modifies NodeSet()`next
      modifies NodeSet()`previous
      ensures Valid() && x.container == this && index == old(index)
      ensures index == end ==> Items() == old(Items()) + [x]
      ensures forall k :: 0 <= k < |old(Items())| && index == old(Items())[k] ==>
                Items() == InsertAt(old(Items()), k, x)
    {
      hide Ring, Distinct;
      ghost var q :| 0 <= q < |nodes| && nodes[q] == index;
      ghost var p: nat := Pred(q, |nodes|);
      RingAt(nodes, q);
      ghost var before := nodes;
      LinkAfter(x, index.previous, p);
      InsertAtTail(before, p, x);
      DistinctAt(before, q);
    }

    // The neighbours of an item are linked to each other.
    method Bypass(x: ListItem, ghost p: nat)
      requires Valid() && 1 <= p < |nodes| && x == nodes[p]
      modifies NodeSet()`next
      modifies NodeSet()`previous
      ensures Ring(Without(nodes, p)) && x.previous == old(x.previous)
    {
      hide Ring, Distinct, Without;
      ghost var n := |nodes|;
      RingAt(nodes, p);
      RingEverywhere(nodes);
      DistinctAt(nodes, p);
      DistinctAt(nodes, p - 1);
      DistinctAt(nodes, Succ(p, n));
      x.next.previous := x.previous;
      x.previous.next := x.next;
      TakenOut(nodes, p);
    }

    /** The body of uxListRemove, from the side of the list. */
    method Unlink(x: ListItem, ghost p: nat) returns (remaining: nat)
      requires Valid() && p < |Items()| && x == Items()[p]
      modifies this`count, this`index, this`nodes, x`container
      modifies NodeSet()`next
      modifies NodeSet()`previous
      ensures Valid() && x.container == null && remaining == count && x !in nodes
      ensures Items() == old(Items())[..p] + old(Items())[p + 1..]
      ensures index == if old(index) == x then old(x.previous) else old(index)
    {
      hide Ring, Distinct, Without;
      ghost var before := nodes;
      RingAt(before, p + 1);
      DistinctAt(before, p + 1);
      Bypass(x, p + 1);
      if index == x {
        index := x.previous;
      }
      x.container := null;
      count := count - 1;
      nodes := Without(before, p + 1);
      DistinctWithout(before, p + 1);
      IndexStays(before, p + 1, index);
      WithoutShape(before, p);
      remaining := count;
    }
  }

  lemma RingEverywhere(nodes: seq<ListItem>)
    requires Ring(nodes)
    ensures forall i :: 0 <= i < |nodes| ==> nodes[i].next == nodes[Succ(i, |nodes|)]
    ensures forall i :: 0 <= i < |nodes| ==> nodes[i].previous == nodes[Pred(i, |nodes|)]
  {
  }

  lemma IndexKept(nodes: seq<ListItem>, k: nat, x: ListItem, index: ListItem)
    requires k <= |nodes| && index in nodes
    ensures index in InsertAt(nodes, k, x)
  {
    var q :| 0 <= q < |nodes| && nodes[q] == index;
    assert InsertAt(nodes, k, x)[if q < k then q else q + 1] == index;
  }

  lemma PositionIs(vs: seq<u32>, v: u32, k: nat)
    requires k <= |vs| && (forall i :: 0 <= i < k ==> vs[i] <= v) && (k < |vs| ==> vs[k] > v)
    ensures Position(vs, v) == k
  {
  }

  lemma PositionOfMaximum(vs: seq<u32>)
    ensures Position(vs, MAX_DELAY) == |vs|
  {
  }

  /** uxListRemove: takes the item out of the list it is in, wherever it stands. */
  method ListRemove(x: ListItem, ghost p: nat) returns (remaining: nat)
    requires x.container != null && x.container.Valid()
    requires p < |x.container.Items()| && x == x.container.Items()[p]
    modifies x.container`count, x.container`index, x.container`nodes, x`container
    modifies x.container.NodeSet()`next
    modifies x.container.NodeSet()`previous
    ensures x.container == null
    ensures var l := old(x.container);
            && l.Valid() && remaining == l.count && x !in l.nodes
            && l.Items() == old(l.Items())[..p] + old(l.Items())[p + 1..]
            && l.index == (if old(l.index) == x then old(x.previous) else old(l.index))
  {
    remaining := x.container.Unlink(x, p);
  }

  lemma WithoutShape(nodes: seq<ListItem>, p: nat)
    requires p + 1 < |nodes|
    ensures var after := Without(nodes, p + 1);
            && |after| == |nodes| - 1 && after[0] == nodes[0]
            && after[1..] == nodes[1..][..p] + nodes[1..][p + 1..]
            && forall i :: 1 <= i < |after| ==> after[i] == nodes[if i <= p then i else i + 1]
  {
  }

  lemma IndexStays(nodes: seq<ListItem>, p: nat, index: ListItem)
    requires 1 <= p < |nodes| && index in nodes && index != nodes[p]
    ensures index in Without(nodes, p)
  {
    var q :| 0 <= q < |nodes| && nodes[q] == index;
    if q < p {
      assert Without(nodes, p)[q] == index;
    } else {
      assert Without(nodes, p)[q - 1] == index;
    }
  }
}

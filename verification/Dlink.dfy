/** The doubly linked lists of include/tools.h, each operation against the sequence it stands
    for: head, tail, links and length are right after every one of them. */
module Dlink {
  import opened SeqSets

  class DlinkNode<T> {
    var data: T
    var next: DlinkNode?<T>
    var prev: DlinkNode?<T>

    /** A node as all callers make it, without links. */
    constructor (data: T)
      ensures this.data == data && next == null && prev == null
    {
      this.data, next, prev := data, null, null;
    }
  }

  function At<T>(nodes: seq<DlinkNode<T>>, i: int): DlinkNode?<T> {
    if 0 <= i < |nodes| then nodes[i] else null
  }

  ghost predicate Linked<T>(head: DlinkNode?<T>, tail: DlinkNode?<T>, nodes: seq<DlinkNode<T>>)
    reads nodes
  {
    && head == At(nodes, 0) && tail == At(nodes, |nodes| - 1)
    && (forall i {:trigger nodes[i].prev} :: 0 <= i < |nodes| ==> nodes[i].prev == At(nodes, i - 1))
    && (forall i {:trigger nodes[i].next} :: 0 <= i < |nodes| ==> nodes[i].next == At(nodes, i + 1))
  }

  ghost predicate Carry<T>(nodes: seq<DlinkNode<T>>, elements: seq<T>)
    reads nodes
  {
    && |nodes| == |elements|
    && forall i {:trigger nodes[i].data} :: 0 <= i < |nodes| ==> nodes[i].data == elements[i]
  }

  /** The links around a node that was put in at place `k`. */
  lemma LinkedInserted<T>(head: DlinkNode?<T>, tail: DlinkNode?<T>, was: seq<DlinkNode<T>>, k: nat, m: DlinkNode<T>)
    requires k <= |was|
    requires head == (if k == 0 then m else At(was, 0)) && tail == (if k == |was| then m else At(was, |was| - 1))
    requires m.prev == At(was, k - 1) && m.next == At(was, k)
    requires forall i {:trigger was[i].prev} :: 0 <= i < |was| ==> was[i].prev == if i == k then m else At(was, i - 1)
    requires forall i {:trigger was[i].next} :: 0 <= i < |was| ==>
               was[i].next == if i + 1 == k then m else At(was, i + 1)
    ensures Linked(head, tail, Inserted(was, k, m))
  {
  }

  /** The links around a node that was taken out at place `k`. */
  lemma LinkedWithout<T>(head: DlinkNode?<T>, tail: DlinkNode?<T>, was: seq<DlinkNode<T>>, k: nat)
    requires k < |was|
    requires head == (if k == 0 then At(was, 1) else At(was, 0))
    requires tail == (if k + 1 == |was| then At(was, k - 1) else At(was, |was| - 1))
    requires forall i {:trigger was[i].prev} :: 0 <= i < |was| && i != k ==>
               was[i].prev == At(was, if i == k + 1 then k - 1 else i - 1)
    requires forall i {:trigger was[i].next} :: 0 <= i < |was| && i != k ==>
               was[i].next == At(was, if i + 1 == k then k + 1 else i + 1)
    ensures Linked(head, tail, Without(was, k))
  {
  }

  lemma CarryInserted<T>(was: seq<DlinkNode<T>>, elements: seq<T>, k: nat, m: DlinkNode<T>)
    requires Carry(was, elements) && k <= |was|
    ensures Carry(Inserted(was, k, m), Inserted(elements, k, m.data))
  {
  }

  lemma CarryWithout<T>(was: seq<DlinkNode<T>>, elements: seq<T>, k: nat)
    requires Carry(was, elements) && k < |was|
    ensures Carry(Without(was, k), Without(elements, k))
  {
  }

  class DlinkList<T(==)> {
    var head: DlinkNode?<T>
    var tail: DlinkNode?<T>
    var length: nat
    ghost var nodes: seq<DlinkNode<T>>
    ghost var Repr: set<object>

    /** What the list stands for. */
    ghost var elements: seq<T>

    ghost predicate Valid()
      reads this, Repr
      ensures Valid() ==> this in Repr
    {
      && this in Repr && (forall n :: n in nodes ==> n in Repr)
      && length == |nodes| && Linked(head, tail, nodes) && Distinct(nodes) && Carry(nodes, elements)
    }

    constructor ()
      ensures Valid() && elements == [] && fresh(Repr)
    {
      head, tail, length := null, null, 0;
      nodes, elements, Repr := [], [], {this};
    }

    /** The bookkeeping of an insertion. */
    ghost method Note(k: nat, m: DlinkNode<T>)
      requires k <= |nodes| && m !in nodes && this in Repr && (forall n :: n in nodes ==> n in Repr)
      requires length == |nodes| + 1 && Linked(head, tail, Inserted(nodes, k, m))
      requires Distinct(nodes) && Carry(nodes, elements)
      modifies `nodes, `elements, `Repr
      ensures Valid() && elements == old(Inserted(elements, k, m.data)) && nodes == old(Inserted(nodes, k, m))
      ensures Repr == old(Repr) + {m}
    {
      CarryInserted(nodes, elements, k, m);
      DistinctInserted(nodes, k, m);
      nodes, elements, Repr := Inserted(nodes, k, m), Inserted(elements, k, m.data), Repr + {m};
    }

    /** The bookkeeping of a removal. */
    ghost method Forget(k: nat)
      requires k < |nodes| && this in Repr && (forall n :: n in nodes ==> n in Repr)
      requires length == |nodes| - 1 && Linked(head, tail, Without(nodes, k))
      requires Distinct(nodes) && Carry(nodes, elements)
      modifies `nodes, `elements
      ensures Valid() && elements == old(Without(elements, k)) && nodes == old(Without(nodes, k))
    {
      CarryWithout(nodes, elements, k);
      DistinctWithout(nodes, k);
      nodes, elements := Without(nodes, k), Without(elements, k);
    }

    /** `dlinkAdd`. It leaves the back link of the new node as it is: the node has to come
        without one, which is how all callers make it. */
    method Add(data: T, m: DlinkNode<T>)
      requires Valid() && m !in nodes && m.prev == null
      modifies Repr, m
      ensures Valid() && elements == old(Inserted(elements, 0, data)) && nodes == old(Inserted(nodes, 0, m))
      ensures Repr == old(Repr) + {m}
    {
      m.data := data;
      m.next := head;
      if head != null {
        head.prev := m;
      } else if tail == null {
        tail := m;
      }
      head := m;
      length := length + 1;
      LinkedInserted(head, tail, nodes, 0, m);
      Note(0, m);
    }

    /** `dlinkAddTail`. */
    method AddTail(data: T, m: DlinkNode<T>)
      requires Valid() && m !in nodes
      modifies Repr, m
      ensures Valid() && elements == old(Inserted(elements, |elements|, data))
      ensures nodes == old(Inserted(nodes, |nodes|, m)) && Repr == old(Repr) + {m}
    {
      m.data := data;
      m.next := null;
      m.prev := tail;
      if tail != null {
        tail.next := m;
      } else if head == null {
        head := m;
      }
      tail := m;
      length := length + 1;
      LinkedInserted(head, tail, nodes, |nodes|, m);
      Note(|nodes|, m);
    }

    /** `dlinkAddBefore`, `k` being the place of the node `b` in the list. */
    method AddBefore(b: DlinkNode<T>, data: T, m: DlinkNode<T>, ghost k: nat)
      requires Valid() && k < |nodes| && nodes[k] == b && m !in nodes
      requires k == 0 ==> m.prev == null
      modifies Repr, m
      ensures Valid() && elements == old(Inserted(elements, k, data)) && nodes == old(Inserted(nodes, k, m))
      ensures Repr == old(Repr) + {m}
    {
      if b == head {
        Add(data, m);
      } else {
        assert b.prev == nodes[k - 1];
        m.data := data;
        b.prev.next := m;
        m.prev := b.prev;
        b.prev := m;
        m.next := b;
        length := length + 1;
        LinkedInserted(head, tail, nodes, k, m);
        Note(k, m);
      }
    }

    /** The assignments of `dlinkDelete` to links. */
    method Cut(m: DlinkNode<T>, ghost k: nat)
      requires Valid() && k < |nodes| && nodes[k] == m
      modifies nodes, `head, `tail
      ensures Linked(head, tail, Without(nodes, k)) && Carry(nodes, elements)
      ensures m.next == null && m.prev == null
    {
      assert m.prev == At(nodes, k - 1) && m.next == At(nodes, k + 1);
      assert forall i {:trigger nodes[i]} :: 0 <= i < |nodes| && i != k ==> nodes[i] != m;
      if m.next != null {
        m.next.prev := m.prev;
      } else {
        tail := m.prev;
      }
      if m.prev != null {
        m.prev.next := m.next;
      } else {
        head := m.next;
      }
      m.next, m.prev := null, null;
      LinkedWithout(head, tail, nodes, k);
    }

    /** `dlinkDelete`, `k` being the place of the node in the list. */
    method Delete(m: DlinkNode<T>, ghost k: nat)
      requires Valid() && k < |nodes| && nodes[k] == m
      modifies Repr
      ensures Valid() && elements == old(Without(elements, k)) && nodes == old(Without(nodes, k))
      ensures Repr == old(Repr) && m.next == null && m.prev == null
    {
      Cut(m, k);
      length := length - 1;
      Forget(k);
    }

    /** An assignment to what a node of the list points at. */
    method Put(m: DlinkNode<T>, data: T, ghost k: nat)
      requires Valid() && k < |nodes| && nodes[k] == m
      modifies Repr
      ensures Valid() && elements == old(elements)[k := data] && nodes == old(nodes) && Repr == old(Repr)
    {
      m.data := data;
      elements := elements[k := data];
    }

    /** `dlinkFind`: the first node with the data. */
    method Find(data: T) returns (ptr: DlinkNode?<T>, ghost k: nat)
      requires Valid()
      ensures k <= |nodes| && data !in elements[..k]
      ensures ptr == At(nodes, k)
      ensures ptr != null ==> elements[k] == data
      ensures ptr == null <==> data !in elements
    {
      ptr, k := head, 0;
      while ptr != null
        invariant 0 <= k <= |nodes| && data !in elements[..k]
        invariant ptr == At(nodes, k)
        decreases |nodes| - k
      {
        if ptr.data == data {
          return;
        }
        ptr, k := ptr.next, k + 1;
      }
    }

    /** The bookkeeping of a list that was put in front. */
    ghost method Join(mine: seq<DlinkNode<T>>, front: seq<T>, repr: set<object>)
      requires this in Repr && (forall n :: n in nodes ==> n in Repr) && (forall n :: n in mine ==> n in repr)
      requires repr !! Repr && length == |mine| + |nodes| && Linked(head, tail, mine + nodes)
      requires Distinct(mine) && Distinct(nodes) && Carry(mine, front) && Carry(nodes, elements)
      modifies `nodes, `elements, `Repr
      ensures Valid() && elements == front + old(elements) && Repr == old(Repr) + repr
    {
      DistinctJoined(mine, nodes);
      nodes, elements, Repr := mine + nodes, front + elements, Repr + repr;
    }

    /** The links from one list to the next when neither is empty. */
    method Bridge(to: DlinkList<T>)
      requires Valid() && to.Valid() && Repr !! to.Repr && head != null && to.head != null
      modifies nodes, to.nodes, to`head, to`length
      ensures Linked(to.head, to.tail, nodes + to.nodes) && to.length == length + |to.nodes|
      ensures Carry(nodes, elements) && Carry(to.nodes, to.elements)
    {
      assert forall i {:trigger nodes[i]} :: 0 <= i < |nodes| ==> nodes[i] in Repr;
      assert forall i {:trigger to.nodes[i]} :: 0 <= i < |to.nodes| ==> to.nodes[i] in to.Repr;
      tail.next := to.head;
      head.prev := to.head.prev;
      to.head.prev := tail;
      to.head := head;
      to.length := to.length + length;
      LinkedJoined(to.head, to.tail, nodes, to.nodes);
    }

    /** The second and third case of `dlinkMoveList`. */
    method PutInFront(to: DlinkList<T>)
      requires Valid() && to.Valid() && Repr !! to.Repr && head != null
      modifies nodes, to.nodes, to
      ensures to.Valid() && to.elements == elements + old(to.elements)
      ensures to.Repr == old(to.Repr) + Repr - {this}
    {
      if to.head == null {
        assert nodes + to.nodes == nodes;
        to.head, to.tail, to.length := head, tail, length;
      } else {
        Bridge(to);
      }
      to.Join(nodes, elements, Repr - {this});
    }

    /** `dlinkMoveList`: everything of `this` goes in front of `to`. */
    method MoveTo(to: DlinkList<T>)
      requires Valid() && to.Valid() && Repr !! to.Repr
      modifies Repr, to.Repr
      ensures Valid() && elements == []
      ensures to.Valid() && to.elements == old(elements + to.elements)
      ensures Repr !! to.Repr && Repr + to.Repr == old(Repr + to.Repr)
    {
      if head == null {
        assert to.elements == elements + to.elements;
        return;
      }
      PutInFront(to);
      head, tail, length := null, null, 0;
      nodes, elements, Repr := [], [], {this};
    }
  }

  lemma LinkedJoined<T>(head: DlinkNode?<T>, tail: DlinkNode?<T>, a: seq<DlinkNode<T>>, b: seq<DlinkNode<T>>)
    requires a != [] && head == a[0] && tail == (if b == [] then a[|a| - 1] else b[|b| - 1])
    requires forall i {:trigger a[i].prev} :: 0 <= i < |a| ==> a[i].prev == At(a, i - 1)
    requires forall i {:trigger a[i].next} :: 0 <= i < |a| ==>
               a[i].next == if i + 1 == |a| then At(b, 0) else At(a, i + 1)
    requires forall i {:trigger b[i].prev} :: 0 <= i < |b| ==> b[i].prev == if i == 0 then a[|a| - 1] else At(b, i - 1)
    requires forall i {:trigger b[i].next} :: 0 <= i < |b| ==> b[i].next == At(b, i + 1)
    ensures Linked(head, tail, a + b)
  {
  }

  lemma DistinctJoined<T>(a: seq<T>, b: seq<T>)
    requires Distinct(a) && Distinct(b) && forall x :: x in a ==> x !in b
    ensures Distinct(a + b)
  {
    forall i, j | 0 <= i < j < |a + b| ensures (a + b)[i] != (a + b)[j] {
      assert j >= |a| > i ==> a[i] in a && b[j - |a|] in b;
    }
  }
}

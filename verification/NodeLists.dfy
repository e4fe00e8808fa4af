/** The lists that are only known by their first node: the users of a channel and the channels of
    a hash chain (src/channels.c). A new node goes in front; any node can be unlinked. */
module NodeLists {
  import opened SeqSets
  import opened Dlink

  class NodeList<T> {
    var head: DlinkNode?<T>
    ghost var nodes: seq<DlinkNode<T>>
    ghost var Repr: set<object>

    /** What the list stands for. */
    ghost var elements: seq<T>

    ghost predicate Valid()
      reads this, Repr
      ensures Valid() ==> this in Repr
    {
      && this in Repr && (forall n :: n in nodes ==> n in Repr)
      && Linked(head, At(nodes, |nodes| - 1), nodes) && Distinct(nodes) && Carry(nodes, elements)
    }

    constructor ()
      ensures Valid() && elements == [] && fresh(Repr)
    {
      head, nodes, elements, Repr := null, [], [], {this};
    }

    /** The links of a node that comes in front. */
    method LinkInFront(m: DlinkNode<T>)
      requires Valid() && m !in Repr && m.prev == null
      modifies m, nodes, `head
      ensures Linked(head, At(Inserted(nodes, 0, m), |nodes|), Inserted(nodes, 0, m))
      ensures Carry(nodes, elements) && m.data == old(m.data)
    {
      assert forall i {:trigger nodes[i]} :: 0 < i < |nodes| ==> nodes[i] != head;
      m.next := head;
      if head != null {
        head.prev := m;
      }
      head := m;
      LinkedInserted(head, At(Inserted(nodes, 0, m), |nodes|), nodes, 0, m);
    }

    /** The bookkeeping of a node that came in front. */
    ghost method Note(m: DlinkNode<T>)
      requires m !in nodes && this in Repr && (forall n :: n in nodes ==> n in Repr)
      requires Linked(head, At(Inserted(nodes, 0, m), |nodes|), Inserted(nodes, 0, m))
      requires Distinct(nodes) && Carry(nodes, elements)
      modifies `nodes, `elements, `Repr
      ensures Valid() && elements == [m.data] + old(elements) && Repr == old(Repr) + {m}
    {
      CarryInserted(nodes, elements, 0, m);
      DistinctInserted(nodes, 0, m);
      assert Inserted(elements, 0, m.data) == [m.data] + elements;
      nodes, elements, Repr := Inserted(nodes, 0, m), Inserted(elements, 0, m.data), Repr + {m};
    }

    /** A new node in front. */
    method Push(data: T)
      requires Valid()
      modifies Repr
      ensures Valid() && elements == [data] + old(elements) && fresh(Repr - old(Repr))
    {
      var m := new DlinkNode(data);
      LinkInFront(m);
      Note(m);
    }

    /** The links around a node that goes. */
    method Bypass(u: DlinkNode<T>, ghost k: nat)
      requires Valid() && k < |nodes| && nodes[k] == u
      modifies nodes, `head
      ensures Linked(head, At(Without(nodes, k), |nodes| - 2), Without(nodes, k)) && Carry(nodes, elements)
    {
      assert u.prev == At(nodes, k - 1) && u.next == At(nodes, k + 1);
      assert forall i {:trigger nodes[i]} :: 0 <= i < |nodes| && i != k ==> nodes[i] != u;
      if u.next != null {
        u.next.prev := u.prev;
      }
      if u.prev != null {
        u.prev.next := u.next;
      } else {
        head := u.next;
      }
      LinkedWithout(head, At(Without(nodes, k), |nodes| - 2), nodes, k);
    }

    /** Takes the node at place `k` out of the list. */
    method Unlink(u: DlinkNode<T>, ghost k: nat)
      requires Valid() && k < |nodes| && nodes[k] == u
      modifies Repr
      ensures Valid() && elements == old(Without(elements, k)) && Repr == old(Repr)
    {
      Bypass(u, k);
      CarryWithout(nodes, elements, k);
      DistinctWithout(nodes, k);
      nodes, elements := Without(nodes, k), Without(elements, k);
    }

    /** An assignment to what a node of the list holds. */
    method Put(u: DlinkNode<T>, data: T, ghost k: nat)
      requires Valid() && k < |nodes| && nodes[k] == u
      modifies Repr
      ensures Valid() && elements == old(elements)[k := data] && Repr == old(Repr)
    {
      u.data := data;
      elements := elements[k := data];
    }
  }
}

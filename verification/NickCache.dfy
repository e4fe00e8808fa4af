/** The cache of nick status and language in front of the nick table (src/cache.c): a hash of
    sorted circular lists, and the functions that keep it in step with the table. */
module NickCache {
  import opened CText
  import opened SeqSets

  const M := 151
  const HOUR := 3600

  type Bits = bv32

  /** What is cached for a nick, and since when. */
  datatype Entry = Entry(status: Bits, statusTime: int, language: nat, languageTime: int)

  /** The columns of the nick table that are cached. */
  datatype Row = Row(status: Bits, language: nat)

  /** The assignments to a status: `=`, `|=` and `&= ~`. */
  datatype Change = Put(bits: Bits) | Join(bits: Bits) | Clear(bits: Bits)

  class Node {
    var next: Node?
    var nickId: nat
    var entry: Entry

    constructor (nickId: nat, entry: Entry)
      ensures this.nickId == nickId && this.entry == entry
    {
      this.nickId, this.entry, next := nickId, entry, null;
    }
  }

  /** Nicks in ascending order; 0 is no nick. */
  predicate Sorted(ids: seq<nat>) {
    Ascending(ids) && forall i :: 0 <= i < |ids| ==> ids[i] > 0
  }

  /** The place before the first larger nick keeps a chain ascending. */
  lemma InsertAscending(ids: seq<nat>, k: nat, id: nat)
    requires Sorted(ids) && k <= |ids| && id > 0 && id !in AsSet(ids)
    requires forall i :: 0 <= i < k ==> ids[i] < id
    requires k < |ids| ==> ids[k] >= id
    ensures Sorted(Inserted(ids, k, id)) && AsSet(Inserted(ids, k, id)) == AsSet(ids) + {id}
  {
    var r := Inserted(ids, k, id);
    assert k < |ids| ==> ids[k] in AsSet(ids);
    forall x ensures x in AsSet(r) <==> x in AsSet(ids) || x == id {
      if x in ids {
        var i :| 0 <= i < |ids| && ids[i] == x;
        assert r[if i < k then i else i + 1] == x;
      }
      assert r[k] == id;
    }
  }

  /** The nodes have these nicks and hold their entries. */
  ghost predicate Holds(nodes: seq<Node>, ids: seq<nat>, entries: map<nat, Entry>)
    reads nodes
  {
    && |nodes| == |ids|
    && forall i {:trigger nodes[i].nickId} {:trigger nodes[i].entry} :: 0 <= i < |nodes| ==>
         nodes[i].nickId == ids[i] && ids[i] in entries && nodes[i].entry == entries[ids[i]]
  }

  /** From the head through the nodes and back to the head. */
  ghost predicate Linked(head: Node, nodes: seq<Node>)
    reads head, nodes
  {
    && head.next == (if nodes == [] then head else nodes[0])
    && forall i {:trigger nodes[i].next} :: 0 <= i < |nodes| ==>
         nodes[i].next == (if i + 1 == |nodes| then head else nodes[i + 1])
  }

  /** The links after node `n` was put in at place `k`. */
  lemma LinkedAfter(head: Node, was: seq<Node>, k: nat, n: Node)
    requires k <= |was|
    requires head.next == (if k == 0 then n else if was == [] then head else was[0])
    requires forall i {:trigger was[i].next} :: 0 <= i < |was| ==>
               was[i].next == (if i + 1 == k then n else if i + 1 == |was| then head else was[i + 1])
    requires n.next == (if k == |was| then head else was[k])
    ensures Linked(head, Inserted(was, k, n))
  {
  }

  lemma HoldsAfter(was: seq<Node>, ids: seq<nat>, entries: map<nat, Entry>, k: nat, n: Node)
    requires Holds(was, ids, entries) && n.nickId !in ids && k <= |was|
    ensures Holds(Inserted(was, k, n), Inserted(ids, k, n.nickId), entries[n.nickId := n.entry])
  {
    var nodes := Inserted(was, k, n);
    forall i | 0 <= i < |nodes|
      ensures nodes[i].nickId == Inserted(ids, k, n.nickId)[i]
      ensures nodes[i].nickId in entries[n.nickId := n.entry]
      ensures nodes[i].entry == entries[n.nickId := n.entry][nodes[i].nickId]
    {
      if i != k {
        assert ids[if i < k then i else i - 1] in ids;
      }
    }
  }

  /** The links after the node at place `k` was taken out. */
  lemma LinkedWithout(head: Node, was: seq<Node>, k: nat)
    requires k < |was|
    requires head.next == (if k > 0 then was[0] else if |was| == 1 then head else was[1])
    requires forall i {:trigger was[i].next} :: 0 <= i < |was| && i != k ==>
               was[i].next == (var j := if i + 1 == k then k + 1 else i + 1; if j == |was| then head else was[j])
    ensures Linked(head, Without(was, k))
  {
  }

  lemma HoldsWithout(was: seq<Node>, ids: seq<nat>, entries: map<nat, Entry>, k: nat)
    requires Holds(was, ids, entries) && Sorted(ids) && k < |was|
    ensures Holds(Without(was, k), Without(ids, k), entries - {ids[k]})
  {
  }

  lemma WithoutAscending(ids: seq<nat>, k: nat)
    requires Sorted(ids) && k < |ids|
    ensures Sorted(Without(ids, k)) && AsSet(Without(ids, k)) == AsSet(ids) - {ids[k]}
  {
    var r := Without(ids, k);
    forall x ensures x in AsSet(r) <==> x in AsSet(ids) && x != ids[k] {
      if x in ids && x != ids[k] {
        var i :| 0 <= i < |ids| && ids[i] == x;
        assert r[if i < k then i else i - 1] == x;
      }
    }
  }

  /** A chain: a head with nick 0 and the nodes after it in ascending order, the last of which
      points back at the head. */
  class Chain {
    var head: Node
    ghost var nodes: seq<Node>
    ghost var ids: seq<nat>
    ghost var Repr: set<object>

    /** What the chain stands for. */
    ghost var entries: map<nat, Entry>

    ghost predicate Valid()
      reads this, Repr
      ensures Valid() ==> this in Repr
    {
      && this in Repr && head in Repr && head !in nodes && head.nickId == 0
      && |nodes| == |ids| && Sorted(ids) && AsSet(ids) == entries.Keys
      && (forall n :: n in nodes ==> n in Repr)
      && Holds(nodes, ids, entries) && Linked(head, nodes)
    }

    constructor ()
      ensures Valid() && entries == map[] && fresh(Repr)
    {
      var h := new Node(0, Entry(0, 0, 0, 0));
      head := h;
      nodes, ids, entries := [], [], map[];
      Repr := {this, h};
      new;
      head.next := head;
    }

    /** `nickcache_find`: stops at the head or at the first larger nick; the answer is exact. */
    method Find(id: nat) returns (n: Node?)
      requires Valid() && id > 0
      ensures n == null <==> id !in entries
      ensures n != null ==> n in nodes && n.nickId == id && n.entry == entries[id]
    {
      var nc := head.next;
      ghost var k := 0;
      while true
        invariant 0 <= k <= |nodes| && nc == (if k == |nodes| then head else nodes[k])
        invariant forall i :: 0 <= i < k ==> ids[i] < id
        decreases |nodes| - k
      {
        if nc == head || nc.nickId > id {
          assert id !in ids;
          return null;
        } else if nc.nickId == id {
          assert ids[k] in AsSet(ids);
          return nc;
        }
        nc := nc.next;
        k := k + 1;
      }
    }

    /** The walk of `nickcache_insert` to the node before the first larger one. */
    method Place(id: nat) returns (prev: Node, ghost k: nat)
      requires Valid() && id > 0
      ensures k <= |nodes| && prev == (if k == 0 then head else nodes[k - 1])
      ensures forall i :: 0 <= i < k ==> ids[i] < id
      ensures k < |ids| ==> ids[k] >= id
    {
      prev, k := head, 0;
      var nc := head.next;
      while nc != head && nc.nickId < id
        invariant 0 <= k <= |nodes| && nc == (if k == |nodes| then head else nodes[k])
        invariant prev == (if k == 0 then head else nodes[k - 1])
        invariant forall i :: 0 <= i < k ==> ids[i] < id
        decreases |nodes| - k
      {
        prev := nc;
        nc := nc.next;
        k := k + 1;
      }
    }

    lemma OnlyPlaceOfPrev(k: nat)
      requires Valid() && 0 < k <= |nodes|
      ensures forall i :: 0 <= i < |nodes| && nodes[i] == nodes[k - 1] ==> i == k - 1
    {
      forall i | 0 <= i < |nodes| && nodes[i] == nodes[k - 1] ensures i == k - 1 {
        assert nodes[i].nickId == ids[i] && nodes[k - 1].nickId == ids[k - 1];
      }
    }

    /** The two assignments that link a new node behind `prev`. */
    method Splice(prev: Node, ghost k: nat, id: nat, entry: Entry) returns (n: Node)
      requires Valid() && k <= |nodes| && prev == (if k == 0 then head else nodes[k - 1]) && id !in ids
      modifies prev`next
      ensures fresh(n) && n.nickId == id
      ensures Linked(head, Inserted(nodes, k, n))
      ensures Holds(Inserted(nodes, k, n), Inserted(ids, k, id), entries[id := entry])
    {
      if k > 0 {
        OnlyPlaceOfPrev(k);
      }
      n := new Node(id, entry);
      n.next := prev.next;
      prev.next := n;
      LinkedAfter(head, nodes, k, n);
      HoldsAfter(nodes, ids, entries, k, n);
    }

    /** The linking part of `nickcache_insert`: the new node goes before the first larger one. */
    method Insert(id: nat, entry: Entry) returns (n: Node)
      requires Valid() && id > 0 && id !in entries
      modifies Repr
      ensures Valid() && fresh(Repr - old(Repr))
      ensures entries == old(entries)[id := entry]
      ensures n in nodes && n.nickId == id
    {
      assert id !in ids by {
        assert AsSet(ids) == entries.Keys;
      }
      ghost var k;
      var prev;
      prev, k := Place(id);
      n := Splice(prev, k, id, entry);
      Note(k, n, id, entry);
    }

    /** The bookkeeping of an insertion. */
    ghost method Note(k: nat, n: Node, id: nat, entry: Entry)
      requires this in Repr && head in Repr && head !in nodes && head.nickId == 0 && n != head
      requires |nodes| == |ids| && Sorted(ids) && AsSet(ids) == entries.Keys
      requires forall x :: x in nodes ==> x in Repr
      requires id > 0 && id !in entries && k <= |ids| && (forall i :: 0 <= i < k ==> ids[i] < id)
      requires k < |ids| ==> ids[k] >= id
      requires Linked(head, Inserted(nodes, k, n))
      requires Holds(Inserted(nodes, k, n), Inserted(ids, k, id), entries[id := entry])
      modifies `nodes, `ids, `entries, `Repr
      ensures Valid() && Repr == old(Repr) + {n} && entries == old(entries)[id := entry] && n in nodes
    {
      InsertAscending(ids, k, id);
      AllIn(nodes, k, n, Repr, head);
      nodes, ids, entries, Repr := Inserted(nodes, k, n), Inserted(ids, k, id), entries[id := entry], Repr + {n};
    }

    /** The assignment that unlinks the node at place `k`. */
    method Cut(prev: Node, ghost k: nat)
      requires Valid() && k < |nodes| && prev == (if k == 0 then head else nodes[k - 1])
      modifies prev`next
      ensures Linked(head, Without(nodes, k)) && Holds(Without(nodes, k), Without(ids, k), entries - {ids[k]})
    {
      if k > 0 {
        OnlyPlaceOfPrev(k);
      }
      HoldsWithout(nodes, ids, entries, k);
      assert prev.next == nodes[k] && nodes[k].next == (if k + 1 == |nodes| then head else nodes[k + 1]);
      prev.next := prev.next.next;
      LinkedWithout(head, nodes, k);
    }

    /** The place before which all nicks are smaller is that of the nick, if it is there. */
    lemma AtPlace(id: nat, k: nat)
      requires Valid() && id in entries && k <= |ids|
      requires (forall i :: 0 <= i < k ==> ids[i] < id) && (k < |ids| ==> ids[k] >= id)
      ensures k < |ids| && ids[k] == id
    {
      assert id in AsSet(ids);
      var j :| 0 <= j < |ids| && ids[j] == id;
    }

    /** The removal of a nick as it is meant: the node of the nick is unlinked. */
    method Remove(id: nat)
      requires Valid() && id > 0 && id in entries
      modifies Repr
      ensures Valid() && Repr == old(Repr) && entries == old(entries) - {id}
    {
      ghost var k;
      var prev;
      prev, k := Place(id);
      AtPlace(id, k);
      Cut(prev, k);
      Forget(k);
    }

    /** The walk of `nickcache_del`, which keeps the node before; neither test for a missing nick
        stops it. */
    method WalkTo(id: nat) returns (z: Node, nc: Node, ghost k: nat)
      requires Valid() && id > 0 && id in entries
      ensures k < |nodes| && nc == nodes[k] && nc.nickId == id && z == (if k == 0 then head else nodes[k - 1])
    {
      z, nc := head, head;
      assert id in AsSet(ids);
      k :| k < |ids| && ids[k] == id;
      ghost var i := 0;
      while nc.nickId != id
        invariant 0 <= i <= k + 1 && nc == (if i == 0 then head else nodes[i - 1])
        invariant z == if i <= 1 then head else nodes[i - 2]
        decreases k + 1 - i
      {
        assert i > 0 ==> nc.nickId == ids[i - 1] && nodes[i].nickId == ids[i];
        assert nc != nc.next && nc.nickId <= id;
        z, nc, i := nc, nc.next, i + 1;
      }
      assert i > 0 ==> nc.nickId == ids[i - 1];
    }

    /** The assignment of `nickcache_del`: the link of the node at place `k` is taken past the
        next one. */
    method SkipNext(nc: Node, ghost k: nat)
      requires Valid() && k < |nodes| && nc == nodes[k]
      modifies nc`next
      ensures k + 1 < |nodes| ==> Linked(head, Without(nodes, k + 1))
      ensures k + 1 == |nodes| ==> nc.next == nodes[0]
    {
      OnlyPlaceOfPrev(k + 1);
      assert nc.next == (if k + 1 == |nodes| then head else nodes[k + 1]);
      nc.next := nc.next.next;
      if k + 1 < |nodes| {
        LinkedWithout(head, nodes, k + 1);
      }
    }

    /** `nickcache_del` as it is written: the node of the nick keeps its place, the one before it
        is freed, and the next one goes; when there is none, the circle closes past the head. */
    method DelAsWritten(id: nat) returns (freed: Node, ghost k: nat)
      requires Valid() && id > 0 && id in entries
      modifies nodes
      ensures nodes == old(nodes) && k < |nodes| && nodes[k].nickId == id
      ensures freed == (if k == 0 then head else nodes[k - 1]) && freed.next == nodes[k]
      ensures k + 1 < |nodes| ==> Linked(head, Without(nodes, k + 1))
      ensures k + 1 == |nodes| ==> nodes[k].next == nodes[0]
    {
      var nc;
      freed, nc, k := WalkTo(id);
      assert freed.next == nc && freed != nc by {
        assert k > 0 ==> freed.nickId == ids[k - 1] && nc.nickId == ids[k];
      }
      SkipNext(nc, k);
    }

    /** The bookkeeping of a removal. */
    ghost method Forget(k: nat)
      requires this in Repr && head in Repr && head !in nodes && head.nickId == 0
      requires |nodes| == |ids| && k < |ids| && Sorted(ids) && AsSet(ids) == entries.Keys
      requires forall x :: x in nodes ==> x in Repr
      requires Linked(head, Without(nodes, k)) && Holds(Without(nodes, k), Without(ids, k), entries - {ids[k]})
      modifies `nodes, `ids, `entries
      ensures Valid() && entries == old(entries - {ids[k]})
    {
      WithoutAscending(ids, k);
      forall x | x in Without(nodes, k) ensures x in nodes {
      }
      nodes, ids, entries := Without(nodes, k), Without(ids, k), entries - {ids[k]};
    }

    static lemma AllIn(was: seq<Node>, k: nat, n: Node, repr: set<object>, head: Node)
      requires k <= |was| && n != head && head !in was
      requires forall x :: x in was ==> x in repr
      ensures forall x :: x in Inserted(was, k, n) ==> x in repr + {n}
      ensures n in Inserted(was, k, n) && head !in Inserted(was, k, n)
    {
      forall i | 0 <= i <= |was|
        ensures Inserted(was, k, n)[i] in repr + {n} && Inserted(was, k, n)[i] != head
      {
      }
    }

    /** The assignments to the fields of a node that was found. */
    method Set(n: Node, entry: Entry)
      requires Valid() && n in nodes
      modifies n, this`entries
      ensures Valid() && n.nickId == old(n.nickId) && n.entry == entry
      ensures entries == old(entries)[n.nickId := entry]
    {
      ghost var k :| 0 <= k < |nodes| && nodes[k] == n;
      assert ids[k] in AsSet(ids);
      assert forall i {:trigger nodes[i].nickId} :: 0 <= i < |nodes| && i != k ==> nodes[i].nickId != n.nickId;
      n.entry := entry;
      entries := entries[n.nickId := entry];
      assert entries.Keys == old(entries).Keys;
    }
  }

  /** The hash of chains, beside the columns of the nick table they stand for. */
  class Cache {
    const chains: seq<Chain>

    /** The cached columns of the nick table. */
    var db: map<nat, Row>

    ghost predicate Valid()
      reads this, chains, set i, o | 0 <= i < |chains| && o in chains[i].Repr :: o
    {
      && |chains| == M
      && (forall i :: 0 <= i < M ==> chains[i].Valid() && this !in chains[i].Repr)
      && (forall i, j :: 0 <= i < j < M ==> chains[i].Repr !! chains[j].Repr)
      && (forall i :: 0 <= i < M ==> InPlace(chains[i].entries, i))
    }

    /** Every nick is on the chain its number hashes to. */
    static predicate InPlace(entries: map<nat, Entry>, i: nat) {
      forall id :: id in entries ==> id % M == i
    }

    /** What is cached for a nick. */
    ghost function Cached(id: nat): Option<Entry>
      requires Valid()
      reads this, chains, set i, o | 0 <= i < |chains| && o in chains[i].Repr :: o
    {
      var entries := chains[id % M].entries;
      if id in entries then Some(entries[id]) else None
    }

    /** The entry of a nick that is registered has the table's values. */
    ghost predicate InStep()
      requires Valid()
      reads this, chains, set i, o | 0 <= i < |chains| && o in chains[i].Repr :: o
    {
      forall id :: id in db && Cached(id).Some? ==>
        Cached(id).value.status == db[id].status && Cached(id).value.language == db[id].language
    }

    /** A nick that is brought in step on its own leaves the cache in step. */
    twostate lemma OneChanged(id: nat)
      requires old(Valid()) && old(InStep()) && Valid()
      requires forall x :: x != id ==> Cached(x) == old(Cached(x))
      requires forall x :: x != id ==> (x in db <==> x in old(db))
      requires forall x :: x != id && x in db ==> db[x] == old(db)[x]
      requires id in db && Cached(id).Some? ==>
                 Cached(id).value.status == db[id].status && Cached(id).value.language == db[id].language
      ensures InStep()
    {
      forall x | x in db && Cached(x).Some?
        ensures Cached(x).value.status == db[x].status && Cached(x).value.language == db[x].language
      {
        if x != id {
          assert Cached(x) == old(Cached(x));
        }
      }
    }

    /** `nickcache_find`. */
    method Find(id: nat) returns (n: Node?)
      requires Valid() && id > 0
      ensures n == null <==> Cached(id) == None
      ensures n != null ==> n in chains[id % M].nodes && n.nickId == id && Cached(id) == Some(n.entry)
    {
      n := chains[id % M].Find(id);
    }

    /** A change of one chain that stays a chain and keeps its hash leaves the others alone. */
    twostate lemma OthersStay(h: nat)
      requires old(Valid()) && h < M
      requires chains[h].Valid() && fresh(chains[h].Repr - old(chains[h].Repr)) && InPlace(chains[h].entries, h)
      requires forall i :: 0 <= i < M && i != h ==> forall o :: o in old(chains[i].Repr) ==> unchanged(o)
      ensures forall i :: 0 <= i < M && i != h ==>
                chains[i].Repr == old(chains[i].Repr) && chains[i].Valid()
                && chains[i].entries == old(chains[i].entries)
      ensures Valid()
    {
      forall i | 0 <= i < M && i != h
        ensures chains[i].Repr == old(chains[i].Repr) && chains[i].Valid()
        ensures chains[i].entries == old(chains[i].entries)
      {
        assert chains[i] in old(chains[i].Repr);
      }
    }

    /** Adds the entry of a nick that is not cached. */
    method Add(id: nat, entry: Entry) returns (n: Node)
      requires Valid() && id > 0 && Cached(id) == None
      modifies chains[id % M].Repr
      ensures Valid() && Cached(id) == Some(entry)
      ensures fresh(chains[id % M].Repr - old(chains[id % M].Repr))
      ensures forall x :: x != id ==> Cached(x) == old(Cached(x))
      ensures n in chains[id % M].nodes && n.nickId == id
    {
      n := chains[id % M].Insert(id, entry);
      OthersStay(id % M);
    }

    /** Overwrites the entry of a cached nick. */
    method Set(n: Node, id: nat, entry: Entry)
      requires Valid() && id > 0 && n in chains[id % M].nodes && n.nickId == id
      modifies chains[id % M].Repr
      ensures Valid() && Cached(id) == Some(entry) && n.entry == entry
      ensures chains[id % M].Repr == old(chains[id % M].Repr)
      ensures forall x :: x != id ==> Cached(x) == old(Cached(x))
    {
      chains[id % M].Set(n, entry);
      OthersStay(id % M);
    }

    /** `nickcache_init` over an existing table. */
    constructor (db: map<nat, Row>)
      ensures Valid() && InStep() && this.db == db
      ensures forall id :: Cached(id) == None
    {
      var heads: seq<Chain> := [];
      while |heads| < M
        invariant |heads| <= M
        invariant forall i :: 0 <= i < |heads| ==>
                    heads[i].Valid() && heads[i].entries == map[] && fresh(heads[i].Repr)
        invariant forall i, j :: 0 <= i < j < |heads| ==> heads[i].Repr !! heads[j].Repr
      {
        var c := new Chain();
        heads := heads + [c];
      }
      chains := heads;
      this.db := db;
      new;
    }

    function FromRow(row: Row, now: int): Entry {
      Entry(row.status, now, row.language, now)
    }

    /** The entry the set functions start from: the cached one, or else one made from the row. */
    ghost function Start(id: nat, now: int): Option<Entry>
      requires Valid()
      reads this, chains, set i, o | 0 <= i < |chains| && o in chains[i].Repr :: o
    {
      if Cached(id).None? && id in db then Some(FromRow(db[id], now)) else Cached(id)
    }

    /** `nickcache_insert` as the get and set functions use it: an uncached nick is loaded from
        its row; there is none for a nick that is not registered. */
    method Load(id: nat, now: int) returns (n: Node?)
      requires Valid() && id > 0 && Cached(id) == None
      modifies chains[id % M].Repr
      ensures Valid() && (old(InStep()) ==> InStep())
      ensures fresh(chains[id % M].Repr - old(chains[id % M].Repr))
      ensures n == null <==> id !in db
      ensures n == null ==> Cached(id) == None
      ensures n != null ==> n in chains[id % M].nodes && n.nickId == id && Cached(id) == Some(n.entry)
      ensures n != null ==> n.entry == FromRow(db[id], now)
      ensures forall x :: x != id ==> Cached(x) == old(Cached(x))
    {
      if id !in db {
        return null;
      }
      n := Add(id, FromRow(db[id], now));
    }

    /** The node of a nick for the set functions: found, or loaded. */
    method Fetch(id: nat, now: int) returns (n: Node?)
      requires Valid() && id > 0
      modifies chains[id % M].Repr
      ensures Valid() && (old(InStep()) ==> InStep())
      ensures fresh(chains[id % M].Repr - old(chains[id % M].Repr))
      ensures n == null <==> Cached(id) == None
      ensures n != null ==> n in chains[id % M].nodes && n.nickId == id && Cached(id) == Some(n.entry)
      ensures Cached(id) == old(Start(id, now))
      ensures forall x :: x != id ==> Cached(x) == old(Cached(x))
    {
      n := Find(id);
      if n == null {
        n := Load(id, now);
      }
    }

    /** An entry of an hour's age is fetched afresh. */
    predicate Old(entry: Entry, now: int) { now - entry.statusTime >= HOUR }

    /** Removes the entry of a cached nick. */
    method Remove(id: nat)
      requires Valid() && id > 0 && Cached(id).Some?
      modifies chains[id % M].Repr
      ensures Valid() && Cached(id) == None
      ensures forall x :: x != id ==> Cached(x) == old(Cached(x))
    {
      chains[id % M].Remove(id);
      OthersStay(id % M);
    }

    /** `get_nick_status`: the status of a registered nick is the table's, whether it was cached,
        was too old or had to be loaded; an old entry of a nick that is no longer registered is
        removed, as is meant, and gives 0. */
    method GetNickStatus(id: nat, now: int) returns (status: Bits)
      requires Valid() && InStep() && id > 0
      modifies chains[id % M].Repr
      ensures Valid() && InStep()
      ensures id in db ==> status == db[id].status
      ensures var was := old(Cached(id));
              var young := was.Some? && now - was.value.statusTime < 3600;
              && (young ==> Cached(id) == was && status == was.value.status)
              && (!young && id in db ==> Cached(id) == Some(Entry(db[id].status, now, db[id].language, now)))
              && (!young && id !in db ==> Cached(id) == None && status == 0)
      ensures forall x :: x != id ==> Cached(x) == old(Cached(x))
    {
      var n := Find(id);
      if n == null {
        status := Loaded(id, now);
      } else {
        status := Refreshed(n, id, now);
      }
    }

    /** The status of a nick that is not cached, or 0 if it is not registered. */
    method Loaded(id: nat, now: int) returns (status: Bits)
      requires Valid() && InStep() && id > 0 && Cached(id) == None
      modifies chains[id % M].Repr
      ensures Valid() && InStep()
      ensures status == if id in db then db[id].status else 0
      ensures Cached(id) == if id in db then Some(FromRow(db[id], now)) else None
      ensures forall x :: x != id ==> Cached(x) == old(Cached(x))
    {
      var n := Load(id, now);
      if n == null {
        return 0;
      }
      status := n.entry.status;
    }

    /** The status of a cached nick; `nickcache_update` when the entry is too old. */
    method Refreshed(n: Node, id: nat, now: int) returns (status: Bits)
      requires Valid() && InStep() && id > 0
      requires n in chains[id % M].nodes && n.nickId == id && Cached(id) == Some(n.entry)
      modifies chains[id % M].Repr
      ensures Valid() && InStep()
      ensures status == (if id in db then db[id].status
                         else if Old(old(n.entry), now) then 0 else old(n.entry).status)
      ensures if Old(old(n.entry), now) then Cached(id) == if id in db then Some(FromRow(db[id], now)) else None
              else Cached(id) == old(Cached(id))
      ensures forall x :: x != id ==> Cached(x) == old(Cached(x))
    {
      if Old(n.entry, now) {
        if id !in db {
          Remove(id);
          return 0;
        }
        Set(n, id, FromRow(db[id], now));
      }
      status := n.entry.status;
    }

    /** What is stored in the status field: a value, or the field with bits added or removed. */
    static function Stored(change: Change, status: Bits): Bits {
      match change
      case Put(bits) => bits
      case Join(bits) => status | bits
      case Clear(bits) => status & !bits
    }

    /** Setting a status stores it as it is. */
    static lemma PutStores(s: Bits, bits: Bits)
      ensures Stored(Put(bits), s) == bits
    {
    }

    /** Adding bits sets them and leaves all others as they were; removing clears them and leaves
        all others as they were. */
    static lemma JoinSets(s: Bits, bits: Bits)
      ensures Stored(Join(bits), s) & bits == bits
    {
    }

    static lemma JoinKeeps(s: Bits, bits: Bits)
      ensures Stored(Join(bits), s) & !bits == s & !bits
    {
    }

    static lemma ClearClears(s: Bits, bits: Bits)
      ensures Stored(Clear(bits), s) & bits == 0
    {
    }

    static lemma ClearKeeps(s: Bits, bits: Bits)
      ensures Stored(Clear(bits), s) & !bits == s & !bits
    {
    }

    /** `nickcache_set_status`, `nickcache_add_status` and `nickcache_remove_status`, which
        differ in the one assignment. */
    method ChangeStatus(id: nat, now: int, change: Change)
      requires Valid() && id > 0
      modifies chains[id % M].Repr
      ensures Valid() && fresh(chains[id % M].Repr - old(chains[id % M].Repr))
      ensures old(Start(id, now)).None? ==> Cached(id).None?
      ensures old(Start(id, now)).Some? ==>
                var e := old(Start(id, now)).value;
                Cached(id) == Some(e.(status := Stored(change, e.status), statusTime := now))
      ensures forall x :: x != id ==> Cached(x) == old(Cached(x))
    {
      var n := Fetch(id, now);
      if n != null {
        Set(n, id, n.entry.(status := Stored(change, n.entry.status), statusTime := now));
      }
    }

    /** `nickcache_set_language`. */
    method SetLanguage(id: nat, now: int, language: nat)
      requires Valid() && id > 0
      modifies chains[id % M].Repr
      ensures Valid()
      ensures old(Start(id, now)).None? ==> Cached(id).None?
      ensures old(Start(id, now)).Some? ==>
                Cached(id) == Some(old(Start(id, now)).value.(language := language, languageTime := now))
      ensures forall x :: x != id ==> Cached(x) == old(Cached(x))
    {
      var n := Fetch(id, now);
      if n != null {
        Set(n, id, n.entry.(language := language, languageTime := now));
      }
    }

    /** A change made to a row before the cache looks at it is made twice to an entry that is
        loaded in between, and this does no harm. */
    static lemma StoredTwice(change: Change, status: Bits)
      ensures Stored(change, Stored(change, status)) == Stored(change, status)
    {
    }

    /** The update of the row. */
    method UpdateRow(id: nat, change: Change)
      requires Valid()
      modifies `db
      ensures Valid() && forall x :: Cached(x) == old(Cached(x))
      ensures db == if id in old(db) then old(db)[id := old(db)[id].(status := Stored(change, old(db)[id].status))]
                    else old(db)
    {
      if id in db {
        db := db[id := db[id].(status := Stored(change, db[id].status))];
      }
    }

    /** `set_nick_status`, `add_nick_status` and `remove_nick_status`: the row first, then the
        cache. Whatever was cached, the two agree again. */
    method ChangeNickStatus(id: nat, now: int, change: Change)
      requires Valid() && InStep() && id > 0
      modifies `db, chains[id % M].Repr
      ensures Valid() && InStep()
      ensures db == if id in old(db) then old(db)[id := old(db)[id].(status := Stored(change, old(db)[id].status))]
                    else old(db)
    {
      if id in db {
        StoredTwice(change, db[id].status);
      }
      UpdateRow(id, change);
      ChangeStatus(id, now, change);
      OneChanged(id);
    }

    /** The part of `insert_new_nick` that keeps the cache in step; the row's number is a new one. */
    method InsertNewNick(id: nat, row: Row, now: int)
      requires Valid() && InStep() && id > 0 && id !in db
      modifies `db, chains[id % M].Repr
      ensures Valid() && InStep()
      ensures db == old(db)[id := row]
    {
      db := db[id := row];
      ChangeStatus(id, now, Put(row.status));
      SetLanguage(id, now, row.language);
      OneChanged(id);
    }
  }
}

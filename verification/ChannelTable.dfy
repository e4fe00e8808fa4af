/** The table of channels (src/channels.c): 1024 chains found through a hash of the second and
    third character of a name, against the map from names to channels it stands for. */
module ChannelTable {
  import opened CText
  import opened ChannelModes
  import opened ChannelMembers
  import opened Dlink
  import opened NodeLists
  import opened SeqSets

  datatype Record = Record(name: string, room: Room)

  const CHAINS: nat := 1024

  /** The low five bits of a character. */
  function Low5(c: char): (r: nat)
    ensures r < 32
  {
    c as int % 32
  }

  /** The macro `HASH`; past the end of a name is its terminator, a zero. */
  function Hash(name: string): (h: nat)
    ensures h < CHAINS
  {
    if |name| < 2 || name[1] == '\0' then 0
    else Low5(name[1]) * 32 + (if |name| < 3 then 0 else Low5(name[2]))
  }

  /** `irc_stricmp(a, b) == 0`. */
  predicate SameName(a: string, b: string) { Fold(a) == Fold(b) }

  lemma CaseKeepsLow5(c: char)
    ensures Low5(ToLower(c)) == Low5(c) && (ToLower(c) == '\0' <==> c == '\0')
  {
  }

  /** Names that are equal to the program are on the same chain. */
  lemma EqualNamesShareChain(a: string, b: string)
    requires SameName(a, b)
    ensures Hash(a) == Hash(b)
  {
    assert |a| == |Fold(a)| == |Fold(b)| == |b|;
    if |a| >= 2 {
      assert Fold(a)[1] == Fold(b)[1];
      CaseKeepsLow5(a[1]);
      CaseKeepsLow5(b[1]);
      if |a| >= 3 {
        assert Fold(a)[2] == Fold(b)[2];
        CaseKeepsLow5(a[2]);
        CaseKeepsLow5(b[2]);
      }
    }
  }

  /** A chain with every name in its place and none twice. */
  predicate ChainOk(chain: seq<Record>, h: nat) {
    && (forall i :: 0 <= i < |chain| ==> Hash(chain[i].name) == h && chain[i].room.users != [])
    && (forall i, j :: 0 <= i < j < |chain| ==> !SameName(chain[i].name, chain[j].name))
  }

  /** The first record of a chain with a name. */
  function InChain(chain: seq<Record>, name: string): Option<Room> {
    if chain == [] then None
    else if SameName(chain[0].name, name) then Some(chain[0].room)
    else InChain(chain[1..], name)
  }

  lemma {:induction false} InChainAt(chain: seq<Record>, name: string, k: nat)
    requires k <= |chain| && forall i :: 0 <= i < k ==> !SameName(chain[i].name, name)
    requires k < |chain| ==> SameName(chain[k].name, name)
    ensures InChain(chain, name) == if k < |chain| then Some(chain[k].room) else None
  {
    if k > 0 {
      InChainAt(chain[1..], name, k - 1);
    }
  }

  /** Finding a name in a chain without repetition: at one place, or nowhere. */
  lemma InChainIff(chain: seq<Record>, h: nat, name: string)
    requires ChainOk(chain, h)
    ensures InChain(chain, name).None? <==> forall i :: 0 <= i < |chain| ==> !SameName(chain[i].name, name)
    ensures forall i :: 0 <= i < |chain| && SameName(chain[i].name, name) ==>
              InChain(chain, name) == Some(chain[i].room)
  {
    var k := 0;
    while k < |chain| && !SameName(chain[k].name, name)
      invariant 0 <= k <= |chain| && forall i :: 0 <= i < k ==> !SameName(chain[i].name, name)
    {
      k := k + 1;
    }
    InChainAt(chain, name, k);
    forall i | 0 <= i < |chain| && SameName(chain[i].name, name)
      ensures InChain(chain, name) == Some(chain[i].room)
    {
      assert k < i ==> SameName(chain[k].name, chain[i].name);
    }
  }

  lemma CutIsOk(chain: seq<Record>, h: nat, k: nat)
    requires ChainOk(chain, h) && k < |chain|
    ensures ChainOk(Without(chain, k), h)
  {
    var cut := Without(chain, k);
    assert forall i :: 0 <= i < |cut| ==> cut[i] == chain[if i < k then i else i + 1];
  }

  lemma InChainWithout(chain: seq<Record>, h: nat, k: nat, name: string)
    requires ChainOk(chain, h) && k < |chain|
    ensures InChain(Without(chain, k), name) == if SameName(chain[k].name, name) then None else InChain(chain, name)
  {
    var cut := Without(chain, k);
    assert forall i :: 0 <= i < |cut| ==> cut[i] == chain[if i < k then i else i + 1];
    CutIsOk(chain, h, k);
    InChainIff(chain, h, name);
    InChainIff(cut, h, name);
    if !SameName(chain[k].name, name) && InChain(chain, name).Some? {
      var i :| 0 <= i < |chain| && SameName(chain[i].name, name);
      assert cut[if i < k then i else i - 1] == chain[i];
    }
  }

  lemma InChainUpdated(chain: seq<Record>, h: nat, k: nat, room: Room, name: string)
    requires ChainOk(chain, h) && k < |chain| && room.users != []
    ensures var now := chain[k := Record(chain[k].name, room)];
            && ChainOk(now, h)
            && InChain(now, name) == if SameName(chain[k].name, name) then Some(room) else InChain(chain, name)
  {
    var now := chain[k := Record(chain[k].name, room)];
    assert ChainOk(now, h);
    InChainIff(chain, h, name);
    InChainIff(now, h, name);
    assert now[k].room == room;
    if !SameName(chain[k].name, name) && InChain(chain, name).Some? {
      var i :| 0 <= i < |chain| && SameName(chain[i].name, name);
      assert now[i] == chain[i];
    }
  }

  /** The one name on which two chains may differ. */
  ghost predicate DifferOn(was: seq<Record>, now: seq<Record>, name: string, to: Option<Room>) {
    forall x :: InChain(now, x) == if SameName(name, x) then to else InChain(was, x)
  }

  lemma RoomChanged(chain: seq<Record>, h: nat, k: nat, room: Room, name: string)
    requires ChainOk(chain, h) && k < |chain| && SameName(chain[k].name, name) && room.users != []
    ensures var now := chain[k := Record(chain[k].name, room)];
            ChainOk(now, h) && DifferOn(chain, now, name, Some(room))
  {
    var now := chain[k := Record(chain[k].name, room)];
    InChainUpdated(chain, h, k, room, name);
    forall x ensures InChain(now, x) == if SameName(name, x) then Some(room) else InChain(chain, x) {
      InChainUpdated(chain, h, k, room, x);
    }
  }

  lemma RecordMade(chain: seq<Record>, h: nat, r: Record)
    requires ChainOk(chain, h) && InChain(chain, r.name) == None && h == Hash(r.name) && r.room.users != []
    ensures ChainOk([r] + chain, h) && DifferOn(chain, [r] + chain, r.name, Some(r.room))
  {
    InChainIff(chain, h, r.name);
    assert ([r] + chain)[1..] == chain;
  }

  lemma RecordGone(chain: seq<Record>, h: nat, k: nat, name: string)
    requires ChainOk(chain, h) && k < |chain| && SameName(chain[k].name, name)
    ensures ChainOk(Without(chain, k), h) && DifferOn(chain, Without(chain, k), name, None)
  {
    CutIsOk(chain, h, k);
    forall x ensures InChain(Without(chain, k), x) == if SameName(name, x) then None else InChain(chain, x) {
      InChainWithout(chain, h, k, x);
    }
  }

  /** A channel record as it is allocated. */
  const CLEAR: Chan := Chan({}, 0, None, [], [], [])

  class Table {
    const chanlist: seq<NodeList<Record>>

    ghost predicate Valid()
      reads this, chanlist, set h, o | 0 <= h < |chanlist| && o in chanlist[h].Repr :: o
    {
      && |chanlist| == CHAINS
      && (forall h :: 0 <= h < CHAINS ==> chanlist[h].Valid() && ChainOk(chanlist[h].elements, h))
      && (forall g, h :: 0 <= g < h < CHAINS ==> chanlist[g].Repr !! chanlist[h].Repr)
    }

    /** What the table stands for. */
    ghost function Lookup(name: string): Option<Room>
      requires |chanlist| == CHAINS
      reads this, chanlist
    {
      InChain(chanlist[Hash(name)].elements, name)
    }

    /** The record at place `k` of chain `h` is the one a walk over all channels finds. */
    ghost predicate Scanned(name: string, h: nat, k: nat)
      reads this, chanlist
    {
      h < |chanlist| && k < |chanlist[h].elements| && SameName(chanlist[h].elements[k].name, name)
    }

    /** However a channel is looked for, it is found once, on the chain of the name asked for. */
    lemma ScanAgrees(name: string)
      requires Valid()
      ensures Lookup(name).None? <==> forall h: nat, k: nat :: !Scanned(name, h, k)
      ensures forall h: nat, k: nat :: Scanned(name, h, k) ==>
                h == Hash(name) && Lookup(name) == Some(chanlist[h].elements[k].room)
    {
      var chain := chanlist[Hash(name)].elements;
      InChainIff(chain, Hash(name), name);
      forall h: nat, k: nat | Scanned(name, h, k)
        ensures h == Hash(name) && Lookup(name) == Some(chanlist[h].elements[k].room)
      {
        EqualNamesShareChain(chanlist[h].elements[k].name, name);
        assert ChainOk(chanlist[h].elements, h);
      }
      if Lookup(name).Some? {
        var k :| 0 <= k < |chain| && SameName(chain[k].name, name);
        assert Scanned(name, Hash(name), k);
      }
    }

    constructor ()
      ensures Valid() && forall name :: Lookup(name) == None
    {
      var heads: seq<NodeList<Record>> := [];
      while |heads| < CHAINS
        invariant |heads| <= CHAINS
        invariant forall h :: 0 <= h < |heads| ==>
                    heads[h].Valid() && heads[h].elements == [] && fresh(heads[h].Repr)
        invariant forall g, h :: 0 <= g < h < |heads| ==> heads[g].Repr !! heads[h].Repr
      {
        var list := new NodeList<Record>();
        heads := heads + [list];
      }
      chanlist := heads;
    }

    /** `findchan`: the node of the name on its chain, or none. */
    method FindChan(name: string) returns (c: DlinkNode?<Record>, ghost k: nat)
      requires Valid()
      ensures c == null <==> Lookup(name) == None
      ensures c != null ==> SameName(c.data.name, name) && Lookup(name) == Some(c.data.room)
      ensures k <= |chanlist[Hash(name)].nodes| && c == At(chanlist[Hash(name)].nodes, k)
      ensures c != null ==> Scanned(name, Hash(name), k)
    {
      var list := chanlist[Hash(name)];
      c, k := list.head, 0;
      while c != null && !SameName(c.data.name, name)
        invariant 0 <= k <= |list.nodes| && c == At(list.nodes, k)
        invariant forall i :: 0 <= i < k ==> !SameName(list.elements[i].name, name)
        decreases |list.nodes| - k
      {
        assert c.data == list.elements[k];
        c, k := c.next, k + 1;
      }
      assert c != null ==> c.data == list.elements[k];
      InChainAt(list.elements, name, k);
    }

    /** A change of the chain of a name leaves the other chains, and what is found on them, alone. */
    twostate lemma OthersStay(name: string)
      requires old(Valid())
      requires var h := Hash(name);
               && chanlist[h].Valid() && fresh(chanlist[h].Repr - old(chanlist[h].Repr))
               && ChainOk(chanlist[h].elements, h)
      requires forall g :: 0 <= g < CHAINS && g != Hash(name) ==>
                 forall o :: o in old(chanlist[g].Repr) ==> unchanged(o)
      ensures Valid() && forall x :: Hash(x) != Hash(name) ==> Lookup(x) == old(Lookup(x)) && !SameName(name, x)
    {
      forall g | 0 <= g < CHAINS && g != Hash(name)
        ensures chanlist[g].Repr == old(chanlist[g].Repr) && chanlist[g].Valid()
        ensures chanlist[g].elements == old(chanlist[g].elements)
      {
        assert chanlist[g] in old(chanlist[g].Repr);
      }
      forall x | SameName(name, x) ensures Hash(x) == Hash(name) {
        EqualNamesShareChain(name, x);
      }
    }

    /** The room of a channel that is there is replaced. */
    method SetRoom(name: string, c: DlinkNode<Record>, room: Room, ghost k: nat)
      requires Valid() && Scanned(name, Hash(name), k) && At(chanlist[Hash(name)].nodes, k) == c && room.users != []
      modifies chanlist[Hash(name)].Repr
      ensures Valid() && forall x :: Lookup(x) == if SameName(name, x) then Some(room) else old(Lookup(x))
    {
      var h := Hash(name);
      var list := chanlist[h];
      ghost var chain := list.elements;
      var data := Record(c.data.name, room);
      RoomChanged(chain, h, k, room, name);
      list.Put(c, data, k);
      OthersStay(name);
    }

    /** A channel that is not there is put in front of its chain. */
    method NewChannel(name: string, room: Room)
      requires Valid() && Lookup(name) == None && room.users != []
      modifies chanlist[Hash(name)].Repr
      ensures Valid() && forall x :: Lookup(x) == if SameName(name, x) then Some(room) else old(Lookup(x))
    {
      var h := Hash(name);
      var list := chanlist[h];
      ghost var chain := list.elements;
      RecordMade(chain, h, Record(name, room));
      list.Push(Record(name, room));
      OthersStay(name);
    }

    /** A channel is unlinked from its chain. */
    method Destroy(name: string, c: DlinkNode<Record>, ghost k: nat)
      requires Valid() && Scanned(name, Hash(name), k) && At(chanlist[Hash(name)].nodes, k) == c
      modifies chanlist[Hash(name)].Repr
      ensures Valid() && forall x :: Lookup(x) == if SameName(name, x) then None else old(Lookup(x))
    {
      var h := Hash(name);
      var list := chanlist[h];
      ghost var chain := list.elements;
      RecordGone(chain, h, k, name);
      list.Unlink(c, k);
      OthersStay(name);
    }

    /** `chan_adduser`: a channel that is not there is made first, and its modes are checked. */
    method AddUser(nick: string, name: string, op: bool, voice: bool, lock: Lock, env: Env)
      returns (sent: seq<Cmd>)
      requires Valid()
      modifies chanlist[Hash(name)].Repr
      ensures Valid()
      ensures var made := CheckModes(Chan({}, 0, None, [], [], []), lock, env);
              var was := if old(Lookup(name)).Some? then old(Lookup(name)).value else Room([], made.ch);
              && sent == (if old(Lookup(name)).Some? then [] else made.sent)
              && (forall x :: Lookup(x) ==
                    if SameName(name, x) then Some(Join(was, nick, op, voice)) else old(Lookup(x)))
              && Lookup(name).Some? && Joined(was, Lookup(name).value, nick, op, voice)
    {
      ghost var k;
      var c;
      c, k := FindChan(name);
      if c == null {
        var made := CheckModes(CLEAR, lock, env);
        NewChannel(name, Join(Room([], made.ch), nick, op, voice));
        sent := made.sent;
      } else {
        SetRoom(name, c, Join(c.data.room, nick, op, voice), k);
        sent := [];
      }
      ghost var was := if old(Lookup(name)).Some? then old(Lookup(name)).value
                       else Room([], CheckModes(CLEAR, lock, env).ch);
      JoinIs(was, nick, op, voice);
    }

    /** `chan_deluser`: the channel goes with its last user. */
    method DelUser(nick: string, name: string)
      requires Valid() && Lookup(name).Some?
      modifies chanlist[Hash(name)].Repr
      ensures Valid()
      ensures var left := Leave(old(Lookup(name)).value, nick);
              forall x :: Lookup(x) ==
                if SameName(name, x) then (if left.users == [] then None else Some(left)) else old(Lookup(x))
    {
      ghost var k;
      var c;
      c, k := FindChan(name);
      var left := Leave(c.data.room, nick);
      if left.users == [] {
        Destroy(name, c, k);
      } else {
        SetRoom(name, c, left, k);
      }
    }
  }
}

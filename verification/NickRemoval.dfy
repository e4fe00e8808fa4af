/** Who owns a channel after a nick is dropped (`cs_mysql_remove_nick`, `mysql_delchan`,
    `check_chan_limit`), over the registry's tables. */
module NickRemoval {
  import opened SeqSets

  datatype NickRow = NickRow(link: nat, channelmax: nat)
  datatype ChannelRow = ChannelRow(name: string, founder: nat, successor: nat)
  datatype AccessRow = AccessRow(id: nat, channel: nat, nick: nat)
  datatype LevelRow = LevelRow(channel: nat, what: nat)
  datatype OwnedRow = OwnedRow(id: nat, owner: string)
  datatype JoinRow = JoinRow(nick: nat, channel: nat)

  /** The tables; `access` and `akick` name a channel and a nick, `memos` (with the memo
      settings) belong to an owner's name. */
  datatype Tables = Tables(
    nicks: map<nat, NickRow>,
    channels: map<nat, ChannelRow>,
    access: set<AccessRow>,
    akick: set<AccessRow>,
    levels: set<LevelRow>,
    suspended: set<nat>,
    memos: set<OwnedRow>,
    autojoins: set<JoinRow>)

  const MAX_CHANNELCOUNT := 65535

  // ----- deleting channels -----

  function Names(t: Tables, ids: set<nat>): set<string> {
    set c | c in t.channels && c in ids :: t.channels[c].name
  }

  /** Every row that belongs to one of the channels goes. */
  function Drop(t: Tables, ids: set<nat>): Tables {
    t.(channels := t.channels - ids,
       access := (set r | r in t.access && r.channel !in ids),
       akick := (set r | r in t.akick && r.channel !in ids),
       levels := (set r | r in t.levels && r.channel !in ids),
       suspended := t.suspended - ids,
       memos := (set r | r in t.memos && r.owner !in Names(t, ids)),
       autojoins := (set r | r in t.autojoins && r.channel !in ids))
  }

  /** No table names the channel. */
  predicate Forgotten(t: Tables, id: nat) {
    && id !in t.channels
    && (forall r :: r in t.access ==> r.channel != id)
    && (forall r :: r in t.akick ==> r.channel != id)
    && (forall r :: r in t.levels ==> r.channel != id)
    && id !in t.suspended
    && (forall r :: r in t.autojoins ==> r.channel != id)
  }

  lemma DropTwice(t: Tables, a: set<nat>, b: set<nat>)
    ensures Drop(Drop(t, a), b) == Drop(t, a + b)
  {
    var u := Drop(t, a);
    assert Names(t, a) + Names(u, b) == Names(t, a + b) by {
      forall x ensures x in Names(t, a) + Names(u, b) <==> x in Names(t, a + b) {
        if x in Names(t, a + b) {
          var c :| c in t.channels && c in a + b && t.channels[c].name == x;
          if c !in a {
            assert c in u.channels;
          }
        }
      }
    }
    assert Drop(u, b).channels == Drop(t, a + b).channels;
    assert Drop(u, b).memos == Drop(t, a + b).memos;
  }

  // ----- channel limits -----

  function Master(t: Tables, nick: nat): nat {
    if nick in t.nicks && t.nicks[nick].link != 0 then t.nicks[nick].link else nick
  }

  function Limit(t: Tables, master: nat): nat {
    if master in t.nicks && t.nicks[master].channelmax != 0 then t.nicks[master].channelmax
    else MAX_CHANNELCOUNT
  }

  function Group(t: Tables, master: nat): set<nat> {
    {master} + set x | x in t.nicks && t.nicks[x].link == master
  }

  function Founded(t: Tables, master: nat): set<nat> {
    set c | c in t.channels && t.channels[c].founder in Group(t, master)
  }

  /** Channels registered by a master nick and the nicks linked to it. */
  function Count(t: Tables, master: nat): nat { |Founded(t, master)| }

  /** `check_chan_limit`: -1 below the limit, 0 at it, 1 above. */
  function CheckChanLimit(t: Tables, nick: nat): int {
    var count, max := Count(t, Master(t, nick)), Limit(t, Master(t, nick));
    if count < max then -1 else if count == max then 0 else 1
  }

  predicate Full(t: Tables, nick: nat) { CheckChanLimit(t, nick) != -1 }

  // ----- the removal -----

  /** UPDATE channel SET founder=s, successor=0 of a channel still held by `n` for `s`. */
  function Transfer(t: Tables, id: nat, n: nat, s: nat): Tables {
    if id in t.channels && t.channels[id].founder == n && t.channels[id].successor == s
    then t.(channels := t.channels[id := t.channels[id].(founder := s, successor := 0)])
    else t
  }

  function Inherited(t: Tables, n: nat): set<nat> {
    set c | c in t.channels && t.channels[c].founder == n && t.channels[c].successor != 0
  }

  function Orphans(t: Tables, n: nat): set<nat> {
    set c | c in t.channels && t.channels[c].founder == n && t.channels[c].successor == 0
  }

  /** Different channels of founder `n`, each with a successor. */
  predicate Inheriting(t: Tables, n: nat, ids: seq<nat>) {
    Distinct(ids) && forall i :: 0 <= i < |ids| ==> ids[i] in Inherited(t, n)
  }

  /** An order in which the first SELECT may return its rows. */
  predicate Listing(t: Tables, n: nat, ids: seq<nat>) {
    Inheriting(t, n, ids) && AsSet(ids) == Inherited(t, n)
  }

  lemma RestInherits(t: Tables, n: nat, ids: seq<nat>)
    requires ids != [] && Inheriting(t, n, ids)
    ensures Inheriting(Drop(t, {ids[0]}), n, ids[1..])
  {
    var rest := ids[1..];
    forall i | 0 <= i < |rest| ensures rest[i] == ids[i + 1] && rest[i] in Inherited(Drop(t, {ids[0]}), n) {
    }
  }

  /** The loop over the channels that have a successor: as long as the successors are full the
      channels are deleted. The first transfer writes the number of rows it changed, one, over
      the loop's own row count, and so is the last turn of the loop. */
  function HandOver(t: Tables, n: nat, ids: seq<nat>): Tables
    requires Inheriting(t, n, ids)
    decreases ids
  {
    if ids == [] then t
    else
      var s := t.channels[ids[0]].successor;
      if Full(t, s) then
        RestInherits(t, n, ids);
        HandOver(Drop(t, {ids[0]}), n, ids[1..])
      else Transfer(t, ids[0], n, s)
  }

  function Forget(t: Tables, n: nat): Tables {
    t.(access := (set r | r in t.access && r.nick != n),
       akick := (set r | r in t.akick && r.nick != n),
       channels := map c | c in t.channels ::
         if t.channels[c].successor == n then t.channels[c].(successor := 0) else t.channels[c])
  }

  function RemoveNick(t: Tables, n: nat, ids: seq<nat>): Tables
    requires Inheriting(t, n, ids)
  {
    var u := HandOver(t, n, ids);
    Forget(Drop(u, Orphans(u, n)), n)
  }

  /** How many channels go before the first whose successor has room. */
  function FirstHeir(t: Tables, n: nat, ids: seq<nat>): (k: nat)
    requires Inheriting(t, n, ids)
    ensures k <= |ids|
    decreases ids
  {
    if ids == [] || !Full(t, t.channels[ids[0]].successor) then 0
    else
      RestInherits(t, n, ids);
      1 + FirstHeir(Drop(t, {ids[0]}), n, ids[1..])
  }

  lemma FrontOf(ids: seq<nat>, j: nat)
    requires 0 < j <= |ids|
    ensures AsSet(ids[..j]) == {ids[0]} + AsSet(ids[1..][..j - 1])
  {
    assert ids[..j] == [ids[0]] + ids[1..][..j - 1];
  }

  /** The tables after the loop: the channels before the first heir are gone, his is
      transferred, the rest are untouched. */
  lemma {:induction false} HandOverIs(t: Tables, n: nat, ids: seq<nat>)
    requires Inheriting(t, n, ids)
    ensures var k := FirstHeir(t, n, ids);
            var gone := Drop(t, AsSet(ids[..k]));
            && HandOver(t, n, ids)
               == (if k == |ids| then gone else Transfer(gone, ids[k], n, t.channels[ids[k]].successor))
            && (k < |ids| ==> !Full(gone, t.channels[ids[k]].successor))
    decreases ids
  {
    if ids == [] || !Full(t, t.channels[ids[0]].successor) {
      assert AsSet(ids[..0]) == {};
      assert Drop(t, {}) == t;
    } else {
      var u, rest := Drop(t, {ids[0]}), ids[1..];
      RestInherits(t, n, ids);
      HandOverIs(u, n, rest);
      var k := FirstHeir(u, n, rest);
      DropTwice(t, {ids[0]}, AsSet(rest[..k]));
      FrontOf(ids, k + 1);
      if k < |rest| {
        assert rest[k] == ids[k + 1];
        assert rest[k] in Inherited(u, n);
      }
    }
  }

  // ----- what the removal does -----

  /** The channels of `n` that the loop does not come to. */
  function LeftBehind(t: Tables, n: nat, ids: seq<nat>): set<nat>
    requires Inheriting(t, n, ids)
  {
    var k := FirstHeir(t, n, ids);
    if k == |ids| then {} else AsSet(ids[k + 1..])
  }

  /** The channel that goes to its successor, if there is one and he is someone else. */
  function Bequeathed(t: Tables, n: nat, ids: seq<nat>): set<nat>
    requires Inheriting(t, n, ids)
  {
    var k := FirstHeir(t, n, ids);
    if k == |ids| || t.channels[ids[k]].successor == n then {} else {ids[k]}
  }

  lemma SplitAt(ids: seq<nat>, k: nat)
    requires k < |ids| && Distinct(ids)
    ensures AsSet(ids) == AsSet(ids[..k]) + {ids[k]} + AsSet(ids[k + 1..])
    ensures ids[k] !in AsSet(ids[..k]) && ids[k] !in AsSet(ids[k + 1..])
    ensures AsSet(ids[..k]) !! AsSet(ids[k + 1..])
  {
    assert ids == ids[..k] + [ids[k]] + ids[k + 1..];
    forall x | x in ids[..k] ensures x !in ids[k + 1..] {
      var i :| 0 <= i < k && ids[..k][i] == x;
      var rest := ids[k + 1..];
      forall j | 0 <= j < |rest| ensures rest[j] != x {
        assert rest[j] == ids[k + 1 + j];
      }
    }
  }

  /** What happens to every channel, for every order of the rows. */
  predicate Settled(t: Tables, n: nat, ids: seq<nat>, c: nat)
    requires Inheriting(t, n, ids) && c in t.channels
  {
    var u, row := RemoveNick(t, n, ids), t.channels[c];
    if row.founder != n then
      c in u.channels && u.channels[c] == row.(successor := if row.successor == n then 0 else row.successor)
    else if c in Bequeathed(t, n, ids) then
      c in u.channels && u.channels[c] == row.(founder := row.successor, successor := 0)
    else if c in LeftBehind(t, n, ids) then
      c in u.channels && u.channels[c] == row.(successor := if row.successor == n then 0 else row.successor)
    else Forgotten(u, c)
  }

  lemma EveryChannelSettled(t: Tables, n: nat, ids: seq<nat>, c: nat)
    requires n != 0 && Listing(t, n, ids) && c in t.channels
    ensures Settled(t, n, ids, c)
  {
    var k := FirstHeir(t, n, ids);
    HandOverIs(t, n, ids);
    var u := HandOver(t, n, ids);
    if k < |ids| {
      SplitAt(ids, k);
    } else {
      assert ids[..k] == ids;
    }
    assert c in AsSet(ids) <==> c in Inherited(t, n);
    if c in AsSet(ids[..k]) {
      assert Forgotten(u, c);
    }
  }

  /** The nick is no successor any more and has no access or autokick row; the other rows of
      the channels that are still there, and of no channel at all, stay. */
  lemma NickIsForgotten(t: Tables, n: nat, ids: seq<nat>)
    requires n != 0 && Listing(t, n, ids)
    ensures var u := RemoveNick(t, n, ids);
            && (forall c :: c in u.channels ==> u.channels[c].successor != n)
            && (forall r :: r in u.access <==>
                  r in t.access && r.nick != n && (r.channel in t.channels ==> r.channel in u.channels))
            && (forall r :: r in u.akick <==>
                  r in t.akick && r.nick != n && (r.channel in t.channels ==> r.channel in u.channels))
            && u.nicks == t.nicks
            && u.channels.Keys <= t.channels.Keys
  {
    var k := FirstHeir(t, n, ids);
    HandOverIs(t, n, ids);
    forall i | 0 <= i < |ids| ensures ids[i] in t.channels {
      assert ids[i] in Inherited(t, n);
    }
    assert AsSet(ids[..k]) <= t.channels.Keys;
    assert Orphans(HandOver(t, n, ids), n) <= t.channels.Keys;
  }

  /** No channel is left with the dropped nick as its founder exactly when every channel the
      loop lists, except the last, has a successor without room. So two channels whose
      successors have room are enough for one of them to stay with a founder that is gone. */
  lemma FounderGoneIff(t: Tables, n: nat, ids: seq<nat>)
    requires n != 0 && Listing(t, n, ids)
    ensures (forall c :: c in RemoveNick(t, n, ids).channels ==> RemoveNick(t, n, ids).channels[c].founder != n)
            <==> |ids| <= FirstHeir(t, n, ids) + 1
  {
    var u, k := RemoveNick(t, n, ids), FirstHeir(t, n, ids);
    NickIsForgotten(t, n, ids);
    if k + 1 < |ids| {
      var c := ids[k + 1];
      assert c in Inherited(t, n);
      SplitAt(ids, k);
      assert ids[k + 1..][0] == c;
      EveryChannelSettled(t, n, ids, c);
      assert c in u.channels && u.channels[c].founder == n;
    } else {
      assert LeftBehind(t, n, ids) == {};
      forall c | c in u.channels ensures u.channels[c].founder != n {
        EveryChannelSettled(t, n, ids, c);
      }
    }
  }

  /** The first heir is where the loop's own test fails for the first time. */
  lemma {:induction false} FirstHeirIs(t: Tables, n: nat, ids: seq<nat>, j: nat)
    requires Inheriting(t, n, ids) && j < |ids|
    ensures ids[j] in t.channels
    ensures j < FirstHeir(t, n, ids) ==> Full(Drop(t, AsSet(ids[..j])), t.channels[ids[j]].successor)
    ensures j == FirstHeir(t, n, ids) ==> !Full(Drop(t, AsSet(ids[..j])), t.channels[ids[j]].successor)
    decreases ids
  {
    assert ids[j] in Inherited(t, n);
    if j == 0 {
      assert AsSet(ids[..0]) == {};
      assert Drop(t, {}) == t;
    } else if Full(t, t.channels[ids[0]].successor) {
      var u, rest := Drop(t, {ids[0]}), ids[1..];
      RestInherits(t, n, ids);
      FirstHeirIs(u, n, rest, j - 1);
      DropTwice(t, {ids[0]}, AsSet(rest[..j - 1]));
      FrontOf(ids, j);
      assert rest[j - 1] == ids[j];
    }
  }

  /** A nick with two channels and one successor with room for both: the second channel keeps
      the founder that is gone. */
  lemma SecondChannelStays(t: Tables)
    requires t.nicks == map[8 := NickRow(0, 0)]
    requires t.channels == map[1 := ChannelRow("#a", 7, 8), 2 := ChannelRow("#b", 7, 8)]
    ensures Listing(t, 7, [1, 2])
    ensures RemoveNick(t, 7, [1, 2]).channels == map[1 := ChannelRow("#a", 8, 0), 2 := ChannelRow("#b", 7, 8)]
  {
    assert AsSet([1, 2]) == {1, 2} == Inherited(t, 7);
    assert Founded(t, 8) == {};
    assert !Full(t, 8);
    var u := HandOver(t, 7, [1, 2]);
    assert u == Transfer(t, 1, 7, 8);
    assert Orphans(u, 7) == {};
    assert Drop(u, {}) == u;
  }

  // ----- limits -----

  lemma FewerFounded(t: Tables, u: Tables, master: nat)
    requires u.nicks == t.nicks && u.channels.Keys <= t.channels.Keys
    requires forall c :: c in u.channels ==> u.channels[c].founder == t.channels[c].founder
    ensures Count(u, master) <= Count(t, master)
  {
    assert Group(u, master) == Group(t, master);
    SubsetSize(Founded(u, master), Founded(t, master));
  }

  lemma {:induction false} SubsetSize(a: set<nat>, b: set<nat>)
    requires a <= b
    ensures |a| <= |b|
  {
    if a != {} {
      var x :| x in a;
      SubsetSize(a - {x}, b - {x});
    }
  }

  function Max(a: nat, b: nat): nat { if a < b then b else a }

  lemma TransferKeepsLimit(t: Tables, id: nat, n: nat, s: nat, master: nat)
    requires master != 0 && Master(t, master) == master && !Full(t, s)
    ensures Count(Transfer(t, id, n, s), master) <= Max(Count(t, master), Limit(t, master))
  {
    var u := Transfer(t, id, n, s);
    assert Group(u, master) == Group(t, master);
    if s in Group(t, master) {
      assert Master(t, s) == master;
      SubsetSize(Founded(u, master), Founded(t, master) + {id});
    } else {
      SubsetSize(Founded(u, master), Founded(t, master));
    }
  }

  /** Nobody is lifted over his limit: for every master nick the channels of its link group
      stay within the larger of its limit and what they were before. */
  lemma LimitsHold(t: Tables, n: nat, ids: seq<nat>, master: nat)
    requires n != 0 && Listing(t, n, ids)
    requires master != 0 && Master(t, master) == master
    ensures Count(RemoveNick(t, n, ids), master) <= Max(Count(t, master), Limit(t, master))
  {
    var k := FirstHeir(t, n, ids);
    HandOverIs(t, n, ids);
    var gone, u := Drop(t, AsSet(ids[..k])), HandOver(t, n, ids);
    FewerFounded(t, gone, master);
    if k < |ids| {
      assert ids[k] in Inherited(t, n);
      TransferKeepsLimit(gone, ids[k], n, t.channels[ids[k]].successor, master);
    }
    assert Limit(gone, master) == Limit(t, master);
    FewerFounded(u, RemoveNick(t, n, ids), master);
  }

  /** `max` is what the row of a master nick says, or 65535 if it says nothing. */
  predicate Allowed(t: Tables, master: nat, max: nat) {
    if master in t.nicks && t.nicks[master].channelmax > 0 then max == t.nicks[master].channelmax else max == 65535
  }

  /** The nick is the master itself or linked to it. */
  predicate BelongsTo(t: Tables, nick: nat, master: nat) {
    nick == master || (nick in t.nicks && t.nicks[nick].link == master)
  }

  /** The channels of everyone who belongs to the master. */
  function ChannelsOf(t: Tables, master: nat): set<nat> {
    set c | c in t.channels && BelongsTo(t, t.channels[c].founder, master)
  }

  /** The three answers of the limit check, for a nick whose master is `m`: the channels of the
      master and of every nick linked to it are below, at or above what its row allows. */
  lemma LimitCheckIs(t: Tables, nick: nat, m: nat, max: nat)
    requires if nick in t.nicks && t.nicks[nick].link != 0 then m == t.nicks[nick].link else m == nick
    requires Allowed(t, m, max)
    ensures CheckChanLimit(t, nick) == -1 <==> |ChannelsOf(t, m)| < max
    ensures CheckChanLimit(t, nick) == 0 <==> |ChannelsOf(t, m)| == max
    ensures CheckChanLimit(t, nick) == 1 <==> |ChannelsOf(t, m)| > max
  {
    assert Founded(t, m) == ChannelsOf(t, m);
  }

  /** The check is exact: a successor is refused a channel if and only if one more channel would
      bring him over his limit. Taking it over is one more unless he is linked to the founder, when
      the channel counts for him already. */
  lemma RefusedIffOver(t: Tables, id: nat, n: nat, s: nat)
    requires id in t.channels && t.channels[id].founder == n && t.channels[id].successor == s
    ensures var after := Count(Transfer(t, id, n, s), Master(t, s));
            && after == Count(t, Master(t, s)) + (if n in Group(t, Master(t, s)) then 0 else 1)
            && (n !in Group(t, Master(t, s)) ==> (Full(t, s) <==> after > Limit(t, Master(t, s))))
            && (n in Group(t, Master(t, s)) ==> (Full(t, s) <==> after >= Limit(t, Master(t, s))))
  {
    var u, m := Transfer(t, id, n, s), Master(t, s);
    assert Group(u, m) == Group(t, m);
    assert s in Group(t, m);
    if n in Group(t, m) {
      assert Founded(u, m) == Founded(t, m);
    } else {
      assert id !in Founded(t, m);
      assert Founded(u, m) == Founded(t, m) + {id};
    }
  }

  /** What becomes of the only channel of a nick that has a successor: it is his if he has room,
      and otherwise it is gone. */
  lemma OnlyChannel(t: Tables, n: nat, id: nat, s: nat, m: nat, max: nat)
    requires n != 0 && s != n && id in t.channels && t.channels[id].successor == s && Listing(t, n, [id])
    requires if s in t.nicks && t.nicks[s].link != 0 then m == t.nicks[s].link else m == s
    requires Allowed(t, m, max)
    ensures var u := RemoveNick(t, n, [id]);
            if |ChannelsOf(t, m)| < max
            then id in u.channels && u.channels[id] == t.channels[id].(founder := s, successor := 0)
            else Forgotten(u, id)
  {
    assert [id][0] in Inherited(t, n);
    EveryChannelSettled(t, n, [id], id);
    LimitCheckIs(t, s, m, max);
    assert FirstHeir(t, n, [id]) == (if Full(t, s) then 1 else 0) by {
      RestInherits(t, n, [id]);
      assert [id][1..] == [];
    }
    assert [id][1..] == [];
  }

  /** From `t` to `u` channels go, and of the other tables exactly the rows that belong to them. */
  ghost predicate OthersStay(t: Tables, u: Tables) {
    var gone := t.channels.Keys - u.channels.Keys;
    && u.channels.Keys <= t.channels.Keys
    && (forall c :: c in u.channels ==> u.channels[c].name == t.channels[c].name)
    && (forall r :: r in u.levels <==> r in t.levels && r.channel !in gone)
    && (forall r :: r in u.autojoins <==> r in t.autojoins && r.channel !in gone)
    && (forall c :: c in u.suspended <==> c in t.suspended && c !in gone)
    && (forall r :: r in u.memos <==> r in t.memos && forall c :: c in gone ==> t.channels[c].name != r.owner)
  }

  lemma SameOthers(t: Tables, u: Tables)
    requires u == t.(channels := u.channels, access := u.access, akick := u.akick)
    requires u.channels.Keys == t.channels.Keys
    requires forall c :: c in u.channels ==> u.channels[c].name == t.channels[c].name
    ensures OthersStay(t, u)
  {
  }

  lemma DropKeepsOthers(t: Tables, ids: set<nat>)
    requires ids <= t.channels.Keys
    ensures OthersStay(t, Drop(t, ids))
  {
    var u := Drop(t, ids);
    assert t.channels.Keys - u.channels.Keys == ids;
    forall r | r in t.memos
      ensures r.owner !in Names(t, ids) <==> forall c :: c in ids ==> t.channels[c].name != r.owner
    {
    }
  }

  lemma OthersStayTwice(t: Tables, u: Tables, v: Tables)
    requires OthersStay(t, u) && OthersStay(u, v)
    ensures OthersStay(t, v)
  {
    var a, b := t.channels.Keys - u.channels.Keys, u.channels.Keys - v.channels.Keys;
    assert t.channels.Keys - v.channels.Keys == a + b;
    forall r | r in t.memos
      ensures (forall c :: c in a + b ==> t.channels[c].name != r.owner)
              <==> (forall c :: c in a ==> t.channels[c].name != r.owner)
                   && (forall c :: c in b ==> u.channels[c].name != r.owner)
    {
      forall c | c in b ensures u.channels[c].name == t.channels[c].name {
      }
    }
  }

  lemma HandOverKeepsOthers(t: Tables, n: nat, ids: seq<nat>)
    requires Inheriting(t, n, ids)
    ensures OthersStay(t, HandOver(t, n, ids))
  {
    var k := FirstHeir(t, n, ids);
    HandOverIs(t, n, ids);
    forall i | 0 <= i < |ids| ensures ids[i] in t.channels {
      assert ids[i] in Inherited(t, n);
    }
    var gone, h := Drop(t, AsSet(ids[..k])), HandOver(t, n, ids);
    DropKeepsOthers(t, AsSet(ids[..k]));
    SameOthers(gone, h);
    OthersStayTwice(t, gone, h);
  }

  /** In the other tables the rows of the channels that are still there, and of no channel at all,
      stay. */
  lemma OtherRowsStay(t: Tables, n: nat, ids: seq<nat>)
    requires Inheriting(t, n, ids)
    ensures OthersStay(t, RemoveNick(t, n, ids))
  {
    var h := HandOver(t, n, ids);
    var last := Drop(h, Orphans(h, n));
    HandOverKeepsOthers(t, n, ids);
    DropKeepsOthers(h, Orphans(h, n));
    SameOthers(last, Forget(last, n));
    OthersStayTwice(t, h, last);
    OthersStayTwice(t, last, Forget(last, n));
  }

  // ----- the functions as they change the tables -----

  class Registry {
    var t: Tables

    constructor (t: Tables)
      ensures this.t == t
    {
      this.t := t;
    }

    /** `mysql_delchan`: one DELETE after the other. */
    method DelChan(id: nat)
      requires id in t.channels
      modifies this
      ensures t == Drop(old(t), {id})
      ensures Forgotten(t, id) && forall r :: r in t.memos ==> r.owner != old(t).channels[id].name
    {
      var name := t.channels[id].name;
      assert Names(t, {id}) == {name};
      t := t.(channels := t.channels - {id});
      t := t.(akick := (set r | r in t.akick && r.channel != id));
      t := t.(access := (set r | r in t.access && r.channel != id));
      t := t.(levels := (set r | r in t.levels && r.channel != id));
      t := t.(suspended := t.suspended - {id});
      t := t.(memos := (set r | r in t.memos && r.owner != name));
      t := t.(autojoins := (set r | r in t.autojoins && r.channel != id));
    }

    /** The UPDATE of a transfer; like every query it also reports how many rows it changed. */
    method TransferRow(id: nat, n: nat, s: nat) returns (rows: nat)
      modifies this
      ensures t == Transfer(old(t), id, n, s)
      ensures rows == if id in old(t).channels && old(t).channels[id].founder == n && old(t).channels[id].successor == s
                      then 1 else 0
    {
      rows := 0;
      if id in t.channels && t.channels[id].founder == n && t.channels[id].successor == s {
        rows := 1;
      }
      t := Transfer(t, id, n, s);
    }

    /** The rows of a SELECT, in some order. */
    static method Select(rows: set<nat>) returns (ids: seq<nat>)
      ensures Distinct(ids) && AsSet(ids) == rows
    {
      ids := [];
      var rest := rows;
      while rest != {}
        invariant Distinct(ids) && AsSet(ids) + rest == rows && AsSet(ids) !! rest
      {
        var c :| c in rest;
        assert AsSet(ids + [c]) == AsSet(ids) + {c};
        assert c !in AsSet(ids);
        ids, rest := ids + [c], rest - {c};
      }
    }

    /** `cs_mysql_remove_nick`; `order` is the order of the rows of its first query. */
    method CsRemoveNick(n: nat) returns (ghost order: seq<nat>)
      requires n != 0
      modifies this
      ensures Listing(old(t), n, order)
      ensures t == RemoveNick(old(t), n, order)
    {
      var ids := Select(Inherited(t, n));
      order := ids;
      HandOverChannels(n, ids);
      var orphans := Select(Orphans(t, n));
      forall i | 0 <= i < |orphans| ensures orphans[i] in t.channels {
        assert orphans[i] in AsSet(orphans);
      }
      DropAll(orphans);
      t := t.(access := (set r | r in t.access && r.nick != n));
      t := t.(akick := (set r | r in t.akick && r.nick != n));
      t := Forget(t, n);
    }

    /** The first loop. `rows` starts as the number of selected rows and is then what the last
        query made of it. */
    method HandOverChannels(n: nat, ids: seq<nat>)
      requires Inheriting(t, n, ids)
      modifies this
      ensures t == HandOver(old(t), n, ids)
    {
      var rows, i := |ids|, 0;
      while i < rows
        invariant 0 <= i && rows <= |ids|
        invariant i < rows ==> rows == |ids|
        invariant rows == |ids| && i <= |ids| ==>
                    Inheriting(t, n, ids[i..]) && HandOver(t, n, ids[i..]) == HandOver(old(t), n, ids)
        invariant i >= rows ==> t == HandOver(old(t), n, ids)
        decreases |ids| - i
      {
        var s := t.channels[ids[i]].successor;
        if CheckChanLimit(t, s) != -1 {
          DelChan(ids[i]);
        } else {
          rows := TransferRow(ids[i], n, s);
        }
        i := i + 1;
      }
    }

    method DropAll(ids: seq<nat>)
      requires Distinct(ids) && forall i :: 0 <= i < |ids| ==> ids[i] in t.channels
      modifies this
      ensures t == Drop(old(t), AsSet(ids))
    {
      var i := 0;
      assert AsSet(ids[..0]) == {} && Drop(t, {}) == t;
      while i < |ids|
        invariant 0 <= i <= |ids| && t == Drop(old(t), AsSet(ids[..i]))
        invariant forall j :: i <= j < |ids| ==> ids[j] in t.channels
      {
        DropTwice(old(t), AsSet(ids[..i]), {ids[i]});
        assert AsSet(ids[..i + 1]) == AsSet(ids[..i]) + {ids[i]};
        DelChan(ids[i]);
        i := i + 1;
      }
      assert ids[..i] == ids;
    }
  }
}

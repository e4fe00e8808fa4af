/** Linked nicks: LINK, UNLINK, dropping and forbidding keep links one level deep. */
module NickLinks {

  /** A row of the nick table with its access list; `link` is 0 for a master. */
  datatype Nick = Nick(link: nat, forbidden: bool, flags: int, channelmax: nat, language: nat, masks: seq<string>)

  type Table = map<nat, Nick>

  /** Every link points at a registered nick that is no link itself. */
  predicate OneLevel(t: Table) {
    && 0 !in t
    && forall n :: n in t && t[n].link != 0 ==> t[n].link in t && t[t[n].link].link == 0
  }

  /** `mysql_getlink`. */
  function GetLink(t: Table, n: nat): nat {
    if n in t && t[n].link != 0 then t[n].link else n
  }

  /** `nick_has_links`: how many nicks link to it. */
  function LinksTo(t: Table, n: nat): set<nat> {
    set x | x in t && t[x].link == n
  }

  /** One look-up is enough to reach the master. */
  lemma GetLinkIsIdempotent(t: Table, n: nat)
    requires OneLevel(t)
    ensures GetLink(t, GetLink(t, n)) == GetLink(t, n)
  {
  }

  datatype Reply = Linked | NotRegistered | NotIdentified | SameNick | Forbidden | HasLinks
                 | IsLink | BadPassword | PasswordFailed | TooManyChannels

  /** A LINK command: the registered nick the user sits on, the nick he counts as, the target,
      and the answers of the checks that look elsewhere (the password: 1 right, 0 wrong, -1
      unknown). */
  datatype LinkCmd = LinkCmd(realId: nat, nickId: nat, identified: bool, target: nat, password: int, room: bool)

  function LinkReply(t: Table, c: LinkCmd): Reply {
    if c.realId == 0 then NotRegistered
    else if !c.identified then NotIdentified
    else if c.target !in t then NotRegistered
    else if c.target == c.realId then SameNick
    else if t[c.target].forbidden then Forbidden
    else if LinksTo(t, c.nickId) != {} then HasLinks
    else if GetLink(t, c.target) != c.target then IsLink
    else if c.password == 0 then BadPassword
    else if c.password == -1 then PasswordFailed
    else if !c.room then TooManyChannels
    else Linked
  }

  function SetLink(t: Table, n: nat, target: nat): Table {
    if n in t then t[n := t[n].(link := target, masks := [])] else t
  }

  function AfterLink(t: Table, c: LinkCmd): Table {
    if LinkReply(t, c) == Linked then SetLink(t, c.realId, c.target) else t
  }

  /** `delink`: the nick becomes its own master and takes over the old master's flags, channel
      limit, language and, unless it is empty, access list. */
  function Delink(t: Table, n: nat): Table {
    if n !in t || t[n].link == 0 || t[n].link !in t then t
    else
      var m := t[t[n].link];
      t[n := t[n].(link := 0, flags := m.flags, channelmax := m.channelmax, language := m.language,
                   masks := if m.masks == [] then t[n].masks else m.masks)]
  }

  /** `mysql_delnick`: its links become masters and the row goes. */
  function DelNick(t: Table, n: nat): Table {
    map x | x in t && x != n :: if t[x].link == n then t[x].(link := 0) else t[x]
  }

  /** `insert_new_nick`: a new nick is a master. */
  function Insert(t: Table, n: nat, forbidden: bool): Table {
    t[n := Nick(0, forbidden, 0, 0, 0, [])]
  }

  /** A LINK is accepted if and only if an identified user sits on a registered nick, the target is
      another registered nick that is not forbidden and is a master, no nick links to the one he counts
      as, the password is right and the target has room for his channels. Then his nick links to the
      target and has no access list of its own; nothing else changes. */
  lemma LinkIff(t: Table, c: LinkCmd)
    requires c.password in {-1, 0, 1}
    ensures var accepted := && c.realId != 0 && c.identified && c.password == 1 && c.room
                            && c.target in t && c.target != c.realId && !t[c.target].forbidden
                            && t[c.target].link in {0, c.target} && (forall x :: x in t ==> t[x].link != c.nickId);
            && (LinkReply(t, c) == Linked <==> accepted)
            && AfterLink(t, c).Keys == t.Keys
            && forall x :: x in t ==>
                 AfterLink(t, c)[x] == if accepted && x == c.realId then t[x].(link := c.target, masks := []) else t[x]
  {
    assert LinksTo(t, c.nickId) == {} <==> forall x :: x in t ==> t[x].link != c.nickId by {
      if x :| x in t && t[x].link == c.nickId {
        assert x in LinksTo(t, c.nickId);
      }
    }
  }

  /** A nick that is dropped is gone; every other nick stays, and only its link to the dropped one,
      if it had that, is cleared. */
  lemma DelNickIs(t: Table, n: nat)
    ensures n !in DelNick(t, n)
    ensures forall x :: x != n ==> (x in DelNick(t, n) <==> x in t)
    ensures forall x :: x in t && x != n && t[x].link != n ==> DelNick(t, n)[x] == t[x]
    ensures forall x :: x in t && x != n && t[x].link == n ==> DelNick(t, n)[x] == t[x].(link := 0)
  {
  }

  /** An unlinked nick is a master again; nothing but its own row changes. */
  lemma DelinkIs(t: Table, n: nat)
    requires OneLevel(t)
    ensures Delink(t, n).Keys == t.Keys && forall x :: x in t && x != n ==> Delink(t, n)[x] == t[x]
    ensures n in t ==> Delink(t, n)[n].link == 0 && Delink(t, n)[n].forbidden == t[n].forbidden
  {
  }

  /** A new nick is a master without a list; a nick is forbidden by dropping it first. */
  lemma NewNickIs(t: Table, n: nat, id: nat)
    requires id !in t
    ensures Apply(t, Register(id)) == t[id := Nick(0, false, 0, 0, 0, [])]
    ensures Apply(t, Forbid(n, id)) == DelNick(t, n)[id := Nick(0, true, 0, 0, 0, [])]
  {
  }

  /** The nick the user counts as is up to date: the one he sits on or its master. */
  predicate Current(t: Table, c: LinkCmd) {
    c.nickId == c.realId || (c.realId in t && t[c.realId].link != 0 && c.nickId == t[c.realId].link)
  }

  /** An accepted LINK keeps links one level deep exactly when no nick links to the one that
      is being linked. */
  lemma LinkKeepsOneLevelIff(t: Table, c: LinkCmd)
    requires OneLevel(t) && LinkReply(t, c) == Linked && c.realId in t
    ensures OneLevel(AfterLink(t, c)) <==> LinksTo(t, c.realId) == {}
  {
    var u := AfterLink(t, c);
    if LinksTo(t, c.realId) != {} {
      var x :| x in LinksTo(t, c.realId);
      assert x != c.realId;
      assert u[x].link == c.realId && u[c.realId].link != 0;
    } else {
      assert forall x :: x in t ==> t[x].link != c.realId by {
        forall x | x in t ensures t[x].link != c.realId {
          assert x !in LinksTo(t, c.realId);
        }
      }
    }
  }

  /** That is so whenever the user's effective nick is up to date, although the check looks at
      that nick and not at the one that is linked. */
  lemma CurrentLinkIsSafe(t: Table, c: LinkCmd)
    requires OneLevel(t) && LinkReply(t, c) == Linked && Current(t, c)
    ensures LinksTo(t, c.realId) == {}
  {
    assert c.realId in t && t[c.realId].link == c.nickId ==> c.realId in LinksTo(t, c.nickId);
  }

  // ----- runs -----

  datatype Command = Link(c: LinkCmd) | Unlink(n: nat) | Drop(n: nat) | Forbid(n: nat, id: nat) | Register(id: nat)

  function Apply(t: Table, c: Command): Table {
    match c
    case Link(c) => AfterLink(t, c)
    case Unlink(n) => Delink(t, n)
    case Drop(n) => DelNick(t, n)
    case Forbid(n, id) => Insert(DelNick(t, n), id, true)
    case Register(id) => Insert(t, id, false)
  }

  /** New rows get a new number, and the user of a LINK is up to date. */
  predicate Allowed(t: Table, c: Command) {
    match c
    case Link(c) => Current(t, c)
    case Unlink(_) => true
    case Drop(_) => true
    case Forbid(_, id) => id != 0 && id !in t
    case Register(id) => id != 0 && id !in t
  }

  function Run(t: Table, cs: seq<Command>): Table
    decreases cs
  {
    if cs == [] then t else Run(Apply(t, cs[0]), cs[1..])
  }

  predicate AllAllowed(t: Table, cs: seq<Command>)
    decreases cs
  {
    cs == [] || (Allowed(t, cs[0]) && AllAllowed(Apply(t, cs[0]), cs[1..]))
  }

  lemma StepKeepsOneLevel(t: Table, c: Command)
    requires OneLevel(t) && Allowed(t, c)
    ensures OneLevel(Apply(t, c))
  {
    match c
    case Link(l) =>
      if LinkReply(t, l) == Linked && l.realId in t {
        CurrentLinkIsSafe(t, l);
        LinkKeepsOneLevelIff(t, l);
      }
    case Unlink(_) =>
    case Drop(_) =>
    case Forbid(n, id) =>
      var u := DelNick(t, n);
      assert OneLevel(u);
    case Register(_) =>
  }

  /** In every run of commands links stay one level deep, so a single look-up always finds the
      master. */
  lemma {:induction false} RunsKeepOneLevel(t: Table, cs: seq<Command>)
    requires OneLevel(t) && AllAllowed(t, cs)
    ensures OneLevel(Run(t, cs))
    ensures forall n :: GetLink(Run(t, cs), GetLink(Run(t, cs), n)) == GetLink(Run(t, cs), n)
    decreases cs
  {
    if cs != [] {
      StepKeepsOneLevel(t, cs[0]);
      RunsKeepOneLevel(Apply(t, cs[0]), cs[1..]);
    }
  }

  lemma {:induction false} RunConcat(t: Table, a: seq<Command>, b: seq<Command>)
    ensures Run(t, a + b) == Run(Run(t, a), b)
    ensures AllAllowed(t, a + b) <==> AllAllowed(t, a) && AllAllowed(Run(t, a), b)
    decreases a
  {
    if a == [] {
      assert a + b == b;
    } else {
      assert (a + b)[1..] == a[1..] + b;
      RunConcat(Apply(t, a[0]), a[1..], b);
    }
  }

  lemma RunOneMore(t: Table, a: seq<Command>, c: Command)
    ensures Run(t, a + [c]) == Apply(Run(t, a), c)
    ensures AllAllowed(t, a + [c]) <==> AllAllowed(t, a) && Allowed(Run(t, a), c)
  {
    RunConcat(t, a, [c]);
    assert [c][1..] == [];
  }

  const MASTER := Nick(0, false, 0, 0, 0, [])

  /** Nicks 1, 2, 3 and 9 are registered, and 1 is linked to 9: its user now counts as 9. */
  const BEFORE: seq<Command> := [Register(1), Register(2), Register(3), Register(9),
                                 Link(LinkCmd(1, 1, true, 9, 1, true))]

  /** Someone else unlinks 1, and 3 is linked to it. */
  const AFTER: seq<Command> := [Unlink(1), Link(LinkCmd(3, 3, true, 1, 1, true))]

  const FOUR: seq<Command> := [Register(1), Register(2), Register(3), Register(9)]

  lemma RunFour()
    ensures Run(map[], FOUR) == map[1 := MASTER, 2 := MASTER, 3 := MASTER, 9 := MASTER]
    ensures AllAllowed(map[], FOUR)
  {
    RunOneMore(map[], [], Register(1));
    RunOneMore(map[], [Register(1)], Register(2));
    RunOneMore(map[], [Register(1), Register(2)], Register(3));
    RunOneMore(map[], [Register(1), Register(2), Register(3)], Register(9));
    assert [] + [Register(1)] == [Register(1)];
    assert [Register(1)] + [Register(2)] == [Register(1), Register(2)];
    assert [Register(1), Register(2)] + [Register(3)] == [Register(1), Register(2), Register(3)];
    assert [Register(1), Register(2), Register(3)] + [Register(9)] == FOUR;
  }

  lemma RunBefore()
    ensures Run(map[], BEFORE) == map[1 := MASTER.(link := 9), 2 := MASTER, 3 := MASTER, 9 := MASTER]
    ensures AllAllowed(map[], BEFORE)
  {
    RunFour();
    var link := LinkCmd(1, 1, true, 9, 1, true);
    assert LinksTo(Run(map[], FOUR), 1) == {};
    RunOneMore(map[], FOUR, Link(link));
    assert FOUR + [Link(link)] == BEFORE;
  }

  /** The run so far keeps links one level deep. But the user of 1 still counts as 9, to which
      nothing links any more: his own LINK to 2 is accepted and makes 3 a link to a link. */
  lemma StaleNickBreaksOneLevel()
    ensures GetLink(Run(map[], BEFORE), 1) == 9
    ensures AllAllowed(map[], BEFORE + AFTER)
    ensures var t := Run(map[], BEFORE + AFTER);
            var stale := LinkCmd(1, 9, true, 2, 1, true);
            OneLevel(t) && LinkReply(t, stale) == Linked && !OneLevel(AfterLink(t, stale))
  {
    RunBefore();
    var t := map[1 := MASTER, 2 := MASTER, 3 := MASTER, 9 := MASTER];
    var link := LinkCmd(3, 3, true, 1, 1, true);
    RunConcat(map[], BEFORE, AFTER);
    RunOneMore(Run(map[], BEFORE), [Unlink(1)], Link(link));
    assert [Unlink(1)] + [Link(link)] == AFTER;
    RunOneMore(Run(map[], BEFORE), [], Unlink(1));
    assert [] + [Unlink(1)] == [Unlink(1)];
    assert Delink(Run(map[], BEFORE), 1) == t;
    assert LinksTo(t, 3) == {};
    var u := Run(map[], BEFORE + AFTER);
    assert u == t[3 := MASTER.(link := 1)];
    assert LinksTo(u, 9) == {};
    assert 3 in LinksTo(u, 1);
    LinkKeepsOneLevelIff(u, LinkCmd(1, 9, true, 2, 1, true));
  }

  /** Unlinking undoes a link up to what is taken over from the master. */
  lemma UnlinkUndoesLink(t: Table, c: LinkCmd)
    requires OneLevel(t) && LinkReply(t, c) == Linked && c.realId in t && t[c.realId].link == 0
    ensures var u := Delink(AfterLink(t, c), c.realId);
            var m := t[c.target];
            u == t[c.realId := t[c.realId].(flags := m.flags, channelmax := m.channelmax,
                                            language := m.language, masks := m.masks)]
  {
  }

  // ----- the commands as they change the table -----

  class NickTable {
    var nicks: Table

    ghost predicate Valid()
      reads this
    {
      OneLevel(nicks)
    }

    constructor ()
      ensures Valid() && nicks == map[]
    {
      nicks := map[];
    }

    method DoLink(c: LinkCmd) returns (r: Reply)
      requires Valid()
      modifies this
      ensures r == LinkReply(old(nicks), c) && nicks == AfterLink(old(nicks), c)
      ensures Current(old(nicks), c) ==> Valid()
    {
      ghost var t := nicks;
      if c.realId == 0 {
        r := NotRegistered;
      } else if !c.identified {
        r := NotIdentified;
      } else if c.target !in nicks {
        r := NotRegistered;
      } else if c.target == c.realId {
        r := SameNick;
      } else if nicks[c.target].forbidden {
        r := Forbidden;
      } else if LinksTo(nicks, c.nickId) != {} {
        r := HasLinks;
      } else if GetLink(nicks, c.target) != c.target {
        r := IsLink;
      } else if c.password == 0 {
        r := BadPassword;
      } else if c.password == -1 {
        r := PasswordFailed;
      } else if !c.room {
        r := TooManyChannels;
      } else {
        r := Linked;
        if c.realId in nicks {
          nicks := nicks[c.realId := nicks[c.realId].(link := c.target)];
          nicks := nicks[c.realId := nicks[c.realId].(masks := [])];
        }
      }
      if Current(t, c) {
        StepKeepsOneLevel(t, Link(c));
      }
    }

    /** `delink`, query by query. */
    method DoDelink(n: nat)
      requires Valid()
      modifies this
      ensures Valid() && nicks == Delink(old(nicks), n)
    {
      ghost var t := nicks;
      if n in nicks && nicks[n].link != 0 {
        var master := nicks[nicks[n].link];
        nicks := nicks[n := nicks[n].(link := 0)];
        nicks := nicks[n := nicks[n].(flags := master.flags, channelmax := master.channelmax,
                                      language := master.language)];
        if master.masks != [] {
          nicks := nicks[n := nicks[n].(masks := master.masks)];
        }
      }
      StepKeepsOneLevel(t, Unlink(n));
    }

    method DoDelNick(n: nat)
      requires Valid()
      modifies this
      ensures Valid() && nicks == DelNick(old(nicks), n)
    {
      ghost var t := nicks;
      nicks := map x | x in nicks :: if nicks[x].link == n then nicks[x].(link := 0) else nicks[x];
      nicks := nicks - {n};
      StepKeepsOneLevel(t, Drop(n));
    }
  }
}

/** Who is on a channel (src/channels.c): the user list and the op and voice lists inside it, as
    joins, departures and MODE commands change them. */
module ChannelMembers {
  import opened CText
  import opened SeqSets
  import opened ChannelModes
  import opened ModeReplay
  import opened Dlink
  import opened NodeLists
  import ChannelRecord

  /** A channel with its users, the last to join first. */
  datatype Room = Room(users: seq<string>, ch: Chan)

  predicate Within(part: seq<string>, users: seq<string>) {
    Distinct(part) && forall n :: n in part ==> n in users
  }

  /** Nobody is listed twice, and ops and voices are users. */
  predicate Sound(users: seq<string>, ch: Chan) {
    Distinct(users) && Within(ch.ops, users) && Within(ch.voices, users)
  }

  /** `chan_adduser`, when services would op or voice the user. */
  function Join(r: Room, nick: string, op: bool, voice: bool): Room {
    Room([nick] + r.users,
      r.ch.(ops := if op then [nick] + r.ch.ops else r.ch.ops,
            voices := if !op && voice then [nick] + r.ch.voices else r.ch.voices))
  }

  /** `chan_deluser`. */
  function Leave(r: Room, nick: string): Room {
    Room(RemoveNick(r.users, nick),
      r.ch.(ops := RemoveNick(r.ch.ops, nick), voices := RemoveNick(r.ch.voices, nick)))
  }

  lemma {:induction false} RemoveNickIs(s: seq<string>, nick: string)
    requires Distinct(s)
    ensures RemoveNick(s, nick) == Minus(s, {nick})
  {
    if s != [] {
      if s[0] == nick {
        MinusNothing(s[1..], {nick});
      } else {
        RemoveNickIs(s[1..], nick);
      }
    }
  }

  lemma Removed(s: seq<string>, nick: string)
    requires Distinct(s)
    ensures Distinct(RemoveNick(s, nick))
    ensures forall x :: x in RemoveNick(s, nick) <==> x in s && x != nick
  {
    RemoveNickIs(s, nick);
    MinusDistinct(s, {nick});
    forall x ensures x in RemoveNick(s, nick) <==> x in s && x != nick {
      MinusIn(s, {nick}, x);
    }
  }

  lemma Pushed(part: seq<string>, nick: string, users: seq<string>)
    requires Within(part, users)
    ensures Within([nick] + part, users) <==> nick !in part && nick in users
  {
    var now := [nick] + part;
    assert forall x :: x in now <==> x == nick || x in part;
    if nick in part {
      var i :| 0 <= i < |part| && part[i] == nick;
      assert now[0] == now[i + 1];
    } else {
      assert Distinct(now);
    }
  }

  /** After a join the user is on the channel, opped if he is to be, and otherwise with voice if
      he is to have it; everybody else, and all modes and bans, are as they were. */
  ghost predicate Joined(r: Room, j: Room, nick: string, op: bool, voice: bool) {
    && (forall x :: x in j.users <==> x in r.users || x == nick)
    && (forall x :: x in j.ch.ops <==> x in r.ch.ops || (x == nick && op))
    && (forall x :: x in j.ch.voices <==> x in r.ch.voices || (x == nick && voice && !op))
    && j.ch == r.ch.(ops := j.ch.ops, voices := j.ch.voices)
  }

  lemma JoinIs(r: Room, nick: string, op: bool, voice: bool)
    ensures Joined(r, Join(r, nick, op, voice), nick, op, voice)
  {
    var j := Join(r, nick, op, voice);
    assert j.users[0] == nick && j.users[1..] == r.users;
    assert op ==> j.ch.ops[0] == nick && j.ch.ops[1..] == r.ch.ops;
    assert !op && voice ==> j.ch.voices[0] == nick && j.ch.voices[1..] == r.ch.voices;
  }

  /** A join keeps the lists sound exactly if the user was not on the channel. */
  lemma JoinIsSoundIff(r: Room, nick: string, op: bool, voice: bool)
    requires Sound(r.users, r.ch)
    ensures var j := Join(r, nick, op, voice); Sound(j.users, j.ch) <==> nick !in r.users
  {
    var j := Join(r, nick, op, voice);
    if nick in r.users {
      var i :| 0 <= i < |r.users| && r.users[i] == nick;
      assert j.users[0] == j.users[i + 1];
    } else {
      assert Within(r.ch.ops, j.users) && Within(r.ch.voices, j.users);
      Pushed(r.ch.ops, nick, j.users);
      Pushed(r.ch.voices, nick, j.users);
    }
  }

  /** A departure takes the user, and nobody else, off all three lists; the lists of a channel
      whose last user left are all empty. */
  lemma LeaveIsSound(r: Room, nick: string)
    requires Sound(r.users, r.ch)
    ensures var l := Leave(r, nick);
            && Sound(l.users, l.ch)
            && (forall x :: x in l.users <==> x in r.users && x != nick)
            && (forall x :: x in l.ch.ops <==> x in r.ch.ops && x != nick)
            && (forall x :: x in l.ch.voices <==> x in r.ch.voices && x != nick)
            && l.ch == r.ch.(ops := l.ch.ops, voices := l.ch.voices)
            && (l.users == [] ==> l.ch.ops == [] && l.ch.voices == [])
  {
    Removed(r.users, nick);
    Removed(r.ch.ops, nick);
    Removed(r.ch.voices, nick);
    var l := Leave(r, nick);
    assert l.ch.ops != [] ==> l.ch.ops[0] in l.ch.ops;
    assert l.ch.voices != [] ==> l.ch.voices[0] in l.ch.voices;
  }

  /** The letter, if it is a +o or +v that takes effect, names a user of the channel. */
  predicate NamesUser(users: seq<string>, cur: Cursor, c: char, env: Env)
    requires Aligned(cur)
  {
    cur.add && cur.ac > 0 ==>
      var nick := Fold(cur.av[0]);
      && (c == 'o' && nick in env.online && nick in env.mayOp ==> nick in users)
      && (c == 'v' && nick in env.online ==> nick in users)
  }

  lemma StepIsSoundIff(users: seq<string>, cur: Cursor, c: char, env: Env)
    requires Aligned(cur) && Sound(users, cur.ch)
    ensures Sound(users, Step(cur, c, env).ch) <==> NamesUser(users, cur, c, env)
  {
    if cur.ac > 0 && (c == 'o' || c == 'v') {
      var nick := Fold(cur.av[0]);
      var part := if c == 'o' then cur.ch.ops else cur.ch.voices;
      if cur.add {
        Pushed(part, nick, users);
      } else {
        Removed(part, nick);
      }
    }
  }

  predicate AllNameUsers(users: seq<string>, cur: Cursor, s: string, env: Env)
    requires Aligned(cur)
    decreases s
  {
    s != [] ==> NamesUser(users, cur, s[0], env) && AllNameUsers(users, Step(cur, s[0], env), s[1..], env)
  }

  lemma {:induction false} RunIsSound(users: seq<string>, cur: Cursor, s: string, env: Env)
    requires Aligned(cur) && Sound(users, cur.ch) && AllNameUsers(users, cur, s, env)
    ensures Sound(users, Run(cur, s, env).ch)
    decreases s
  {
    if s != [] {
      StepIsSoundIff(users, cur, s[0], env);
      RunIsSound(users, Step(cur, s[0], env), s[1..], env);
    }
  }

  // ----- runs -----

  datatype Event =
    | Joins(nick: string, op: bool, voice: bool)
    | Leaves(nick: string)
    | Mode(cmd: Cmd, lock: Lock, env: Env)

  function Next(r: Room, e: Event): Room {
    match e
    case Joins(nick, op, voice) => Join(r, nick, op, voice)
    case Leaves(nick) => Leave(r, nick)
    case Mode(cmd, lock, env) => r.(ch := DoCmode(r.ch, cmd, lock, env).ch)
  }

  /** Joins name users who are not there, +o and +v users who are. */
  predicate Fitting(r: Room, e: Event) {
    match e
    case Joins(nick, _, _) => nick !in r.users
    case Leaves(_) => true
    case Mode(cmd, lock, env) =>
      && WellFormed(lock)
      && AllNameUsers(r.users, Cursor(r.ch, true, |cmd.params|, cmd.params), cmd.modes, env)
  }

  predicate AllFitting(r: Room, es: seq<Event>)
    decreases es
  {
    es != [] ==> Fitting(r, es[0]) && AllFitting(Next(r, es[0]), es[1..])
  }

  function Play(r: Room, es: seq<Event>): Room
    decreases es
  {
    if es == [] then r else Play(Next(r, es[0]), es[1..])
  }

  lemma NextIsSound(r: Room, e: Event)
    requires Sound(r.users, r.ch) && Fitting(r, e)
    ensures Sound(Next(r, e).users, Next(r, e).ch)
  {
    match e
    case Joins(nick, op, voice) => JoinIsSoundIff(r, nick, op, voice);
    case Leaves(nick) => LeaveIsSound(r, nick);
    case Mode(cmd, lock, env) =>
      RunIsSound(r.users, Cursor(r.ch, true, |cmd.params|, cmd.params), cmd.modes, env);
      CheckModesRepairs(Read(r.ch, cmd, env), lock, env);
  }

  /** In every run of joins, departures and MODE commands the lists stay sound, and a channel
      nobody is on has neither ops nor voices. */
  lemma {:induction false} RunsAreSound(r: Room, es: seq<Event>)
    requires Sound(r.users, r.ch) && AllFitting(r, es)
    ensures var end := Play(r, es);
            Sound(end.users, end.ch) && (end.users == [] ==> end.ch.ops == [] && end.ch.voices == [])
    decreases es
  {
    if es == [] {
      assert r.ch.ops != [] ==> r.ch.ops[0] in r.ch.ops;
      assert r.ch.voices != [] ==> r.ch.voices[0] in r.ch.voices;
    } else {
      NextIsSound(r, es[0]);
      RunsAreSound(Next(r, es[0]), es[1..]);
    }
  }

  // ----- the lists themselves -----

  /** The walk to the first node of a user. */
  method FindUser(list: NodeList<string>, nick: string) returns (u: DlinkNode?<string>, ghost k: nat)
    requires list.Valid()
    ensures k <= |list.nodes| && u == At(list.nodes, k) && nick !in list.elements[..k]
    ensures u != null ==> list.elements[k] == nick
    ensures u == null <==> nick !in list.elements
  {
    u, k := list.head, 0;
    while u != null && u.data != nick
      invariant 0 <= k <= |list.nodes| && u == At(list.nodes, k) && nick !in list.elements[..k]
      decreases |list.nodes| - k
    {
      u, k := u.next, k + 1;
    }
  }

  /** Unlinks the first node of a user, if there is one. */
  method RemoveUser(list: NodeList<string>, nick: string)
    requires list.Valid()
    modifies list.Repr
    ensures list.Valid() && list.elements == RemoveNick(old(list.elements), nick) && list.Repr == old(list.Repr)
  {
    ghost var k;
    var u;
    u, k := FindUser(list, nick);
    ChannelRecord.RemoveNickAt(list.elements, nick, k);
    if u != null {
      list.Unlink(u, k);
    }
  }

  /** The three lists of a channel. */
  class MemberLists {
    const users: NodeList<string>
    const ops: NodeList<string>
    const voices: NodeList<string>

    ghost predicate Valid()
      reads this, users, ops, voices, users.Repr, ops.Repr, voices.Repr
    {
      && users.Valid() && ops.Valid() && voices.Valid()
      && users.Repr !! ops.Repr !! voices.Repr
    }

    /** The channel `ch` with these lists. */
    ghost function Value(ch: Chan): Room
      reads this, users, ops, voices
    {
      Room(users.elements, ch.(ops := ops.elements, voices := voices.elements))
    }

    constructor ()
      ensures Valid() && users.elements == [] && ops.elements == [] && voices.elements == []
    {
      users := new NodeList<string>();
      ops := new NodeList<string>();
      voices := new NodeList<string>();
    }

    /** The part of `chan_adduser` that lists the user. */
    method AddUser(nick: string, op: bool, voice: bool)
      requires Valid()
      modifies users.Repr, ops.Repr, voices.Repr
      ensures Valid()
      ensures forall ch :: Value(ch) == Join(old(Value(ch)), nick, op, voice)
      ensures forall ch :: Joined(old(Value(ch)), Value(ch), nick, op, voice)
    {
      if op {
        ops.Push(nick);
      } else if voice {
        voices.Push(nick);
      }
      users.Push(nick);
      forall ch ensures Joined(old(Value(ch)), Value(ch), nick, op, voice) {
        JoinIs(old(Value(ch)), nick, op, voice);
      }
    }

    /** The part of `chan_deluser` that takes the user off the lists; the answer is whether
        the channel is to be deleted. */
    method DelUser(nick: string) returns (last: bool)
      requires Valid()
      modifies users.Repr, ops.Repr, voices.Repr
      ensures Valid()
      ensures forall ch :: Value(ch) == Leave(old(Value(ch)), nick)
      ensures last <==> users.elements == []
    {
      RemoveUser(users, nick);
      RemoveUser(ops, nick);
      RemoveUser(voices, nick);
      last := users.head == null;
    }

    /** +o, -o, +v and -v of `do_cmode` on the lists. */
    method ChangeStatus(c: char, add: bool, nick: string, env: Env)
      requires Valid() && (c == 'o' || c == 'v')
      modifies ops.Repr, voices.Repr
      ensures Valid() && users.elements == old(users.elements)
      ensures if c == 'o' then
                && ops.elements
                   == (if add then AddOp(old(ops.elements), nick, env) else RemoveNick(old(ops.elements), nick))
                && voices.elements == old(voices.elements)
              else
                && voices.elements
                   == (if add then AddVoice(old(voices.elements), nick, env)
                       else RemoveNick(old(voices.elements), nick))
                && ops.elements == old(ops.elements)
    {
      var list := if c == 'o' then ops else voices;
      if add {
        var u, k := FindUser(list, nick);
        if u == null && nick in env.online && (c == 'v' || nick in env.mayOp) {
          list.Push(nick);
        }
      } else {
        RemoveUser(list, nick);
      }
    }
  }
}

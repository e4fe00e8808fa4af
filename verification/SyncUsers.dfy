/** The operator and voice half of SYNC (`do_sync`): the users with the status are taken off and put
    back in batches, the others are taken off. The loop counts a user before it sends the batch that
    is full and sets the count to 0 with him already in the next one. */
module SyncUsers {
  import opened CText
  import opened SeqSets
  import opened ChannelModes
  import opened ModeReplay
  import opened ModeLetters
  import ChannelMembers
  import ModeSync

  // ----- how the users are cut -----

  /** The user does not go into the batch. */
  predicate Cuts(batch: seq<string>, count: nat, nick: string) {
    count + 1 == 6 || ModeSync.TextLen(batch) + |nick| + 1 > 256
  }

  /** The batches that are sent for users of one kind, `batch` being the one that is open. */
  function UserCut(nicks: seq<string>, batch: seq<string>, count: nat): seq<seq<string>>
    decreases nicks
  {
    if nicks == [] then (if count > 0 then [batch] else [])
    else if Cuts(batch, count, nicks[0]) then [batch] + UserCut(nicks[1..], [nicks[0]], 0)
    else UserCut(nicks[1..], batch + [nicks[0]], count + 1)
  }

  /** The count is 0 at the end: the last user, if there is one, is in a batch nobody sends. */
  predicate LastIsLost(nicks: seq<string>, batch: seq<string>, count: nat)
    decreases nicks
  {
    if nicks == [] then count == 0
    else if Cuts(batch, count, nicks[0]) then LastIsLost(nicks[1..], [nicks[0]], 0)
    else LastIsLost(nicks[1..], batch + [nicks[0]], count + 1)
  }

  function ButLast(nicks: seq<string>): seq<string> {
    if nicks == [] then [] else nicks[..|nicks| - 1]
  }

  lemma {:induction false} UserCutIs(nicks: seq<string>, batch: seq<string>, count: nat)
    requires count == 0 ==> |batch| <= 1
    ensures ModeSync.Flatten(UserCut(nicks, batch, count))
            == if LastIsLost(nicks, batch, count) then ButLast(batch + nicks) else batch + nicks
    decreases nicks
  {
    if nicks == [] {
      assert ModeSync.Flatten([batch]) == batch + ModeSync.Flatten([batch][1..]);
      assert batch + nicks == batch;
    } else if Cuts(batch, count, nicks[0]) {
      var rest := UserCut(nicks[1..], [nicks[0]], 0);
      UserCutIs(nicks[1..], [nicks[0]], 0);
      assert ([batch] + rest)[1..] == rest;
      assert [nicks[0]] + nicks[1..] == nicks;
      assert batch + ButLast(nicks) == ButLast(batch + nicks);
    } else {
      UserCutIs(nicks[1..], batch + [nicks[0]], count + 1);
      assert (batch + [nicks[0]]) + nicks[1..] == batch + nicks;
    }
  }

  /** Nicks have less than 32 characters. */
  predicate Short(nicks: seq<string>) {
    forall i :: 0 <= i < |nicks| ==> |nicks[i]| < 32
  }

  lemma {:induction false} ShortText(batch: seq<string>)
    requires Short(batch)
    ensures ModeSync.TextLen(batch) <= 32 * |batch|
  {
    if batch != [] {
      ShortText(batch[..|batch| - 1]);
    }
  }

  /** So the text never decides, and every sixth user is put into a new batch. */
  lemma {:induction false} LostBySix(nicks: seq<string>, batch: seq<string>, count: nat)
    requires Short(nicks) && Short(batch) && count < 6 && |batch| <= count + 1
    ensures LastIsLost(nicks, batch, count) <==> (count + |nicks|) % 6 == 0
    decreases nicks
  {
    if nicks != [] {
      ShortText(batch);
      if count == 5 {
        LostBySix(nicks[1..], [nicks[0]], 0);
      } else {
        LostBySix(nicks[1..], batch + [nicks[0]], count + 1);
      }
    }
  }

  lemma CutFromStart(nicks: seq<string>)
    ensures var sent := ModeSync.Flatten(UserCut(nicks, [], 0));
            sent == if LastIsLost(nicks, [], 0) then ButLast(nicks) else nicks
  {
    UserCutIs(nicks, [], 0);
    assert [] + nicks == nicks;
  }

  lemma SameIffKept(nicks: seq<string>, sent: seq<string>, lost: bool)
    requires sent == if lost then ButLast(nicks) else nicks
    ensures sent == nicks <==> nicks == [] || !lost
  {
    assert nicks != [] ==> |ButLast(nicks)| < |nicks|;
  }

  /** Every user is in one batch, in order, if and only if their number is no multiple of six; if it
      is one, exactly the last user is in none. */
  lemma UserCutLosesIff(nicks: seq<string>)
    requires Short(nicks)
    ensures var sent := ModeSync.Flatten(UserCut(nicks, [], 0));
            && sent == (if |nicks| % 6 == 0 then ButLast(nicks) else nicks)
            && (sent == nicks <==> nicks == [] || |nicks| % 6 != 0)
  {
    CutFromStart(nicks);
    LostBySix(nicks, [], 0);
    SameIffKept(nicks, ModeSync.Flatten(UserCut(nicks, [], 0)), |nicks| % 6 == 0);
  }

  // ----- what the commands do -----

  /** Those with the status of letter `c`. */
  function Part(ch: Chan, c: char): seq<string> { if c == 'o' then ch.ops else ch.voices }

  ghost predicate OnlyPart(was: Chan, now: Chan, c: char) {
    now == if c == 'o' then was.(ops := now.ops) else was.(voices := now.voices)
  }

  predicate MayHave(c: char, nick: string, env: Env) {
    nick in env.online && (c == 'o' ==> nick in env.mayOp)
  }

  /** Nicks as the program compares them, which may all have the status if they are to get it. */
  predicate Fit(nicks: seq<string>, c: char, add: bool, env: Env) {
    forall i :: 0 <= i < |nicks| ==> Fold(nicks[i]) == nicks[i] && (add ==> MayHave(c, nicks[i], env))
  }

  /** From `was` to `now` the users of a list get the status or lose it, and nothing else changes. */
  ghost predicate Turned(was: Chan, now: Chan, c: char, add: bool, nicks: seq<string>) {
    && OnlyPart(was, now, c) && Distinct(Part(now, c))
    && forall x :: x in Part(now, c) <==> if x in nicks then add else x in Part(was, c)
  }

  lemma StepUser(cur: Cursor, c: char, env: Env)
    requires c in ['o', 'v'] && 0 < cur.ac <= |cur.av| && Distinct(Part(cur.ch, c))
    requires Fit([cur.av[0]], c, cur.add, env)
    ensures var next := Step(cur, c, env);
            TakesOne(cur, next) && Turned(cur.ch, next.ch, c, cur.add, [cur.av[0]])
  {
    var nick := cur.av[0];
    assert [nick][0] == nick;
    if cur.add {
      if c == 'o' { OpGained(cur, env); } else { VoiceGained(cur, env); }
    } else {
      if c == 'o' { OpLost(cur, env); } else { VoiceLost(cur, env); }
      ChannelMembers.Removed(Part(cur.ch, c), nick);
    }
  }

  function Row(c: char, n: nat): string { if n == 0 then [] else [c] + Row(c, n - 1) }

  lemma {:induction false} RunUsers(cur: Cursor, c: char, n: nat, env: Env)
    requires c in ['o', 'v'] && n <= cur.ac <= |cur.av| && Distinct(Part(cur.ch, c))
    requires Fit(cur.av[..n], c, cur.add, env)
    ensures Turned(cur.ch, Run(cur, Row(c, n), env).ch, c, cur.add, cur.av[..n])
    decreases n
  {
    if n > 0 {
      var next := Step(cur, c, env);
      assert cur.av[..n][0] == cur.av[0];
      StepUser(cur, c, env);
      assert cur.av[..n] == [cur.av[0]] + next.av[..n - 1];
      assert next.av[..n - 1] == cur.av[..n][1..];
      assert Row(c, n)[1..] == Row(c, n - 1);
      RunUsers(next, c, n - 1, env);
    }
  }

  lemma ReadUsers(ch: Chan, c: char, add: bool, batch: seq<string>, env: Env)
    requires c in ['o', 'v'] && Distinct(Part(ch, c)) && Fit(batch, c, add, env)
    ensures var cmd := Cmd([if add then '+' else '-'] + Row(c, |batch|), batch);
            Turned(ch, Read(ch, cmd, env), c, add, batch)
  {
    assert batch[..|batch|] == batch;
    ModeSync.RunSigned(Cursor(ch, true, |batch|, batch), if add then '+' else '-', Row(c, |batch|), env);
    RunUsers(Cursor(ch, add, |batch|, batch), c, |batch|, env);
  }

  /** The commands for a batch: off, and on again for those who have the status. */
  function UserCmds(c: char, back: bool, batch: seq<string>): seq<Cmd> {
    [Cmd(['-'] + Row(c, |batch|), batch)] + if back then [Cmd(['+'] + Row(c, |batch|), batch)] else []
  }

  function AllUserCmds(c: char, back: bool, batches: seq<seq<string>>): seq<Cmd> {
    if batches == [] then [] else UserCmds(c, back, batches[0]) + AllUserCmds(c, back, batches[1..])
  }

  lemma ReadUserCmds(ch: Chan, c: char, back: bool, batch: seq<string>, env: Env)
    requires c in ['o', 'v'] && Distinct(Part(ch, c)) && Fit(batch, c, back, env)
    ensures Turned(ch, ReadAll(ch, UserCmds(c, back, batch), env), c, back, batch)
  {
    var off := Cmd(['-'] + Row(c, |batch|), batch);
    var out := Read(ch, off, env);
    ReadUsers(ch, c, false, batch, env);
    if back {
      ReadUsers(out, c, true, batch, env);
      ModeSync.ReadTwo(ch, off, Cmd(['+'] + Row(c, |batch|), batch), env);
      assert UserCmds(c, back, batch) == [off, Cmd(['+'] + Row(c, |batch|), batch)];
    } else {
      assert UserCmds(c, back, batch) == [off] && [off][1..] == [];
    }
  }

  lemma {:induction false} ReadUserBatches(ch: Chan, c: char, back: bool, batches: seq<seq<string>>, env: Env)
    requires c in ['o', 'v'] && Distinct(Part(ch, c)) && Fit(ModeSync.Flatten(batches), c, back, env)
    ensures Turned(ch, ReadAll(ch, AllUserCmds(c, back, batches), env), c, back, ModeSync.Flatten(batches))
    decreases batches
  {
    if batches != [] {
      var b, rest, all := batches[0], ModeSync.Flatten(batches[1..]), ModeSync.Flatten(batches);
      assert forall i :: 0 <= i < |b| ==> b[i] == all[i];
      assert forall i :: 0 <= i < |rest| ==> rest[i] == all[|b| + i];
      ReadAllConcat(ch, UserCmds(c, back, b), AllUserCmds(c, back, batches[1..]), env);
      ReadUserCmds(ch, c, back, b, env);
      ReadUserBatches(ReadAll(ch, UserCmds(c, back, b), env), c, back, batches[1..], env);
    }
  }

  /** Whom SYNC brings in step: whatever a reader takes for the ops (or the voices), the users of the
      list have the status afterwards exactly as they should, except that the last of a multiple of
      six is left as the reader had him. */
  lemma SyncUsersReach(base: Chan, c: char, back: bool, nicks: seq<string>, env: Env, i: nat)
    requires c in ['o', 'v'] && Distinct(Part(base, c)) && Fit(nicks, c, back, env)
    requires Distinct(nicks) && Short(nicks) && i < |nicks|
    ensures var after := ReadAll(base, AllUserCmds(c, back, UserCut(nicks, [], 0)), env);
            && OnlyPart(base, after, c)
            && (nicks[i] in Part(after, c) <==>
                  if i == |nicks| - 1 && |nicks| % 6 == 0 then nicks[i] in Part(base, c) else back)
            && forall x :: x !in nicks ==> (x in Part(after, c) <==> x in Part(base, c))
  {
    var sent := ModeSync.Flatten(UserCut(nicks, [], 0));
    UserCutLosesIff(nicks);
    assert forall k :: 0 <= k < |sent| ==> sent[k] == nicks[k];
    ReadUserBatches(base, c, back, UserCut(nicks, [], 0), env);
    if i < |sent| {
      assert sent[i] == nicks[i];
    } else {
      assert nicks[i] !in sent;
    }
  }

  // ----- the loop -----

  /** The users who are in the list, or those who are not. */
  function Those(users: seq<string>, list: seq<string>, listed: bool): seq<string> {
    if users == [] then []
    else
      var rest := Those(users[1..], list, listed);
      if (users[0] in list) == listed then [users[0]] + rest else rest
  }

  /** What is open of the users of one kind. */
  datatype Open = Open(batch: seq<string>, count: nat, sent: seq<seq<string>>)

  /** All that will have been sent when there are `rest` more of them. */
  function Sent(open: Open, rest: seq<string>): seq<seq<string>> {
    open.sent + UserCut(rest, open.batch, open.count)
  }

  /** One user is taken up: the count goes up first, and a batch that is full is sent. */
  method TakeUp(open: Open, nick: string) returns (next: Open)
    ensures forall rest :: Sent(next, rest) == Sent(open, [nick] + rest)
  {
    var batch, count, sent := open.batch, open.count + 1, open.sent;
    if count == 6 || ModeSync.TextLen(batch) + |nick| + 1 > 256 {
      count, sent, batch := 0, sent + [batch], [];
    }
    next := Open(batch + [nick], count, sent);
    forall rest ensures Sent(next, rest) == Sent(open, [nick] + rest) {
      assert ([nick] + rest)[1..] == rest;
      assert [] + [nick] == [nick];
    }
  }

  method SendLeft(open: Open) returns (sent: seq<seq<string>>)
    ensures sent == Sent(open, [])
  {
    sent := open.sent + if open.count > 0 then [open.batch] else [];
  }

  /** The walk over the users for one status: the batches of those who have it and of those who do
      not. */
  method CutUsers(users: seq<string>, list: seq<string>) returns (back: seq<seq<string>>, off: seq<seq<string>>)
    ensures back == UserCut(Those(users, list, true), [], 0)
    ensures off == UserCut(Those(users, list, false), [], 0)
  {
    var have, others := Open([], 0, []), Open([], 0, []);
    var i := 0;
    assert users[0..] == users;
    while i < |users|
      invariant 0 <= i <= |users|
      invariant Sent(have, Those(users[i..], list, true)) == UserCut(Those(users, list, true), [], 0)
      invariant Sent(others, Those(users[i..], list, false)) == UserCut(Those(users, list, false), [], 0)
    {
      assert users[i..][1..] == users[i + 1..];
      if users[i] in list {
        have := TakeUp(have, users[i]);
      } else {
        others := TakeUp(others, users[i]);
      }
      i := i + 1;
    }
    back := SendLeft(have);
    off := SendLeft(others);
  }
}

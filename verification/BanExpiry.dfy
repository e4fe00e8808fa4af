/** Bans that expire (the ban half of `chan_update_events`): the old ones are picked out by
    time but removed by mask, one MODE command each. */
module BanExpiry {
  import opened CText
  import opened ChannelModes
  import opened ModeReplay
  import opened ChannelRecord

  /** Bans set before this time go; the product is a 32-bit one. */
  function Threshold(now: int, bantime: uint32): int {
    now - (bantime * 60) % UINT32_RANGE
  }

  /** The masks of the bans older than the threshold, in array order. */
  function OldMasks(bans: seq<Ban>, threshold: int): seq<string> {
    if bans == [] then []
    else (if bans[0].time < threshold then [bans[0].mask] else []) + OldMasks(bans[1..], threshold)
  }

  /** The bans that are not older than the threshold, in array order. */
  function Recent(bans: seq<Ban>, threshold: int): seq<Ban> {
    if bans == [] then []
    else (if bans[0].time < threshold then [] else [bans[0]]) + Recent(bans[1..], threshold)
  }

  function RemoveMasks(bans: seq<Ban>, masks: seq<string>): seq<Ban>
    decreases masks
  {
    if masks == [] then bans else RemoveMasks(RemoveBan(bans, masks[0]), masks[1..])
  }

  predicate Ordered(bans: seq<Ban>) {
    forall i, j :: 0 <= i < j < |bans| ==> bans[i].time <= bans[j].time
  }

  predicate NoneAfter(bans: seq<Ban>, now: int) {
    forall i :: 0 <= i < |bans| ==> bans[i].time <= now
  }

  /** A recent ban stands before an old one with the same mask. */
  predicate Shadowed(bans: seq<Ban>, threshold: int) {
    exists i, j :: 0 <= i < j < |bans| && bans[i].mask == bans[j].mask
                   && bans[j].time < threshold <= bans[i].time
  }

  lemma {:induction false} RemoveMasksKeepsHead(head: Ban, bans: seq<Ban>, masks: seq<string>)
    requires head.mask !in masks
    ensures RemoveMasks([head] + bans, masks) == [head] + RemoveMasks(bans, masks)
    decreases masks
  {
    if masks != [] {
      assert ([head] + bans)[1..] == bans;
      assert RemoveBan([head] + bans, masks[0]) == [head] + RemoveBan(bans, masks[0]);
      RemoveMasksKeepsHead(head, RemoveBan(bans, masks[0]), masks[1..]);
    }
  }

  lemma {:induction false} OldMaskIsOld(bans: seq<Ban>, threshold: int, mask: string)
    ensures mask in OldMasks(bans, threshold)
            <==> exists j :: 0 <= j < |bans| && bans[j].mask == mask && bans[j].time < threshold
  {
    if bans != [] {
      OldMaskIsOld(bans[1..], threshold, mask);
      if mask in OldMasks(bans[1..], threshold) {
        var j :| 0 <= j < |bans[1..]| && bans[1..][j].mask == mask && bans[1..][j].time < threshold;
        assert bans[j + 1].mask == mask && bans[j + 1].time < threshold;
      }
      if j :| 0 <= j < |bans| && bans[j].mask == mask && bans[j].time < threshold {
        if j > 0 {
          assert bans[1..][j - 1].mask == mask && bans[1..][j - 1].time < threshold;
        }
      }
    }
  }

  // ----- how many old bans of one mask are left -----

  function CountOld(bans: seq<Ban>, threshold: int, mask: string): nat {
    if bans == [] then 0
    else (if bans[0].mask == mask && bans[0].time < threshold then 1 else 0) + CountOld(bans[1..], threshold, mask)
  }

  function CountMask(masks: seq<string>, mask: string): nat {
    if masks == [] then 0 else (if masks[0] == mask then 1 else 0) + CountMask(masks[1..], mask)
  }

  lemma {:induction false} CountsAgree(bans: seq<Ban>, threshold: int, mask: string)
    ensures CountMask(OldMasks(bans, threshold), mask) == CountOld(bans, threshold, mask)
  {
    if bans != [] {
      CountsAgree(bans[1..], threshold, mask);
      var rest := OldMasks(bans[1..], threshold);
      assert ([bans[0].mask] + rest)[1..] == rest && [] + rest == rest;
    }
  }

  lemma {:induction false} RemoveBanCount(bans: seq<Ban>, threshold: int, gone: string, mask: string)
    ensures CountOld(RemoveBan(bans, gone), threshold, mask)
            >= CountOld(bans, threshold, mask) - if gone == mask then 1 else 0
  {
    if bans != [] && bans[0].mask != gone {
      RemoveBanCount(bans[1..], threshold, gone, mask);
      var rest := RemoveBan(bans[1..], gone);
      assert ([bans[0]] + rest)[1..] == rest;
    }
  }

  lemma {:induction false} RemoveMasksCount(bans: seq<Ban>, threshold: int, masks: seq<string>, mask: string)
    ensures CountOld(RemoveMasks(bans, masks), threshold, mask)
            >= CountOld(bans, threshold, mask) - CountMask(masks, mask)
    decreases masks
  {
    if masks != [] {
      RemoveBanCount(bans, threshold, masks[0], mask);
      RemoveMasksCount(RemoveBan(bans, masks[0]), threshold, masks[1..], mask);
    }
  }

  /** When a recent ban is first with its mask, it takes the place of an old one. */
  lemma {:induction false} RecentTakenForOld(bans: seq<Ban>, threshold: int, masks: seq<string>)
    requires bans != [] && bans[0].time >= threshold && bans[0].mask in masks
    ensures CountOld(RemoveMasks(bans, masks), threshold, bans[0].mask)
            > CountOld(bans, threshold, bans[0].mask) - CountMask(masks, bans[0].mask)
    decreases masks
  {
    var m := bans[0].mask;
    if masks[0] == m {
      RemoveMasksCount(bans[1..], threshold, masks[1..], m);
    } else {
      var next := RemoveBan(bans, masks[0]);
      RemoveBanCount(bans, threshold, masks[0], m);
      RecentTakenForOld(next, threshold, masks[1..]);
    }
  }

  lemma {:induction false} RecentHasNoOld(bans: seq<Ban>, threshold: int, mask: string)
    ensures CountOld(Recent(bans, threshold), threshold, mask) == 0
  {
    if bans != [] {
      RecentHasNoOld(bans[1..], threshold, mask);
      var rest := Recent(bans[1..], threshold);
      assert ([bans[0]] + rest)[1..] == rest && [] + rest == rest;
    }
  }

  lemma ShadowedTail(bans: seq<Ban>, threshold: int)
    requires bans != []
    requires bans[0].time < threshold || bans[0].mask !in OldMasks(bans[1..], threshold)
    ensures Shadowed(bans, threshold) <==> Shadowed(bans[1..], threshold)
  {
    if Shadowed(bans, threshold) {
      var i, j :| 0 <= i < j < |bans| && bans[i].mask == bans[j].mask
                  && bans[j].time < threshold <= bans[i].time;
      assert bans[1..][j - 1] == bans[j];
      if i == 0 {
        OldMaskIsOld(bans[1..], threshold, bans[0].mask);
      } else {
        assert bans[1..][i - 1] == bans[i];
      }
    }
    if Shadowed(bans[1..], threshold) {
      var i, j :| 0 <= i < j < |bans[1..]| && bans[1..][i].mask == bans[1..][j].mask
                  && bans[1..][j].time < threshold <= bans[1..][i].time;
      assert bans[i + 1].mask == bans[j + 1].mask;
    }
  }

  /** Removing by mask leaves exactly the recent bans, in order, if and only if no recent
      ban stands before an old one with the same mask. Repeated masks alone do no harm. */
  lemma {:induction false} ExpiryExact(bans: seq<Ban>, threshold: int)
    ensures RemoveMasks(bans, OldMasks(bans, threshold)) == Recent(bans, threshold)
            <==> !Shadowed(bans, threshold)
  {
    if bans == [] {
    } else if bans[0].time >= threshold && bans[0].mask in OldMasks(bans[1..], threshold) {
      ShadowLeavesOld(bans, threshold);
    } else {
      ExpiryExact(bans[1..], threshold);
      ShadowedTail(bans, threshold);
      HeadIsSettled(bans, threshold);
    }
  }

  lemma HeadIsSettled(bans: seq<Ban>, threshold: int)
    requires bans != []
    requires bans[0].time < threshold || bans[0].mask !in OldMasks(bans[1..], threshold)
    ensures RemoveMasks(bans, OldMasks(bans, threshold)) == Recent(bans, threshold)
            <==> RemoveMasks(bans[1..], OldMasks(bans[1..], threshold)) == Recent(bans[1..], threshold)
  {
    var x, tail := bans[0], bans[1..];
    var goes, stays := OldMasks(tail, threshold), Recent(tail, threshold);
    if x.time < threshold {
      assert OldMasks(bans, threshold)[1..] == goes;
      assert Recent(bans, threshold) == stays;
    } else {
      assert OldMasks(bans, threshold) == goes && bans == [x] + tail;
      RemoveMasksKeepsHead(x, tail, goes);
      assert Recent(bans, threshold) == [x] + stays;
      assert ([x] + RemoveMasks(tail, goes))[1..] == RemoveMasks(tail, goes);
      assert ([x] + stays)[1..] == stays;
    }
  }

  lemma ShadowLeavesOld(bans: seq<Ban>, threshold: int)
    requires bans != [] && bans[0].time >= threshold
    requires bans[0].mask in OldMasks(bans[1..], threshold)
    ensures Shadowed(bans, threshold)
    ensures RemoveMasks(bans, OldMasks(bans, threshold)) != Recent(bans, threshold)
  {
    var m, tail := bans[0].mask, bans[1..];
    OldMaskIsOld(tail, threshold, m);
    var j :| 0 <= j < |tail| && tail[j].mask == m && tail[j].time < threshold;
    assert bans[0].mask == bans[j + 1].mask;
    RecentTakenForOld(bans, threshold, OldMasks(bans, threshold));
    CountsAgree(bans, threshold, m);
    RecentHasNoOld(bans, threshold, m);
  }

  lemma OrderedIsNeverShadowed(bans: seq<Ban>, threshold: int)
    requires Ordered(bans)
    ensures !Shadowed(bans, threshold)
  {
  }

  // ----- the array stays ordered -----

  lemma {:induction false} RemoveBanOrdered(bans: seq<Ban>, mask: string, now: int)
    requires Ordered(bans) && NoneAfter(bans, now)
    ensures Ordered(RemoveBan(bans, mask)) && NoneAfter(RemoveBan(bans, mask), now)
    ensures forall b :: b in RemoveBan(bans, mask) ==> b in bans
  {
    if bans != [] && bans[0].mask != mask {
      RemoveBanOrdered(bans[1..], mask, now);
      var rest := RemoveBan(bans[1..], mask);
      forall i | 0 <= i < |rest| ensures bans[0].time <= rest[i].time {
        assert rest[i] in bans[1..];
      }
    }
  }

  lemma {:induction false} RunKeepsOrder(cur: Cursor, s: string, env: Env)
    requires Aligned(cur) && Ordered(cur.ch.bans) && NoneAfter(cur.ch.bans, env.now)
    ensures Ordered(Run(cur, s, env).ch.bans) && NoneAfter(Run(cur, s, env).ch.bans, env.now)
    decreases s
  {
    if s != [] {
      if s[0] == 'b' && 0 < cur.ac && !cur.add {
        RemoveBanOrdered(cur.ch.bans, cur.av[0], env.now);
      }
      RunKeepsOrder(Step(cur, s[0], env), s[1..], env);
    }
  }

  lemma {:induction false} RemoveMasksOrdered(bans: seq<Ban>, masks: seq<string>, now: int)
    requires Ordered(bans) && NoneAfter(bans, now)
    ensures Ordered(RemoveMasks(bans, masks)) && NoneAfter(RemoveMasks(bans, masks), now)
    decreases masks
  {
    if masks != [] {
      RemoveBanOrdered(bans, masks[0], now);
      RemoveMasksOrdered(RemoveBan(bans, masks[0]), masks[1..], now);
    }
  }

  // ----- the sweep -----

  lemma ReadUnban(ch: Chan, mask: string, env: Env)
    ensures Read(ch, Cmd("-b", [mask]), env) == ch.(bans := RemoveBan(ch.bans, mask))
  {
    assert "-b" == ['-', 'b'];
    RunTwo(Cursor(ch, true, 1, [mask]), '-', 'b', env);
  }

  /** The first pass: the masks that have to go. */
  method PickOld(bans: seq<Ban>, threshold: int) returns (masks: seq<string>)
    ensures masks == OldMasks(bans, threshold)
  {
    masks := [];
    var i := 0;
    ghost var rest := OldMasks(bans, threshold);
    while i < |bans|
      invariant 0 <= i <= |bans|
      invariant rest == OldMasks(bans[i..], threshold)
      invariant masks + rest == OldMasks(bans, threshold)
    {
      assert bans[i..][1..] == bans[i + 1..];
      if bans[i].time < threshold {
        assert masks + rest == (masks + [rest[0]]) + rest[1..];
        masks, rest := masks + [bans[i].mask], rest[1..];
      }
      i := i + 1;
    }
  }

  /** The ban half of `chan_update_events` for one channel: every old ban is taken off with a
      MODE command of its own, and the lock is checked each time. */
  method ExpireBans(c: Channel, bantime: uint32, env: Env)
    requires c.Valid()
    modifies c
    ensures c.Valid() && c.lock == old(c.lock) && |c.bans| <= c.bansize
    ensures c.ops == old(c.ops) && c.voices == old(c.voices)
    ensures bantime == 0 ==> c.Value() == old(c.Value()) && c.sent == old(c.sent)
    ensures bantime != 0 ==>
              var masks := OldMasks(old(c.Value()).bans, Threshold(env.now, bantime));
              && c.Value() == AfterExpiry(old(c.Value()), c.lock, bantime, env)
              && c.sent == old(c.sent) + SweepCmds(old(c.Value()), c.lock, masks, env)
              && ReadAll(old(c.Value()), SweepCmds(old(c.Value()), c.lock, masks, env), env) == c.Value()
  {
    if bantime == 0 {
      return;
    }
    var threshold := Threshold(env.now, bantime);
    var masks := PickOld(c.bans, threshold);
    SweepIsHeard(c.Value(), c.lock, masks, env);
    var i := 0;
    while i < |masks|
      invariant 0 <= i <= |masks| && c.Valid() && c.lock == old(c.lock)
      invariant c.sent + SweepCmds(c.Value(), c.lock, masks[i..], env)
                == old(c.sent) + SweepCmds(old(c.Value()), c.lock, masks, env)
      invariant c.ops == old(c.ops) && c.voices == old(c.voices)
      invariant Sweep(c.Value(), c.lock, masks[i..]) == Sweep(old(c.Value()), c.lock, masks)
    {
      assert masks[i..][1..] == masks[i + 1..];
      var cmd := Cmd("-b", [masks[i]]);
      ReadUnban(c.Value(), masks[i], env);
      ghost var before, was := c.sent, c.Value();
      c.sent := c.sent + [cmd];
      c.DoCmode(cmd, env);
      Sent(before, cmd, DoCmode(was, cmd, c.lock, env).sent, SweepCmds(c.Value(), c.lock, masks[i + 1..], env));
      i := i + 1;
    }
  }

  function Sweep(ch: Chan, lk: Lock, masks: seq<string>): Chan
    decreases masks
  {
    if masks == [] then ch
    else Sweep(Repaired(ch.(bans := RemoveBan(ch.bans, masks[0])), lk), lk, masks[1..])
  }

  /** The commands of a sweep: each removal, with what the check of the lock sends after it. */
  function SweepCmds(ch: Chan, lk: Lock, masks: seq<string>, env: Env): seq<Cmd>
    decreases masks
  {
    if masks == [] then []
    else
      var out := DoCmode(ch, Cmd("-b", [masks[0]]), lk, env);
      [Cmd("-b", [masks[0]])] + (out.sent + SweepCmds(out.ch, lk, masks[1..], env))
  }

  lemma Sent(before: seq<Cmd>, cmd: Cmd, checked: seq<Cmd>, rest: seq<Cmd>)
    ensures (before + [cmd] + checked) + rest == before + ([cmd] + (checked + rest))
  {
  }

  /** Whoever is at the channel and reads the commands of a sweep ends where the sweep ends. */
  lemma {:induction false} SweepIsHeard(ch: Chan, lk: Lock, masks: seq<string>, env: Env)
    requires WellFormed(lk)
    ensures ReadAll(ch, SweepCmds(ch, lk, masks, env), env) == Sweep(ch, lk, masks)
    decreases masks
  {
    if masks != [] {
      var cmd := Cmd("-b", [masks[0]]);
      var out := DoCmode(ch, cmd, lk, env);
      var rest := SweepCmds(out.ch, lk, masks[1..], env);
      ReadUnban(ch, masks[0], env);
      var asked := Read(ch, cmd, env);
      CheckModesRepairs(asked, lk, env);
      WellFormedIsReplayable(asked, lk);
      ReplayExact(asked, lk, env);
      ReadAllConcat(asked, out.sent, rest, env);
      assert ([cmd] + (out.sent + rest))[1..] == out.sent + rest;
      SweepIsHeard(out.ch, lk, masks[1..], env);
    }
  }

  function AfterExpiry(ch: Chan, lk: Lock, bantime: uint32, env: Env): Chan {
    Sweep(ch, lk, OldMasks(ch.bans, Threshold(env.now, bantime)))
  }

  lemma {:induction false} SweptBans(ch: Chan, lk: Lock, masks: seq<string>)
    ensures Sweep(ch, lk, masks).bans == RemoveMasks(ch.bans, masks)
    decreases masks
  {
    if masks != [] {
      SweptBans(Repaired(ch.(bans := RemoveBan(ch.bans, masks[0])), lk), lk, masks[1..]);
    }
  }

  // ----- over runs -----

  /** What a sweep with a ban time in minutes leaves, by age: the bans that are not older than that.
      The seconds are counted in 32 bits. */
  lemma {:induction false} RecentByAge(bans: seq<Ban>, now: int, bantime: uint32)
    ensures forall b :: b in Recent(bans, Threshold(now, bantime)) <==>
              b in bans && now - b.time <= bantime * 60 % 0x1_0000_0000
  {
    if bans != [] {
      RecentByAge(bans[1..], now, bantime);
      assert bans == [bans[0]] + bans[1..];
    }
  }

  lemma NothingWraps(seconds: nat)
    requires seconds < 0x1_0000_0000
    ensures seconds % 0x1_0000_0000 == seconds
  {
  }

  lemma SweepLeavesRecent(ch: Chan, lk: Lock, bantime: uint32, env: Env)
    requires bantime != 0 && Ordered(ch.bans)
    ensures Next(ch, lk, Expire(bantime, env)).bans == Recent(ch.bans, Threshold(env.now, bantime))
  {
    var threshold := Threshold(env.now, bantime);
    SweptBans(ch, lk, OldMasks(ch.bans, threshold));
    OrderedIsNeverShadowed(ch.bans, threshold);
    ExpiryExact(ch.bans, threshold);
  }

  /** With a ban time below 136 years nothing wraps round. */
  lemma SweepLeavesYoung(ch: Chan, lk: Lock, bantime: uint32, env: Env, b: Ban)
    requires 0 < bantime && bantime * 60 < 0x1_0000_0000 && Ordered(ch.bans)
    ensures b in Next(ch, lk, Expire(bantime, env)).bans <==> b in ch.bans && env.now - b.time <= bantime * 60
  {
    SweepLeavesRecent(ch, lk, bantime, env);
    RecentByAge(ch.bans, env.now, bantime);
    NothingWraps(bantime * 60);
  }

  /** Something that happens to a channel: a MODE command or a ban sweep, at a time. */
  datatype Event = Mode(cmd: Cmd, env: Env) | Expire(bantime: uint32, env: Env)

  function Next(ch: Chan, lk: Lock, e: Event): Chan {
    match e
    case Mode(cmd, env) => DoCmode(ch, cmd, lk, env).ch
    case Expire(bantime, env) => if bantime == 0 then ch else AfterExpiry(ch, lk, bantime, env)
  }

  function Play(ch: Chan, lk: Lock, events: seq<Event>): Chan
    decreases events
  {
    if events == [] then ch else Play(Next(ch, lk, events[0]), lk, events[1..])
  }

  /** The clock does not go backwards, from `now` on. */
  predicate Clocked(events: seq<Event>, now: int)
    decreases events
  {
    events == [] || (now <= events[0].env.now && Clocked(events[1..], events[0].env.now))
  }

  lemma NextKeepsOrder(ch: Chan, lk: Lock, e: Event)
    requires Ordered(ch.bans) && NoneAfter(ch.bans, e.env.now)
    ensures Ordered(Next(ch, lk, e).bans) && NoneAfter(Next(ch, lk, e).bans, e.env.now)
  {
    match e
    case Mode(cmd, env) =>
      RunKeepsOrder(Cursor(ch, true, |cmd.params|, cmd.params), cmd.modes, env);
      CheckModesRepairs(Read(ch, cmd, env), lk, env);
    case Expire(bantime, env) =>
      var masks := OldMasks(ch.bans, Threshold(env.now, bantime));
      SweptBans(ch, lk, masks);
      RemoveMasksOrdered(ch.bans, masks, env.now);
  }

  /** In every run with a clock that does not go backwards, from a channel without bans or
      with bans in order, the bans stay ordered by time, and a sweep at the end leaves
      exactly the bans that are not older than its threshold, in order. */
  lemma {:induction false} ExpiryOverRuns(ch: Chan, lk: Lock, events: seq<Event>, now: int, bantime: uint32, env: Env)
    requires Ordered(ch.bans) && NoneAfter(ch.bans, now)
    requires Clocked(events, now) && bantime != 0
    ensures var was := Play(ch, lk, events);
            && Ordered(was.bans)
            && Next(was, lk, Expire(bantime, env)).bans == Recent(was.bans, Threshold(env.now, bantime))
    decreases events
  {
    if events == [] {
      SweepLeavesRecent(ch, lk, bantime, env);
    } else {
      NextKeepsOrder(ch, lk, events[0]);
      ExpiryOverRuns(Next(ch, lk, events[0]), lk, events[1..], events[0].env.now, bantime, env);
    }
  }
}

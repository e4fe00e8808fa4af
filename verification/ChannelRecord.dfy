/** The channel record itself: `do_cmode` and `check_modes` as they change it in place, and
    SET MLOCK on its lock. */
module ChannelRecord {
  import opened CText
  import opened ChannelModes
  import opened ModeReplay
  import opened ModeLock

  lemma {:induction false} RemoveBanAt(bans: seq<Ban>, mask: string, i: nat)
    requires i <= |bans| && forall j :: 0 <= j < i ==> bans[j].mask != mask
    requires i < |bans| ==> bans[i].mask == mask
    ensures RemoveBan(bans, mask) == if i < |bans| then bans[..i] + bans[i + 1..] else bans
  {
    if i > 0 {
      RemoveBanAt(bans[1..], mask, i - 1);
    }
  }

  lemma {:induction false} RemoveNickAt(nicks: seq<string>, nick: string, i: nat)
    requires i <= |nicks| && nick !in nicks[..i]
    requires i < |nicks| ==> nicks[i] == nick
    ensures RemoveNick(nicks, nick) == if i < |nicks| then nicks[..i] + nicks[i + 1..] else nicks
  {
    if i > 0 {
      assert nicks[0] == nicks[..i][0];
      assert nicks[1..][..i - 1] == nicks[..i][1..];
      RemoveNickAt(nicks[1..], nick, i - 1);
    }
  }

  /** Position of a nick in a list, or the length of the list. */
  method FindNick(nicks: seq<string>, nick: string) returns (i: nat)
    ensures i <= |nicks| && nick !in nicks[..i]
    ensures i < |nicks| ==> nicks[i] == nick
  {
    i := 0;
    while i < |nicks| && nicks[i] != nick
      invariant 0 <= i <= |nicks| && nick !in nicks[..i]
    {
      i := i + 1;
    }
  }

  method WithoutNick(nicks: seq<string>, nick: string) returns (r: seq<string>)
    ensures r == RemoveNick(nicks, nick)
  {
    var i := FindNick(nicks, nick);
    RemoveNickAt(nicks, nick, i);
    r := if i < |nicks| then nicks[..i] + nicks[i + 1..] else nicks;
  }

  /** No sign is among the letters, so a sign at the end of the buffer is the one put there. */
  lemma NoSignIn(s: set<char>, tail: string, sign: char)
    requires sign !in FLAGS && sign !in tail
    ensures var t := Letters(s) + tail; t != [] ==> t[|t| - 1] != sign
  {
    LettersOf(s);
    var t := Letters(s) + tail;
    if t != [] {
      var c := t[|t| - 1];
      assert c in tail || c in Letters(s);
    }
  }

  lemma MinusLetters(s: set<char>, k: bool, l: bool)
    ensures Letters(s) + (if k then "k" else "") + (if l then "l" else "") == Letters(s) + MinusTail(k, l)
  {
  }

  class Channel {
    var mode: set<char>
    var limit: uint32
    var key: Option<string>
    var bans: seq<Ban>
    var bansize: nat
    var ops: seq<string>
    var voices: seq<string>

    /** The mode-lock columns of the channel's row. */
    var lock: Lock

    /** The MODE commands sent so far, apart from the "-o" for an op that is refused. */
    ghost var sent: seq<Cmd>

    ghost predicate Valid()
      reads this
    {
      WellFormed(lock) && mode <= FLAGS && |bans| <= bansize
    }

    ghost function Value(): Chan
      reads this
    {
      Chan(mode, limit, key, bans, ops, voices)
    }

    constructor ()
      ensures Valid() && Value() == Chan({}, 0, None, [], [], []) && sent == []
      ensures lock == Lock({}, {}, 0, [])
    {
      mode, limit, key := {}, 0, None;
      bans, bansize := [], 0;
      ops, voices := [], [];
      lock := Lock({}, {}, 0, []);
      sent := [];
    }

    // ----- reading a command -----

    method AddBan(mask: string, now: int)
      requires Valid()
      modifies `bans, `bansize
      ensures Valid() && bans == old(bans) + [Ban(mask, now)]
    {
      if |bans| >= bansize {
        bansize := bansize + 8;
      }
      bans := bans + [Ban(mask, now)];
    }

    method DelBan(mask: string)
      requires Valid()
      modifies `bans
      ensures Valid() && bans == RemoveBan(old(bans), mask)
    {
      var i := 0;
      while i < |bans| && bans[i].mask != mask
        invariant 0 <= i <= |bans| && forall j :: 0 <= j < i ==> bans[j].mask != mask
      {
        i := i + 1;
      }
      RemoveBanAt(bans, mask, i);
      if i < |bans| {
        bans := bans[..i] + bans[i + 1..];
      }
    }

    /** '+b', '-b', '+o', '-o', '+v' and '-v' with their parameter. */
    method ListMode(c: char, add: bool, param: string, env: Env)
      requires Valid() && (c == 'b' || c == 'o' || c == 'v')
      modifies `bans, `bansize, `ops, `voices
      ensures Valid()
      ensures forall ac: int, av :: |av| > 0 && av[0] == param && 0 < ac <= |av| ==>
                Step(Cursor(old(Value()), add, ac, av), c, env) == Cursor(Value(), add, ac - 1, av[1..])
    {
      if c == 'b' {
        if add { AddBan(param, env.now); } else { DelBan(param); }
      } else {
        var nick := Fold(param);
        if c == 'o' {
          if !add {
            ops := WithoutNick(ops, nick);
          } else {
            var i := FindNick(ops, nick);
            if i == |ops| && nick in env.online && nick in env.mayOp {
              ops := [nick] + ops;
            }
          }
        } else if !add {
          voices := WithoutNick(voices, nick);
        } else {
          var i := FindNick(voices, nick);
          if i == |voices| && nick in env.online {
            voices := [nick] + voices;
          }
        }
      }
    }

    /** The loop of `do_cmode` over the mode letters. */
    method ReadModes(cmd: Cmd, env: Env)
      requires Valid()
      modifies `mode, `limit, `key, `bans, `bansize, `ops, `voices
      ensures Valid() && Value() == Read(old(Value()), cmd, env)
    {
      var add, ac, av := true, |cmd.params|, cmd.params;
      var s := cmd.modes;
      ghost var goal := Run(Cursor(Value(), add, ac, av), s, env);
      while s != []
        invariant Valid() && ac <= |av|
        invariant Run(Cursor(Value(), add, ac, av), s, env) == goal
        decreases |s|
      {
        var c := s[0];
        s := s[1..];
        if c == '+' {
          add := true;
        } else if c == '-' {
          add := false;
        } else if c in FLAGS {
          if add { mode := mode + {c}; } else { mode := mode - {c}; }
        } else if c == 'l' && !add {
          limit := 0;
        } else if c == 'k' || c == 'l' || c == 'b' || c == 'o' || c == 'v' {
          ac := ac - 1;
          if ac >= 0 {
            if c == 'k' {
              key := None;
              if add {
                key, av := Some(av[0]), av[1..];
              }
            } else if c == 'l' {
              limit, av := Strtoul(Scan(av[0])), av[1..];
            } else {
              ListMode(c, add, av[0], env);
              av := av[1..];
            }
          }
        }
      }
    }

    // ----- checking the lock -----

    /** Writes the letters of `modes` into the buffer. */
    static method PutLetters(buf: array<char>, start: nat, modes: set<char>) returns (end: nat)
      requires start + |ORDER| <= buf.Length
      modifies buf
      ensures start <= end <= start + |ORDER|
      ensures buf[..end] == old(buf[..start]) + Letters(modes)
    {
      end := start;
      for k := 0 to |ORDER|
        invariant start <= end <= start + k
        invariant buf[..end] == old(buf[..start]) + Pick(ORDER[..k], modes)
      {
        assert ORDER[..k + 1][..k] == ORDER[..k];
        if ORDER[k] in modes {
          buf[end] := ORDER[k];
          end := end + 1;
        }
      }
      assert ORDER[..|ORDER|] == ORDER;
    }

    static method PutChar(buf: array<char>, start: nat, c: char) returns (end: nat)
      requires start < buf.Length
      modifies buf
      ensures end == start + 1 && buf[..end] == old(buf[..start]) + [c]
    {
      buf[start] := c;
      end := start + 1;
    }

    /** The tests of the first half of `check_modes` up to the limit. */
    method RaiseLocked(buf: array<char>) returns (end: nat, setLimit: bool)
      requires Valid() && buf.Length == 32
      modifies `mode, `limit, buf
      ensures Valid() && Value() == SetOn(old(Value()), lock)
      ensures setLimit == LimitWanted(old(Value()), lock)
      ensures 1 <= end <= |ORDER| + 2
      ensures buf[..end] == ['+'] + (Letters(lock.on - old(mode)) + PlusTail(setLimit, false))
    {
      end := PutChar(buf, 0, '+');
      end := PutLetters(buf, end, lock.on - mode);
      mode := mode + lock.on * FLAGS;
      setLimit := lock.limit != 0 && lock.limit != limit;
      if setLimit {
        end := PutChar(buf, end, 'l');
        limit := lock.limit;
      }
    }

    static method PutKey(buf: array<char>, start: nat, ghost on: set<char>, setLimit: bool) returns (end: nat)
      requires start < buf.Length
      requires buf[..start] == ['+'] + (Letters(on) + PlusTail(setLimit, false))
      modifies buf
      ensures end == start + 1
      ensures buf[..end] == ['+'] + (Letters(on) + PlusTail(setLimit, true))
    {
      end := PutChar(buf, start, 'k');
    }

    /** `check_modes`. The new command is composed in a buffer of 32 characters. */
    method CheckModes(env: Env)
      requires Valid()
      modifies this
      ensures Valid() && lock == old(lock)
      ensures var out := ChannelModes.CheckModes(old(Value()), lock, env);
              Value() == out.ch && sent == old(sent) + out.sent
      decreases if KeyClash(Value(), lock) then 2 else 0
    {
      var newmodes := new char[32];
      ghost var was := Value();
      ghost var on := lock.on - mode;
      var end, setLimit := RaiseLocked(newmodes);
      if key.Some? && lock.key != [] && key.value != lock.key {
        ChangeKey(newmodes, end, setLimit, was, env);
      } else {
        NoKeyChangeSent(was, lock, env);
        if key.None? && lock.key != [] {
          end := PutKey(newmodes, end, on, setLimit);
          key := Some(lock.key);
          FinishCheck(newmodes, end, setLimit, key, was, on);
        } else {
          FinishCheck(newmodes, end, setLimit, None, was, on);
        }
      }
    }

    /** The rest of `check_modes` when the key has to change. */
    method ChangeKey(newmodes: array<char>, start: nat, setLimit: bool, ghost was: Chan, env: Env)
      requires Valid() && KeyClash(was, lock) && Value() == SetOn(was, lock)
      requires setLimit == LimitWanted(was, lock)
      requires newmodes.Length == 32 && 1 <= start <= |ORDER| + 2
      requires newmodes[..start] == ['+'] + (Letters(lock.on - was.mode) + PlusTail(setLimit, false))
      modifies this, newmodes
      ensures Valid() && lock == old(lock)
      ensures var out := ChannelModes.CheckModes(was, lock, env);
              Value() == out.ch && sent == old(sent) + out.sent
      decreases 2, 1
    {
      ReplaceKey(was, env);
      ghost var mid := sent;
      assert mid == old(sent) + mid[|old(sent)|..];
      var end := PutKey(newmodes, start, lock.on - was.mode, setLimit);
      FinishCheck(newmodes, end, setLimit, Some(lock.key), was, lock.on - was.mode);
      assert sent == mid + sent[|mid|..];
    }

    /** The key change of `check_modes`: the old key is dropped by a command that goes
        through `do_cmode` and so checks the modes once more. */
    method ReplaceKey(ghost was: Chan, env: Env)
      requires Valid() && KeyClash(was, lock) && Value() == SetOn(was, lock)
      modifies this
      ensures Valid() && lock == old(lock)
      ensures var drop := Cmd("-k", [was.key.value]);
              var inner := ChannelModes.DoCmode(SetOn(was, lock), drop, lock, env);
              Value() == inner.ch.(key := Some(lock.key)) && sent == old(sent) + [drop] + inner.sent
      ensures var plus := Letters(lock.on - was.mode) + PlusTail(LimitWanted(was, lock), true);
              var fin := Finish(was, plus, Value(), lock, [], Some(lock.key));
              ChannelModes.CheckModes(was, lock, env) == Outcome(fin.ch, sent[|old(sent)|..] + fin.sent)
      decreases 2, 0
    {
      var drop := Cmd("-k", [key.value]);
      sent := sent + [drop];
      DropKey(Value(), key.value, env);
      DoCmode(drop, env);
      ghost var inner := sent[|old(sent)| + 1..];
      key := Some(lock.key);
      KeyChangeSent(was, lock, Value(), inner, env);
      assert sent[|old(sent)|..] == [drop] + inner;
    }

    /** Takes the sign back when no letter follows it. */
    static method TrimSign(buf: array<char>, start: nat, sign: char,
        ghost front: string, ghost s: set<char>, ghost tail: string)
      returns (end: nat)
      requires 1 <= start <= buf.Length && sign !in FLAGS && sign !in tail
      requires buf[..start] == front + ([sign] + (Letters(s) + tail))
      ensures start - 1 <= end <= start && buf[..end] == front + Signed(sign, Letters(s) + tail)
    {
      NoSignIn(s, tail, sign);
      ghost var t := Letters(s) + tail;
      assert buf[..start][start - 1] == buf[start - 1] == if t == [] then sign else t[|t| - 1];
      end := if buf[start - 1] == sign then start - 1 else start;
    }

    /** The tests of the second half of `check_modes`: what is locked off is dropped and
        written down. */
    method DropLocked(buf: array<char>, start: nat) returns (end: nat, dropKey: bool)
      requires Valid() && start + |ORDER| + 3 <= buf.Length
      modifies `mode, `key, `limit, buf
      ensures Valid() && Value() == SetOff(old(Value()), lock)
      ensures dropKey == DropsKey(old(Value()), lock)
      ensures start < end <= start + |ORDER| + 3
      ensures buf[..end] == old(buf[..start])
                            + (['-'] + (Letters(old(mode) * lock.off)
                                        + MinusTail(dropKey, DropsLimit(old(Value()), lock))))
    {
      ghost var was := Value();
      end := PutChar(buf, start, '-');
      end := PutLetters(buf, end, mode * lock.off);
      mode := mode - lock.off * FLAGS;
      end, dropKey := DropKeyAndLimit(buf, end);
      assert buf[..end] == old(buf[..start]) + ['-'] + Letters(was.mode * lock.off)
                           + MinusTail(dropKey, DropsLimit(was, lock));
    }

    method DropKeyAndLimit(buf: array<char>, start: nat) returns (end: nat, dropKey: bool)
      requires Valid() && start + 2 <= buf.Length
      modifies `key, `limit, buf
      ensures Valid()
      ensures key == if 'k' in lock.off then None else old(key)
      ensures limit == if 'l' in lock.off then 0 else old(limit)
      ensures dropKey == DropsKey(old(Value()), lock)
      ensures start <= end <= start + 2
      ensures buf[..end] == old(buf[..start]) + MinusTail(dropKey, DropsLimit(old(Value()), lock))
    {
      end := start;
      dropKey := key.Some? && 'k' in lock.off;
      if dropKey {
        end := PutChar(buf, end, 'k');
        key := None;
      }
      if limit != 0 && 'l' in lock.off {
        end := PutChar(buf, end, 'l');
        limit := 0;
      }
    }

    /** The second half of `check_modes`: drop what is locked off and send the command. */
    method FinishCheck(newmodes: array<char>, start: nat, setLimit: bool, newkey: Option<string>,
        ghost was: Chan, ghost on: set<char>)
      requires Valid() && newmodes.Length == 32 && 1 <= start <= 13
      requires newmodes[..start] == ['+'] + (Letters(on) + PlusTail(setLimit, newkey.Some?))
      requires setLimit == LimitWanted(was, lock)
      modifies this, newmodes
      ensures Valid() && lock == old(lock)
      ensures var plus := Letters(on) + PlusTail(setLimit, newkey.Some?);
              var out := Finish(was, plus, old(Value()), lock, [], newkey);
              Value() == out.ch && sent == old(sent) + out.sent
    {
      ghost var tail := PlusTail(setLimit, newkey.Some?);
      assert newmodes[..start] == [] + (['+'] + (Letters(on) + tail));
      var end := TrimSign(newmodes, start, '+', [], on, tail);
      ghost var front := newmodes[..end];
      assert front == Signed('+', Letters(on) + tail);
      var oldkey := key;
      var dropKey;
      end, dropKey := DropAndTrim(newmodes, end, front);
      Send(newmodes[..end], setLimit, newkey.Some? || dropKey, if dropKey then oldkey else newkey);
    }

    /** Drops what is locked off and puts it after the letters that are there already. */
    method DropAndTrim(buf: array<char>, start: nat, ghost front: string) returns (end: nat, dropKey: bool)
      requires Valid() && start + |ORDER| + 3 <= buf.Length && buf[..start] == front
      modifies `mode, `key, `limit, buf
      ensures Valid() && Value() == SetOff(old(Value()), lock)
      ensures dropKey == DropsKey(old(Value()), lock) && end <= buf.Length
      ensures var was := old(Value());
              var k, l := if dropKey then "k" else "", if DropsLimit(was, lock) then "l" else "";
              buf[..end] == front + Signed('-', Letters(was.mode * lock.off) + k + l)
    {
      ghost var off, dropLimit := mode * lock.off, DropsLimit(Value(), lock);
      end, dropKey := DropLocked(buf, start);
      end := TrimSign(buf, end, '-', front, off, MinusTail(dropKey, dropLimit));
      MinusLetters(off, dropKey, dropLimit);
    }

    /** The four ways the command is sent: with or without a limit, with or without a key. */
    method Send(modes: string, setLimit: bool, setKey: bool, newkey: Option<string>)
      modifies `sent
      ensures sent == old(sent) + if modes == [] then [] else
                [Cmd(modes, (if setLimit then [PrintD(lock.limit)] else [])
                            + (if !setKey then []
                               else if setLimit then [if key.Some? then key.value else ""]
                               else [if newkey.Some? then newkey.value else ""]))]
    {
      if modes == [] {
        return;
      }
      var params := if setLimit then [PrintD(lock.limit)] else [];
      if setKey {
        params := params + [if setLimit then (if key.Some? then key.value else "")
                            else if newkey.Some? then newkey.value else ""];
      }
      assert params == (if setLimit then [PrintD(lock.limit)] else []) + params[if setLimit then 1 else 0..];
      sent := sent + [Cmd(modes, params)];
    }

    /** `do_cmode`: read the command, then check the modes against the lock. The channel
        ends with the lock laid over what the command asked for, and the commands sent tell
        everyone else exactly that. */
    method DoCmode(cmd: Cmd, env: Env)
      requires Valid()
      modifies this
      ensures Valid() && lock == old(lock)
      ensures var out := ChannelModes.DoCmode(old(Value()), cmd, lock, env);
              Value() == out.ch && sent == old(sent) + out.sent
      ensures var asked := Read(old(Value()), cmd, env);
              Value() == Repaired(asked, lock)
              && ReadAll(asked, sent[|old(sent)|..], env) == Value()
      decreases if KeyClash(Read(Value(), cmd, env), lock) then 3 else 1
    {
      ReadModes(cmd, env);
      ghost var asked := Value();
      CheckModes(env);
      CheckModesRepairs(asked, lock, env);
      WellFormedIsReplayable(asked, lock);
      ReplayExact(asked, lock, env);
    }

    // ----- SET MLOCK -----

    /** `do_set_mlock`: a parameter that spells a lock replaces the stored one and is put
        into force; anything else stores nothing. */
    method DoSetMlock(param: Option<string>, words: seq<string>, oper: bool, env: Env) returns (r: Answer)
      requires Valid()
      modifies this
      ensures Valid()
      ensures old(sent) <= sent
      ensures r.Rejected? ==> lock == old(lock) && Value() == old(Value()) && sent == old(sent)
      ensures r.Stored? ==>
                && param.Some? && lock == r.lock
                && (IsOff(param.value) || Spells(param.value, words, |param.value|, oper, old(lock), lock))
                && Value() == Repaired(old(Value()), lock)
                && ReadAll(old(Value()), sent[|old(sent)|..], env) == Value()
      ensures param.None? ==> r == Rejected(Syntax)
    {
      if param.None? {
        return Rejected(Syntax);
      }
      r := SetMlock(param.value, words, oper, lock);
      if r.Stored? {
        if !IsOff(param.value) {
          SpelledLockIsWellFormed(param.value, words, oper, lock, r.lock);
        }
        lock := r.lock;
        ghost var was := Value();
        CheckModes(env);
        CheckModesRepairs(was, lock, env);
        WellFormedIsReplayable(was, lock);
        ReplayExact(was, lock, env);
      }
    }
  }
}

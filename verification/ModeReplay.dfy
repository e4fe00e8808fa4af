/** What `do_cmode` and `check_modes` promise each other: the lock is enforced, a second
    check is silent, and the commands sent say exactly what was stored. */
module ModeReplay {
  import opened CText
  import opened ChannelModes

  /** A lock that asks for nothing twice. */
  predicate WellFormed(lk: Lock) {
    && lk.on * lk.off * FLAGS == {}
    && (lk.key != [] ==> 'k' !in lk.off)
    && (lk.limit != 0 ==> 'l' !in lk.off)
  }

  // ----- enforcement -----

  /** The channel with the lock laid over it, field by field. */
  function Repaired(ch: Chan, lk: Lock): Chan {
    ch.(mode := (ch.mode + lk.on * FLAGS) - lk.off * FLAGS,
        limit := if 'l' in lk.off then 0 else if lk.limit != 0 then lk.limit else ch.limit,
        key := if 'k' in lk.off then None else if lk.key != [] then Some(lk.key) else ch.key)
  }

  /** Whatever the lock and whatever path is taken through the key change, the check
      leaves the channel with the lock laid over it. */
  lemma {:induction false} CheckModesRepairs(ch: Chan, lk: Lock, env: Env)
    ensures CheckModes(ch, lk, env).ch == Repaired(ch, lk)
    decreases if KeyClash(ch, lk) then 1 else 0
  {
    if KeyClash(ch, lk) {
      var ch1 := SetOn(ch, lk);
      DropKey(ch1, ch.key.value, env);
      CheckModesRepairs(ch1.(key := None), lk, env);
    }
  }

  /** After any MODE command at all the lock holds, and what the lock leaves open is as
      the command left it. */
  lemma LockIsEnforced(ch: Chan, cmd: Cmd, lk: Lock, env: Env)
    requires WellFormed(lk)
    ensures var was, now := Read(ch, cmd, env), DoCmode(ch, cmd, lk, env).ch;
            && lk.on * FLAGS <= now.mode
            && now.mode !! lk.off * FLAGS
            && (forall c :: c !in lk.on && c !in lk.off ==> (c in now.mode <==> c in was.mode))
            && (lk.limit != 0 ==> now.limit == lk.limit)
            && ('l' in lk.off ==> now.limit == 0)
            && (lk.limit == 0 && 'l' !in lk.off ==> now.limit == was.limit)
            && (lk.key != [] ==> now.key == Some(lk.key))
            && ('k' in lk.off ==> now.key == None)
            && (lk.key == [] && 'k' !in lk.off ==> now.key == was.key)
            && now.bans == was.bans && now.ops == was.ops && now.voices == was.voices
  {
    CheckModesRepairs(Read(ch, cmd, env), lk, env);
    var was, now := Read(ch, cmd, env), DoCmode(ch, cmd, lk, env).ch;
    forall c | c in lk.on * FLAGS ensures c in now.mode {
      assert c in lk.off ==> c in lk.on * lk.off * FLAGS;
    }
  }

  lemma {:induction false} PickedLetters(order: string, s: set<char>, c: char)
    ensures c in Pick(order, s) <==> c in order && c in s
  {
    if order != [] {
      PickedLetters(order[..|order| - 1], s, c);
      assert order == order[..|order| - 1] + [order[|order| - 1]];
    }
  }

  lemma OrderListsFlags(c: char)
    ensures c in ORDER <==> c in FLAGS
  {
    assert ORDER == ['i', 'm', 'M', 'n', 'p', 's', 't', 'c', 'O', 'R'];
  }

  lemma LettersOf(s: set<char>)
    ensures forall c :: c in Letters(s) <==> c in s * FLAGS
  {
    forall c ensures c in Letters(s) <==> c in s * FLAGS {
      PickedLetters(ORDER, s, c);
      OrderListsFlags(c);
    }
  }

  lemma NoLetters(s: set<char>)
    ensures Letters(s) == [] <==> s * FLAGS == {}
  {
    LettersOf(s);
    if s * FLAGS != {} {
      var c :| c in s * FLAGS;
      assert c in Letters(s);
    }
    assert Letters(s) != [] ==> Letters(s)[0] in Letters(s);
  }

  /** The repair settles: from every channel a second check sends nothing and changes
      nothing, exactly when the lock is well formed. With an ill-formed lock it sends a
      command every time. */
  lemma SettlesIffWellFormed(ch: Chan, lk: Lock, env: Env)
    ensures var once := CheckModes(ch, lk, env).ch;
            && CheckModes(once, lk, env).ch == once
            && (CheckModes(once, lk, env).sent == [] <==> WellFormed(lk))
  {
    CheckModesRepairs(ch, lk, env);
    var once := Repaired(ch, lk);
    CheckModesRepairs(once, lk, env);
    assert Repaired(once, lk) == once;
    NoLetters(lk.on - once.mode);
    var stuck := (lk.on - once.mode) * FLAGS;
    assert stuck == lk.on * lk.off * FLAGS;
    var r := CheckModes(once, lk, env);
    if WellFormed(lk) {
      assert !KeyClash(once, lk) && !KeyMissing(once, lk) && !LimitWanted(once, lk);
      assert Letters(lk.on - once.mode) + "" == [];
      assert SetOn(once, lk).mode * lk.off * FLAGS == {};
      NoLetters(SetOn(once, lk).mode * lk.off);
    } else {
      assert !KeyClash(once, lk);
      assert stuck != {} || KeyMissing(once, lk) || LimitWanted(once, lk);
    }
  }

  /** The message buffer of 32 characters is never filled, whatever the lock. */
  lemma BufferSuffices(ch: Chan, lk: Lock, env: Env)
    ensures forall cmd :: cmd in CheckModes(ch, lk, env).sent ==> |cmd.modes| < 32
    decreases if KeyClash(ch, lk) then 1 else 0
  {
    if KeyClash(ch, lk) {
      DropKey(SetOn(ch, lk), ch.key.value, env);
      BufferSuffices(SetOn(ch, lk).(key := None), lk, env);
    }
  }

  /** The channel the nested check is given: the lock's modes and limit are set, the key is
      gone. */
  function Nested(ch: Chan, lk: Lock): Chan { SetOn(ch, lk).(key := None) }

  /** The key change nests once: the nested check has no key to change, so at most three commands
      go out, and more than one only when the key had to change. */
  lemma NestsAtMostOnce(ch: Chan, lk: Lock, env: Env)
    ensures KeyClash(ch, lk) ==>
              && Read(SetOn(ch, lk), Cmd("-k", [ch.key.value]), env) == Nested(ch, lk)
              && !KeyClash(Nested(ch, lk), lk) && |CheckModes(Nested(ch, lk), lk, env).sent| <= 1
    ensures |CheckModes(ch, lk, env).sent| <= (if KeyClash(ch, lk) then 3 else 1)
  {
    if KeyClash(ch, lk) {
      DropKey(SetOn(ch, lk), ch.key.value, env);
      assert |CheckModes(Nested(ch, lk), lk, env).sent| <= 1;
    }
  }

  // ----- replay -----

  lemma {:induction false} RunConcat(cur: Cursor, s: string, t: string, env: Env)
    requires Aligned(cur)
    ensures Run(cur, s + t, env) == Run(Run(cur, s, env), t, env)
    decreases s
  {
    if s == [] {
      assert s + t == t;
    } else {
      assert (s + t)[1..] == s[1..] + t;
      RunConcat(Step(cur, s[0], env), s[1..], t, env);
    }
  }

  function Flagged(cur: Cursor, s: set<char>): Cursor {
    cur.(ch := cur.ch.(mode := if cur.add then cur.ch.mode + s else cur.ch.mode - s))
  }

  lemma {:induction false} RunFlags(cur: Cursor, t: string, env: Env)
    requires Aligned(cur) && forall c :: c in t ==> c in FLAGS
    ensures Run(cur, t, env) == Flagged(cur, set c | c in t)
    decreases t
  {
    if t == [] {
      assert (set c | c in t) == {};
    } else {
      assert t[0] in FLAGS;
      RunFlags(Step(cur, t[0], env), t[1..], env);
      assert (set c | c in t) == {t[0]} + (set c | c in t[1..]);
    }
  }

  lemma RunLetters(cur: Cursor, s: set<char>, env: Env)
    requires Aligned(cur)
    ensures Run(cur, Letters(s), env) == Flagged(cur, s * FLAGS)
  {
    LettersOf(s);
    RunFlags(cur, Letters(s), env);
    assert (set c | c in Letters(s)) == s * FLAGS;
  }

  lemma RunPlus(cur: Cursor, s: set<char>, tail: string, env: Env)
    requires Aligned(cur) && cur.add
    ensures Run(cur, Signed('+', Letters(s) + tail), env) == Run(Flagged(cur, s * FLAGS), tail, env)
  {
    var t := Letters(s) + tail;
    RunConcat(cur, Letters(s), tail, env);
    RunLetters(cur, s, env);
    if t != [] {
      assert (['+'] + t)[1..] == t;
      assert Step(cur, '+', env) == cur;
    }
  }

  lemma RunMinus(cur: Cursor, s: set<char>, tail: string, env: Env)
    requires Aligned(cur)
    ensures Run(cur, Signed('-', Letters(s) + tail), env).ch
            == Run(Flagged(cur.(add := false), s * FLAGS), tail, env).ch
  {
    var t := Letters(s) + tail;
    var off := cur.(add := false);
    RunConcat(off, Letters(s), tail, env);
    RunLetters(off, s, env);
    if t != [] {
      assert (['-'] + t)[1..] == t;
      assert Step(cur, '-', env) == off;
    } else {
      assert Letters(s) == [];
    }
  }

  lemma RunOne(cur: Cursor, c: char, env: Env)
    requires Aligned(cur)
    ensures Run(cur, [c], env) == Step(cur, c, env)
  {
    assert [c][1..] == [];
  }

  lemma RunTwo(cur: Cursor, c: char, d: char, env: Env)
    requires Aligned(cur)
    ensures Run(cur, [c, d], env) == Step(Step(cur, c, env), d, env)
  {
    assert [c, d][1..] == [d];
    RunOne(Step(cur, c, env), d, env);
  }

  predicate DropsKey(ch: Chan, lk: Lock) { ch.key.Some? && 'k' in lk.off }

  predicate DropsLimit(ch: Chan, lk: Lock) { ch.limit != 0 && 'l' in lk.off }

  function PlusTail(l: bool, k: bool): string { (if l then "l" else "") + (if k then "k" else "") }

  function MinusTail(k: bool, l: bool): string { (if k then "k" else "") + (if l then "l" else "") }

  /** Reading the "lk" after the plus letters. */
  lemma ReadPlusTail(cur: Cursor, l: bool, k: bool, env: Env)
    requires Aligned(cur) && cur.add && cur.ac == |cur.av|
    requires |cur.av| >= (if l then 1 else 0) + (if k then 1 else 0)
    ensures var used := (if l then 1 else 0) + (if k then 1 else 0);
            Run(cur, PlusTail(l, k), env) ==
            cur.(ch := cur.ch.(limit := if l then Strtoul(Scan(cur.av[0])) else cur.ch.limit,
                               key := if k then Some(cur.av[used - 1]) else cur.ch.key),
                 ac := cur.ac - used, av := cur.av[used..])
  {
    if l && k {
      assert PlusTail(l, k) == ['l', 'k'];
      RunTwo(cur, 'l', 'k', env);
    } else if l {
      assert PlusTail(l, k) == ['l'];
      RunOne(cur, 'l', env);
    } else if k {
      assert PlusTail(l, k) == ['k'];
      RunOne(cur, 'k', env);
    }
  }

  /** Reading the "kl" after the minus letters; the key goes only if a parameter is left. */
  lemma ReadMinusTail(cur: Cursor, k: bool, l: bool, env: Env)
    requires Aligned(cur) && !cur.add
    ensures Run(cur, MinusTail(k, l), env).ch ==
            cur.ch.(limit := if l then 0 else cur.ch.limit,
                    key := if k && cur.ac > 0 then None else cur.ch.key)
  {
    if k && l {
      assert MinusTail(k, l) == ['k', 'l'];
      RunTwo(cur, 'k', 'l', env);
    } else if l {
      assert MinusTail(k, l) == ['l'];
      RunOne(cur, 'l', env);
    } else if k {
      assert MinusTail(k, l) == ['k'];
      RunOne(cur, 'k', env);
    }
  }

  /** What a reader that is at channel `base` makes of the command composed by the second
      half of the check. A key that is both set and dropped in one command has only one
      parameter, so the reader keeps it. */
  function Heard(base: Chan, was: Chan, a: set<char>, ch: Chan, lk: Lock, key: Option<string>): Chan {
    base.(mode := (base.mode + a * FLAGS) - ch.mode * lk.off * FLAGS,
          limit := if DropsLimit(ch, lk) then 0
                   else if LimitWanted(was, lk) then lk.limit else base.limit,
          key := if key.Some? && DropsKey(ch, lk) && LimitWanted(was, lk) then Some("")
                 else if key.Some? then key
                 else if DropsKey(ch, lk) then None
                 else base.key)
  }

  lemma FinishIsHeard(base: Chan, was: Chan, a: set<char>, ch: Chan, lk: Lock, key: Option<string>, env: Env)
    requires key.Some? ==> ch.key == key
    ensures var plus := Letters(a) + PlusTail(LimitWanted(was, lk), key.Some?);
            ReadAll(base, Finish(was, plus, ch, lk, [], key).sent, env) == Heard(base, was, a, ch, lk, key)
  {
    var l, k := LimitWanted(was, lk), key.Some?;
    var plus := Letters(a) + PlusTail(l, k);
    var minus := Letters(ch.mode * lk.off) + MinusTail(DropsKey(ch, lk), DropsLimit(ch, lk));
    var out := Finish(was, plus, ch, lk, [], key);
    assert Letters(ch.mode * lk.off) + (if DropsKey(ch, lk) then "k" else "")
           + (if DropsLimit(ch, lk) then "l" else "") == minus;
    var modes := Signed('+', plus) + Signed('-', minus);
    NoLetters(a);
    NoLetters(ch.mode * lk.off);
    if modes != [] {
      var cmd := out.sent[0];
      assert out.sent == [cmd] && cmd.modes == modes;
      var cur := Cursor(base, true, |cmd.params|, cmd.params);
      HeardParts(cur, a, ch.mode * lk.off, l, k, DropsKey(ch, lk), DropsLimit(ch, lk), env);
      if l {
        PrintedLimitReadsBack(lk.limit);
      }
      assert ReadAll(base, out.sent, env) == ReadAll(Read(base, cmd, env), out.sent[1..], env);
      assert out.sent[1..] == [];
    }
  }

  lemma HeardParts(cur: Cursor, a: set<char>, b: set<char>, l: bool, k: bool, dropKey: bool, dropLimit: bool, env: Env)
    requires cur.add && cur.ac == |cur.av|
    requires |cur.av| >= (if l then 1 else 0) + (if k then 1 else 0)
    ensures var modes := Signed('+', Letters(a) + PlusTail(l, k))
                         + Signed('-', Letters(b) + MinusTail(dropKey, dropLimit));
            var used := (if l then 1 else 0) + (if k then 1 else 0);
            Run(cur, modes, env).ch ==
            cur.ch.(mode := (cur.ch.mode + a * FLAGS) - b * FLAGS,
                    limit := if dropLimit then 0 else if l then Strtoul(Scan(cur.av[0])) else cur.ch.limit,
                    key := if dropKey && used < |cur.av| then None
                           else if k then Some(cur.av[used - 1]) else cur.ch.key)
  {
    var p, m := Signed('+', Letters(a) + PlusTail(l, k)), Signed('-', Letters(b) + MinusTail(dropKey, dropLimit));
    RunConcat(cur, p, m, env);
    RunPlus(cur, a, PlusTail(l, k), env);
    ReadPlusTail(Flagged(cur, a * FLAGS), l, k, env);
    var mid := Run(cur, p, env);
    RunMinus(mid, b, MinusTail(dropKey, dropLimit), env);
    ReadMinusTail(Flagged(mid.(add := false), b * FLAGS), dropKey, dropLimit, env);
  }

  lemma {:induction false} ReadAllConcat(ch: Chan, a: seq<Cmd>, b: seq<Cmd>, env: Env)
    ensures ReadAll(ch, a + b, env) == ReadAll(ReadAll(ch, a, env), b, env)
    decreases a
  {
    if a == [] {
      assert a + b == b;
    } else {
      assert (a + b)[1..] == a[1..] + b;
      ReadAllConcat(Read(ch, a[0], env), a[1..], b, env);
    }
  }

  /** When the sent commands describe the stored channel. A well-formed lock always
      passes; an ill-formed one fails on the channels where something the lock wants both
      ways is set by this check. */
  predicate Replayable(ch: Chan, lk: Lock) {
    if KeyClash(ch, lk) then
      && 'k' !in lk.off
      && (lk.on - ch.mode) * lk.off * FLAGS == {}
      && (LimitWanted(ch, lk) ==> 'l' !in lk.off)
    else
      KeyMissing(ch, lk) ==> 'k' !in lk.off
  }

  lemma WellFormedIsReplayable(ch: Chan, lk: Lock)
    requires WellFormed(lk)
    ensures Replayable(ch, lk)
  {
    assert (lk.on - ch.mode) * lk.off * FLAGS <= lk.on * lk.off * FLAGS;
  }

  /** The commands a check sends, read in order by anyone who was at the same channel, give
      exactly the channel the check stored, for every well-formed lock; for the others the
      condition is exact. */
  lemma ReplayExact(ch: Chan, lk: Lock, env: Env)
    ensures var out := CheckModes(ch, lk, env);
            ReadAll(ch, out.sent, env) == out.ch
            <==> Replayable(ch, lk)
  {
    CheckModesRepairs(ch, lk, env);
    if KeyClash(ch, lk) {
      ReplayKeyChange(ch, lk, env);
    } else {
      NoKeyChangeSent(ch, lk, env);
      var key := if KeyMissing(ch, lk) then Some(lk.key) else None;
      var ch1 := SetOn(ch, lk).(key := if key.Some? then key else ch.key);
      FinishIsHeard(ch, ch, lk.on - ch.mode, ch1, lk, key, env);
    }
  }

  /** The nested check starts with the lock's modes and limit already set and the key gone;
      its reader starts from the channel without the key only. */
  lemma NestedIsHeard(ch: Chan, lk: Lock, env: Env)
    requires KeyClash(ch, lk)
    ensures var ch1 := SetOn(ch, lk);
            var inner := DoCmode(ch1, Cmd("-k", [ch.key.value]), lk, env);
            ReadAll(ch.(key := None), inner.sent, env)
            == Chan(ch.mode - ch1.mode * lk.off * FLAGS,
                    if ch1.limit != 0 && 'l' in lk.off then 0 else ch.limit,
                    Some(lk.key), ch.bans, ch.ops, ch.voices)
  {
    var ch1 := SetOn(ch, lk);
    DropKey(ch1, ch.key.value, env);
    var start := ch1.(key := None);
    var keyed := start.(key := Some(lk.key));
    var a := lk.on - start.mode;
    NoLetters(a);
    assert a * FLAGS == {};
    assert SetOn(start, lk) == start;
    assert Letters(a) + "" + "k" == Letters(a) + PlusTail(false, true);
    FinishIsHeard(ch.(key := None), start, a, keyed, lk, Some(lk.key), env);
  }

  /** The path through the nested check: "-k old" first, then the nested check's own
      command, then the outer one. */
  lemma ReplayKeyChange(ch: Chan, lk: Lock, env: Env)
    requires KeyClash(ch, lk)
    ensures var heard := ReadAll(ch, CheckModes(ch, lk, env).sent, env);
            var twice := LimitWanted(ch, lk) && 'l' in lk.off;
            heard == Repaired(ch, lk).(
                       mode := Repaired(ch, lk).mode + (lk.on - ch.mode) * lk.off * FLAGS,
                       limit := if twice then lk.limit else Repaired(ch, lk).limit,
                       key := heard.key)
            && heard.key.Some? && ('k' !in lk.off ==> heard.key.value == lk.key)
  {
    var drop := Cmd("-k", [ch.key.value]);
    var ch1 := SetOn(ch, lk);
    var inner := DoCmode(ch1, drop, lk, env);
    DropKey(ch1, ch.key.value, env);
    CheckModesRepairs(ch1.(key := None), lk, env);
    NestedIsHeard(ch, lk, env);
    var heard1 := ReadAll(ch.(key := None), inner.sent, env);
    var left := inner.ch.(key := Some(lk.key));
    OuterIsHeard(ch, lk, heard1, left, inner.sent, env);
    ModesMeet(ch, lk, lk.on - ch.mode, ch1.mode, left.mode, heard1.mode);
  }

  /** The commands of a key change, split at the nested check. */
  lemma KeyChangeSent(ch: Chan, lk: Lock, left: Chan, inner: seq<Cmd>, env: Env)
    requires KeyClash(ch, lk)
    requires var out := DoCmode(SetOn(ch, lk), Cmd("-k", [ch.key.value]), lk, env);
             inner == out.sent && left == out.ch.(key := Some(lk.key))
    ensures var plus := Letters(lk.on - ch.mode) + PlusTail(LimitWanted(ch, lk), true);
            var fin := Finish(ch, plus, left, lk, [], Some(lk.key));
            CheckModes(ch, lk, env) == Outcome(fin.ch, [Cmd("-k", [ch.key.value])] + inner + fin.sent)
  {
    DropKey(SetOn(ch, lk), ch.key.value, env);
    var drop := Cmd("-k", [ch.key.value]);
    var l := if LimitWanted(ch, lk) then "l" else "";
    var plus := Letters(lk.on - ch.mode) + PlusTail(LimitWanted(ch, lk), true);
    assert plus == Letters(lk.on - ch.mode) + l + "k";
    var before := [drop] + inner;
    assert CheckModes(ch, lk, env) == Finish(ch, plus, left, lk, before, Some(lk.key));
    assert Finish(ch, plus, left, lk, before, Some(lk.key)).sent
           == before + Finish(ch, plus, left, lk, [], Some(lk.key)).sent;
  }

  lemma NoKeyChangeSent(ch: Chan, lk: Lock, env: Env)
    requires !KeyClash(ch, lk)
    ensures var key := if KeyMissing(ch, lk) then Some(lk.key) else None;
            var ch1 := SetOn(ch, lk).(key := if key.Some? then key else ch.key);
            var plus := Letters(lk.on - ch.mode) + PlusTail(LimitWanted(ch, lk), key.Some?);
            CheckModes(ch, lk, env) == Finish(ch, plus, ch1, lk, [], key)
  {
    var l := if LimitWanted(ch, lk) then "l" else "";
    assert Letters(lk.on - ch.mode) + l + "k" == Letters(lk.on - ch.mode) + PlusTail(LimitWanted(ch, lk), true);
    assert Letters(lk.on - ch.mode) + l == Letters(lk.on - ch.mode) + PlusTail(LimitWanted(ch, lk), false);
  }

  /** After the nested check the outer command is read on top of what was heard so far. */
  lemma OuterIsHeard(ch: Chan, lk: Lock, heard1: Chan, left: Chan, inner: seq<Cmd>, env: Env)
    requires KeyClash(ch, lk)
    requires var out := DoCmode(SetOn(ch, lk), Cmd("-k", [ch.key.value]), lk, env);
             inner == out.sent && left == out.ch.(key := Some(lk.key))
    requires heard1 == ReadAll(ch.(key := None), inner, env)
    ensures ReadAll(ch, CheckModes(ch, lk, env).sent, env)
            == Heard(heard1, ch, lk.on - ch.mode, left, lk, Some(lk.key))
  {
    var drop := Cmd("-k", [ch.key.value]);
    KeyChangeSent(ch, lk, left, inner, env);
    FinishIsHeard(heard1, ch, lk.on - ch.mode, left, lk, Some(lk.key), env);
    var plus := Letters(lk.on - ch.mode) + PlusTail(LimitWanted(ch, lk), true);
    var tail := Finish(ch, plus, left, lk, [], Some(lk.key)).sent;
    ReadAllConcat(ch, [drop] + inner, tail, env);
    ReadAllConcat(ch, [drop], inner, env);
    DropKey(ch, ch.key.value, env);
    assert [drop][1..] == [];
  }

  lemma ModesMeet(ch: Chan, lk: Lock, a: set<char>, m1: set<char>, m2: set<char>, m3: set<char>)
    requires a == lk.on - ch.mode
    requires m1 == ch.mode + lk.on * FLAGS
    requires m2 == m1 - lk.off * FLAGS
    requires m3 == (ch.mode + {}) - m1 * lk.off * FLAGS
    ensures (m3 + a * FLAGS) - m2 * lk.off * FLAGS == m2 + a * lk.off * FLAGS
  {
  }
}

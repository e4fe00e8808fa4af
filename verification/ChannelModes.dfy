/** Channel modes as values: the reading of a MODE command (`do_cmode`), the repair of a
    channel against its mode lock (`check_modes`) with the commands it sends, and what
    the two promise about each other.

    A binary mode bit CMODE_x is represented by its letter 'x'; the lock's CMODE_k and
    CMODE_l by 'k' and 'l'. A user is known by his nick in lower case, which is how the
    program compares nicks. */
module ChannelModes {
  import opened CText

  datatype Ban = Ban(mask: string, time: int)

  /** The part of a channel record that modes touch. */
  datatype Chan = Chan(
    mode: set<char>,
    limit: uint32,
    key: Option<string>,
    bans: seq<Ban>,
    ops: seq<string>,
    voices: seq<string>)

  /** The mode-lock columns of a registered channel. */
  datatype Lock = Lock(on: set<char>, off: set<char>, limit: uint32, key: string)

  /** What a MODE command reads besides its text: the clock, who is online, and whom
      `check_valid_op` lets be opped. */
  datatype Env = Env(now: int, online: set<string>, mayOp: set<string>)

  /** A MODE command on the channel: mode letters and parameters. */
  datatype Cmd = Cmd(modes: string, params: seq<string>)

  const FLAGS: set<char> := {'i', 'm', 'M', 'n', 'p', 's', 't', 'c', 'O', 'R'}

  // ----- reading a MODE command -----

  /** The variables of the loop in `do_cmode`: `ac` counts the parameters not yet used,
      `av` is what the parameter pointer still points at. */
  datatype Cursor = Cursor(ch: Chan, add: bool, ac: int, av: seq<string>)

  /** No parameter is read past the end. */
  predicate Aligned(cur: Cursor) { cur.ac <= |cur.av| }

  function RemoveBan(bans: seq<Ban>, mask: string): (r: seq<Ban>)
    ensures |bans| - 1 <= |r| <= |bans|
  {
    if bans == [] then []
    else if bans[0].mask == mask then bans[1..]
    else [bans[0]] + RemoveBan(bans[1..], mask)
  }

  function RemoveNick(nicks: seq<string>, nick: string): seq<string> {
    if nicks == [] then []
    else if nicks[0] == nick then nicks[1..]
    else [nicks[0]] + RemoveNick(nicks[1..], nick)
  }

  function AddOp(ops: seq<string>, nick: string, env: Env): seq<string> {
    if nick in ops || nick !in env.online || nick !in env.mayOp then ops else [nick] + ops
  }

  function AddVoice(voices: seq<string>, nick: string, env: Env): seq<string> {
    if nick in voices || nick !in env.online then voices else [nick] + voices
  }

  function StepBan(cur: Cursor, env: Env): Cursor
    requires Aligned(cur) && 0 < cur.ac
  {
    var bans := if cur.add then cur.ch.bans + [Ban(cur.av[0], env.now)]
                else RemoveBan(cur.ch.bans, cur.av[0]);
    cur.(ch := cur.ch.(bans := bans), ac := cur.ac - 1, av := cur.av[1..])
  }

  function StepOp(cur: Cursor, env: Env): Cursor
    requires Aligned(cur) && 0 < cur.ac
  {
    var nick := Fold(cur.av[0]);
    var ops := if cur.add then AddOp(cur.ch.ops, nick, env) else RemoveNick(cur.ch.ops, nick);
    cur.(ch := cur.ch.(ops := ops), ac := cur.ac - 1, av := cur.av[1..])
  }

  function StepVoice(cur: Cursor, env: Env): Cursor
    requires Aligned(cur) && 0 < cur.ac
  {
    var nick := Fold(cur.av[0]);
    var voices := if cur.add then AddVoice(cur.ch.voices, nick, env)
                  else RemoveNick(cur.ch.voices, nick);
    cur.(ch := cur.ch.(voices := voices), ac := cur.ac - 1, av := cur.av[1..])
  }

  /** One turn of the loop over the mode letters. A letter that wants a parameter when
      none is left still lowers the count; `-k` uses up a parameter of the count but
      leaves the pointer where it is. */
  function Step(cur: Cursor, c: char, env: Env): (r: Cursor)
    requires Aligned(cur)
    ensures Aligned(r)
  {
    if c == '+' then cur.(add := true)
    else if c == '-' then cur.(add := false)
    else if c in FLAGS then
      cur.(ch := cur.ch.(mode := if cur.add then cur.ch.mode + {c} else cur.ch.mode - {c}))
    else if c == 'l' && !cur.add then cur.(ch := cur.ch.(limit := 0))
    else if c !in {'k', 'l', 'b', 'o', 'v'} then cur
    else if cur.ac <= 0 then cur.(ac := cur.ac - 1)
    else if c == 'k' then
      if cur.add then cur.(ch := cur.ch.(key := Some(cur.av[0])), ac := cur.ac - 1, av := cur.av[1..])
      else cur.(ch := cur.ch.(key := None), ac := cur.ac - 1)
    else if c == 'l' then
      cur.(ch := cur.ch.(limit := Strtoul(Scan(cur.av[0]))), ac := cur.ac - 1, av := cur.av[1..])
    else if c == 'b' then StepBan(cur, env)
    else if c == 'o' then StepOp(cur, env)
    else StepVoice(cur, env)
  }

  function Run(cur: Cursor, s: string, env: Env): (r: Cursor)
    requires Aligned(cur)
    ensures Aligned(r)
    decreases s
  {
    if s == [] then cur else Run(Step(cur, s[0], env), s[1..], env)
  }

  /** The channel after the loop of `do_cmode`, before the lock is checked. */
  function Read(ch: Chan, cmd: Cmd, env: Env): Chan {
    Run(Cursor(ch, true, |cmd.params|, cmd.params), cmd.modes, env).ch
  }

  /** The channel after reading a list of commands one after the other. */
  function ReadAll(ch: Chan, cmds: seq<Cmd>, env: Env): Chan
    decreases cmds
  {
    if cmds == [] then ch else ReadAll(Read(ch, cmds[0], env), cmds[1..], env)
  }

  // ----- repairing a channel against its lock -----

  function Put(c: char, s: set<char>): (r: string)
    ensures |r| <= 1
  {
    if c in s then [c] else []
  }

  /** The order in which both halves of `check_modes` test the flags. */
  const ORDER: string := "imMnpstcOR"

  /** The letters of `order` that are in `s`, in that order. */
  function Pick(order: string, s: set<char>): (r: string)
    ensures |r| <= |order|
  {
    if order == [] then [] else Pick(order[..|order| - 1], s) + Put(order[|order| - 1], s)
  }

  function Letters(s: set<char>): string { Pick(ORDER, s) }

  function Signed(sign: char, letters: string): string {
    if letters == [] then [] else [sign] + letters
  }

  /** The channel has a key and the lock wants another one. */
  predicate KeyClash(ch: Chan, lk: Lock) {
    ch.key.Some? && lk.key != [] && ch.key.value != lk.key
  }

  predicate KeyMissing(ch: Chan, lk: Lock) {
    ch.key.None? && lk.key != []
  }

  predicate LimitWanted(ch: Chan, lk: Lock) {
    lk.limit != 0 && lk.limit != ch.limit
  }

  datatype Outcome = Outcome(ch: Chan, sent: seq<Cmd>)

  /** The lock's modes, limit and, unless the channel has another one, key are set. */
  function SetOn(ch: Chan, lk: Lock): Chan {
    ch.(mode := ch.mode + lk.on * FLAGS, limit := if lk.limit != 0 then lk.limit else ch.limit)
  }

  function SetOff(ch: Chan, lk: Lock): Chan {
    ch.(mode := ch.mode - lk.off * FLAGS,
        key := if 'k' in lk.off then None else ch.key,
        limit := if 'l' in lk.off then 0 else ch.limit)
  }

  /** Reading "-k" with the present key leaves the channel without a key. */
  lemma DropKey(ch: Chan, k: string, env: Env)
    ensures Read(ch, Cmd("-k", [k]), env) == ch.(key := None)
  {
    var c0 := Cursor(ch, true, 1, [k]);
    assert "-k"[1..] == "k" && "k"[1..] == [];
    assert Step(c0, '-', env) == c0.(add := false);
    assert Run(c0, "-k", env) == Run(c0.(add := false), "k", env);
    assert Run(c0.(add := false), "k", env) == Run(Step(c0.(add := false), 'k', env), [], env);
  }

  /** `check_modes`: the channel it leaves and the commands it sends. When the key has to
      change it drops the old one through `do_cmode`, which checks the modes again. */
  function CheckModes(ch: Chan, lk: Lock, env: Env): Outcome
    decreases if KeyClash(ch, lk) then 2 else 0
  {
    var on := Letters(lk.on - ch.mode);
    var l := if LimitWanted(ch, lk) then "l" else "";
    var ch1 := SetOn(ch, lk);
    if KeyClash(ch, lk) then
      DropKey(ch1, ch.key.value, env);
      var drop := Cmd("-k", [ch.key.value]);
      var inner := DoCmode(ch1, drop, lk, env);
      Finish(ch, on + l + "k", inner.ch.(key := Some(lk.key)), lk, [drop] + inner.sent, Some(lk.key))
    else if KeyMissing(ch, lk) then
      Finish(ch, on + l + "k", ch1.(key := Some(lk.key)), lk, [], Some(lk.key))
    else
      Finish(ch, on + l, ch1, lk, [], None)
  }

  /** `do_cmode`: read the command, then check the modes. */
  function DoCmode(ch: Chan, cmd: Cmd, lk: Lock, env: Env): Outcome
    decreases if KeyClash(Read(ch, cmd, env), lk) then 3 else 1
  {
    CheckModes(Read(ch, cmd, env), lk, env)
  }

  /** The second half of `check_modes`: `was` is the channel at the start, `ch` the channel
      after the first half, `plus` the letters collected so far, `before` the commands
      already sent and `key` the new key if one was set. */
  function Finish(was: Chan, plus: string, ch: Chan, lk: Lock, before: seq<Cmd>, key: Option<string>): Outcome {
    var dropKey := ch.key.Some? && 'k' in lk.off;
    var dropLimit := ch.limit != 0 && 'l' in lk.off;
    var minus := Letters(ch.mode * lk.off) + (if dropKey then "k" else "") + (if dropLimit then "l" else "");
    var ch2 := SetOff(ch, lk);
    var modes := Signed('+', plus) + Signed('-', minus);
    var keyText :=
      if LimitWanted(was, lk) then (if ch2.key.Some? then ch2.key.value else "")
      else if dropKey then ch.key.value
      else if key.Some? then key.value else "";
    var params := (if LimitWanted(was, lk) then [PrintD(lk.limit)] else [])
                  + (if key.Some? || dropKey then [keyText] else []);
    Outcome(ch2, if modes == [] then before else before + [Cmd(modes, params)])
  }
}

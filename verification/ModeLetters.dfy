/** What each letter of a MODE command is for, said of a command that is read (`do_cmode`): who is
    an op or has voice afterwards, which ban is there, which flag is set, and that nothing else
    changes. */
module ModeLetters {
  import opened CText
  import opened SeqSets
  import opened ChannelModes
  import opened ModeReplay
  import ChannelMembers
  import ChannelRecord

  /** `now` holds who was in `was`, and the user, if he may come in. */
  ghost predicate Gained(was: seq<string>, now: seq<string>, nick: string, may: bool) {
    forall x :: x in now <==> x in was || (x == nick && may)
  }

  /** `now` holds who was in `was`, but not the user. */
  ghost predicate Lost(was: seq<string>, now: seq<string>, nick: string) {
    forall x :: x in now <==> x in was && x != nick
  }

  /** One letter that takes the first parameter leaves the others for the letters after it. */
  ghost predicate TakesOne(cur: Cursor, next: Cursor) {
    next.add == cur.add && next.ac == cur.ac - 1 && |cur.av| > 0 && next.av == cur.av[1..]
  }

  lemma PushedIn(part: seq<string>, nick: string)
    ensures forall x :: x in [nick] + part <==> x in part || x == nick
  {
  }

  // ----- one letter of many -----

  /** +o makes an op of a user who is online and may be one, and of nobody else. */
  lemma OpGained(cur: Cursor, env: Env)
    requires cur.add && 0 < cur.ac <= |cur.av|
    ensures var next, nick := Step(cur, 'o', env), Fold(cur.av[0]);
            && TakesOne(cur, next) && next.ch == cur.ch.(ops := next.ch.ops)
            && Gained(cur.ch.ops, next.ch.ops, nick, nick in env.online && nick in env.mayOp)
  {
    PushedIn(cur.ch.ops, Fold(cur.av[0]));
  }

  /** -o takes the op from the user, and from nobody else. */
  lemma OpLost(cur: Cursor, env: Env)
    requires !cur.add && 0 < cur.ac <= |cur.av| && Distinct(cur.ch.ops)
    ensures var next := Step(cur, 'o', env);
            && TakesOne(cur, next) && next.ch == cur.ch.(ops := next.ch.ops)
            && Lost(cur.ch.ops, next.ch.ops, Fold(cur.av[0]))
  {
    ChannelMembers.Removed(cur.ch.ops, Fold(cur.av[0]));
  }

  /** +v gives voice to a user who is online. */
  lemma VoiceGained(cur: Cursor, env: Env)
    requires cur.add && 0 < cur.ac <= |cur.av|
    ensures var next, nick := Step(cur, 'v', env), Fold(cur.av[0]);
            && TakesOne(cur, next) && next.ch == cur.ch.(voices := next.ch.voices)
            && Gained(cur.ch.voices, next.ch.voices, nick, nick in env.online)
  {
    PushedIn(cur.ch.voices, Fold(cur.av[0]));
  }

  lemma VoiceLost(cur: Cursor, env: Env)
    requires !cur.add && 0 < cur.ac <= |cur.av| && Distinct(cur.ch.voices)
    ensures var next := Step(cur, 'v', env);
            && TakesOne(cur, next) && next.ch == cur.ch.(voices := next.ch.voices)
            && Lost(cur.ch.voices, next.ch.voices, Fold(cur.av[0]))
  {
    ChannelMembers.Removed(cur.ch.voices, Fold(cur.av[0]));
  }

  // ----- a command with one letter -----

  lemma ReadLetter(ch: Chan, sign: char, c: char, param: string, env: Env)
    requires sign == '+' || sign == '-'
    ensures Read(ch, Cmd([sign, c], [param]), env) == Step(Cursor(ch, sign == '+', 1, [param]), c, env).ch
  {
    RunTwo(Cursor(ch, true, 1, [param]), sign, c, env);
  }

  /** "MODE +o nick" and "MODE -o nick". */
  lemma ReadOp(ch: Chan, add: bool, nick: string, env: Env)
    requires Distinct(ch.ops)
    ensures var a := Read(ch, Cmd([if add then '+' else '-', 'o'], [nick]), env);
            && a == ch.(ops := a.ops)
            && if add then Gained(ch.ops, a.ops, Fold(nick), Fold(nick) in env.online && Fold(nick) in env.mayOp)
               else Lost(ch.ops, a.ops, Fold(nick))
  {
    ReadLetter(ch, if add then '+' else '-', 'o', nick, env);
    if add {
      OpGained(Cursor(ch, true, 1, [nick]), env);
    } else {
      OpLost(Cursor(ch, false, 1, [nick]), env);
    }
  }

  /** "MODE +v nick" and "MODE -v nick". */
  lemma ReadVoice(ch: Chan, add: bool, nick: string, env: Env)
    requires Distinct(ch.voices)
    ensures var a := Read(ch, Cmd([if add then '+' else '-', 'v'], [nick]), env);
            && a == ch.(voices := a.voices)
            && if add then Gained(ch.voices, a.voices, Fold(nick), Fold(nick) in env.online)
               else Lost(ch.voices, a.voices, Fold(nick))
  {
    ReadLetter(ch, if add then '+' else '-', 'v', nick, env);
    if add {
      VoiceGained(Cursor(ch, true, 1, [nick]), env);
    } else {
      VoiceLost(Cursor(ch, false, 1, [nick]), env);
    }
  }

  /** "MODE +b mask" puts a ban of now at the end; "MODE -b mask" takes off the first ban with
      the mask, if there is one. */
  lemma ReadBan(ch: Chan, mask: string, k: nat, env: Env)
    requires k <= |ch.bans| && forall i :: 0 <= i < k ==> ch.bans[i].mask != mask
    requires k < |ch.bans| ==> ch.bans[k].mask == mask
    ensures Read(ch, Cmd(['+', 'b'], [mask]), env) == ch.(bans := ch.bans + [Ban(mask, env.now)])
    ensures Read(ch, Cmd(['-', 'b'], [mask]), env)
            == if k < |ch.bans| then ch.(bans := ch.bans[..k] + ch.bans[k + 1..]) else ch
  {
    ReadLetter(ch, '+', 'b', mask, env);
    ReadLetter(ch, '-', 'b', mask, env);
    ChannelRecord.RemoveBanAt(ch.bans, mask, k);
  }

  /** The binary modes are i, m, M, n, p, s, t, c, O and R. */
  lemma ReadFlag(ch: Chan, c: char, env: Env)
    requires c in ['i', 'm', 'M', 'n', 'p', 's', 't', 'c', 'O', 'R']
    ensures Read(ch, Cmd(['+', c], []), env) == ch.(mode := ch.mode + {c})
    ensures Read(ch, Cmd(['-', c], []), env) == ch.(mode := ch.mode - {c})
  {
    RunTwo(Cursor(ch, true, 0, []), '+', c, env);
    RunTwo(Cursor(ch, true, 0, []), '-', c, env);
  }

  lemma ReadKey(ch: Chan, key: string, env: Env)
    ensures Read(ch, Cmd(['+', 'k'], [key]), env) == ch.(key := Some(key))
    ensures Read(ch, Cmd(['-', 'k'], [key]), env) == ch.(key := None)
  {
    ReadLetter(ch, '+', 'k', key, env);
    ReadLetter(ch, '-', 'k', key, env);
  }

  /** A limit is typed in decimal; "MODE -l" has no parameter. */
  lemma ReadLimit(ch: Chan, limit: uint32, env: Env)
    ensures Read(ch, Cmd(['+', 'l'], [Dec(limit)]), env) == ch.(limit := limit)
    ensures Read(ch, Cmd(['-', 'l'], []), env) == ch.(limit := 0)
  {
    ReadLetter(ch, '+', 'l', Dec(limit), env);
    WrittenIsRead(limit);
    RunTwo(Cursor(ch, true, 0, []), '-', 'l', env);
  }

  /** A letter that wants a parameter when there is none, and any other letter, does nothing. */
  lemma ReadNothing(ch: Chan, sign: char, c: char, env: Env)
    requires sign == '+' || sign == '-'
    requires c !in ['i', 'm', 'M', 'n', 'p', 's', 't', 'c', 'O', 'R'] && !(c == 'l' && sign == '-')
    ensures Read(ch, Cmd([sign, c], []), env) == ch
  {
    RunTwo(Cursor(ch, true, 0, []), sign, c, env);
  }
}

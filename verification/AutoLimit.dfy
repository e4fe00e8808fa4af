/** Automatic channel limits: SET AUTOLIMIT (src/chanserv.c) and the evaluation that moves a
    channel's limit along with the number of its users (src/channels.c), in the unsigned
    arithmetic of the program. */
module AutoLimit {
  import opened CText
  import opened ChannelModes
  import opened ModeReplay
  import ModeSync

  datatype Setting = Setting(offset: uint32, tolerance: uint32, period: uint32)

  const OFF := Setting(0, 0, 0)

  /** What SET AUTOLIMIT may leave behind. */
  predicate Sane(s: Setting) {
    s == OFF || (s.tolerance < s.offset <= 500 && 1 <= s.period <= 60)
  }

  // ----- the evaluation -----

  /** An unsigned difference stored in an `int`. */
  function ToInt(n: uint32): int {
    if n < 0x8000_0000 then n else n - UINT32_RANGE
  }

  function Wrap(n: int): uint32 { n % UINT32_RANGE }

  /** The limit after an evaluation. */
  function NewLimit(users: uint32, s: Setting, limit: uint32, allowRaise: bool): uint32 {
    var delta := ToInt(Wrap(users + s.offset - limit));
    if delta < 0 || (Wrap(delta) > s.tolerance && allowRaise) then Wrap(users + s.offset) else limit
  }

  lemma WrapOf(wanted: uint32, limit: uint32)
    ensures Wrap(wanted - limit) == if limit <= wanted then wanted - limit else wanted - limit + UINT32_RANGE
  {
  }

  /** A limit that moves becomes one more place than users and offset ask for, exactly; it moves down
      when it is above that, unless it is so far above that the difference reads as positive, and
      otherwise only if raising is allowed and it is below by more than the tolerance. */
  lemma NewLimitIff(users: uint32, s: Setting, limit: uint32, allowRaise: bool)
    requires Sane(s) && s != OFF && users + s.offset < 0x8000_0000
    ensures var wanted := users + s.offset;
            var moves := if limit <= wanted then allowRaise && wanted - limit > s.tolerance
                         else allowRaise || limit - wanted <= 0x8000_0000;
            NewLimit(users, s, limit, allowRaise) == if moves then wanted else limit
  {
    WrapOf(users + s.offset, limit);
  }

  /** With raising allowed the limit ends within the tolerance below the wanted one, with at
      least one place free, whatever it was before. */
  lemma RaisingLeavesRoom(users: uint32, s: Setting, limit: uint32)
    requires Sane(s) && s != OFF && users + s.offset < UINT32_RANGE
    ensures var r := NewLimit(users, s, limit, true);
            users < r && users + s.offset - s.tolerance <= r <= users + s.offset
  {
    var wanted := users + s.offset;
    if limit <= wanted {
      assert Wrap(wanted - limit) == wanted - limit;
    } else {
      assert Wrap(wanted - limit) == wanted - limit + UINT32_RANGE;
    }
  }

  /** With raising forbidden the limit never grows. It ends at or below the wanted one exactly
      if it was at most 2^31 above it: a larger difference reads as a positive number. */
  lemma LoweringIff(users: uint32, s: Setting, limit: uint32)
    requires Sane(s) && s != OFF && users + s.offset < 0x8000_0000
    ensures var r := NewLimit(users, s, limit, false);
            && r <= limit
            && (r <= users + s.offset <==> limit <= users + s.offset + 0x8000_0000)
  {
    var wanted := users + s.offset;
    if limit <= wanted {
      assert Wrap(wanted - limit) == wanted - limit;
    } else {
      assert Wrap(wanted - limit) == wanted - limit + UINT32_RANGE;
    }
  }

  /** The largest limit there is, which a MODE +l with "-1" sets, is not lowered for a channel
      that nobody is on. */
  lemma LargestLimitStays(s: Setting)
    requires Sane(s) && s != OFF
    ensures NewLimit(0, s, 4294967295, false) == 4294967295 > s.offset
  {
    assert Wrap(s.offset - 4294967295) == s.offset + 1;
  }

  /** The command that is sent for a new limit brings everyone who reads it to that limit. */
  lemma NewLimitIsHeard(ch: Chan, limit: uint32, env: Env)
    requires limit != 0
    ensures ReadAll(ch, ModeSync.LimitCmds(limit), env) == ch.(limit := limit)
  {
    ModeSync.ReadOne(ch, 'l', PrintD(limit), env);
    PrintedLimitReadsBack(limit);
    assert ModeSync.LimitCmds(limit)[1..] == [];
  }

  /** An evaluation does not look at the mode lock. On a channel the lock holds on, it leaves the
      limit as the lock wants it if and only if the lock leaves the limit open, or locks it on
      within the tolerance of the wanted one. */
  lemma EvaluationKeepsLockIff(ch: Chan, lk: Lock, users: uint32, s: Setting)
    requires Sane(s) && s != OFF && users + s.offset < UINT32_RANGE && Repaired(ch, lk) == ch
    ensures var after := ch.(limit := NewLimit(users, s, ch.limit, true));
            Repaired(after, lk).limit == after.limit
            <==> 'l' !in lk.off
                 && (lk.limit == 0 || users + s.offset - s.tolerance <= lk.limit <= users + s.offset)
  {
    RaisingLeavesRoom(users, s, ch.limit);
    var wanted := users + s.offset;
    if wanted - s.tolerance <= ch.limit <= wanted {
      assert Wrap(wanted - ch.limit) == wanted - ch.limit;
    }
  }

  // ----- the parameter -----

  function SkipColons(s: string): (r: string)
    ensures |r| <= |s|
  {
    if s != [] && s[0] == ':' then SkipColons(s[1..]) else s
  }

  function ColonAt(s: string): (k: nat)
    ensures k <= |s| && ':' !in s[..k]
    ensures k < |s| ==> s[k] == ':'
  {
    if s == [] || s[0] == ':' then 0 else 1 + ColonAt(s[1..])
  }

  datatype Split = NoToken | Token(token: string, rest: string)

  /** `strtok(s, ":")`. */
  function Strtok(s: string): Split {
    var t := SkipColons(s);
    var k := ColonAt(t);
    if t == [] then NoToken else Token(t[..k], if k < |t| then t[k + 1..] else [])
  }

  function Atoi(s: string): uint32 { Strtol(Scan(s)) }

  datatype Answer = Syntax | Changed(setting: Setting)

  function Min(a: uint32, b: uint32): uint32 { if a < b then a else b }

  /** Three numbers as they are stored. */
  function Clamp(offset: uint32, tolerance: uint32, period: uint32): Setting
    requires offset > 0
  {
    var o := Min(offset, 500);
    Setting(o, Min(tolerance, o - 1), if period == 0 then 1 else Min(period, 60))
  }

  /** What a parameter asks for: ON, OFF, an offset that is zero, or three numbers. */
  function Asked(param: string): Answer {
    if Fold(param) == "on" then Changed(Setting(5, 2, 2))
    else if Fold(param) == "off" then Changed(OFF)
    else match Strtok(param)
      case NoToken => Syntax
      case Token(first, rest) =>
        if Atoi(first) == 0 then Changed(OFF)
        else match Strtok(rest)
          case NoToken => Syntax
          case Token(second, third) =>
            if third == [] then Syntax else Changed(Clamp(Atoi(first), Atoi(second), Atoi(third)))
  }

  /** Every accepted setting is sane. */
  lemma AskedIsSane(param: string)
    ensures Asked(param).Changed? ==> Sane(Asked(param).setting)
  {
    assert forall offset, tolerance, period :: offset > 0 ==> Sane(Clamp(offset, tolerance, period));
  }

  lemma {:induction false} ColonAtEnd(ds: string, rest: string)
    requires AllDigits(ds)
    ensures ColonAt(ds + ":" + rest) == |ds|
  {
    if ds == [] {
      assert ds + ":" + rest == ":" + rest;
    } else {
      assert (ds + ":" + rest)[1..] == ds[1..] + ":" + rest;
      ColonAtEnd(ds[1..], rest);
    }
  }

  lemma StrtokDec(n: nat, rest: string)
    ensures Strtok(Dec(n) + ":" + rest) == Token(Dec(n), rest)
  {
    DecIsNumeral(n);
    var s := Dec(n) + ":" + rest;
    assert IsDigit(s[0]);
    ColonAtEnd(Dec(n), rest);
    assert s[..|Dec(n)|] == Dec(n);
    assert s[|Dec(n)| + 1..] == rest;
  }

  lemma AtoiDec(n: uint32)
    ensures Atoi(Dec(n)) == n
  {
    WrittenIsRead(n);
  }

  lemma DigitIsNoWord(param: string)
    requires param != [] && IsDigit(param[0])
    ensures Fold(param) != "on" && Fold(param) != "off"
  {
    assert Fold(param)[0] == param[0];
  }

  lemma AskedForThree(param: string, rest: string, first: string, second: string, third: string)
    requires param != [] && IsDigit(param[0])
    requires Strtok(param) == Token(first, rest) && Strtok(rest) == Token(second, third) && third != []
    ensures Asked(param)
            == Changed(if Atoi(first) > 0 then Clamp(Atoi(first), Atoi(second), Atoi(third)) else OFF)
  {
    DigitIsNoWord(param);
  }

  lemma Numerals(first: nat, rest: string)
    ensures Dec(first) != [] && (Dec(first) + ":" + rest) != [] && IsDigit((Dec(first) + ":" + rest)[0])
  {
    DecIsNumeral(first);
  }

  /** The setting as it is typed. */
  function Written(s: Setting): string { Dec(s.offset) + ":" + (Dec(s.tolerance) + ":" + Dec(s.period)) }

  /** ON stands for 5:2:2 and OFF for no limit, in any case. */
  lemma AskedWords(param: string)
    ensures Fold(param) == "on" ==> Asked(param) == Changed(Setting(5, 2, 2))
    ensures Fold(param) == "off" ==> Asked(param) == Changed(Setting(0, 0, 0))
  {
    assert "on"[1] != "off"[1];
  }

  lemma AtoiDecs(a: uint32, b: uint32, c: uint32)
    ensures Atoi(Dec(a)) == a && Atoi(Dec(b)) == b && Atoi(Dec(c)) == c
  {
    AtoiDec(a);
    AtoiDec(b);
    AtoiDec(c);
  }

  lemma ClampIs(a: uint32, b: uint32, c: uint32, s: Setting)
    requires a > 0 && s.offset == if a > 500 then 500 else a
    requires s.tolerance == if b < s.offset then b else s.offset - 1
    requires s.period == if c == 0 then 1 else if c > 60 then 60 else c
    ensures Clamp(a, b, c) == s
  {
  }

  /** Three numbers are stored with the offset cut to 500, the tolerance to less than the offset and
      the period to 1 to 60; an offset of 0 turns the limit off. */
  lemma AskedNumbers(a: uint32, b: uint32, c: uint32, s: Setting)
    requires s.offset == if a > 500 then 500 else a
    requires a > 0 ==> s.tolerance == if b < s.offset then b else s.offset - 1
    requires a > 0 ==> s.period == if c == 0 then 1 else if c > 60 then 60 else c
    ensures Asked(Dec(a) + ":" + (Dec(b) + ":" + Dec(c))) == Changed(if a > 0 then s else OFF)
  {
    AskedClamped(Dec(a), Dec(b), Dec(c), a, b, c);
    if a > 0 {
      ClampIs(a, b, c, s);
    }
  }

  lemma AskedClamped(x: string, y: string, z: string, a: uint32, b: uint32, c: uint32)
    requires x == Dec(a) && y == Dec(b) && z == Dec(c)
    ensures Asked(x + ":" + (y + ":" + z)) == Changed(if a > 0 then Clamp(a, b, c) else OFF)
  {
    var rest := y + ":" + z;
    Numerals(a, rest);
    Numerals(c, []);
    StrtokDec(a, rest);
    StrtokDec(b, z);
    AtoiDecs(a, b, c);
    AskedForThree(x + ":" + rest, rest, x, y, z);
  }

  /** A sane setting, written out, is stored as it was written. */
  lemma WrittenSettingIsStored(s: Setting)
    requires Sane(s) && s != OFF
    ensures Asked(Written(s)) == Changed(s)
  {
    AskedNumbers(s.offset, s.tolerance, s.period, s);
  }

  // ----- the channel -----

  class LimitedChannel {
    const registered: bool
    var users: seq<string>
    var limit: uint32
    var setting: Setting
    var lastLimitTime: int

    /** The MODE commands sent so far. */
    ghost var sent: seq<Cmd>

    ghost predicate Valid()
      reads this
    {
      Sane(setting) && |users| + 500 < 0x8000_0000
    }

    /** An evaluation at `now` is due. */
    predicate Due(now: int)
      reads this
    {
      registered && setting.offset != 0 && now - lastLimitTime > 10
    }

    constructor (registered: bool)
      ensures Valid() && this.registered == registered && users == [] && setting == OFF && sent == []
    {
      this.registered := registered;
      users, limit, setting, lastLimitTime, sent := [], 0, OFF, 0, [];
    }

    /** `check_autolimit`. */
    method CheckAutolimit(now: int, allowRaise: bool)
      requires Valid()
      modifies `limit, `lastLimitTime, `sent
      ensures Valid()
      ensures sent == old(sent) + if limit == old(limit) then [] else ModeSync.LimitCmds(limit)
      ensures old(Due(now)) <==> registered && setting.offset > 0 && now - old(lastLimitTime) > 10
      ensures !old(Due(now)) ==> limit == old(limit) && lastLimitTime == old(lastLimitTime)
      ensures old(Due(now)) ==> lastLimitTime == now && limit == NewLimit(|users|, setting, old(limit), allowRaise)
      ensures old(Due(now)) && allowRaise ==>
                |users| < limit && |users| + setting.offset - setting.tolerance <= limit <= |users| + setting.offset
      ensures old(Due(now)) && !allowRaise ==>
                && limit <= old(limit)
                && (limit <= |users| + setting.offset <==> old(limit) <= |users| + setting.offset + 0x8000_0000)
    {
      if !registered || setting.offset == 0 {
        return;
      }
      if now - lastLimitTime <= 10 {
        return;
      }
      var usercnt: uint32 := 0;
      while usercnt < |users|
        invariant usercnt <= |users|
      {
        usercnt := usercnt + 1;
      }
      RaisingLeavesRoom(usercnt, setting, limit);
      LoweringIff(usercnt, setting, limit);
      var delta := ToInt(Wrap(usercnt + setting.offset - limit));
      if delta < 0 || (Wrap(delta) > setting.tolerance && allowRaise) {
        limit := Wrap(usercnt + setting.offset);
        sent := sent + [Cmd(['+', 'l'], [PrintD(limit)])];
      }
      lastLimitTime := now;
    }

    /** The corrections of numbers that make no sense. */
    static method MakeSane(o: uint32, t: uint32, p: uint32)
      returns (offset: uint32, tolerance: uint32, period: uint32)
      requires o > 0
      ensures Setting(offset, tolerance, period) == Clamp(o, t, p)
    {
      offset, tolerance, period := o, t, p;
      if offset > 500 {
        offset := 500;
      }
      if tolerance > 500 {
        tolerance := 500;
      }
      if offset <= tolerance {
        tolerance := offset - 1;
      }
      if period > 60 {
        period := 60;
      }
      if period <= 0 {
        period := 1;
      }
    }

    /** `do_set_autolimit`; the limit is evaluated at once. */
    method SetAutolimit(param: string, now: int) returns (r: Answer)
      requires Valid()
      modifies `setting, `limit, `lastLimitTime, `sent
      ensures Valid() && r == Asked(param)
      ensures setting == if r.Syntax? then old(setting) else r.setting
      ensures sent == old(sent) + if r.Syntax? then [] else if r.setting == OFF then [Cmd(['-', 'l'], [])]
                                  else if limit == old(limit) then [] else ModeSync.LimitCmds(limit)
      ensures r.Syntax? || r.setting == OFF ==> limit == old(limit) && lastLimitTime == old(lastLimitTime)
      ensures r.Changed? && r.setting != OFF && registered && now - old(lastLimitTime) > 10 ==>
                |users| < limit && |users| + setting.offset - setting.tolerance <= limit <= |users| + setting.offset
    {
      AskedIsSane(param);
      var offset, tolerance, period: uint32 := 0, 0, 0;
      var rest := "";
      if Fold(param) == "on" {
        offset, tolerance, period := 5, 2, 2;
      } else if Fold(param) == "off" {
        offset := 0;
      } else {
        match Strtok(param) {
          case NoToken => return Syntax;
          case Token(s, after) => offset, rest := Atoi(s), after;
        }
      }
      if offset <= 0 {
        setting := OFF;
        sent := sent + [Cmd(['-', 'l'], [])];
        return Changed(OFF);
      }
      if period == 0 {
        match Strtok(rest) {
          case NoToken => return Syntax;
          case Token(s, after) => tolerance, rest := Atoi(s), after;
        }
        if rest == "" {
          return Syntax;
        }
        period := Atoi(rest);
        offset, tolerance, period := MakeSane(offset, tolerance, period);
      }
      setting := Setting(offset, tolerance, period);
      r := Changed(setting);
      CheckAutolimit(now, true);
    }
  }
}

/** FloodServ (src/floodserv.c): texts that are said too often on a channel, who said them, and
    who is warned or akilled for it, against the record of everything that was said and done. */
module FloodServ {
  import opened CText
  import opened SeqSets
  import opened Dlink

  datatype Flooder = Flooder(nick: string, host: string, akilled: bool)

  /** A text on a channel. `born` is the place in the record where it was said first; the
      program has no such number. */
  datatype Entry = Entry(
    born: nat,
    chan: nat,
    text: string,
    time: int,
    repeat: nat,
    warned: bool,
    flooders: seq<Flooder>)

  datatype Config = Config(lines: int, sec: int, warnedLines: int, warnedSec: int, warnFirst: bool)

  /** The record: a text was said, its sayers were warned of, a host was akilled. */
  datatype Event =
    | Said(entry: nat, chan: nat, text: string, host: string, now: int)
    | Warned(entry: nat)
    | Akilled(entry: nat, host: string, now: int, cfg: Config)

  datatype State = State(flood: seq<Entry>, log: seq<Event>)

  /** A message to a channel; `heeded` if sender and channel are known and the sender is no
      oper, `watched` if the channel is protected. */
  datatype Msg = Msg(nick: string, host: string, chan: nat, text: string, now: int, heeded: bool, watched: bool)

  predicate SameText(a: string, b: string) { Fold(a) == Fold(b) }

  /** `strstrip`: blanks, control characters and, characters being signed, those above 127
      are left out. */
  function Strip(s: string): string {
    if s == [] then [] else (if ' ' < s[0] < 0x80 as char then [s[0]] else []) + Strip(s[1..])
  }

  /** What is left of a text, character by character. */
  lemma {:induction false} StripIs(a: string, c: char, b: string)
    ensures Strip(a + [c] + b) == Strip(a) + (if ' ' < c < 0x80 as char then [c] else []) + Strip(b)
  {
    if a == [] {
      assert [] + [c] + b == [c] + b && ([c] + b)[1..] == b;
    } else {
      assert (a + [c] + b)[1..] == a[1..] + [c] + b;
      StripIs(a[1..], c, b);
    }
  }

  // ----- what a message does -----

  predicate Expired(e: Entry, now: int, cfg: Config) {
    (!e.warned && now > e.time + cfg.sec) || (e.warned && now > e.time + cfg.warnedSec)
  }

  function Live(flood: seq<Entry>, now: int, cfg: Config): seq<Entry> {
    if flood == [] then []
    else
      var rest := Live(flood[..|flood| - 1], now, cfg);
      if Expired(flood[|flood| - 1], now, cfg) then rest else rest + [flood[|flood| - 1]]
  }

  predicate About(e: Entry, chan: nat, text: string) { e.chan == chan && SameText(text, e.text) }

  function HostAt(fs: seq<Flooder>, host: string): (k: nat)
    ensures k <= |fs| && forall i :: 0 <= i < k ==> !SameText(host, fs[i].host)
    ensures k < |fs| ==> SameText(host, fs[k].host)
  {
    if fs == [] || SameText(host, fs[0].host) then 0
    else
      var k := 1 + HostAt(fs[1..], host);
      assert forall i :: 1 <= i < k ==> fs[i] == fs[1..][i - 1];
      k
  }

  function AddFlooder(fs: seq<Flooder>, nick: string, host: string): seq<Flooder> {
    if HostAt(fs, host) < |fs| then fs else [Flooder(nick, host, false)] + fs
  }

  datatype Effect = Effect(entry: Entry, log: seq<Event>)

  function Akill(e: Entry, i: nat): Entry
    requires i < |e.flooders|
  {
    e.(flooders := e.flooders[i := e.flooders[i].(akilled := true)])
  }

  /** Akills of the hosts from place `i` on. */
  function Kill(e: Entry, i: nat, log: seq<Event>, now: int, cfg: Config): Effect
    requires i <= |e.flooders|
    decreases |e.flooders| - i
  {
    if i == |e.flooders| then Effect(e, log)
    else if e.flooders[i].akilled then Kill(e, i + 1, log, now, cfg)
    else Kill(Akill(e, i), i + 1, log + [Akilled(e.born, e.flooders[i].host, now, cfg)], now, cfg)
  }

  /** What is done about an entry when its text was said again. */
  function Punish(e: Entry, log: seq<Event>, now: int, cfg: Config): Effect {
    if e.repeat < cfg.lines then Effect(e, log)
    else if now <= e.time + cfg.sec then
      if cfg.warnFirst && !e.warned then Effect(e.(warned := true), log + [Warned(e.born)])
      else Kill(e, 0, log, now, cfg)
    else if now <= e.time + cfg.warnedSec && e.warned && e.repeat >= cfg.warnedLines then Kill(e, 0, log, now, cfg)
    else Effect(e, log)
  }

  function Place(flood: seq<Entry>, chan: nat, text: string): (k: nat)
    ensures k <= |flood| && forall i :: 0 <= i < k ==> !About(flood[i], chan, text)
    ensures k < |flood| ==> About(flood[k], chan, text)
  {
    if flood == [] || About(flood[0], chan, text) then 0
    else
      var k := 1 + Place(flood[1..], chan, text);
      assert forall i :: 1 <= i < k ==> flood[i] == flood[1..][i - 1];
      k
  }

  function Again(e: Entry, m: Msg): Entry {
    e.(flooders := AddFlooder(e.flooders, m.nick, m.host), repeat := e.repeat + 1)
  }

  function SaidNow(born: nat, m: Msg): Event { Said(born, m.chan, Strip(m.text), m.host, m.now) }

  function Fresh(born: nat, m: Msg): Entry {
    Entry(born, m.chan, Strip(m.text), m.now, 1, false, [Flooder(m.nick, m.host, false)])
  }

  /** `privmsg_flood`. */
  function Hear(st: State, m: Msg, cfg: Config): State {
    if !m.heeded then st
    else
      var flood := Live(st.flood, m.now, cfg);
      if !m.watched then st.(flood := flood)
      else
        var k := Place(flood, m.chan, Strip(m.text));
        if k == |flood| then State([Fresh(|st.log|, m)] + flood, st.log + [SaidNow(|st.log|, m)])
        else
          var r := Punish(Again(flood[k], m), st.log + [SaidNow(flood[k].born, m)], m.now, cfg);
          State(flood[k := r.entry], r.log)
  }

  // ----- what the record may hold -----

  /** How often the text of an entry was said. */
  function Lines(log: seq<Event>, born: nat): nat {
    if log == [] then 0
    else Lines(log[..|log| - 1], born)
         + (if log[|log| - 1].Said? && log[|log| - 1].entry == born then 1 else 0)
  }

  predicate SaidBy(log: seq<Event>, born: nat, host: string) {
    exists ev :: ev in log && ev.Said? && ev.entry == born && SameText(ev.host, host)
  }

  predicate AkilledBefore(log: seq<Event>, born: nat, host: string) {
    exists ev :: ev in log && ev.Akilled? && ev.entry == born && SameText(ev.host, host)
  }

  predicate Begins(log: seq<Event>, born: nat) {
    born < |log| && log[born].Said? && log[born].entry == born
  }

  /** An akill hits a host that said the text, after enough repeats, in the window that began
      when the text was first said; the host was not akilled for this entry before, and if
      there is to be a warning first there was one. */
  predicate JustAkill(log: seq<Event>, ev: Event)
    requires ev.Akilled?
  {
    && Begins(log, ev.entry)
    && SaidBy(log, ev.entry, ev.host)
    && !AkilledBefore(log, ev.entry, ev.host)
    && Lines(log, ev.entry) >= ev.cfg.lines
    && (|| ev.now <= log[ev.entry].now + ev.cfg.sec
        || (&& ev.now <= log[ev.entry].now + ev.cfg.warnedSec
            && Warned(ev.entry) in log
            && Lines(log, ev.entry) >= ev.cfg.warnedLines))
    && (ev.cfg.warnFirst ==> Warned(ev.entry) in log)
  }

  /** The event may follow the record. */
  predicate Just(log: seq<Event>, ev: Event) {
    match ev
    case Said(born, chan, text, _, _) =>
      || born == |log|
      || (Begins(log, born) && log[born].chan == chan && SameText(text, log[born].text))
    case Warned(born) => Begins(log, born) && ev !in log
    case Akilled(_, _, _, _) => JustAkill(log, ev)
  }

  predicate AllJust(log: seq<Event>) {
    forall i {:trigger log[..i]} :: 0 <= i < |log| ==> Just(log[..i], log[i])
  }

  /** The entry agrees with the record: since when, how often and by whom the text was said,
      each sayer once, who was akilled and whether there was a warning. */
  ghost predicate Recorded(e: Entry, log: seq<Event>) {
    && Begins(log, e.born)
    && log[e.born].chan == e.chan && log[e.born].text == e.text && log[e.born].now == e.time
    && e.repeat == Lines(log, e.born)
    && (e.warned <==> Warned(e.born) in log)
    && (forall i, j :: 0 <= i < j < |e.flooders| ==> !SameText(e.flooders[i].host, e.flooders[j].host))
    && (forall f :: f in e.flooders ==> SaidBy(log, e.born, f.host))
    && (forall f :: f in e.flooders ==> (f.akilled <==> AkilledBefore(log, e.born, f.host)))
    && (forall host :: AkilledBefore(log, e.born, host) ==> SaidBy(log, e.born, host))
    && (forall host {:trigger HostAt(e.flooders, host)} :: SaidBy(log, e.born, host) ==>
          HostAt(e.flooders, host) < |e.flooders|)
  }

  predicate OneEach(flood: seq<Entry>) {
    forall i, j :: 0 <= i < j < |flood| ==> !About(flood[i], flood[j].chan, flood[j].text)
  }

  ghost predicate AllRecorded(flood: seq<Entry>, log: seq<Event>) {
    forall i :: 0 <= i < |flood| ==> Recorded(flood[i], log)
  }

  /** One entry per channel and text, all of them as recorded, in a record of just events. */
  ghost predicate Sound(st: State) {
    OneEach(st.flood) && AllRecorded(st.flood, st.log) && AllJust(st.log)
  }

  lemma JustMore(log: seq<Event>, ev: Event)
    requires AllJust(log) && Just(log, ev)
    ensures AllJust(log + [ev])
  {
    var more := log + [ev];
    forall i | 0 <= i < |more| ensures Just(more[..i], more[i]) {
      if i < |log| {
        assert more[..i] == log[..i];
      } else {
        assert more[..i] == log;
      }
    }
  }

  lemma LinesMore(log: seq<Event>, ev: Event, born: nat)
    ensures Lines(log + [ev], born) == Lines(log, born) + if ev.Said? && ev.entry == born then 1 else 0
  {
    assert (log + [ev])[..|log|] == log;
  }

  /** What an event adds to the two questions about hosts. */
  lemma HostsMore(log: seq<Event>, ev: Event, born: nat, host: string)
    ensures SaidBy(log + [ev], born, host)
            <==> SaidBy(log, born, host) || (ev.Said? && ev.entry == born && SameText(ev.host, host))
    ensures AkilledBefore(log + [ev], born, host)
            <==> AkilledBefore(log, born, host) || (ev.Akilled? && ev.entry == born && SameText(ev.host, host))
  {
    if e :| e in log && e.Said? && e.entry == born && SameText(e.host, host) {
      assert e in log + [ev];
    }
    if e :| e in log && e.Akilled? && e.entry == born && SameText(e.host, host) {
      assert e in log + [ev];
    }
    assert ev in log + [ev];
  }

  /** An event of another entry. */
  lemma Unmoved(e: Entry, log: seq<Event>, ev: Event)
    requires Recorded(e, log) && ev.entry != e.born
    ensures Recorded(e, log + [ev])
  {
    LinesMore(log, ev, e.born);
    forall host
      ensures SaidBy(log + [ev], e.born, host) <==> SaidBy(log, e.born, host)
      ensures AkilledBefore(log + [ev], e.born, host) <==> AkilledBefore(log, e.born, host)
    {
      HostsMore(log, ev, e.born, host);
    }
  }

  lemma AllUnmoved(flood: seq<Entry>, log: seq<Event>, ev: Event)
    requires AllRecorded(flood, log)
    requires forall i :: 0 <= i < |flood| ==> flood[i].born != ev.entry
    ensures AllRecorded(flood, log + [ev])
  {
    forall i | 0 <= i < |flood| ensures Recorded(flood[i], log + [ev]) {
      Unmoved(flood[i], log, ev);
    }
  }

  /** The first time a text is said. */
  lemma FreshIsRecorded(log: seq<Event>, m: Msg)
    requires AllJust(log)
    ensures Recorded(Fresh(|log|, m), log + [SaidNow(|log|, m)])
  {
    var ev := SaidNow(|log|, m);
    NothingAhead(log, |log|);
    LinesMore(log, ev, |log|);
    forall host
      ensures SaidBy(log + [ev], |log|, host) <==> SameText(m.host, host)
      ensures !AkilledBefore(log + [ev], |log|, host)
    {
      HostsMore(log, ev, |log|, host);
    }
  }

  /** No event is of an entry that is yet to come. */
  lemma {:induction false} NothingAhead(log: seq<Event>, born: nat)
    requires AllJust(log) && born >= |log|
    ensures Lines(log, born) == 0 && forall ev :: ev in log ==> ev.entry != born
  {
    if log != [] {
      var front, last := log[..|log| - 1], log[|log| - 1];
      assert log[..|log| - 1] == front && Just(front, last);
      assert AllJust(front) by {
        forall i | 0 <= i < |front| ensures Just(front[..i], front[i]) {
          assert front[..i] == log[..i];
        }
      }
      NothingAhead(front, born);
      assert log == front + [last];
    }
  }

  /** The hosts after one more was noted: the same, or one more that was not among them. */
  lemma AddedFlooder(fs: seq<Flooder>, nick: string, host: string)
    requires forall i, j :: 0 <= i < j < |fs| ==> !SameText(fs[i].host, fs[j].host)
    ensures var more := AddFlooder(fs, nick, host);
            && (forall i, j :: 0 <= i < j < |more| ==> !SameText(more[i].host, more[j].host))
            && (forall f :: f in more ==> f in fs || (f == Flooder(nick, host, false) && HostAt(fs, host) == |fs|))
            && (forall h {:trigger HostAt(more, h)} ::
                  HostAt(fs, h) < |fs| || SameText(host, h) ==> HostAt(more, h) < |more|)
  {
    var more := AddFlooder(fs, nick, host);
    forall h | HostAt(fs, h) < |fs| || SameText(host, h) ensures HostAt(more, h) < |more| {
      if HostAt(fs, host) < |fs| {
        assert SameText(host, h) ==> SameText(h, fs[HostAt(fs, host)].host);
      } else if HostAt(fs, h) < |fs| {
        assert more[HostAt(fs, h) + 1] == fs[HostAt(fs, h)];
      } else {
        assert SameText(h, more[0].host);
      }
    }
  }

  /** The text of an entry is said again. */
  lemma AgainIsRecorded(e: Entry, log: seq<Event>, m: Msg)
    requires Recorded(e, log) && About(e, m.chan, Strip(m.text))
    ensures Recorded(Again(e, m), log + [SaidNow(e.born, m)]) && Just(log, SaidNow(e.born, m))
  {
    var ev, a := SaidNow(e.born, m), Again(e, m);
    LinesMore(log, ev, e.born);
    AddedFlooder(e.flooders, m.nick, m.host);
    forall host
      ensures SaidBy(log + [ev], e.born, host) <==> SaidBy(log, e.born, host) || SameText(m.host, host)
      ensures AkilledBefore(log + [ev], e.born, host) <==> AkilledBefore(log, e.born, host)
    {
      HostsMore(log, ev, e.born, host);
    }
    forall host | SaidBy(log + [ev], e.born, host) ensures HostAt(a.flooders, host) < |a.flooders| {
      assert SaidBy(log, e.born, host) ==> HostAt(e.flooders, host) < |e.flooders|;
    }
  }

  /** When an akill may be added to the record for the hosts of an entry. */
  predicate Deserved(e: Entry, now: int, cfg: Config) {
    && e.repeat >= cfg.lines
    && (now <= e.time + cfg.sec || (now <= e.time + cfg.warnedSec && e.warned && e.repeat >= cfg.warnedLines))
    && (cfg.warnFirst ==> e.warned)
  }

  /** An akill changes no host of the entry. */
  lemma StillListed(e: Entry, i: nat, host: string)
    requires i < |e.flooders| && HostAt(e.flooders, host) < |e.flooders|
    ensures HostAt(Akill(e, i).flooders, host) < |e.flooders|
  {
    var k := HostAt(e.flooders, host);
    assert Akill(e, i).flooders[k].host == e.flooders[k].host;
  }

  lemma OneAkill(e: Entry, i: nat, log: seq<Event>, now: int, cfg: Config)
    requires i < |e.flooders| && !e.flooders[i].akilled && Recorded(e, log) && Deserved(e, now, cfg)
    ensures var ev := Akilled(e.born, e.flooders[i].host, now, cfg);
            && Just(log, ev)
            && Recorded(Akill(e, i), log + [ev])
  {
    var ev := Akilled(e.born, e.flooders[i].host, now, cfg);
    var a := Akill(e, i);
    assert e.flooders[i] in e.flooders;
    LinesMore(log, ev, e.born);
    forall host
      ensures SaidBy(log + [ev], e.born, host) <==> SaidBy(log, e.born, host)
      ensures AkilledBefore(log + [ev], e.born, host)
              <==> AkilledBefore(log, e.born, host) || SameText(ev.host, host)
    {
      HostsMore(log, ev, e.born, host);
    }
    forall j | 0 <= j < |a.flooders|
      ensures SaidBy(log + [ev], e.born, a.flooders[j].host)
      ensures a.flooders[j].akilled <==> AkilledBefore(log + [ev], e.born, a.flooders[j].host)
    {
      assert e.flooders[j] in e.flooders;
    }
    forall host | SaidBy(log + [ev], e.born, host) ensures HostAt(a.flooders, host) < |a.flooders| {
      StillListed(e, i, host);
    }
  }

  /** The other entries, as one event of entry `born` after the other is recorded. */
  ghost predicate Others(others: seq<Entry>, born: nat, log: seq<Event>) {
    AllRecorded(others, log) && forall i :: 0 <= i < |others| ==> others[i].born != born
  }

  lemma KillStep(e: Entry, i: nat, log: seq<Event>, now: int, cfg: Config, others: seq<Entry>)
    requires i < |e.flooders| && !e.flooders[i].akilled
    requires Recorded(e, log) && AllJust(log) && Deserved(e, now, cfg) && Others(others, e.born, log)
    ensures var log' := log + [Akilled(e.born, e.flooders[i].host, now, cfg)];
            Recorded(Akill(e, i), log') && AllJust(log') && Others(others, e.born, log')
  {
    var ev := Akilled(e.born, e.flooders[i].host, now, cfg);
    OneAkill(e, i, log, now, cfg);
    JustMore(log, ev);
    AllUnmoved(others, log, ev);
  }

  lemma {:induction false} KillMarksAll(e: Entry, i: nat, log: seq<Event>, now: int, cfg: Config)
    requires i <= |e.flooders| && forall j :: 0 <= j < i ==> e.flooders[j].akilled
    ensures var r := Kill(e, i, log, now, cfg).entry;
            && r == e.(flooders := r.flooders) && |r.flooders| == |e.flooders|
            && forall j :: 0 <= j < |e.flooders| ==> r.flooders[j] == e.flooders[j].(akilled := true)
    decreases |e.flooders| - i
  {
    if i < |e.flooders| {
      if e.flooders[i].akilled {
        KillMarksAll(e, i + 1, log, now, cfg);
      } else {
        KillMarksAll(Akill(e, i), i + 1, log + [Akilled(e.born, e.flooders[i].host, now, cfg)], now, cfg);
      }
    }
  }

  lemma KillUnfolds(e: Entry, i: nat, log: seq<Event>, now: int, cfg: Config)
    requires i < |e.flooders|
    ensures Kill(e, i, log, now, cfg) ==
            if e.flooders[i].akilled then Kill(e, i + 1, log, now, cfg)
            else Kill(Akill(e, i), i + 1, log + [Akilled(e.born, e.flooders[i].host, now, cfg)], now, cfg)
  {
  }

  lemma {:induction false} KillIsJust(e: Entry, i: nat, log: seq<Event>, now: int, cfg: Config, others: seq<Entry>)
    requires i <= |e.flooders| && Recorded(e, log) && AllJust(log) && Deserved(e, now, cfg)
    requires Others(others, e.born, log)
    ensures var r := Kill(e, i, log, now, cfg);
            Recorded(r.entry, r.log) && AllJust(r.log) && Others(others, e.born, r.log)
    decreases |e.flooders| - i
  {
    if i < |e.flooders| {
      KillUnfolds(e, i, log, now, cfg);
      if e.flooders[i].akilled {
        KillIsJust(e, i + 1, log, now, cfg, others);
      } else {
        var log' := log + [Akilled(e.born, e.flooders[i].host, now, cfg)];
        KillStep(e, i, log, now, cfg, others);
        KillIsJust(Akill(e, i), i + 1, log', now, cfg, others);
      }
    }
  }

  lemma WarnIsJust(e: Entry, log: seq<Event>)
    requires Recorded(e, log) && !e.warned
    ensures Just(log, Warned(e.born)) && Recorded(e.(warned := true), log + [Warned(e.born)])
  {
    var ev := Warned(e.born);
    LinesMore(log, ev, e.born);
    forall host
      ensures SaidBy(log + [ev], e.born, host) <==> SaidBy(log, e.born, host)
      ensures AkilledBefore(log + [ev], e.born, host) <==> AkilledBefore(log, e.born, host)
    {
      HostsMore(log, ev, e.born, host);
    }
  }

  /** An akill of an entry leaves nobody out who said its text. */
  lemma EveryoneIsAkilled(e: Entry, log: seq<Event>, now: int, cfg: Config, others: seq<Entry>)
    requires Recorded(e, log) && AllJust(log) && Deserved(e, now, cfg) && Others(others, e.born, log)
    ensures var r := Kill(e, 0, log, now, cfg);
            forall host :: SaidBy(r.log, e.born, host) ==> AkilledBefore(r.log, e.born, host)
  {
    KillIsJust(e, 0, log, now, cfg, others);
    KillMarksAll(e, 0, log, now, cfg);
    var r := Kill(e, 0, log, now, cfg);
    forall host | SaidBy(r.log, e.born, host) ensures AkilledBefore(r.log, e.born, host) {
      var f := r.entry.flooders[HostAt(r.entry.flooders, host)];
      assert f in r.entry.flooders && f.akilled;
      assert AkilledBefore(r.log, e.born, f.host);
    }
  }

  /** The record goes on with akills of now for this entry, and with nothing else. */
  ghost predicate OnlyAkills(log: seq<Event>, after: seq<Event>, born: nat, now: int) {
    && |log| <= |after| && after[..|log|] == log
    && forall i :: |log| <= i < |after| ==> after[i].Akilled? && after[i].entry == born && after[i].now == now
  }

  lemma {:induction false} KillOnlyAkills(e: Entry, i: nat, log: seq<Event>, now: int, cfg: Config)
    requires i <= |e.flooders|
    ensures OnlyAkills(log, Kill(e, i, log, now, cfg).log, e.born, now)
    decreases |e.flooders| - i
  {
    if i < |e.flooders| {
      KillUnfolds(e, i, log, now, cfg);
      if e.flooders[i].akilled {
        KillOnlyAkills(e, i + 1, log, now, cfg);
      } else {
        var log' := log + [Akilled(e.born, e.flooders[i].host, now, cfg)];
        KillOnlyAkills(Akill(e, i), i + 1, log', now, cfg);
        var after := Kill(Akill(e, i), i + 1, log', now, cfg).log;
        assert after[|log|] == after[..|log'|][|log|];
        assert after[..|log|] == after[..|log'|][..|log|];
      }
    }
  }

  /** Exactly when something is done about a text that was said again. Often enough in the first
      window, it is the warning that comes first, or an akill of everyone who said it; in the second
      window a text that was warned of and was said often enough for that gets the akill. In all other
      cases nothing is done. */
  lemma PunishIff(e: Entry, log: seq<Event>, now: int, cfg: Config, others: seq<Entry>)
    requires Recorded(e, log) && AllJust(log) && Others(others, e.born, log)
    ensures var r := Punish(e, log, now, cfg);
            var often, first := e.repeat >= cfg.lines, now <= e.time + cfg.sec;
            var second := now <= e.time + cfg.warnedSec && e.warned && e.repeat >= cfg.warnedLines;
            var warn := often && first && cfg.warnFirst && !e.warned;
            var akill := often && !warn && (first || second);
            && (warn ==> r == Effect(e.(warned := true), log + [Warned(e.born)]))
            && (akill ==> OnlyAkills(log, r.log, e.born, now)
                          && r.entry == e.(flooders := r.entry.flooders)
                          && forall host :: SaidBy(r.log, e.born, host) ==> AkilledBefore(r.log, e.born, host))
            && (!warn && !akill ==> r == Effect(e, log))
  {
    if Deserved(e, now, cfg) {
      EveryoneIsAkilled(e, log, now, cfg, others);
      KillOnlyAkills(e, 0, log, now, cfg);
      KillMarksAll(e, 0, log, now, cfg);
    }
  }

  /** Whatever is done about an entry is just and recorded. Within the window of the first
      saying, a text said often enough gets everyone who said it akilled, unless this is the
      warning that comes first. */
  lemma PunishIsJust(e: Entry, log: seq<Event>, now: int, cfg: Config, others: seq<Entry>)
    requires Recorded(e, log) && AllJust(log) && Others(others, e.born, log)
    ensures var r := Punish(e, log, now, cfg);
            && Recorded(r.entry, r.log) && AllJust(r.log) && Others(others, e.born, r.log)
            && r.entry.born == e.born && r.entry.chan == e.chan && r.entry.text == e.text
            && (e.repeat >= cfg.lines && now <= e.time + cfg.sec ==>
                  if cfg.warnFirst && !e.warned then r.entry.warned
                  else forall host :: SaidBy(r.log, e.born, host) ==> AkilledBefore(r.log, e.born, host))
  {
    if e.repeat >= cfg.lines {
      if now <= e.time + cfg.sec && cfg.warnFirst && !e.warned {
        WarnIsJust(e, log);
        JustMore(log, Warned(e.born));
        AllUnmoved(others, log, Warned(e.born));
      } else if Deserved(e, now, cfg) {
        KillIsJust(e, 0, log, now, cfg, others);
        KillMarksAll(e, 0, log, now, cfg);
        EveryoneIsAkilled(e, log, now, cfg, others);
      }
    }
  }

  /** The entry is within its window, which is another one after a warning. */
  predicate Young(e: Entry, now: int, cfg: Config) {
    now <= e.time + if e.warned then cfg.warnedSec else cfg.sec
  }

  lemma {:induction false} LiveIsSound(flood: seq<Entry>, log: seq<Event>, now: int, cfg: Config)
    requires OneEach(flood) && AllRecorded(flood, log)
    ensures var live := Live(flood, now, cfg);
            && OneEach(live) && AllRecorded(live, log)
            && (forall e :: e in live <==> e in flood && Young(e, now, cfg))
  {
    if flood != [] {
      var front, last := flood[..|flood| - 1], flood[|flood| - 1];
      LiveIsSound(front, log, now, cfg);
      var rest := Live(front, now, cfg);
      assert flood == front + [last];
      forall i | 0 <= i < |rest| ensures !About(rest[i], last.chan, last.text) {
        assert rest[i] in front;
        var j :| 0 <= j < |front| && front[j] == rest[i];
        assert flood[j] == rest[i];
      }
    }
  }

  /** Entries of different texts are of different events. */
  lemma BornApart(flood: seq<Entry>, log: seq<Event>, k: nat)
    requires OneEach(flood) && AllRecorded(flood, log) && k < |flood|
    ensures forall i :: 0 <= i < |flood| && i != k ==> flood[i].born != flood[k].born
  {
    forall i | 0 <= i < |flood| && i != k ensures flood[i].born != flood[k].born {
      assert Recorded(flood[i], log) && Recorded(flood[k], log);
      if i < k {
        assert !About(flood[i], flood[k].chan, flood[k].text);
      } else {
        assert !About(flood[k], flood[i].chan, flood[i].text);
      }
    }
  }

  /** An entry is replaced by one about the same text. */
  lemma Replaced(flood: seq<Entry>, k: nat, e: Entry, log: seq<Event>)
    requires k < |flood| && OneEach(flood) && e.chan == flood[k].chan && e.text == flood[k].text
    requires Recorded(e, log) && AllRecorded(flood[..k] + flood[k + 1..], log)
    ensures OneEach(flood[k := e]) && AllRecorded(flood[k := e], log)
  {
    var others := flood[..k] + flood[k + 1..];
    forall i | 0 <= i < |flood| && i != k ensures Recorded(flood[i], log) {
      assert others[if i < k then i else i - 1] == flood[i];
    }
  }

  lemma RepeatIsRecorded(flood: seq<Entry>, log: seq<Event>, k: nat, m: Msg)
    requires Sound(State(flood, log)) && k < |flood| && About(flood[k], m.chan, Strip(m.text))
    ensures var e, others := flood[k], flood[..k] + flood[k + 1..];
            var log' := log + [SaidNow(e.born, m)];
            Recorded(Again(e, m), log') && AllJust(log') && Others(others, e.born, log')
  {
    var e, ev := flood[k], SaidNow(flood[k].born, m);
    var others := flood[..k] + flood[k + 1..];
    assert forall i :: 0 <= i < |others| ==> others[i] == flood[if i < k then i else i + 1];
    BornApart(flood, log, k);
    AgainIsRecorded(e, log, m);
    JustMore(log, ev);
    AllUnmoved(others, log, ev);
  }

  /** A text that is said again. */
  lemma RepeatIsSound(flood: seq<Entry>, log: seq<Event>, k: nat, m: Msg, cfg: Config)
    requires Sound(State(flood, log)) && k < |flood| && About(flood[k], m.chan, Strip(m.text))
    ensures var r := Punish(Again(flood[k], m), log + [SaidNow(flood[k].born, m)], m.now, cfg);
            Sound(State(flood[k := r.entry], r.log))
  {
    var e, ev := flood[k], SaidNow(flood[k].born, m);
    var others := flood[..k] + flood[k + 1..];
    RepeatIsRecorded(flood, log, k, m);
    PunishIsJust(Again(e, m), log + [ev], m.now, cfg, others);
    var r := Punish(Again(e, m), log + [ev], m.now, cfg);
    Replaced(flood, k, r.entry, r.log);
  }

  /** A text that is said for the first time. */
  lemma FreshIsSound(flood: seq<Entry>, log: seq<Event>, m: Msg)
    requires Sound(State(flood, log))
    requires forall i :: 0 <= i < |flood| ==> !About(flood[i], m.chan, Strip(m.text))
    ensures Sound(State([Fresh(|log|, m)] + flood, log + [SaidNow(|log|, m)]))
  {
    var ev := SaidNow(|log|, m);
    FreshIsRecorded(log, m);
    JustMore(log, ev);
    assert forall i :: 0 <= i < |flood| ==> Recorded(flood[i], log);
    AllUnmoved(flood, log, ev);
  }

  lemma HearIsSound(st: State, m: Msg, cfg: Config)
    requires Sound(st)
    ensures Sound(Hear(st, m, cfg))
  {
    if m.heeded {
      LiveIsSound(st.flood, st.log, m.now, cfg);
      var flood := Live(st.flood, m.now, cfg);
      if m.watched {
        var k := Place(flood, m.chan, Strip(m.text));
        if k == |flood| {
          FreshIsSound(flood, st.log, m);
        } else {
          RepeatIsSound(flood, st.log, k, m, cfg);
        }
      }
    }
  }

  /** `x` is what becomes of entry `e` when its text is said again from a host. */
  ghost predicate Follows(e: Entry, x: Entry, host: string) {
    && x.born == e.born && x.chan == e.chan && x.text == e.text && x.time == e.time
    && x.repeat == e.repeat + 1 && (e.warned ==> x.warned)
    && (exists f :: f in x.flooders && SameText(host, f.host))
  }

  lemma OnlyOnce(flood: seq<Entry>, k: nat, i: nat)
    requires OneEach(flood) && k < |flood| && i < |flood| && i != k
    ensures !About(flood[i], flood[k].chan, flood[k].text) && !About(flood[k], flood[i].chan, flood[i].text)
  {
    if i < k {
      assert !About(flood[i], flood[k].chan, flood[k].text);
    } else {
      assert !About(flood[k], flood[i].chan, flood[i].text);
    }
  }

  lemma OnePlace(flood: seq<Entry>, chan: nat, text: string, e: Entry, k: nat)
    requires OneEach(flood) && e in flood && About(e, chan, text) && k == Place(flood, chan, text)
    ensures k < |flood| && flood[k] == e
  {
    var i :| 0 <= i < |flood| && flood[i] == e;
    if i != k && k < |flood| {
      OnlyOnce(flood, k, i);
    }
  }

  lemma PunishFollows(e: Entry, log: seq<Event>, m: Msg, cfg: Config)
    ensures var again, log' := Again(e, m), log + [SaidNow(e.born, m)];
            var r := Punish(again, log', m.now, cfg);
            Follows(e, r.entry, m.host) && log' <= r.log
  {
    var again, log' := Again(e, m), log + [SaidNow(e.born, m)];
    var k := HostAt(again.flooders, m.host);
    assert k < |again.flooders| by {
      assert again.flooders != e.flooders ==> SameText(m.host, again.flooders[0].host);
    }
    KillMarksAll(again, 0, log', m.now, cfg);
    KillOnlyAkills(again, 0, log', m.now, cfg);
    var r := Punish(again, log', m.now, cfg);
    assert r.entry.flooders[k] in r.entry.flooders && SameText(m.host, r.entry.flooders[k].host);
  }

  /** A message that is not heeded does nothing; one on a channel that is not protected lets entries
      expire. */
  lemma HearElsewhere(st: State, m: Msg, cfg: Config)
    requires Sound(st) && !(m.heeded && m.watched)
    ensures var r := Hear(st, m, cfg);
            && r.log == st.log
            && (!m.heeded ==> r.flood == st.flood)
            && (m.heeded ==> forall e :: e in r.flood <==> e in st.flood && Young(e, m.now, cfg))
  {
    LiveIsSound(st.flood, st.log, m.now, cfg);
  }

  /** A text is said anew: it gets an entry with its one sayer, in front of all that have not
      expired. */
  lemma HearAnew(st: State, m: Msg, cfg: Config)
    requires Sound(st) && m.heeded && m.watched
    requires forall e :: e in st.flood && Young(e, m.now, cfg) ==> !About(e, m.chan, Strip(m.text))
    ensures var r, born, text := Hear(st, m, cfg), |st.log|, Strip(m.text);
            var e := Entry(born, m.chan, text, m.now, 1, false, [Flooder(m.nick, m.host, false)]);
            && r.log == st.log + [Said(born, m.chan, text, m.host, m.now)]
            && forall x :: x in r.flood <==> x == e || (x in st.flood && Young(x, m.now, cfg))
  {
    LiveIsSound(st.flood, st.log, m.now, cfg);
    var live := Live(st.flood, m.now, cfg);
    assert Place(live, m.chan, Strip(m.text)) == |live|;
  }

  /** The text of an entry that has not expired is said again: it counts one more and its sayer is
      among its hosts; the other entries that have not expired stay as they are. */
  lemma HearAgain(st: State, m: Msg, cfg: Config, e: Entry)
    requires Sound(st) && m.heeded && m.watched
    requires e in st.flood && Young(e, m.now, cfg) && About(e, m.chan, Strip(m.text))
    ensures var r, said := Hear(st, m, cfg), Said(e.born, m.chan, Strip(m.text), m.host, m.now);
            && st.log + [said] <= r.log
            && (exists x :: x in r.flood && Follows(e, x, m.host))
            && (forall x :: x in st.flood && Young(x, m.now, cfg) && x != e ==> x in r.flood)
            && (forall x :: x in r.flood ==>
                  Follows(e, x, m.host) || (x in st.flood && Young(x, m.now, cfg) && x != e))
  {
    LiveIsSound(st.flood, st.log, m.now, cfg);
    var live := Live(st.flood, m.now, cfg);
    var k := Place(live, m.chan, Strip(m.text));
    OnePlace(live, m.chan, Strip(m.text), e, k);
    var again, log := Again(e, m), st.log + [SaidNow(e.born, m)];
    var r := Punish(again, log, m.now, cfg);
    PunishFollows(e, st.log, m, cfg);
    var flood := live[k := r.entry];
    assert flood[k] == r.entry;
    forall x | x in live && x != e ensures x in flood {
      var i :| 0 <= i < |live| && live[i] == x;
      assert flood[i] == x;
    }
    forall x | x in flood ensures x == r.entry || (x in live && x != e) {
      var i :| 0 <= i < |flood| && flood[i] == x;
      if i != k {
        assert live[i] == x && x in live && !About(x, m.chan, Strip(m.text)) by {
          OnlyOnce(live, k, i);
        }
      }
    }
  }

  /** And this is what it brings about: within the window of the first saying a warning or an akill
      of everyone who said it, in the longer window after a warning an akill again, otherwise nothing. */
  lemma HearActs(st: State, m: Msg, cfg: Config, e: Entry)
    requires Sound(st) && m.heeded && m.watched
    requires e in st.flood && Young(e, m.now, cfg) && About(e, m.chan, Strip(m.text))
    ensures var log, after := st.log + [Said(e.born, m.chan, Strip(m.text), m.host, m.now)], Hear(st, m, cfg).log;
            var first := m.now <= e.time + cfg.sec;
            var second := m.now <= e.time + cfg.warnedSec && e.warned && e.repeat + 1 >= cfg.warnedLines;
            var warn := e.repeat + 1 >= cfg.lines && first && cfg.warnFirst && !e.warned;
            var akill := e.repeat + 1 >= cfg.lines && !warn && (first || second);
            && (warn ==> after == log + [Warned(e.born)])
            && (akill ==> OnlyAkills(log, after, e.born, m.now)
                          && forall host :: SaidBy(after, e.born, host) ==> AkilledBefore(after, e.born, host))
            && (!warn && !akill ==> after == log)
  {
    LiveIsSound(st.flood, st.log, m.now, cfg);
    var live := Live(st.flood, m.now, cfg);
    var k := Place(live, m.chan, Strip(m.text));
    OnePlace(live, m.chan, Strip(m.text), e, k);
    RepeatIsRecorded(live, st.log, k, m);
    PunishIff(Again(e, m), st.log + [SaidNow(e.born, m)], m.now, cfg, live[..k] + live[k + 1..]);
  }

  function Play(st: State, ms: seq<(Msg, Config)>): State
    decreases ms
  {
    if ms == [] then st else Play(Hear(st, ms[0].0, ms[0].1), ms[1..])
  }

  /** In every run, whatever is said and however the settings are changed between messages,
      there is one entry per channel and text, and every warning and akill was just when it
      was given. */
  lemma {:induction false} RunsAreJust(st: State, ms: seq<(Msg, Config)>)
    requires Sound(st)
    ensures Sound(Play(st, ms))
    decreases ms
  {
    if ms != [] {
      HearIsSound(st, ms[0].0, ms[0].1);
      RunsAreJust(Hear(st, ms[0].0, ms[0].1), ms[1..]);
    }
  }

  /** So every warning and akill there ever is, is just. */
  lemma EveryRunIsJust(ms: seq<(Msg, Config)>)
    ensures Sound(Play(State([], []), ms))
  {
    RunsAreJust(State([], []), ms);
  }

  // ----- the program -----

  lemma HostAtIs(fs: seq<Flooder>, host: string, k: nat)
    requires k <= |fs| && forall i :: 0 <= i < k ==> !SameText(host, fs[i].host)
    requires k < |fs| ==> SameText(host, fs[k].host)
    ensures HostAt(fs, host) == k
  {
  }

  lemma PlaceIs(flood: seq<Entry>, chan: nat, text: string, k: nat)
    requires k <= |flood| && forall i :: 0 <= i < k ==> !About(flood[i], chan, text)
    requires k < |flood| ==> About(flood[k], chan, text)
    ensures Place(flood, chan, text) == k
  {
  }

  /** One more entry of a list is looked at: it goes, or it stays where it is. */
  lemma LiveOneMore(was: seq<Entry>, i: nat, now: int, cfg: Config)
    requires i < |was|
    ensures var kept, left := Live(was[..i], now, cfg), Live(was[..i], now, cfg) + was[i..];
            && left[|kept|] == was[i]
            && Live(was[..i + 1], now, cfg) + was[i + 1..]
               == (if Expired(was[i], now, cfg) then Without(left, |kept|) else left)
            && |Live(was[..i + 1], now, cfg)| == |kept| + if Expired(was[i], now, cfg) then 0 else 1
  {
    assert was[..i + 1][..i] == was[..i];
  }

  /** The list of texts, linked through its nodes. */
  class FloodList {
    const flood: DlinkList<Entry>

    /** The record; the program keeps none. */
    var log: seq<Event>

    ghost predicate Ready()
      reads this, flood, flood.Repr
    {
      this !in flood.Repr && flood.Valid()
    }

    ghost predicate Valid()
      reads this, flood, flood.Repr
    {
      Ready() && Sound(Value())
    }

    ghost function Value(): State
      reads this, flood
    {
      State(flood.elements, log)
    }

    constructor ()
      ensures Valid() && flood.elements == [] && log == []
    {
      flood := new DlinkList<Entry>();
      log := [];
    }

    /** Takes a node off the list; the next one is remembered before. */
    method Discard(node: DlinkNode<Entry>, ghost k: nat) returns (next: DlinkNode?<Entry>)
      requires Ready() && k < |flood.nodes| && flood.nodes[k] == node
      modifies flood.Repr
      ensures Ready() && flood.Repr == old(flood.Repr)
      ensures flood.elements == old(Without(flood.elements, k)) && next == At(flood.nodes, k)
    {
      next := node.next;
      assert next == At(flood.nodes, k + 1);
      flood.Delete(node, k);
    }

    /** `expire_floodtxt`: the walk deletes nodes as it goes. */
    method ExpireFloodtxt(now: int, cfg: Config)
      requires Ready()
      modifies flood.Repr
      ensures Ready() && flood.Repr == old(flood.Repr)
      ensures flood.elements == Live(old(flood.elements), now, cfg)
    {
      var node := flood.head;
      ghost var was, i, k := flood.elements, 0, 0;
      while node != null
        invariant Ready() && flood.Repr == old(flood.Repr)
        invariant 0 <= i <= |was| && k == |Live(was[..i], now, cfg)| && k <= |flood.nodes|
        invariant flood.elements == Live(was[..i], now, cfg) + was[i..]
        invariant node == At(flood.nodes, k)
        decreases |was| - i
      {
        assert node.data == flood.elements[k];
        LiveOneMore(was, i, now, cfg);
        if Expired(node.data, now, cfg) {
          node := Discard(node, k);
        } else {
          assert node.next == At(flood.nodes, k + 1);
          node, k := node.next, k + 1;
        }
        i := i + 1;
      }
      assert was[..i] == was;
    }

    /** `add_floodtxt_user` for the entry of a node. */
    method AddFloodtxtUser(node: DlinkNode<Entry>, nick: string, host: string, ghost k: nat)
      requires Ready() && k < |flood.nodes| && flood.nodes[k] == node
      modifies flood.Repr
      ensures Ready() && flood.Repr == old(flood.Repr) && flood.nodes == old(flood.nodes)
      ensures var e := old(flood.elements)[k];
              flood.elements == old(flood.elements)[k := e.(flooders := AddFlooder(e.flooders, nick, host))]
    {
      var e := node.data;
      assert e == flood.elements[k];
      var i := 0;
      while i < |e.flooders|
        invariant 0 <= i <= |e.flooders|
        invariant forall j :: 0 <= j < i ==> !SameText(host, e.flooders[j].host)
      {
        if SameText(host, e.flooders[i].host) {
          HostAtIs(e.flooders, host, i);
          return;
        }
        i := i + 1;
      }
      HostAtIs(e.flooders, host, |e.flooders|);
      flood.Put(node, e.(flooders := [Flooder(nick, host, false)] + e.flooders), k);
    }

    /** A new entry in front of the list. */
    method PutFirst(entry: Entry) returns (node: DlinkNode<Entry>)
      requires Ready()
      modifies flood.Repr
      ensures Ready() && fresh(flood.Repr - old(flood.Repr))
      ensures flood.elements == [entry] + old(flood.elements) && |flood.nodes| > 0 && flood.nodes[0] == node
    {
      node := new DlinkNode<Entry>(entry);
      flood.Add(entry, node);
      assert flood.elements == [entry] + old(flood.elements);
    }

    /** `add_floodtxt`. */
    method AddFloodtxt(m: Msg)
      requires Ready()
      modifies this, flood.Repr
      ensures Ready() && fresh(flood.Repr - old(flood.Repr))
      ensures Value() == State([Fresh(|old(log)|, m)] + old(flood.elements), old(log) + [SaidNow(|old(log)|, m)])
    {
      var entry := Entry(|log|, m.chan, Strip(m.text), m.now, 1, false, []);
      var node := PutFirst(entry);
      log := log + [SaidNow(|log|, m)];
      assert AddFlooder([], m.nick, m.host) == [Flooder(m.nick, m.host, false)];
      AddFloodtxtUser(node, m.nick, m.host, 0);
    }

    /** `fs_add_akill` for the entry of a node. */
    method FsAddAkill(node: DlinkNode<Entry>, now: int, cfg: Config, ghost k: nat)
      requires Ready() && k < |flood.nodes| && flood.nodes[k] == node
      modifies `log, flood.Repr
      ensures Ready() && flood.Repr == old(flood.Repr)
      ensures var r := Kill(old(flood.elements)[k], 0, old(log), now, cfg);
              Value() == State(old(flood.elements)[k := r.entry], r.log)
    {
      var e := node.data;
      assert e == flood.elements[k];
      var i := 0;
      while i < |e.flooders|
        invariant 0 <= i <= |e.flooders|
        invariant Ready() && flood.Repr == old(flood.Repr)
        invariant flood.nodes == old(flood.nodes) && flood.elements == old(flood.elements)
        invariant Kill(e, i, log, now, cfg) == Kill(old(flood.elements)[k], 0, old(log), now, cfg)
        decreases |e.flooders| - i
      {
        if !e.flooders[i].akilled {
          log := log + [Akilled(e.born, e.flooders[i].host, now, cfg)];
          e := Akill(e, i);
        }
        i := i + 1;
      }
      flood.Put(node, e, k);
    }

    /** The part of `privmsg_flood` for a text that was said before, after its user was added and
        its repeats were counted. */
    method PunishEntry(node: DlinkNode<Entry>, m: Msg, cfg: Config, ghost k: nat)
      requires Ready() && k < |flood.nodes| && flood.nodes[k] == node
      modifies `log, flood.Repr
      ensures Ready() && flood.Repr == old(flood.Repr)
      ensures var r := Punish(old(flood.elements)[k], old(log), m.now, cfg);
              Value() == State(old(flood.elements)[k := r.entry], r.log)
    {
      var e := node.data;
      assert e == flood.elements[k] && flood.elements[k := e] == flood.elements;
      if e.repeat >= cfg.lines {
        if m.now <= e.time + cfg.sec {
          if cfg.warnFirst && !e.warned {
            log := log + [Warned(e.born)];
            flood.Put(node, e.(warned := true), k);
          } else {
            FsAddAkill(node, m.now, cfg, k);
          }
        } else if m.now <= e.time + cfg.warnedSec && e.warned && e.repeat >= cfg.warnedLines {
          FsAddAkill(node, m.now, cfg, k);
        }
      }
    }

    /** The part of `privmsg_flood` for a text that was said before. */
    method Repeated(node: DlinkNode<Entry>, m: Msg, cfg: Config, ghost k: nat)
      requires Ready() && k < |flood.nodes| && flood.nodes[k] == node
      modifies this, flood.Repr
      ensures Ready() && flood.Repr == old(flood.Repr)
      ensures var e := old(flood.elements)[k];
              var r := Punish(Again(e, m), old(log) + [SaidNow(e.born, m)], m.now, cfg);
              Value() == State(old(flood.elements)[k := r.entry], r.log)
    {
      AddFloodtxtUser(node, m.nick, m.host, k);
      var e := node.data;
      assert e == flood.elements[k];
      flood.Put(node, e.(repeat := e.repeat + 1), k);
      log := log + [SaidNow(e.born, m)];
      PunishEntry(node, m, cfg, k);
    }

    /** The walk to the entry of a text. */
    method FindText(chan: nat, text: string) returns (node: DlinkNode?<Entry>, ghost k: nat)
      requires Ready()
      ensures k == Place(flood.elements, chan, text) && node == At(flood.nodes, k)
    {
      node, k := flood.head, 0;
      while node != null && !About(node.data, chan, text)
        invariant 0 <= k <= |flood.nodes| && node == At(flood.nodes, k)
        invariant forall j :: 0 <= j < k ==> !About(flood.elements[j], chan, text)
        decreases |flood.nodes| - k
      {
        assert node.data == flood.elements[k];
        node, k := node.next, k + 1;
      }
      assert node != null ==> node.data == flood.elements[k];
      PlaceIs(flood.elements, chan, text, k);
    }

    /** `privmsg_flood`. */
    method PrivmsgFlood(m: Msg, cfg: Config)
      requires Valid()
      modifies this, flood.Repr
      ensures Valid() && fresh(flood.Repr - old(flood.Repr))
      ensures Value() == Hear(old(Value()), m, cfg)
    {
      HearIsSound(Value(), m, cfg);
      if !m.heeded {
        return;
      }
      ExpireFloodtxt(m.now, cfg);
      if !m.watched {
        return;
      }
      ghost var k;
      var node;
      node, k := FindText(m.chan, Strip(m.text));
      if node != null {
        Repeated(node, m, cfg, k);
      } else {
        AddFloodtxt(m);
      }
    }
  }
}

/** SYNC: the commands that take every mode and ban off a channel and put it back
    (`do_sync`, without its operator and voice part). */
module ModeSync {
  import opened CText
  import opened ChannelModes
  import opened ModeReplay

  const MAX_BATCH := 6
  const MAX_TEXT := 256
  const SYNC_ORDER: string := "cimMnOpRst"

  /** All modes, key and limit go off, then the flags are put back. */
  function FlagCmds(ch: Chan): seq<Cmd> {
    [Cmd(['-'] + (SYNC_ORDER + ['l', 'k']), [if ch.key.Some? then ch.key.value else ""]),
     Cmd(['+'] + Pick(SYNC_ORDER, ch.mode), [])]
  }

  function KeyCmds(key: Option<string>): seq<Cmd> {
    if key.Some? then [Cmd(['+', 'k'], [key.value])] else []
  }

  function LimitCmds(limit: uint32): seq<Cmd> {
    if limit != 0 then [Cmd(['+', 'l'], [PrintD(limit)])] else []
  }

  /** The commands that reset the modes, key and limit and put them back. */
  function ModeCmds(ch: Chan): seq<Cmd> {
    FlagCmds(ch) + (KeyCmds(ch.key) + LimitCmds(ch.limit))
  }

  function Bs(n: nat): string { if n == 0 then [] else ['b'] + Bs(n - 1) }

  /** A batch of bans is taken off and put back. */
  function BatchCmds(batch: seq<string>): seq<Cmd> {
    [Cmd(['-'] + Bs(|batch|), batch), Cmd(['+'] + Bs(|batch|), batch)]
  }

  function AllBatchCmds(batches: seq<seq<string>>): seq<Cmd> {
    if batches == [] then [] else BatchCmds(batches[0]) + AllBatchCmds(batches[1..])
  }

  function Flatten(batches: seq<seq<string>>): seq<string> {
    if batches == [] then [] else batches[0] + Flatten(batches[1..])
  }

  function Masks(bans: seq<Ban>): (r: seq<string>)
    ensures |r| == |bans|
  {
    if bans == [] then [] else [bans[0].mask] + Masks(bans[1..])
  }

  function Fresh(masks: seq<string>, now: int): (r: seq<Ban>)
    ensures |r| == |masks|
  {
    if masks == [] then [] else [Ban(masks[0], now)] + Fresh(masks[1..], now)
  }

  lemma {:induction false} MasksFrom(bans: seq<Ban>, more: seq<Ban>, k: nat)
    requires k <= |bans|
    ensures Masks(bans[k..] + more) == Masks(bans)[k..] + Masks(more)
    decreases bans
  {
    if k > 0 {
      assert bans[k..] == bans[1..][k - 1..];
      assert Masks(bans)[k..] == Masks(bans[1..])[k - 1..];
      MasksFrom(bans[1..], more, k - 1);
    } else if bans == [] {
      assert bans[0..] + more == more;
    } else {
      assert bans[1..][0..] == bans[1..];
      MasksFrom(bans[1..], more, 0);
      assert (bans[0..] + more)[1..] == bans[1..] + more;
    }
  }

  lemma {:induction false} MasksOfFresh(masks: seq<string>, now: int)
    ensures Masks(Fresh(masks, now)) == masks
  {
    if masks != [] {
      MasksOfFresh(masks[1..], now);
      assert Fresh(masks, now)[1..] == Fresh(masks[1..], now);
    }
  }

  /** Length of the text of a batch: a space goes before a mask unless there is no text yet. */
  function TextLen(batch: seq<string>): nat {
    if batch == [] then 0
    else
      var len := TextLen(batch[..|batch| - 1]);
      len + (if len > 0 then 1 else 0) + |batch[|batch| - 1]|
  }

  lemma TextLenAppend(batch: seq<string>, mask: string)
    ensures TextLen(batch + [mask]) == TextLen(batch) + (if TextLen(batch) > 0 then 1 else 0) + |mask|
  {
    assert (batch + [mask])[..|batch|] == batch;
  }

  /** The next mask does not go into the batch: it is the seventh, or too long for the guard. */
  predicate Closed(batch: seq<string>, mask: string) {
    |batch| == MAX_BATCH || TextLen(batch) + |mask| + 1 > MAX_TEXT
  }

  /** How the masks are cut into commands, `batch` being the one that is open. */
  function Cut(masks: seq<string>, batch: seq<string>): seq<seq<string>>
    decreases masks
  {
    if masks == [] then (if batch == [] then [] else [batch])
    else if Closed(batch, masks[0]) then [batch] + Cut(masks[1..], [masks[0]])
    else Cut(masks[1..], batch + [masks[0]])
  }

  predicate AllSmall(batches: seq<seq<string>>) {
    forall i :: 0 <= i < |batches| ==> |batches[i]| <= MAX_BATCH
  }

  /** Every mask is in one batch, in order, and none has more than six. */
  lemma {:induction false} CutKeepsAll(masks: seq<string>, batch: seq<string>)
    requires |batch| <= MAX_BATCH
    ensures Flatten(Cut(masks, batch)) == batch + masks && AllSmall(Cut(masks, batch))
    decreases masks
  {
    if masks == [] {
      assert Flatten([batch]) == batch + Flatten([batch][1..]);
      assert batch + masks == batch;
    } else if Closed(batch, masks[0]) {
      var rest := Cut(masks[1..], [masks[0]]);
      CutKeepsAll(masks[1..], [masks[0]]);
      assert ([batch] + rest)[1..] == rest;
      assert [masks[0]] + masks[1..] == masks;
    } else {
      CutKeepsAll(masks[1..], batch + [masks[0]]);
      assert (batch + [masks[0]]) + masks[1..] == batch + masks;
    }
  }

  /** The text that `strcat` builds: the masks of a batch with a space before each that has text in
      front of it. */
  function Text(batch: seq<string>): string {
    if batch == [] then []
    else
      var t := Text(batch[..|batch| - 1]);
      t + (if t == [] then [] else [' ']) + batch[|batch| - 1]
  }

  lemma {:induction false} TextLenIs(batch: seq<string>)
    ensures TextLen(batch) == |Text(batch)|
  {
    if batch != [] {
      TextLenIs(batch[..|batch| - 1]);
    }
  }

  /** A batch is sent only when it has to be: it has six masks, or the first mask of the next one
      would not have gone into its text. */
  ghost predicate Greedy(batches: seq<seq<string>>) {
    forall i, j :: 0 <= i < j < |batches| && j == i + 1 ==> NoRoom(batches[i], batches[j])
  }

  predicate NoRoom(batch: seq<string>, next: seq<string>) {
    next != [] && (|batch| == 6 || |Text(batch)| + 1 + |next[0]| > 256)
  }

  lemma {:induction false} CutIsGreedy(masks: seq<string>, batch: seq<string>)
    ensures Greedy(Cut(masks, batch))
    ensures batch != [] ==> Cut(masks, batch) != [] && Cut(masks, batch)[0] != [] && Cut(masks, batch)[0][0] == batch[0]
    decreases masks
  {
    if masks != [] {
      if Closed(batch, masks[0]) {
        var rest := Cut(masks[1..], [masks[0]]);
        CutIsGreedy(masks[1..], [masks[0]]);
        TextLenIs(batch);
        GreedyOneMore(batch, rest);
      } else {
        CutIsGreedy(masks[1..], batch + [masks[0]]);
      }
    }
  }

  lemma GreedyOneMore(batch: seq<string>, rest: seq<seq<string>>)
    requires Greedy(rest) && rest != [] && NoRoom(batch, rest[0])
    ensures Greedy([batch] + rest)
  {
    var all := [batch] + rest;
    forall i, j | 0 <= i < j < |all| && j == i + 1 ensures NoRoom(all[i], all[j]) {
      if i > 0 {
        assert NoRoom(rest[i - 1], rest[j - 1]);
      }
    }
  }

  // ----- the text buffer -----

  /** The text and its terminator are within the buffer. */
  predicate WithinBuffer(batch: seq<string>) { TextLen(batch) < MAX_TEXT }

  predicate AllWithinBuffer(batches: seq<seq<string>>) {
    forall i :: 0 <= i < |batches| ==> WithinBuffer(batches[i])
  }

  predicate ShortMasks(masks: seq<string>) {
    forall i :: 0 <= i < |masks| ==> |masks[i]| < MAX_TEXT
  }

  /** Some mask is let into a batch that has text already and fills the buffer to the brim: the
      guard counts the space or the terminator, but not both. */
  predicate Brims(masks: seq<string>, batch: seq<string>)
    decreases masks
  {
    masks != [] &&
    if Closed(batch, masks[0]) then Brims(masks[1..], [masks[0]])
    else (TextLen(batch) > 0 && TextLen(batch) + |masks[0]| + 1 == MAX_TEXT) || Brims(masks[1..], batch + [masks[0]])
  }

  /** The open batch only grows. */
  lemma {:induction false} CutGrows(masks: seq<string>, batch: seq<string>)
    requires batch != []
    ensures Cut(masks, batch) != [] && TextLen(Cut(masks, batch)[0]) >= TextLen(batch)
    decreases masks
  {
    if masks != [] && !Closed(batch, masks[0]) {
      TextLenAppend(batch, masks[0]);
      CutGrows(masks[1..], batch + [masks[0]]);
    }
  }

  lemma OneMoreWithin(batch: seq<string>, cut: seq<seq<string>>)
    ensures AllWithinBuffer([batch] + cut) <==> WithinBuffer(batch) && AllWithinBuffer(cut)
  {
    var all := [batch] + cut;
    assert all[0] == batch;
    if AllWithinBuffer(all) {
      forall i | 0 <= i < |cut| ensures WithinBuffer(cut[i]) {
        assert cut[i] == all[i + 1];
      }
    }
  }

  lemma OneMoreShort(masks: seq<string>)
    requires masks != []
    ensures ShortMasks(masks) <==> |masks[0]| < MAX_TEXT && ShortMasks(masks[1..])
  {
    assert forall i :: 0 <= i < |masks[1..]| ==> masks[1..][i] == masks[i + 1];
  }

  /** Every text is within the buffer if and only if every mask is and no batch is filled to the
      brim. */
  lemma {:induction false} CutWithinBufferIff(masks: seq<string>, batch: seq<string>)
    requires WithinBuffer(batch)
    ensures AllWithinBuffer(Cut(masks, batch)) <==> ShortMasks(masks) && !Brims(masks, batch)
    decreases masks
  {
    if masks != [] {
      var m, rest, open := masks[0], masks[1..], if Closed(batch, masks[0]) then [masks[0]] else batch + [masks[0]];
      var cut := Cut(rest, open);
      TextLenAppend(if Closed(batch, m) then [] else batch, m);
      assert [] + [m] == [m];
      OneMoreWithin(batch, cut);
      OneMoreShort(masks);
      if WithinBuffer(open) {
        CutWithinBufferIff(rest, open);
      } else {
        CutGrows(rest, open);
        assert !WithinBuffer(cut[0]);
      }
    }
  }

  /** Two masks of 127 and 128 characters: their text takes all 256 characters. */
  lemma TwoMasksBrim(a: string, b: string)
    requires |a| == 127 && |b| == 128
    ensures ShortMasks([a, b]) && Cut([a, b], []) == [[a, b]] && TextLen([a, b]) == MAX_TEXT
    ensures !AllWithinBuffer(Cut([a, b], []))
  {
    TextLenAppend([], a);
    TextLenAppend([a], b);
    assert [] + [a] == [a] && [a] + [b] == [a, b];
    assert [a, b][1..] == [b] && [b][1..] == [];
    assert Cut([a, b], []) == Cut([b], [a]) == Cut([], [a, b]);
    assert Cut([a, b], [])[0] == [a, b];
  }

  lemma MasksStep(bans: seq<Ban>, i: nat)
    requires i < |bans|
    ensures Masks(bans[i..]) == [bans[i].mask] + Masks(bans[i + 1..])
  {
    assert bans[i..][1..] == bans[i + 1..];
  }

  lemma CutStep(done: seq<seq<string>>, batch: seq<string>, mask: string, rest: seq<string>)
    ensures done + Cut([mask] + rest, batch)
            == if Closed(batch, mask) then (done + [batch]) + Cut(rest, [mask]) else done + Cut(rest, batch + [mask])
  {
    assert ([mask] + rest)[1..] == rest;
  }

  lemma CutOfAll(masks: seq<string>)
    ensures var cut := Cut(masks, []);
            && Flatten(cut) == masks && AllSmall(cut) && Greedy(cut)
            && (AllWithinBuffer(cut) <==> ShortMasks(masks) && !Brims(masks, []))
  {
    CutKeepsAll(masks, []);
    CutIsGreedy(masks, []);
    CutWithinBufferIff(masks, []);
    assert [] + masks == masks;
  }

  /** The ban loop: a batch is sent when it holds six masks or the guard does not let the next
      one in. */
  method CutBans(bans: seq<Ban>) returns (batches: seq<seq<string>>)
    ensures batches == Cut(Masks(bans), [])
    ensures Flatten(batches) == Masks(bans) && AllSmall(batches) && Greedy(batches)
    ensures AllWithinBuffer(batches) <==> ShortMasks(Masks(bans)) && !Brims(Masks(bans), [])
  {
    CutOfAll(Masks(bans));
    assert bans[0..] == bans;
    batches := [];
    var batch: seq<string>, textLen := [], 0;
    var i := 0;
    while i < |bans|
      invariant 0 <= i <= |bans| && batches + Cut(Masks(bans[i..]), batch) == Cut(Masks(bans), [])
      invariant |batch| <= MAX_BATCH && textLen == TextLen(batch)
    {
      var mask := bans[i].mask;
      MasksStep(bans, i);
      CutStep(batches, batch, mask, Masks(bans[i + 1..]));
      if |batch| == MAX_BATCH || textLen + |mask| + 1 > MAX_TEXT {
        batches := batches + [batch];
        batch, textLen := [], 0;
        assert [] + [mask] == [mask];
      }
      TextLenAppend(batch, mask);
      textLen := textLen + (if textLen > 0 then 1 else 0) + |mask|;
      batch := batch + [mask];
      i := i + 1;
    }
    if batch != [] {
      batches := batches + [batch];
    }
  }

  // ----- what the commands do -----

  lemma StepUnban(cur: Cursor, env: Env)
    requires !cur.add && 0 < cur.ac <= |cur.av| && cur.ch.bans != [] && cur.ch.bans[0].mask == cur.av[0]
    ensures Step(cur, 'b', env)
            == cur.(ch := cur.ch.(bans := cur.ch.bans[1..]), ac := cur.ac - 1, av := cur.av[1..])
  {
  }

  lemma FirstMask(bans: seq<Ban>, av: seq<string>, n: nat)
    requires 0 < n <= |bans| && n <= |av| && Masks(bans)[..n] == av[..n]
    ensures bans[0].mask == av[0] && Masks(bans[1..])[..n - 1] == av[1..][..n - 1]
  {
    assert bans[0].mask == Masks(bans)[..n][0] == av[..n][0];
    assert Masks(bans[1..])[..n - 1] == Masks(bans)[..n][1..] == av[..n][1..];
  }

  lemma {:induction false} RunUnban(cur: Cursor, n: nat, env: Env)
    requires !cur.add && n <= cur.ac <= |cur.av| && n <= |cur.ch.bans|
    requires Masks(cur.ch.bans)[..n] == cur.av[..n]
    ensures Run(cur, Bs(n), env) == cur.(ch := cur.ch.(bans := cur.ch.bans[n..]), ac := cur.ac - n, av := cur.av[n..])
    decreases n
  {
    if n > 0 {
      var bans, av := cur.ch.bans, cur.av;
      FirstMask(bans, av, n);
      StepUnban(cur, env);
      assert Bs(n)[1..] == Bs(n - 1);
      RunUnban(Step(cur, 'b', env), n - 1, env);
      assert bans[1..][n - 1..] == bans[n..] && av[1..][n - 1..] == av[n..];
    }
  }

  lemma StepBan(cur: Cursor, env: Env)
    requires cur.add && 0 < cur.ac <= |cur.av|
    ensures Step(cur, 'b', env)
            == cur.(ch := cur.ch.(bans := cur.ch.bans + Fresh(cur.av[..1], env.now)),
                    ac := cur.ac - 1, av := cur.av[1..])
  {
    assert Fresh(cur.av[..1], env.now) == [Ban(cur.av[0], env.now)];
  }

  lemma {:induction false} RunBan(cur: Cursor, n: nat, env: Env)
    requires cur.add && n <= cur.ac <= |cur.av|
    ensures Run(cur, Bs(n), env)
            == cur.(ch := cur.ch.(bans := cur.ch.bans + Fresh(cur.av[..n], env.now)),
                    ac := cur.ac - n, av := cur.av[n..])
    decreases n
  {
    if n > 0 {
      var bans, av := cur.ch.bans, cur.av;
      StepBan(cur, env);
      assert Bs(n)[1..] == Bs(n - 1);
      RunBan(Step(cur, 'b', env), n - 1, env);
      assert av[..n] == av[..1] + av[1..][..n - 1];
      FreshConcat(av[..1], av[1..][..n - 1], env.now);
      assert bans + Fresh(av[..n], env.now) == bans + Fresh(av[..1], env.now) + Fresh(av[1..][..n - 1], env.now);
      assert av[1..][n - 1..] == av[n..];
    } else {
      assert cur.ch.bans + Fresh(cur.av[..0], env.now) == cur.ch.bans;
    }
  }

  /** Taking the first bans off and putting them back moves them to the end. */
  lemma ReadBatch(ch: Chan, batch: seq<string>, env: Env)
    requires |batch| <= |ch.bans| && Masks(ch.bans)[..|batch|] == batch
    ensures ReadAll(ch, BatchCmds(batch), env) == ch.(bans := ch.bans[|batch|..] + Fresh(batch, env.now))
  {
    var n := |batch|;
    var off, on := BatchCmds(batch)[0], BatchCmds(batch)[1];
    assert batch[..n] == batch;
    RunSigned(Cursor(ch, true, n, batch), '-', Bs(n), env);
    RunUnban(Cursor(ch, false, n, batch), n, env);
    var ch1 := ch.(bans := ch.bans[n..]);
    assert Read(ch, off, env) == ch1;
    RunSigned(Cursor(ch1, true, n, batch), '+', Bs(n), env);
    RunBan(Cursor(ch1, true, n, batch), n, env);
    assert Read(ch1, on, env) == ch1.(bans := ch1.bans + Fresh(batch, env.now));
    ReadTwo(ch, off, on, env);
    assert BatchCmds(batch) == [off, on];
  }

  lemma ReadTwo(ch: Chan, a: Cmd, b: Cmd, env: Env)
    ensures ReadAll(ch, [a, b], env) == Read(Read(ch, a, env), b, env)
  {
    var next := Read(ch, a, env);
    assert [a, b][1..] == [b] && [b][1..] == [];
    assert ReadAll(next, [b], env) == ReadAll(Read(next, b, env), [], env);
  }

  lemma {:induction false} ReadBatches(ch: Chan, batches: seq<seq<string>>, env: Env)
    requires Flatten(batches) <= Masks(ch.bans)
    ensures ReadAll(ch, AllBatchCmds(batches), env)
            == ch.(bans := ch.bans[|Flatten(batches)|..] + Fresh(Flatten(batches), env.now))
    decreases batches
  {
    if batches == [] {
      assert ch.bans[0..] + Fresh([], env.now) == ch.bans;
    } else {
      var b, rest := batches[0], Flatten(batches[1..]);
      assert Masks(ch.bans)[..|b|] == b by {
        assert Masks(ch.bans)[..|b|] == Flatten(batches)[..|b|];
      }
      ReadAllConcat(ch, BatchCmds(b), AllBatchCmds(batches[1..]), env);
      ReadBatch(ch, b, env);
      var next := ch.(bans := ch.bans[|b|..] + Fresh(b, env.now));
      MasksFrom(ch.bans, Fresh(b, env.now), |b|);
      assert Flatten(batches)[|b|..] == rest;
      ReadBatches(next, batches[1..], env);
      Rotated(ch.bans, b, rest, env.now);
    }
  }

  /** Two moves to the end are one. */
  lemma Rotated(bans: seq<Ban>, a: seq<string>, b: seq<string>, now: int)
    requires |a + b| <= |bans|
    ensures (bans[|a|..] + Fresh(a, now))[|b|..] + Fresh(b, now) == bans[|a + b|..] + Fresh(a + b, now)
  {
    FreshConcat(a, b, now);
    var x, y, z := bans[|a|..], Fresh(a, now), Fresh(b, now);
    assert x[|b|..] == bans[|a + b|..];
    assert (x + y)[|b|..] == x[|b|..] + y;
    assert (x[|b|..] + y) + z == x[|b|..] + (y + z);
  }

  lemma {:induction false} FreshConcat(a: seq<string>, b: seq<string>, now: int)
    ensures Fresh(a + b, now) == Fresh(a, now) + Fresh(b, now)
  {
    if a == [] {
      assert a + b == b;
    } else {
      assert (a + b)[1..] == a[1..] + b;
      FreshConcat(a[1..], b, now);
    }
  }

  lemma SyncLetters(s: set<char>)
    ensures forall c :: c in Pick(SYNC_ORDER, s) <==> c in s * FLAGS
  {
    assert SYNC_ORDER == ['c', 'i', 'm', 'M', 'n', 'O', 'p', 'R', 's', 't'];
    forall c ensures c in Pick(SYNC_ORDER, s) <==> c in s * FLAGS {
      PickedLetters(SYNC_ORDER, s, c);
    }
  }

  lemma SyncOrderIsFlags()
    ensures (set c | c in SYNC_ORDER) == FLAGS
  {
    assert SYNC_ORDER == ['c', 'i', 'm', 'M', 'n', 'O', 'p', 'R', 's', 't'];
  }

  lemma ReadDrop(ch: Chan, order: string, key: string, env: Env)
    requires forall c :: c in order ==> c in FLAGS
    ensures Read(ch, Cmd(['-'] + (order + ['l', 'k']), [key]), env)
            == ch.(mode := ch.mode - (set c | c in order), limit := 0, key := None)
  {
    var off := Cursor(ch, false, 1, [key]);
    RunSigned(Cursor(ch, true, 1, [key]), '-', order + ['l', 'k'], env);
    RunConcat(off, order, ['l', 'k'], env);
    RunFlags(off, order, env);
    RunTwo(Flagged(off, set c | c in order), 'l', 'k', env);
  }

  /** The reset takes off every flag, the key and the limit. */
  lemma ReadReset(ch: Chan, key: string, env: Env)
    ensures Read(ch, Cmd(['-'] + (SYNC_ORDER + ['l', 'k']), [key]), env)
            == ch.(mode := ch.mode - FLAGS, limit := 0, key := None)
  {
    SyncOrderIsFlags();
    forall c | c in SYNC_ORDER ensures c in FLAGS {
      assert c in (set x | x in SYNC_ORDER);
    }
    ReadDrop(ch, SYNC_ORDER, key, env);
  }

  lemma RunSigned(cur: Cursor, sign: char, s: string, env: Env)
    requires Aligned(cur) && (sign == '+' || sign == '-')
    ensures Run(cur, [sign] + s, env) == Run(cur.(add := sign == '+'), s, env)
  {
    assert ([sign] + s)[1..] == s;
  }

  lemma ReadRestore(ch: Chan, s: set<char>, env: Env)
    ensures Read(ch, Cmd(['+'] + Pick(SYNC_ORDER, s), []), env) == ch.(mode := ch.mode + s * FLAGS)
  {
    var t := Pick(SYNC_ORDER, s);
    SyncLetters(s);
    assert (['+'] + t)[1..] == t;
    RunFlags(Cursor(ch, true, 0, []), t, env);
    assert (set c | c in t) == s * FLAGS;
  }

  lemma ReadOne(ch: Chan, c: char, param: string, env: Env)
    ensures Read(ch, Cmd(['+', c], [param]), env) == Step(Cursor(ch, true, 1, [param]), c, env).ch
  {
    RunTwo(Cursor(ch, true, 1, [param]), '+', c, env);
  }

  lemma ReadFlagCmds(base: Chan, ch: Chan, env: Env)
    requires base.mode <= FLAGS && ch.mode <= FLAGS
    ensures ReadAll(base, FlagCmds(ch), env) == base.(mode := ch.mode, limit := 0, key := None)
  {
    var key := if ch.key.Some? then ch.key.value else "";
    ReadReset(base, key, env);
    var bare := base.(mode := base.mode - FLAGS, limit := 0, key := None);
    ReadRestore(bare, ch.mode, env);
    ReadTwo(base, FlagCmds(ch)[0], FlagCmds(ch)[1], env);
  }

  lemma ReadKeyCmds(ch: Chan, key: Option<string>, env: Env)
    requires ch.key.None?
    ensures ReadAll(ch, KeyCmds(key), env) == ch.(key := key)
  {
    if key.Some? {
      ReadOne(ch, 'k', key.value, env);
      assert KeyCmds(key)[1..] == [];
    }
  }

  lemma ReadLimitCmds(ch: Chan, limit: uint32, env: Env)
    requires ch.limit == 0
    ensures ReadAll(ch, LimitCmds(limit), env) == ch.(limit := limit)
  {
    if limit != 0 {
      ReadOne(ch, 'l', PrintD(limit), env);
      PrintedLimitReadsBack(limit);
      assert LimitCmds(limit)[1..] == [];
    }
  }

  /** Whoever reads the reset and restore commands, at whatever modes, is at the channel's
      modes, key and limit afterwards. */
  lemma ReadModeCmds(base: Chan, ch: Chan, env: Env)
    requires base.mode <= FLAGS && ch.mode <= FLAGS
    ensures ReadAll(base, ModeCmds(ch), env) == base.(mode := ch.mode, limit := ch.limit, key := ch.key)
  {
    var k, l := KeyCmds(ch.key), LimitCmds(ch.limit);
    var moded := base.(mode := ch.mode, limit := 0, key := None);
    ReadAllConcat(base, FlagCmds(ch), k + l, env);
    ReadFlagCmds(base, ch, env);
    ReadAllConcat(moded, k, l, env);
    ReadKeyCmds(moded, ch.key, env);
    ReadLimitCmds(moded.(key := ch.key), ch.limit, env);
  }

  /** All commands of a SYNC, for bans cut in some way. */
  function SyncCmds(ch: Chan, batches: seq<seq<string>>): seq<Cmd> { ModeCmds(ch) + AllBatchCmds(batches) }

  /** SYNC brings every reader who has the same ban masks to the channel's modes, key and limit,
      with the same bans in the same order, set now. It holds for every way the bans are cut,
      and with repeated masks. */
  lemma SyncReaches(base: Chan, ch: Chan, batches: seq<seq<string>>, env: Env)
    requires base.mode <= FLAGS && ch.mode <= FLAGS
    requires Masks(base.bans) == Masks(ch.bans) == Flatten(batches)
    ensures ReadAll(base, SyncCmds(ch, batches), env)
            == base.(mode := ch.mode, limit := ch.limit, key := ch.key, bans := Fresh(Masks(ch.bans), env.now))
  {
    ReadAllConcat(base, ModeCmds(ch), AllBatchCmds(batches), env);
    ReadModeCmds(base, ch, env);
    ReadBatches(base.(mode := ch.mode, limit := ch.limit, key := ch.key), batches, env);
    assert base.bans[|Flatten(batches)|..] + Fresh(Masks(ch.bans), env.now) == Fresh(Masks(ch.bans), env.now);
  }

  /** So it changes nothing for whoever is at the channel already. */
  lemma SyncIsIdentity(ch: Chan, batches: seq<seq<string>>, env: Env)
    requires ch.mode <= FLAGS && Flatten(batches) == Masks(ch.bans)
    ensures var after := ReadAll(ch, SyncCmds(ch, batches), env);
            && after == ch.(bans := Fresh(Masks(ch.bans), env.now))
            && Masks(after.bans) == Masks(ch.bans)
  {
    SyncReaches(ch, ch, batches, env);
    MasksOfFresh(Masks(ch.bans), env.now);
  }

  method SendBatches(batches: seq<seq<string>>) returns (sent: seq<Cmd>)
    requires AllSmall(batches)
    ensures sent == AllBatchCmds(batches)
    ensures forall cmd :: cmd in sent ==> |cmd.params| <= MAX_BATCH
  {
    sent := [];
    var k := 0;
    while k < |batches|
      invariant 0 <= k <= |batches|
      invariant sent + AllBatchCmds(batches[k..]) == AllBatchCmds(batches)
      invariant forall cmd :: cmd in sent ==> |cmd.params| <= MAX_BATCH
    {
      assert batches[k..][0] == batches[k] && batches[k..][1..] == batches[k + 1..];
      assert |batches[k]| <= MAX_BATCH;
      var cmds := BatchCmds(batches[k]);
      assert sent + (cmds + AllBatchCmds(batches[k + 1..])) == (sent + cmds) + AllBatchCmds(batches[k + 1..]);
      assert forall cmd :: cmd in cmds ==> |cmd.params| <= MAX_BATCH;
      sent := sent + cmds;
      k := k + 1;
    }
    assert batches[k..] == [];
  }

  /** `do_sync` on a channel: the commands it sends, with the bans cut as the loop cuts them, and
      what they do to a reader. */
  method DoSync(ch: Chan, env: Env) returns (sent: seq<Cmd>)
    requires ch.mode <= FLAGS
    ensures sent == SyncCmds(ch, Cut(Masks(ch.bans), []))
    ensures ReadAll(ch, sent, env) == ch.(bans := Fresh(Masks(ch.bans), env.now))
    ensures forall cmd :: cmd in sent ==> |cmd.params| <= MAX_BATCH
  {
    var batches := CutBans(ch.bans);
    SyncIsIdentity(ch, batches, env);
    var bans := SendBatches(batches);
    sent := ModeCmds(ch) + bans;
  }
}

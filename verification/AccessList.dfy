/** A channel's access list under ACCESS ADD, ACCESS DEL, VOP, AOP and SOP (src/cs_access.c):
    who may put whom where, and how the list is numbered. */
module AccessList {
  import opened CText
  import NumLists

  const FOUNDER := 10000
  const INVALID := -10000

  /** A row of the list; there is one for each nick. */
  datatype Row = Row(level: int, idx: nat)

  type Rows = map<nat, Row>

  function Levels(rows: Rows): map<nat, int> { map k | k in rows :: rows[k].level }

  /** The numbers are 1 to n, in descending order of level. */
  predicate Ranked(rows: Rows) {
    && (forall k :: k in rows ==> 1 <= rows[k].idx <= |rows|)
    && (forall a, b :: a in rows && b in rows && a != b ==> rows[a].idx != rows[b].idx)
    && (forall a, b :: a in rows && b in rows && rows[a].level > rows[b].level ==> rows[a].idx < rows[b].idx)
  }

  predicate InRange(levels: map<nat, int>) {
    forall k :: k in levels ==> levels[k] != 0 && INVALID < levels[k] < FOUNDER
  }

  /** Who gives a command. `known` is true when he has identified, or is recognised and the
      channel does not insist. */
  datatype Actor = Actor(nick: nat, founder: bool, known: bool, identified: bool, admin: bool)

  /** The channel's levels for changing the list, for autokicks, autovoice and autoop. */
  datatype Needed = Needed(change: int, akick: int, autovoice: int, autoop: int)

  /** What the lookup of a nick gives. */
  datatype Target = NoNick | Known(id: nat, forbidden: bool, noop: bool)

  datatype Xop = Vop | Aop | Sop

  datatype Command =
    | Add(target: Target, level: int)
    | DelNick(target: Target)
    | DelList(text: string)
    | XopAdd(kind: Xop, target: Target)

  /** `get_access`. */
  function AccessOf(levels: map<nat, int>, a: Actor): int {
    if a.nick == 0 then 0
    else if a.founder then FOUNDER
    else if a.known && a.nick in levels then levels[a.nick]
    else 0
  }

  /** `check_access` for the rights to change the list and to manage autokicks. */
  predicate HasAccess(level: int, needed: int) {
    level == FOUNDER || (needed != INVALID && level >= needed)
  }

  predicate MayChange(levels: map<nat, int>, a: Actor, needed: Needed) {
    HasAccess(AccessOf(levels, a), needed.change) || a.admin
  }

  /** The end that ACCESS ADD, VOP, AOP and SOP have in common. */
  function PutAt(levels: map<nat, int>, own: int, target: Target, level: int, max: nat): map<nat, int> {
    if target.NoNick? || target.forbidden || target.noop then levels
    else if target.id in levels then
      if levels[target.id] >= own || levels[target.id] == level then levels
      else levels[target.id := level]
    else if |levels| >= max then levels
    else levels[target.id := level]
  }

  function AddLevel(levels: map<nat, int>, own: int, target: Target, level: int, needed: Needed,
      max: nat): map<nat, int>
  {
    if level == 0 || level <= INVALID || level >= FOUNDER || level >= own then levels
    else if level < 0 && !HasAccess(own, needed.akick) then levels
    else PutAt(levels, own, target, level, max)
  }

  function XopLevel(kind: Xop, needed: Needed): int {
    match kind
    case Vop => needed.autovoice
    case Aop => needed.autoop
    case Sop => needed.akick
  }

  function AddXop(levels: map<nat, int>, own: int, target: Target, level: int, max: nat): map<nat, int> {
    if level <= 0 || level >= own || level >= FOUNDER then levels
    else PutAt(levels, own, target, level, max)
  }

  function RemoveNick(levels: map<nat, int>, own: int, target: Target): map<nat, int> {
    if target.NoNick? || target.id !in levels || own <= levels[target.id] then levels
    else levels - {target.id}
  }

  /** May the callback of a numbered deletion delete an entry of this level? */
  predicate Deletable(own: int, akick: int, level: int) {
    own > level && !(level < 0 && own <= akick)
  }

  /** The entries a numbered deletion takes out. */
  function Numbered(rows: Rows, nums: seq<nat>, own: int, akick: int): set<nat> {
    set k | k in rows && rows[k].idx in nums && Deletable(own, akick, rows[k].level)
  }

  /** The same for the numbers a text names; the last index of a full list is never named. */
  function Named(rows: Rows, text: string, max: uint32, own: int, akick: int): set<nat>
    requires max > 0
  {
    set k | k in rows && NumLists.Listed(NumLists.Items(text), 1, max - 1, rows[k].idx)
            && Deletable(own, akick, rows[k].level)
  }

  /** `process_numlist` calls its routine for exactly the numbers named, as long as the routine
      does not fail. */
  lemma CallsNameAll(rows: Rows, text: string, max: uint32, nums: seq<nat>, own: int, akick: int)
    requires max > 0 && NumLists.CallsOf(NumLists.Items(text), 1, max - 1, _ => 0, nums)
    ensures Numbered(rows, nums, own, akick) == Named(rows, text, max, own, akick)
  {
    forall k | k in rows
      ensures rows[k].idx in nums <==> NumLists.Listed(NumLists.Items(text), 1, max - 1, rows[k].idx)
    {
      if rows[k].idx in nums {
        var i :| 0 <= i < |nums| && nums[i] == rows[k].idx;
      }
    }
  }

  /** The levels after a permitted command, of someone whose own level is `own`. */
  function Effect(rows: Rows, own: int, needed: Needed, max: uint32, c: Command): map<nat, int>
    requires max > 0
  {
    match c
    case Add(target, level) => AddLevel(Levels(rows), own, target, level, needed, max)
    case DelNick(target) => RemoveNick(Levels(rows), own, target)
    case DelList(text) => Levels(rows) - Named(rows, text, max, own, needed.akick)
    case XopAdd(kind, target) => AddXop(Levels(rows), own, target, XopLevel(kind, needed), max)
  }

  /** ACCESS insists on identification, VOP, AOP and SOP do not; all want the right to change
      the list. */
  predicate Permitted(levels: map<nat, int>, a: Actor, needed: Needed, c: Command) {
    (c.XopAdd? || a.identified) && MayChange(levels, a, needed)
  }

  /** The levels after a command. */
  function After(rows: Rows, a: Actor, needed: Needed, max: uint32, c: Command): map<nat, int>
    requires max > 0
  {
    if Permitted(Levels(rows), a, needed, c) then Effect(rows, AccessOf(Levels(rows), a), needed, max, c)
    else Levels(rows)
  }

  // ----- what a command can do -----

  predicate Below(levels: map<nat, int>, k: nat, own: int) {
    k in levels ==> levels[k] < own
  }

  predicate SameEntry(a: map<nat, int>, b: map<nat, int>, k: nat) {
    (k in a <==> k in b) && (k in a ==> a[k] == b[k])
  }

  /** Nobody inserts, changes or deletes an entry at or above his own level, neither by what it
      was nor by what it becomes. */
  lemma NoOverreach(rows: Rows, a: Actor, needed: Needed, max: uint32, c: Command, k: nat)
    requires max > 0
    ensures var before, after := Levels(rows), After(rows, a, needed, max, c);
            var own := AccessOf(before, a);
            !SameEntry(before, after, k) ==> Below(before, k, own) && Below(after, k, own)
  {
  }

  predicate AtMost(levels: map<nat, int>, top: int) {
    forall k :: k in levels ==> levels[k] <= top
  }

  /** Unless the founder acts, the highest level never rises above what it was, or above 0. */
  lemma HighestNeverRises(rows: Rows, a: Actor, needed: Needed, max: uint32, c: Command, top: int)
    requires max > 0 && !a.founder && top >= 0 && AtMost(Levels(rows), top)
    ensures AtMost(After(rows, a, needed, max, c), top)
  {
    var after := After(rows, a, needed, max, c);
    forall k | k in after ensures after[k] <= top {
      NoOverreach(rows, a, needed, max, c, k);
    }
  }

  lemma LevelsStayInRange(rows: Rows, a: Actor, needed: Needed, max: uint32, c: Command)
    requires max > 0 && InRange(Levels(rows))
    ensures InRange(After(rows, a, needed, max, c))
  {
  }

  lemma {:induction false} SmallerKeys<K, V>(a: map<K, V>, b: map<K, V>)
    requires a.Keys <= b.Keys
    ensures |a| <= |b|
  {
    assert b.Keys == a.Keys + (b.Keys - a.Keys);
    assert |a.Keys| == |a| && |b.Keys| == |b|;
  }

  lemma PutAtCount(levels: map<nat, int>, own: int, target: Target, level: int, max: nat)
    requires |levels| <= max
    ensures |PutAt(levels, own, target, level, max)| <= max
  {
    if target.Known? {
      var after := levels[target.id := level];
      assert after.Keys == levels.Keys + {target.id};
      assert |levels.Keys| == |levels| && |after.Keys| == |after|;
      if target.id in levels {
        assert after.Keys == levels.Keys;
      }
    }
  }

  lemma CountStaysBelow(rows: Rows, a: Actor, needed: Needed, max: uint32, c: Command)
    requires max > 0 && |rows| <= max
    ensures |After(rows, a, needed, max, c)| <= max
  {
    var before, after := Levels(rows), After(rows, a, needed, max, c);
    assert before.Keys == rows.Keys;
    assert |before.Keys| == |before| && |rows.Keys| == |rows|;
    if Permitted(before, a, needed, c) {
      var own := AccessOf(before, a);
      match c {
        case Add(target, level) => PutAtCount(before, own, target, level, max);
        case XopAdd(kind, target) => PutAtCount(before, own, target, XopLevel(kind, needed), max);
        case DelNick(_) => SmallerKeys(after, before);
        case DelList(_) => SmallerKeys(after, before);
      }
    }
  }

  // ----- what a command does -----

  /** The level of whoever gives the command: 10000 for the founder, that of his entry if he is
      known, otherwise none. */
  predicate Stands(levels: map<nat, int>, a: Actor, own: int) {
    if a.nick != 0 && a.founder then own == 10000
    else if a.nick != 0 && a.known && a.nick in levels then own == levels[a.nick]
    else own == 0
  }

  /** He may give it: the founder may, -10000 keeps everyone else out, and an administrator needs
      no level. All but VOP, AOP and SOP want him to have identified. */
  predicate MayGive(own: int, a: Actor, needed: Needed, c: Command) {
    && (c.XopAdd? || a.identified)
    && (a.admin || own == 10000 || (needed.change != -10000 && own >= needed.change))
  }

  /** There is a nick to put on the list, its entry, if it has one, is below the actor's level, and
      a new one finds room. */
  predicate MayPut(levels: map<nat, int>, own: int, target: Target, max: nat) {
    && target.Known? && !target.forbidden && !target.noop
    && if target.id in levels then levels[target.id] < own else |levels| < max
  }

  lemma OnlyWhenGiven(rows: Rows, a: Actor, own: int, needed: Needed, max: uint32, c: Command)
    requires max > 0 && Stands(Levels(rows), a, own)
    ensures After(rows, a, needed, max, c)
            == if MayGive(own, a, needed, c) then Effect(rows, own, needed, max, c) else Levels(rows)
  {
  }

  lemma PutIff(levels: map<nat, int>, own: int, target: Target, level: int, max: nat)
    ensures PutAt(levels, own, target, level, max)
            == if MayPut(levels, own, target, max) then levels[target.id := level] else levels
  {
    if target.Known? && target.id in levels && levels[target.id] == level {
      assert levels[target.id := level] == levels;
    }
  }

  /** ACCESS ADD puts the nick at the level, or changes nothing. It does so if and only if the level
      is between -10000 and 10000, not 0, and below the actor's own, and one below 0 wants the right
      to manage autokicks. */
  lemma AddIff(rows: Rows, a: Actor, own: int, needed: Needed, max: uint32, target: Target, level: int)
    requires max > 0 && Stands(Levels(rows), a, own)
    ensures var c := Add(target, level);
            var may := && MayGive(own, a, needed, c) && MayPut(Levels(rows), own, target, max)
                       && -10000 < level < 10000 && level != 0 && level < own
                       && (level > 0 || own == 10000 || (needed.akick != -10000 && own >= needed.akick));
            After(rows, a, needed, max, c) == if may then Levels(rows)[target.id := level] else Levels(rows)
  {
    OnlyWhenGiven(rows, a, own, needed, max, Add(target, level));
    PutIff(Levels(rows), own, target, level, max);
  }

  /** VOP puts a nick at the level of autovoice, AOP at that of autoop and SOP at that of autokick
      management, if that level is positive and below the actor's own. */
  lemma XopIff(rows: Rows, a: Actor, own: int, needed: Needed, max: uint32, kind: Xop, target: Target, level: int)
    requires max > 0 && Stands(Levels(rows), a, own)
    requires kind == Vop ==> level == needed.autovoice
    requires kind == Aop ==> level == needed.autoop
    requires kind == Sop ==> level == needed.akick
    ensures var c := XopAdd(kind, target);
            var may := && MayGive(own, a, needed, c) && MayPut(Levels(rows), own, target, max)
                       && 0 < level < 10000 && level < own;
            After(rows, a, needed, max, c) == if may then Levels(rows)[target.id := level] else Levels(rows)
  {
    OnlyWhenGiven(rows, a, own, needed, max, XopAdd(kind, target));
    PutIff(Levels(rows), own, target, level, max);
  }

  /** ACCESS DEL of a nick takes its entry out if and only if that is below the actor's level. */
  lemma DelNickIff(rows: Rows, a: Actor, own: int, needed: Needed, max: uint32, target: Target)
    requires max > 0 && Stands(Levels(rows), a, own)
    ensures var levels, c := Levels(rows), DelNick(target);
            var may := MayGive(own, a, needed, c) && target.Known? && target.id in levels && levels[target.id] < own;
            After(rows, a, needed, max, c) == if may then levels - {target.id} else levels
  {
    OnlyWhenGiven(rows, a, own, needed, max, DelNick(target));
  }

  /** ACCESS DEL of numbers takes an entry out if and only if its number is named, its level is below
      the actor's and, when it is below 0, the actor's is above that of autokick management. */
  lemma DelListIff(rows: Rows, a: Actor, own: int, needed: Needed, max: uint32, text: string, k: nat)
    requires max > 0 && Stands(Levels(rows), a, own)
    ensures var levels, after := Levels(rows), After(rows, a, needed, max, DelList(text));
            && (k in after ==> k in levels && after[k] == levels[k])
            && (k in levels ==>
                  (k !in after <==>
                     && MayGive(own, a, needed, DelList(text))
                     && NumLists.Listed(NumLists.Items(text), 1, max - 1, rows[k].idx)
                     && rows[k].level < own && (rows[k].level < 0 ==> own > needed.akick)))
  {
    OnlyWhenGiven(rows, a, own, needed, max, DelList(text));
  }

  // ----- runs -----

  datatype Turn = Turn(a: Actor, needed: Needed, c: Command)

  /** A command leads from one list to another; how entries of equal level are numbered is
      left open. */
  predicate Step(rows: Rows, max: uint32, turn: Turn, next: Rows)
    requires max > 0
  {
    Levels(next) == After(rows, turn.a, turn.needed, max, turn.c) && (Ranked(rows) ==> Ranked(next))
  }

  /** The lists of a run, from the first to the last. */
  predicate IsRun(lists: seq<Rows>, max: uint32, turns: seq<Turn>)
    requires max > 0
  {
    |lists| == |turns| + 1 && forall i :: 0 <= i < |turns| ==> Step(lists[i], max, turns[i], lists[i + 1])
  }

  predicate Sound(rows: Rows, max: uint32) {
    Ranked(rows) && InRange(Levels(rows)) && |rows| <= max
  }

  lemma StepKeepsSound(rows: Rows, max: uint32, turn: Turn, next: Rows)
    requires max > 0 && Sound(rows, max) && Step(rows, max, turn, next)
    ensures Sound(next, max)
  {
    LevelsStayInRange(rows, turn.a, turn.needed, max, turn.c);
    CountStaysBelow(rows, turn.a, turn.needed, max, turn.c);
    assert Levels(next).Keys == next.Keys;
    assert |Levels(next).Keys| == |Levels(next)| && |next.Keys| == |next|;
  }

  predicate NoFounder(turns: seq<Turn>) {
    forall i :: 0 <= i < |turns| ==> !turns[i].a.founder
  }

  /** In every run the list stays numbered, in range and within its limit; and as long as no
      founder acts, no level ever exceeds the highest of the first list (or 0). */
  lemma {:induction false} RunsAreSafe(lists: seq<Rows>, max: uint32, turns: seq<Turn>, top: int, i: nat)
    requires max > 0 && IsRun(lists, max, turns) && Sound(lists[0], max) && i < |lists|
    ensures Sound(lists[i], max)
    ensures NoFounder(turns) && top >= 0 && AtMost(Levels(lists[0]), top) ==> AtMost(Levels(lists[i]), top)
  {
    if i > 0 {
      var t := turns[i - 1];
      RunsAreSafe(lists, max, turns, top, i - 1);
      assert Step(lists[i - 1], max, t, lists[i - 1 + 1]);
      StepKeepsSound(lists[i - 1], max, t, lists[i]);
      if NoFounder(turns) && top >= 0 && AtMost(Levels(lists[0]), top) {
        HighestNeverRises(lists[i - 1], t.a, t.needed, max, t.c, top);
      }
    }
  }

  // ----- the list as the commands change it -----

  lemma {:induction false} HighestExists(rows: Rows, rest: set<nat>)
    requires rest != {} && rest <= rows.Keys
    ensures exists k :: k in rest && forall j :: j in rest ==> rows[j].level <= rows[k].level
  {
    var x :| x in rest;
    if rest != {x} {
      assert rest - {x} != {};
      HighestExists(rows, rest - {x});
      var k :| k in rest - {x} && forall j :: j in rest - {x} ==> rows[j].level <= rows[k].level;
      var best := if rows[x].level > rows[k].level then x else k;
      assert forall j :: j in rest ==> rows[j].level <= rows[best].level;
    }
  }

  /** The rows outside `rest` have the numbers up to `n`, highest level first, and no row of
      `rest` has a higher level than they have. */
  predicate PartlyRanked(rows: Rows, rest: set<nat>, n: nat) {
    && rest <= rows.Keys
    && (forall k :: k in rows && k !in rest ==> 1 <= rows[k].idx <= n)
    && (forall a, b :: a in rows && b in rows && a !in rest && b !in rest && a != b ==> rows[a].idx != rows[b].idx)
    && (forall a, b :: a in rows && b in rows && a !in rest && b in rest ==> rows[a].level >= rows[b].level)
    && (forall a, b :: a in rows && b in rows && a !in rest && b !in rest && rows[a].level > rows[b].level
          ==> rows[a].idx < rows[b].idx)
  }

  lemma RankOne(rows: Rows, rest: set<nat>, n: nat, k: nat)
    requires n > 0 && PartlyRanked(rows, rest, n - 1) && k in rest
    requires forall j :: j in rest ==> rows[j].level <= rows[k].level
    ensures PartlyRanked(rows[k := rows[k].(idx := n)], rest - {k}, n)
    ensures Levels(rows[k := rows[k].(idx := n)]) == Levels(rows)
  {
  }

  lemma AllRanked(rows: Rows, was: Rows, n: nat)
    requires PartlyRanked(rows, {}, n) && rows.Keys == was.Keys && n == |was|
    ensures Ranked(rows)
  {
    assert |rows.Keys| == |rows| && |was.Keys| == |was|;
  }

  predicate DistinctIdx(rows: Rows) {
    forall a, b :: a in rows && b in rows && a != b ==> rows[a].idx != rows[b].idx
  }

  /** `rows` is what is left of `was` after the deletion of some numbers. */
  predicate TakenOut(was: Rows, rows: Rows, nums: seq<nat>, own: int, akick: int) {
    rows == was - Numbered(was, nums, own, akick) && DistinctIdx(rows)
  }

  lemma TakeOneMore(was: Rows, rows: Rows, nums: seq<nat>, num: nat, own: int, akick: int)
    requires TakenOut(was, rows, nums, own, akick)
    ensures TakenOut(was, rows - Numbered(rows, [num], own, akick), nums + [num], own, akick)
  {
    var next := rows - Numbered(rows, [num], own, akick);
    assert next == was - Numbered(was, nums + [num], own, akick);
  }

  lemma TakeNothing(rows: Rows, own: int, akick: int)
    requires DistinctIdx(rows)
    ensures TakenOut(rows, rows, [], own, akick)
  {
    assert Numbered(rows, [], own, akick) == {};
    assert rows - {} == rows;
  }

  lemma LevelsWithout(rows: Rows, gone: set<nat>)
    ensures Levels(rows - gone) == Levels(rows) - gone
  {
  }

  class ChannelAccess {
    var rows: Rows
    const max: uint32

    ghost predicate Valid()
      reads this
    {
      max > 0 && Sound(rows, max)
    }

    constructor (max: uint32)
      requires max > 0
      ensures Valid() && rows == map[] && this.max == max
    {
      this.max := max;
      rows := map[];
    }

    /** A row of the highest level; which one, among equals, is open. */
    static method Highest(rows: Rows, rest: set<nat>) returns (k: nat)
      requires rest != {} && rest <= rows.Keys
      ensures k in rest && forall j :: j in rest ==> rows[j].level <= rows[k].level
    {
      HighestExists(rows, rest);
      k :| k in rest && forall j :: j in rest ==> rows[j].level <= rows[k].level;
    }

    /** `sort_chan_access`: numbers the rows afresh, highest level first. */
    method SortChanAccess()
      modifies this
      ensures Ranked(rows) && Levels(rows) == Levels(old(rows))
    {
      var rest, n := rows.Keys, 0;
      ghost var was := rows;
      while rest != {}
        invariant rows.Keys == was.Keys && n + |rest| == |was|
        invariant PartlyRanked(rows, rest, n) && Levels(rows) == Levels(was)
        decreases |rest|
      {
        var k := Highest(rows, rest);
        n := n + 1;
        RankOne(rows, rest, n, k);
        rows := rows[k := rows[k].(idx := n)];
        rest := rest - {k};
      }
      AllRanked(rows, was, n);
    }

    /** The queries that write a level, with the sorting that follows. */
    method Write(k: nat, level: int)
      modifies this
      ensures Ranked(rows) && Levels(rows) == Levels(old(rows))[k := level]
    {
      rows := rows[k := Row(level, if k in rows then rows[k].idx else 0)];
      SortChanAccess();
    }

    method Put(own: int, target: Target, level: int)
      requires Valid()
      modifies this
      ensures Ranked(rows) && Levels(rows) == PutAt(Levels(old(rows)), own, target, level, max)
    {
      assert Levels(rows).Keys == rows.Keys;
      assert |Levels(rows).Keys| == |Levels(rows)| && |rows.Keys| == |rows|;
      if target.NoNick? || target.forbidden || target.noop {
        return;
      }
      if target.id in rows {
        if rows[target.id].level < own && rows[target.id].level != level {
          Write(target.id, level);
        }
      } else if |rows| < max {
        Write(target.id, level);
      }
    }

    /** `access_del_callback` for one number: 1 when the entry was deleted. */
    method AccessDelCallback(num: nat, own: int, akick: int) returns (deleted: int)
      requires DistinctIdx(rows)
      modifies this
      ensures rows == old(rows) - Numbered(old(rows), [num], own, akick)
      ensures deleted == (if Numbered(old(rows), [num], own, akick) == {} then 0 else 1)
      ensures deleted == 0 ==> rows == old(rows)
    {
      deleted := 0;
      if k :| k in rows && rows[k].idx == num {
        if Deletable(own, akick, rows[k].level) {
          assert Numbered(rows, [num], own, akick) == {k};
          rows := rows - {k};
          deleted := 1;
        } else {
          assert Numbered(rows, [num], own, akick) == {};
        }
      }
    }

    /** The numbered deletion: the callback runs for each number, and the rest is numbered
        afresh when something was deleted. */
    method DelNumbers(nums: seq<nat>, own: int, akick: int)
      requires Valid()
      modifies this
      ensures Ranked(rows)
      ensures Levels(rows) == Levels(old(rows)) - Numbered(old(rows), nums, own, akick)
    {
      var i, count := 0, 0;
      ghost var was := rows;
      TakeNothing(was, own, akick);
      assert nums[..0] == [];
      while i < |nums|
        invariant 0 <= i <= |nums| && count >= 0
        invariant TakenOut(was, rows, nums[..i], own, akick) && (count == 0 ==> rows == was)
      {
        TakeOneMore(was, rows, nums[..i], nums[i], own, akick);
        assert nums[..i + 1] == nums[..i] + [nums[i]];
        var deleted := AccessDelCallback(nums[i], own, akick);
        count := count + deleted;
        i := i + 1;
      }
      assert nums[..i] == nums;
      LevelsWithout(was, Numbered(was, nums, own, akick));
      if count > 0 {
        SortChanAccess();
      }
    }

    /** ACCESS DEL of a list; `nums` are the numbers `process_numlist` calls the callback for. */
    method DelNamed(text: string, nums: seq<nat>, own: int, akick: int)
      requires Valid()
      requires NumLists.CallsOf(NumLists.Items(text), 1, max - 1, _ => 0, nums)
      modifies this
      ensures Ranked(rows)
      ensures Levels(rows) == Levels(old(rows)) - Named(old(rows), text, max, own, akick)
    {
      CallsNameAll(rows, text, max, nums, own, akick);
      DelNumbers(nums, own, akick);
    }

    /** ACCESS DEL of a nick. */
    method DelNickEntry(own: int, target: Target)
      requires Valid()
      modifies this
      ensures Ranked(rows) && Levels(rows) == RemoveNick(Levels(old(rows)), own, target)
    {
      if target.Known? && target.id in rows && own > rows[target.id].level {
        LevelsWithout(rows, {target.id});
        rows := rows - {target.id};
        SortChanAccess();
      }
    }

    /** ACCESS ADD after its permission check. */
    method AddEntry(own: int, needed: Needed, target: Target, level: int)
      requires Valid()
      modifies this
      ensures Ranked(rows) && Levels(rows) == AddLevel(Levels(old(rows)), own, target, level, needed, max)
    {
      if level != 0 && INVALID < level < FOUNDER && level < own && (level >= 0 || HasAccess(own, needed.akick)) {
        Put(own, target, level);
      }
    }

    /** VOP, AOP and SOP after their permission check. */
    method XopEntry(own: int, target: Target, level: int)
      requires Valid()
      modifies this
      ensures Ranked(rows) && Levels(rows) == AddXop(Levels(old(rows)), own, target, level, max)
    {
      if 0 < level < own && level < FOUNDER {
        Put(own, target, level);
      }
    }

    method Dispatch(own: int, needed: Needed, c: Command, nums: seq<nat>)
      requires Valid()
      requires c.DelList? ==> NumLists.CallsOf(NumLists.Items(c.text), 1, max - 1, _ => 0, nums)
      modifies this
      ensures Ranked(rows) && Levels(rows) == Effect(old(rows), own, needed, max, c)
    {
      match c
      case Add(target, level) => AddEntry(own, needed, target, level);
      case DelNick(target) => DelNickEntry(own, target);
      case DelList(text) => DelNamed(text, nums, own, needed.akick);
      case XopAdd(kind, target) => XopEntry(own, target, XopLevel(kind, needed));
    }

    /** One command, with the checks before it. A deletion list comes with the numbers it
        makes `process_numlist` call the callback for. */
    method Do(a: Actor, needed: Needed, c: Command, nums: seq<nat>)
      requires Valid()
      requires c.DelList? ==> NumLists.CallsOf(NumLists.Items(c.text), 1, max - 1, _ => 0, nums)
      modifies this
      ensures Valid() && Step(old(rows), max, Turn(a, needed, c), rows)
    {
      ghost var was := rows;
      if Permitted(Levels(rows), a, needed, c) {
        Dispatch(AccessOf(Levels(rows), a), needed, c, nums);
      }
      StepKeepsSound(was, max, Turn(a, needed, c), rows);
    }
  }
}

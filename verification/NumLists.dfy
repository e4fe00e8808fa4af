/** Lists of numbers and ranges such as "1,3-5": the two evaluators of the services, the one
    that calls a routine for every number (`process_numlist`) and the one that builds the
    conditions of a query (`mysql_build_query`). */
module NumLists {
  import opened CText
  import opened SeqSets

  const MAX_INDEX := 65536

  // ----- the text -----

  /** One entry of a list as the C library reads its numbers. */
  datatype Item = Item(first: Numeral, last: Option<Numeral>)

  const DIGITS: string := "0123456789"

  /** `s + strcspn(s, stop)`. */
  function Skip(s: string, stop: string): (r: string)
    ensures |r| <= |s|
    ensures r != [] ==> r[0] in stop
  {
    if s == [] || s[0] in stop then s else Skip(s[1..], stop)
  }

  /** The entry at the start of the text, and where the scan is after it. */
  function ReadItem(s: string): (r: (Item, string))
    ensures |r.1| <= |s|
  {
    var n := Scan(s);
    var t := Skip(s[n.used..], DIGITS + ",-");
    if t != [] && t[0] == '-' then
      var u := Skip(t[1..], DIGITS + ",");
      if u != [] && IsDigit(u[0]) then
        (Item(n, Some(Scan(u))), Skip(u[Scan(u).used..], DIGITS + ",-"))
      else (Item(n, None), u)
    else (Item(n, None), t)
  }

  /** The text after the next comma. */
  function AfterComma(s: string): (r: string)
    ensures |r| <= |s| && (s != [] ==> |r| < |s|)
  {
    var t := Skip(s, ",");
    if t == [] then t else t[1..]
  }

  function NextItem(s: string): (r: (Item, string))
    requires s != []
    ensures |r.1| < |s|
  {
    var (item, t) := ReadItem(s);
    if t == [] then (item, t) else (item, AfterComma(t))
  }

  function Items(s: string): seq<Item>
    decreases |s|
  {
    if s == [] then [] else [NextItem(s).0] + Items(NextItem(s).1)
  }

  // ----- what a list selects -----

  function Lo(item: Item): uint32 { Strtol(item.first) }

  function Hi(item: Item): uint32 {
    if item.last.Some? then Strtol(item.last.value) else Lo(item)
  }

  /** Entry `item`, cut to the bounds and to the last index there is, contains `x`. */
  predicate InItem(item: Item, min: uint32, max: uint32, x: nat) {
    Lo(item) <= x <= Hi(item) && min <= x <= max && x <= MAX_INDEX
  }

  predicate Listed(items: seq<Item>, min: uint32, max: uint32, x: nat) {
    exists i :: 0 <= i < |items| && InItem(items[i], min, max, x)
  }

  lemma ListedMore(items: seq<Item>, last: Item, min: uint32, max: uint32)
    ensures forall x: nat :: Listed(items + [last], min, max, x)
                             <==> Listed(items, min, max, x) || InItem(last, min, max, x)
  {
    var all := items + [last];
    forall x: nat ensures Listed(all, min, max, x) <==> Listed(items, min, max, x) || InItem(last, min, max, x) {
      if i :| 0 <= i < |items| && InItem(items[i], min, max, x) {
        assert all[i] == items[i];
      }
      assert all[|items|] == last;
    }
  }

  /** Reads the entry at the start of the text, after the ones that were read already. */
  method TakeItem(s: string, ghost done: seq<Item>) returns (item: Item, t: string)
    requires s != []
    ensures done + Items(s) == (done + [item]) + Items(t) && |t| < |s|
  {
    var next := NextItem(s);
    item, t := next.0, next.1;
    assert Items(s) == [item] + Items(t);
  }

  lemma AllTaken(done: seq<Item>)
    ensures done + Items([]) == done
  {
  }

  function Sum(xs: seq<nat>, callback: nat -> int): int {
    if xs == [] then 0
    else Sum(xs[..|xs| - 1], callback)
         + (if callback(xs[|xs| - 1]) < 0 then 0 else callback(xs[|xs| - 1]))
  }

  /** Marks the numbers of a range. */
  method MarkRange(numflag: array<bool>, n1: nat, n2: nat)
    requires numflag.Length == MAX_INDEX + 1 && n2 <= MAX_INDEX
    modifies numflag
    ensures forall x :: 0 <= x <= MAX_INDEX ==> (numflag[x] <==> old(numflag[x]) || n1 <= x <= n2)
  {
    var n := n1;
    while n <= n2
      invariant n1 <= n && (n1 <= n2 ==> n <= n2 + 1)
      invariant forall x :: 0 <= x <= MAX_INDEX ==> (numflag[x] <==> old(numflag[x]) || (n1 <= x <= n2 && x < n))
    {
      numflag[n] := true;
      n := n + 1;
    }
  }

  /** Cuts an entry to the bounds, marks its numbers and widens the span of marked numbers. */
  method MarkItem(numflag: array<bool>, item: Item, min: uint32, max: uint32, lo: nat, hi: nat)
    returns (imin: nat, imax: nat)
    requires numflag.Length == MAX_INDEX + 1 && hi <= MAX_INDEX
    requires forall x :: 0 <= x <= MAX_INDEX && numflag[x] ==> lo <= x <= hi
    modifies numflag
    ensures forall x :: 0 <= x <= MAX_INDEX ==> (numflag[x] <==> old(numflag[x]) || InItem(item, min, max, x))
    ensures forall x :: 0 <= x <= MAX_INDEX && numflag[x] ==> imin <= x <= imax
    ensures imax <= MAX_INDEX
  {
    imin, imax := lo, hi;
    var n1: nat, n2: nat := Lo(item), Hi(item);
    if n1 < min { n1 := min; }
    if n2 > max { n2 := max; }
    if n2 > MAX_INDEX { n2 := MAX_INDEX; }
    if n1 < imin { imin := n1; }
    if n2 > imax { imax := n2; }
    MarkRange(numflag, n1, n2);
  }

  /** The first half of `process_numlist`: the flag of every listed number is set, and no
      index is beyond the flags. */
  method MarkItems(numstr: string, min: uint32, max: uint32) returns (numflag: array<bool>, imin: nat, imax: nat)
    ensures fresh(numflag) && numflag.Length == MAX_INDEX + 1
    ensures forall x :: 0 <= x <= MAX_INDEX ==> (numflag[x] <==> Listed(Items(numstr), min, max, x))
    ensures forall x :: 0 <= x <= MAX_INDEX && numflag[x] ==> imin <= x <= imax
    ensures imax <= MAX_INDEX
  {
    imin, imax := MAX_INDEX, 0;
    numflag := new bool[MAX_INDEX + 1](_ => false);
    var s := numstr;
    ghost var done: seq<Item> := [];
    while s != []
      invariant done + Items(s) == Items(numstr)
      invariant imax <= MAX_INDEX
      invariant forall x :: 0 <= x <= MAX_INDEX ==> (numflag[x] <==> Listed(done, min, max, x))
      invariant forall x :: 0 <= x <= MAX_INDEX && numflag[x] ==> imin <= x <= imax
      decreases |s|
    {
      var item, t := TakeItem(s, done);
      imin, imax := MarkItem(numflag, item, min, max, imin, imax);
      ListedMore(done, item, min, max);
      done, s := done + [item], t;
    }
    AllTaken(done);
  }

  lemma SumMore(called: seq<nat>, i: nat, callback: nat -> int)
    ensures Sum(called + [i], callback) == Sum(called, callback) + (if callback(i) < 0 then 0 else callback(i))
  {
    assert (called + [i])[..|called|] == called;
  }

  /** The calls for a row of flags: exactly the marked numbers in ascending order, up to and
      with the first one whose result is negative. */
  ghost predicate Calls(marked: seq<bool>, callback: nat -> int, called: seq<nat>) {
    && Ascending(called)
    && (forall i :: 0 <= i < |called| ==> called[i] < |marked| && marked[called[i]])
    && (forall i :: 0 <= i < |called| - 1 ==> callback(called[i]) >= 0)
    && (forall x :: 0 <= x < |marked| && marked[x] && x !in called ==>
          called != [] && callback(called[|called| - 1]) < 0 && called[|called| - 1] < x)
  }

  /** The calls are made for the numbers below `i`, and none has failed. */
  ghost predicate CallsBelow(marked: seq<bool>, callback: nat -> int, called: seq<nat>, i: nat) {
    && Ascending(called)
    && (forall j :: 0 <= j < |called| ==>
          called[j] < i && called[j] < |marked| && marked[called[j]] && callback(called[j]) >= 0)
    && (forall x :: 0 <= x < i && x < |marked| && marked[x] ==> x in called)
  }

  lemma CallOne(marked: seq<bool>, callback: nat -> int, called: seq<nat>, i: nat)
    requires CallsBelow(marked, callback, called, i) && i < |marked| && marked[i]
    ensures callback(i) >= 0 ==> CallsBelow(marked, callback, called + [i], i + 1)
    ensures callback(i) < 0 ==> Calls(marked, callback, called + [i])
  {
  }

  lemma CallNone(marked: seq<bool>, callback: nat -> int, called: seq<nat>, i: nat, imax: nat)
    requires CallsBelow(marked, callback, called, i)
    ensures i < |marked| && !marked[i] ==> CallsBelow(marked, callback, called, i + 1)
    ensures i > imax && (forall x :: 0 <= x < |marked| && marked[x] ==> x <= imax) ==> Calls(marked, callback, called)
  {
  }

  /** The second half of `process_numlist`. */
  method CallMarked(numflag: array<bool>, imin: nat, imax: nat, callback: nat -> int)
    returns (retval: int, numcount: nat, called: seq<nat>)
    requires imax < numflag.Length
    requires forall x :: 0 <= x < numflag.Length && numflag[x] ==> imin <= x <= imax
    ensures Calls(numflag[..], callback, called)
    ensures numcount == |called| && retval == Sum(called, callback)
  {
    retval, numcount, called := 0, 0, [];
    ghost var marked := numflag[..];
    var i := imin;
    while i <= imax
      invariant imin <= i
      invariant numcount == |called| && retval == Sum(called, callback)
      invariant CallsBelow(marked, callback, called, i)
      decreases imax + 1 - i
    {
      CallNone(marked, callback, called, i, imax);
      if numflag[i] {
        numcount := numcount + 1;
        CallOne(marked, callback, called, i);
        SumMore(called, i, callback);
        called := called + [i];
        var res := callback(i);
        if res < 0 {
          return;
        }
        retval := retval + res;
      }
      i := i + 1;
    }
    CallNone(marked, callback, called, i, imax);
  }

  /** The calls a list makes: exactly the listed numbers in ascending order, up to and with
      the first one whose result is negative. */
  ghost predicate CallsOf(items: seq<Item>, min: uint32, max: uint32, callback: nat -> int, called: seq<nat>) {
    && Ascending(called)
    && (forall i :: 0 <= i < |called| ==> Listed(items, min, max, called[i]))
    && (forall i :: 0 <= i < |called| - 1 ==> callback(called[i]) >= 0)
    && (forall x: nat :: Listed(items, min, max, x) && x !in called ==>
          called != [] && callback(called[|called| - 1]) < 0 && called[|called| - 1] < x)
  }

  /** `process_numlist`; `called` are the numbers the callback was called for, in order. */
  method ProcessNumlist(numstr: string, min: uint32, max: uint32, callback: nat -> int)
    returns (retval: int, numcount: nat, called: seq<nat>)
    ensures CallsOf(Items(numstr), min, max, callback, called)
    ensures numcount == |called| && retval == Sum(called, callback)
  {
    var numflag, imin, imax := MarkItems(numstr, min, max);
    ghost var items := Items(numstr);
    ghost var marked := numflag[..];
    assert forall x :: 0 <= x < |marked| ==> (marked[x] <==> Listed(items, min, max, x));
    retval, numcount, called := CallMarked(numflag, imin, imax, callback);
  }

  // ----- the query -----

  /** A condition on the column, joined to the others by "or". */
  datatype Clause = Equals(n: nat) | Between(lo: nat, hi: nat)

  predicate Holds(c: Clause, x: nat) {
    match c
    case Equals(n) => x == n
    case Between(lo, hi) => lo <= x <= hi
  }

  predicate Selects(clauses: seq<Clause>, x: nat) {
    exists i :: 0 <= i < |clauses| && Holds(clauses[i], x)
  }

  function QueryLo(item: Item): uint32 { Strtoul(item.first) }

  function QueryHi(item: Item): uint32 {
    if item.last.Some? then Strtoul(item.last.value) else QueryLo(item)
  }

  function AtMost(n: nat, max: nat): nat { if n > max then max else n }

  predicate InQueryItem(item: Item, max: uint32, x: nat) {
    AtMost(QueryLo(item), max) <= x <= AtMost(QueryHi(item), max)
  }

  predicate Queried(items: seq<Item>, max: uint32, x: nat) {
    exists i :: 0 <= i < |items| && InQueryItem(items[i], max, x)
  }

  /** The conditions select what the entries ask for. */
  ghost predicate SelectsAll(clauses: seq<Clause>, items: seq<Item>, max: uint32) {
    forall x: nat :: Selects(clauses, x) <==> Queried(items, max, x)
  }

  lemma QueriedMore(items: seq<Item>, last: Item, max: uint32)
    ensures forall x: nat :: Queried(items + [last], max, x) <==> Queried(items, max, x) || InQueryItem(last, max, x)
  {
    var all := items + [last];
    forall x: nat ensures Queried(all, max, x) <==> Queried(items, max, x) || InQueryItem(last, max, x) {
      if i :| 0 <= i < |items| && InQueryItem(items[i], max, x) {
        assert all[i] == items[i];
      }
      assert all[|items|] == last;
    }
  }

  lemma SelectsMore(clauses: seq<Clause>, last: Clause, x: nat)
    ensures Selects(clauses + [last], x) <==> Selects(clauses, x) || Holds(last, x)
  {
    var all := clauses + [last];
    if Selects(clauses, x) {
      var i :| 0 <= i < |clauses| && Holds(clauses[i], x);
      assert all[i] == clauses[i];
    }
    if Holds(last, x) {
      assert all[|clauses|] == last;
    }
  }

  lemma SelectsAllMore(clauses: seq<Clause>, more: seq<Clause>, items: seq<Item>, last: Item, max: uint32)
    requires SelectsAll(clauses, items, max)
    requires forall x: nat :: Selects(more, x) <==> Selects(clauses, x) || InQueryItem(last, max, x)
    ensures SelectsAll(more, items + [last], max)
  {
    QueriedMore(items, last, max);
  }

  /** The condition for one entry, if it has one. */
  method AddClause(clauses: seq<Clause>, item: Item, max: uint32, ghost done: seq<Item>) returns (r: seq<Clause>)
    requires SelectsAll(clauses, done, max)
    ensures SelectsAll(r, done + [item], max)
  {
    var n1: nat, n2: nat := QueryLo(item), QueryHi(item);
    if n1 > max { n1 := max; }
    if n2 > max { n2 := max; }
    r := clauses;
    if n1 == n2 {
      r := clauses + [Equals(n1)];
    } else if n1 < n2 {
      r := clauses + [Between(n1, n2)];
    }
    if n1 <= n2 {
      forall x: nat ensures Selects(r, x) <==> Selects(clauses, x) || n1 <= x <= n2 {
        SelectsMore(clauses, r[|clauses|], x);
      }
    }
    SelectsAllMore(clauses, r, done, item, max);
  }

  /** `mysql_build_query`: the conditions select exactly the numbers of the ranges whose ends
      have both been lowered to the maximum. */
  method BuildQuery(numstr: string, max: uint32) returns (clauses: seq<Clause>)
    ensures SelectsAll(clauses, Items(numstr), max)
  {
    clauses := [];
    var s := numstr;
    ghost var done: seq<Item> := [];
    while s != []
      invariant done + Items(s) == Items(numstr)
      invariant SelectsAll(clauses, done, max)
      decreases |s|
    {
      var item, t := TakeItem(s, done);
      clauses := AddClause(clauses, item, max, done);
      done, s := done + [item], t;
    }
    AllTaken(done);
  }

  // ----- do they agree? -----

  /** The number is read alike by `strtol` and `strtoul`: it fits a signed long, or what is cut
      off by either leaves the same 32 bits. */
  predicate ReadAlike(n: Numeral) {
    if n.negative then
      n.magnitude <= LONG_MAX + 1 || (n.magnitude <= ULONG_MAX && n.magnitude % UINT32_RANGE == 0)
    else
      n.magnitude <= LONG_MAX || n.magnitude > ULONG_MAX || n.magnitude % UINT32_RANGE == UINT32_RANGE - 1
  }

  lemma ReadAlikeIff(n: Numeral)
    ensures Strtol(n) == Strtoul(n) <==> ReadAlike(n)
  {
  }

  predicate ItemReadAlike(item: Item) {
    ReadAlike(item.first) && (item.last.Some? ==> ReadAlike(item.last.value))
  }

  /** An entry that begins beyond the maximum and does not end below it. */
  predicate Beyond(item: Item, max: uint32) {
    Lo(item) > max && Hi(item) >= max
  }

  function AtLeast(n: nat, min: nat): nat { if n < min then min else n }

  /** The same numbers from `lo` to `hi` and from `lo'` to `hi'`. */
  predicate SameSpan(lo: nat, hi: nat, lo': nat, hi': nat) {
    (lo > hi && lo' > hi') || (lo == lo' && hi == hi')
  }

  /** An entry, whatever its numbers: the two evaluators agree on it if and only if the ends
      they arrive at are the same, or both leave nothing. */
  lemma OneItemAgrees(item: Item, min: uint32, max: uint32)
    requires min <= max <= MAX_INDEX
    ensures (forall x: nat :: min <= x ==> (InQueryItem(item, max, x) <==> InItem(item, min, max, x)))
            <==> SameSpan(AtLeast(AtMost(QueryLo(item), max), min), AtMost(QueryHi(item), max),
                          AtLeast(Lo(item), min), AtMost(Hi(item), max))
  {
    var lo, hi := AtLeast(AtMost(QueryLo(item), max), min), AtMost(QueryHi(item), max);
    var lo', hi' := AtLeast(Lo(item), min), AtMost(Hi(item), max);
    forall x: nat | min <= x
      ensures InQueryItem(item, max, x) <==> lo <= x <= hi
      ensures InItem(item, min, max, x) <==> lo' <= x <= hi'
    {
    }
    if !SameSpan(lo, hi, lo', hi') {
      var x := if lo <= hi && !(lo' <= lo <= hi') then lo
               else if lo <= hi && !(lo' <= hi <= hi') then hi
               else if lo' <= hi' && !(lo <= lo' <= hi) then lo' else hi';
      assert min <= x && (InQueryItem(item, max, x) <==> !InItem(item, min, max, x));
    }
  }

  /** When its numbers are read alike, they agree on it if and only if it is not beyond the
      maximum. */
  lemma AlikeItemAgrees(item: Item, min: uint32, max: uint32)
    requires ItemReadAlike(item) && min <= max <= MAX_INDEX
    ensures (forall x: nat :: min <= x ==> (InQueryItem(item, max, x) <==> InItem(item, min, max, x)))
            <==> !Beyond(item, max)
  {
    OneItemAgrees(item, min, max);
    ReadAlikeIff(item.first);
    if item.last.Some? {
      ReadAlikeIff(item.last.value);
    }
  }

  lemma ItemsCompare(item: Item, min: uint32, max: uint32, x: nat)
    requires ItemReadAlike(item) && min <= x && max <= MAX_INDEX
    ensures InQueryItem(item, max, x) <==> InItem(item, min, max, x) || (Beyond(item, max) && x == max)
  {
    ReadAlikeIff(item.first);
    if item.last.Some? {
      ReadAlikeIff(item.last.value);
    }
  }

  predicate AllReadAlike(items: seq<Item>) {
    forall i :: 0 <= i < |items| ==> ItemReadAlike(items[i])
  }

  predicate SomeBeyond(items: seq<Item>, max: uint32) {
    exists i :: 0 <= i < |items| && Beyond(items[i], max)
  }

  /** Over the indices from `min` up, the query selects what the number list selects, and
      besides only the row `max`, when an entry lies beyond it. */
  lemma EvaluatorsCompare(items: seq<Item>, min: uint32, max: uint32, x: nat)
    requires AllReadAlike(items) && min <= x && max <= MAX_INDEX
    ensures Queried(items, max, x) <==> Listed(items, min, max, x) || (x == max && SomeBeyond(items, max))
  {
    forall i | 0 <= i < |items|
      ensures InQueryItem(items[i], max, x)
              <==> InItem(items[i], min, max, x) || (Beyond(items[i], max) && x == max)
    {
      ItemsCompare(items[i], min, max, x);
    }
  }

  /** So the two agree on a list if and only if no entry lies beyond the maximum, or the maximum
      is listed anyway. */
  lemma ListsAgreeIff(items: seq<Item>, min: uint32, max: uint32)
    requires AllReadAlike(items) && min <= max <= MAX_INDEX
    ensures (forall x: nat :: min <= x ==> (Queried(items, max, x) <==> Listed(items, min, max, x)))
            <==> !SomeBeyond(items, max) || Listed(items, min, max, max)
  {
    forall x: nat | min <= x
      ensures Queried(items, max, x) <==> Listed(items, min, max, x) || (x == max && SomeBeyond(items, max))
    {
      EvaluatorsCompare(items, min, max, x);
    }
    if SomeBeyond(items, max) && !Listed(items, min, max, max) {
      assert Queried(items, max, max);
    }
  }

  /** Where an evaluator can change its mind: at the lower bound, at the first number of an entry,
      and after its last one. */
  predicate Turning(items: seq<Item>, min: uint32, max: uint32, x: nat) {
    || x == min
    || exists i :: 0 <= i < |items| && TurningOf(items[i], min, max, x)
  }

  predicate TurningOf(item: Item, min: uint32, max: uint32, x: nat) {
    || x == AtMost(QueryLo(item), max)
    || x == AtMost(QueryHi(item), max) + 1
    || x == AtLeast(Lo(item), min)
    || x == AtMost(Hi(item), max) + 1
  }

  predicate AgreeAt(items: seq<Item>, min: uint32, max: uint32, x: nat) {
    Queried(items, max, x) <==> Listed(items, min, max, x)
  }

  lemma TurnsAt(items: seq<Item>, min: uint32, max: uint32, x: nat)
    requires min < x && max <= MAX_INDEX
    requires Queried(items, max, x) != Queried(items, max, x - 1)
             || Listed(items, min, max, x) != Listed(items, min, max, x - 1)
    ensures Turning(items, min, max, x)
  {
    if i :| 0 <= i < |items| && InQueryItem(items[i], max, x) != InQueryItem(items[i], max, x - 1) {
      assert TurningOf(items[i], min, max, x);
    } else if i :| 0 <= i < |items| && InItem(items[i], min, max, x) != InItem(items[i], min, max, x - 1) {
      assert TurningOf(items[i], min, max, x);
    }
  }

  lemma {:induction false} AgreeUpTo(items: seq<Item>, min: uint32, max: uint32, x: nat)
    requires max <= MAX_INDEX && min <= x
    requires forall y: nat :: min <= y && Turning(items, min, max, y) ==> AgreeAt(items, min, max, y)
    ensures AgreeAt(items, min, max, x)
  {
    if x > min {
      AgreeUpTo(items, min, max, x - 1);
      if !Turning(items, min, max, x) {
        if Queried(items, max, x) != Queried(items, max, x - 1)
           || Listed(items, min, max, x) != Listed(items, min, max, x - 1) {
          TurnsAt(items, min, max, x);
        }
      }
    }
  }

  /** Any list, whatever its numbers: the two evaluators agree on every index from `min` up if and
      only if they agree at the turning points, of which there are four for each entry. */
  lemma AgreeIffAtTurns(items: seq<Item>, min: uint32, max: uint32)
    requires max <= MAX_INDEX
    ensures (forall x: nat :: min <= x ==> AgreeAt(items, min, max, x))
            <==> (forall x: nat :: min <= x && Turning(items, min, max, x) ==> AgreeAt(items, min, max, x))
  {
    if forall x: nat :: min <= x && Turning(items, min, max, x) ==> AgreeAt(items, min, max, x) {
      forall x: nat | min <= x ensures AgreeAt(items, min, max, x) {
        AgreeUpTo(items, min, max, x);
      }
    }
  }

  // ----- lists as they are written -----

  /** A number or a range of numbers. */
  datatype Entry = One(n: nat) | Range(from: nat, to: nat)

  function RenderEntry(e: Entry): string {
    match e
    case One(n) => Dec(n)
    case Range(from, to) => Dec(from) + (['-'] + Dec(to))
  }

  function Render(es: seq<Entry>): string {
    if es == [] then []
    else if |es| == 1 then RenderEntry(es[0])
    else RenderEntry(es[0]) + ([','] + Render(es[1..]))
  }

  function ItemOf(e: Entry): Item {
    match e
    case One(n) => Item(Numeral(false, n, |Dec(n)|), None)
    case Range(from, to) => Item(Numeral(false, from, |Dec(from)|), Some(Numeral(false, to, |Dec(to)|)))
  }

  predicate Ended(rest: string) { rest == [] || rest[0] == ',' }

  lemma DashNext(to: nat, rest: string)
    requires Ended(rest)
    ensures Skip(Dec(to) + rest, DIGITS + ",") == Dec(to) + rest
    ensures Scan(Dec(to) + rest) == Numeral(false, to, |Dec(to)|)
    ensures Skip(rest, DIGITS + ",-") == rest
  {
    ScanDec(to, rest);
    DecIsNumeral(to);
    DigitIsListed(Dec(to)[0]);
    assert rest != [] ==> ',' in DIGITS + ",-";
    assert Dec(to)[0] in DIGITS + ",";
  }

  lemma DigitIsListed(c: char)
    requires IsDigit(c)
    ensures c in DIGITS
  {
    assert DIGITS == ['0', '1', '2', '3', '4', '5', '6', '7', '8', '9'];
    assert DIGITS[(c - '0') as int] == c;
  }

  lemma ReadNumber(n: nat, rest: string)
    requires rest == [] || !IsDigit(rest[0])
    ensures Scan(Dec(n) + rest) == Numeral(false, n, |Dec(n)|) && (Dec(n) + rest)[|Dec(n)|..] == rest
    ensures IsDigit((Dec(n) + rest)[0])
  {
    ScanDec(n, rest);
    DecIsNumeral(n);
  }

  lemma ReadEntry(e: Entry, rest: string)
    requires Ended(rest)
    ensures ReadItem(RenderEntry(e) + rest) == (ItemOf(e), rest)
  {
    match e
    case One(n) =>
      ReadNumber(n, rest);
      DashNext(n, rest);
    case Range(from, to) =>
      var tail := ['-'] + (Dec(to) + rest);
      assert RenderEntry(e) + rest == Dec(from) + tail;
      ReadNumber(from, tail);
      assert '-' in DIGITS + ",-";
      assert Skip(tail, DIGITS + ",-") == tail && tail[1..] == Dec(to) + rest;
      DashNext(to, rest);
      ReadNumber(to, rest);
  }

  lemma NextEntry(e: Entry, rest: string)
    requires Ended(rest)
    ensures RenderEntry(e) != []
    ensures NextItem(RenderEntry(e) + rest) == (ItemOf(e), if rest == [] then [] else rest[1..])
  {
    DecIsNumeral(if e.One? then e.n else e.from);
    ReadEntry(e, rest);
    assert rest != [] ==> Skip(rest, ",") == rest;
  }

  lemma ItemsStep(s: string, item: Item, rest: string)
    requires s != [] && NextItem(s) == (item, rest)
    ensures Items(s) == [item] + Items(rest)
  {
  }

  function ItemsOf(es: seq<Entry>): (r: seq<Item>)
    ensures |r| == |es|
    ensures forall i :: 0 <= i < |es| ==> r[i] == ItemOf(es[i])
  {
    if es == [] then [] else [ItemOf(es[0])] + ItemsOf(es[1..])
  }

  /** A written list is read back entry by entry. */
  lemma {:induction false} ItemsOfRender(es: seq<Entry>)
    ensures Items(Render(es)) == ItemsOf(es)
  {
    if es != [] {
      var rest := if |es| == 1 then [] else [','] + Render(es[1..]);
      NextEntry(es[0], rest);
      assert Render(es) == RenderEntry(es[0]) + rest;
      assert rest != [] ==> rest[1..] == Render(es[1..]);
      ItemsStep(Render(es), ItemOf(es[0]), Render(es[1..]));
      ItemsOfRender(es[1..]);
    }
  }

  predicate Contains(e: Entry, x: nat) {
    match e
    case One(n) => x == n
    case Range(from, to) => from <= x <= to
  }

  predicate SmallEntry(e: Entry) {
    match e
    case One(n) => n < UINT32_RANGE
    case Range(from, to) => from < UINT32_RANGE && to < UINT32_RANGE
  }

  lemma SmallReadsItself(n: nat, used: nat)
    requires n < UINT32_RANGE
    ensures Strtol(Numeral(false, n, used)) == n
  {
  }

  lemma EntryDenotes(e: Entry, min: uint32, max: uint32, x: nat)
    requires SmallEntry(e)
    ensures InItem(ItemOf(e), min, max, x) <==> Contains(e, x) && min <= x <= max && x <= MAX_INDEX
  {
    match e
    case One(n) => SmallReadsItself(n, |Dec(n)|);
    case Range(from, to) =>
      SmallReadsItself(from, |Dec(from)|);
      SmallReadsItself(to, |Dec(to)|);
  }

  /** So a written list selects the union of its numbers and ranges within the bounds. */
  lemma WrittenListDenotes(es: seq<Entry>, min: uint32, max: uint32, x: nat)
    requires forall i :: 0 <= i < |es| ==> SmallEntry(es[i])
    ensures Listed(Items(Render(es)), min, max, x)
            <==> min <= x <= max && x <= MAX_INDEX && exists i :: 0 <= i < |es| && Contains(es[i], x)
  {
    ItemsOfRender(es);
    var items := Items(Render(es));
    forall i | 0 <= i < |es|
      ensures InItem(items[i], min, max, x) <==> Contains(es[i], x) && min <= x <= max && x <= MAX_INDEX
    {
      EntryDenotes(es[i], min, max, x);
    }
  }

  /** A written range "1-n" whose end fits an unsigned long but no signed one: `strtol` stops at
      the largest long, `strtoul` keeps the last 32 bits. The number list takes everything up
      to the maximum, the query only what these bits allow. */
  lemma LargeEndIsReadApart(n: nat, max: uint32, x: nat)
    requires LONG_MAX < n <= ULONG_MAX && n % UINT32_RANGE < x <= max <= MAX_INDEX
    ensures var items := Items(Render([Range(1, n)]));
            Listed(items, 1, max, x) && !Queried(items, max, x)
  {
    var es := [Range(1, n)];
    ItemsOfRender(es);
    var items := Items(Render(es));
    assert items[0] == ItemOf(es[0]);
    SmallReadsItself(1, |Dec(1)|);
    assert InItem(items[0], 1, max, x);
  }

  /** With "1-9223372036854775813" and a maximum of 10 the number list takes 6 and the query does
      not, although the range begins within the maximum. */
  lemma SixIsLost(n: nat)
    requires n == 9223372036854775813
    ensures var items := Items(Render([Range(1, n)])); Listed(items, 1, 10, 6) && !Queried(items, 10, 6)
  {
    assert n % UINT32_RANGE == 5;
    LargeEndIsReadApart(n, 10, 6);
  }
}

/** The list of delayed actions (src/timeout.c): a doubly linked list that is walked while the
    actions it runs add entries to it and delete entries from it. */
module Timeouts {
  import opened SeqSets

  class Timeout {
    var next: Timeout?
    var prev: Timeout?
    const timeout: int
    const repeat: bool

    constructor (timeout: int, repeat: bool, next: Timeout?)
      ensures this.timeout == timeout && this.repeat == repeat && this.next == next && prev == null
    {
      this.timeout, this.repeat, this.next, prev := timeout, repeat, next, null;
    }
  }

  /** None of the entries before it that have run has deleted entry `i`. */
  ghost predicate Spared(entries: seq<Timeout>, i: nat, kill: map<Timeout, set<Timeout>>)
    requires i < |entries|
  {
    forall j :: 0 <= j < i && entries[j] in kill ==> entries[i] !in kill[entries[j]]
  }

  /** The first `p` entries are passed over: when the action of an entry `t` deletes the
      entries `kill[t]`, the ones that have run are the due ones that no entry run before
      them has deleted, each once and in list order. */
  ghost predicate RunsInOrder(entries: seq<Timeout>, p: nat, due: set<Timeout>,
      kill: map<Timeout, set<Timeout>>, ran: seq<Timeout>)
    requires p <= |entries|
  {
    && ran == Keep(entries[..p], kill.Keys)
    && (forall x :: x in kill ==> x in entries[..p])
    && (forall i {:trigger Spared(entries, i, kill)} :: 0 <= i < p ==>
          (entries[i] in kill <==> entries[i] in due && Spared(entries, i, kill)))
  }

  /** Which entries run is settled by the list, by who is due and by what each action
      deletes: two passes that agree on these run the same entries. */
  lemma {:induction false} DeletionsDecide(entries: seq<Timeout>, p: nat, due: set<Timeout>,
      kill: map<Timeout, set<Timeout>>, ran: seq<Timeout>,
      kill': map<Timeout, set<Timeout>>, ran': seq<Timeout>)
    requires p <= |entries| && Distinct(entries)
    requires RunsInOrder(entries, p, due, kill, ran) && RunsInOrder(entries, p, due, kill', ran')
    requires forall x :: x in kill && x in kill' ==> kill[x] == kill'[x]
    ensures kill == kill' && ran == ran'
  {
    var i := 0;
    while i < p
      invariant 0 <= i <= p
      invariant forall j :: 0 <= j < i ==> (entries[j] in kill <==> entries[j] in kill')
    {
      assert Spared(entries, i, kill) == Spared(entries, i, kill');
      i := i + 1;
    }
    forall x ensures x in kill <==> x in kill' {
      if x in kill || x in kill' {
        var j :| 0 <= j < p && entries[..p][j] == x;
        assert entries[j] == x;
      }
    }
    KeepSame(entries[..p], kill.Keys, kill'.Keys);
    assert kill.Keys == kill'.Keys;
  }

  /** What a pass takes out of the list: the entries deleted by the actions and the entries
      that have run and do not repeat. */
  ghost function Gone(kill: map<Timeout, set<Timeout>>, repeating: set<Timeout>): set<Timeout> {
    (set s, t | s in kill && t in kill[s] :: t) + (kill.Keys - repeating)
  }

  lemma NotYet(entries: seq<Timeout>, p: nat)
    requires p < |entries| && Distinct(entries)
    ensures entries[p] !in entries[..p]
  {
  }

  /** An entry is passed over without being run when it was deleted or is not due. */
  lemma PassOver(entries: seq<Timeout>, p: nat, due: set<Timeout>, repeating: set<Timeout>,
      kill: map<Timeout, set<Timeout>>, ran: seq<Timeout>)
    requires p < |entries| && Distinct(entries) && RunsInOrder(entries, p, due, kill, ran)
    requires entries[p] in Gone(kill, repeating) || entries[p] !in due
    ensures RunsInOrder(entries, p + 1, due, kill, ran)
  {
    NotYet(entries, p);
    assert entries[p] !in kill;
    assert entries[..p + 1][..p] == entries[..p];
    assert entries[..p + 1] == entries[..p] + [entries[p]];
    assert !(entries[p] in due && Spared(entries, p, kill)) by {
      if entries[p] in Gone(kill, repeating) {
        var s :| s in kill && entries[p] in kill[s];
        var j :| 0 <= j < p && entries[..p][j] == s;
        assert entries[j] in kill;
      }
    }
    forall i | 0 <= i < p + 1
      ensures entries[i] in kill <==> entries[i] in due && Spared(entries, i, kill)
    {
      var spared := Spared(entries, i, kill);
      assert entries[i] in kill <==> entries[i] in due && spared;
    }
  }

  lemma PassRun(entries: seq<Timeout>, p: nat, due: set<Timeout>, repeating: set<Timeout>,
      kill: map<Timeout, set<Timeout>>, ran: seq<Timeout>, killed: set<Timeout>)
    requires p < |entries| && Distinct(entries) && RunsInOrder(entries, p, due, kill, ran)
    requires entries[p] !in Gone(kill, repeating) && entries[p] in due
    ensures var t := entries[p];
            && RunsInOrder(entries, p + 1, due, kill[t := killed], ran + [t])
            && Gone(kill[t := killed], repeating)
               == Gone(kill, repeating) + killed + (if t in repeating then {} else {t})
  {
    var t := entries[p];
    var kill' := kill[t := killed];
    NotYet(entries, p);
    assert entries[..p + 1][..p] == entries[..p];
    KeepSame(entries[..p], kill.Keys, kill'.Keys);
    forall i | 0 <= i < p
      ensures entries[i] in kill' <==> entries[i] in due && Spared(entries, i, kill')
    {
      assert entries[i] != t;
      assert Spared(entries, i, kill') == Spared(entries, i, kill);
    }
    assert Spared(entries, p, kill') by {
      forall j | 0 <= j < p && entries[j] in kill' ensures t !in kill'[entries[j]] {
        assert t in kill[entries[j]] ==> t in Gone(kill, repeating);
      }
    }
    GoneAfter(kill, repeating, t, killed);
  }

  lemma GoneAfter(kill: map<Timeout, set<Timeout>>, repeating: set<Timeout>, t: Timeout, killed: set<Timeout>)
    requires t !in kill
    ensures Gone(kill[t := killed], repeating)
            == Gone(kill, repeating) + killed + (if t in repeating then {} else {t})
  {
    var kill' := kill[t := killed];
    var was := set s, x | s in kill && x in kill[s] :: x;
    var now := set s, x | s in kill' && x in kill'[s] :: x;
    forall x ensures x in now <==> x in was + killed {
      if x in killed {
        assert t in kill' && x in kill'[t];
      }
      if s :| s in kill && x in kill[s] {
        assert s in kill' && x in kill'[s];
      }
    }
    assert now == was + killed;
  }

  /** The first entry from position `p` on that is still in the list. */
  lemma {:induction false} NextLive(entries: seq<Timeout>, p: nat, due: set<Timeout>, repeating: set<Timeout>,
      kill: map<Timeout, set<Timeout>>, ran: seq<Timeout>) returns (q: nat)
    requires p <= |entries| && Distinct(entries) && RunsInOrder(entries, p, due, kill, ran)
    ensures p <= q <= |entries| && RunsInOrder(entries, q, due, kill, ran)
    ensures q < |entries| ==> entries[q] !in Gone(kill, repeating)
    ensures Minus(entries[p..], Gone(kill, repeating)) == Minus(entries[q..], Gone(kill, repeating))
    decreases |entries| - p
  {
    if p < |entries| && entries[p] in Gone(kill, repeating) {
      PassOver(entries, p, due, repeating, kill, ran);
      assert entries[p..][1..] == entries[p + 1..];
      q := NextLive(entries, p + 1, due, repeating, kill, ran);
    } else {
      q := p;
    }
  }

  // ----- what was run -----

  /** An action that was run: of which entry, what it deleted, and what it added and left. */
  datatype Run = Run(entry: Timeout, deleted: set<Timeout>, added: seq<Timeout>)

  ghost function Entries(runs: seq<Run>): seq<Timeout> {
    if runs == [] then [] else Entries(runs[..|runs| - 1]) + [runs[|runs| - 1].entry]
  }

  ghost function Deletions(runs: seq<Run>): map<Timeout, set<Timeout>> {
    if runs == [] then map[]
    else Deletions(runs[..|runs| - 1])[runs[|runs| - 1].entry := runs[|runs| - 1].deleted]
  }

  /** What the actions have added and none of them has deleted, the latest first. */
  ghost function Additions(runs: seq<Run>): seq<Timeout> {
    if runs == [] then []
    else runs[|runs| - 1].added + Minus(Additions(runs[..|runs| - 1]), runs[|runs| - 1].deleted)
  }

  /** No action deletes the entry it is the action of. */
  ghost predicate NoneDeletesItself(runs: seq<Run>) {
    forall i :: 0 <= i < |runs| ==> runs[i].entry !in runs[i].deleted
  }

  lemma OneMoreRun(runs: seq<Run>, r: Run)
    ensures Entries(runs + [r]) == Entries(runs) + [r.entry]
    ensures Deletions(runs + [r]) == Deletions(runs)[r.entry := r.deleted]
    ensures Additions(runs + [r]) == r.added + Minus(Additions(runs), r.deleted)
    ensures NoneDeletesItself(runs) && r.entry !in r.deleted ==> NoneDeletesItself(runs + [r])
  {
    assert (runs + [r])[..|runs|] == runs;
  }

  ghost function Due(entries: seq<Timeout>, t: int): set<Timeout> { set x | x in entries && x.timeout <= t }

  ghost function Repeating(entries: seq<Timeout>): set<Timeout> { set x | x in entries && x.repeat }

  /** What a whole pass at time `t` comes to, entry by entry: an entry is run if and only if its time
      has come and none that was run before it deleted it; it stays in the list if and only if none
      deleted it and, when it was run, it repeats. */
  lemma PassIs(entries: seq<Timeout>, t: int, kill: map<Timeout, set<Timeout>>, ran: seq<Timeout>)
    requires RunsInOrder(entries, |entries|, Due(entries, t), kill, ran)
    ensures forall i :: 0 <= i < |entries| ==>
              (entries[i] in ran <==>
                 entries[i].timeout <= t
                 && forall j :: 0 <= j < i && entries[j] in kill ==> entries[i] !in kill[entries[j]])
    ensures forall x :: x in ran <==> x in kill
    ensures forall x :: x in Minus(entries, Gone(kill, Repeating(entries))) <==>
              x in entries && (x in ran ==> x.repeat) && forall s :: s in kill ==> x !in kill[s]
  {
    assert entries[..|entries|] == entries;
    forall x ensures x in ran <==> x in kill {
      KeepIn(entries, kill.Keys, x);
    }
    forall i | 0 <= i < |entries| ensures entries[i] in ran <==> entries[i].timeout <= t && Spared(entries, i, kill) {
      assert Spared(entries, i, kill) || !Spared(entries, i, kill);
    }
    forall x
      ensures x in Minus(entries, Gone(kill, Repeating(entries))) <==>
                x in entries && (x in ran ==> x.repeat) && forall s :: s in kill ==> x !in kill[s]
    {
      MinusIn(entries, Gone(kill, Repeating(entries)), x);
    }
  }

  class TimeoutList {
    var timeouts: Timeout?

    /** The entries in list order. */
    ghost var entries: seq<Timeout>

    /** The actions that were run, in order. */
    ghost var runs: seq<Run>

    ghost var Repr: set<object>

    ghost predicate Valid()
      reads this, Repr
      ensures Valid() ==> this in Repr
    {
      && this in Repr && (forall x :: x in entries ==> x in Repr)
      && timeouts == (if entries == [] then null else entries[0])
      && (forall i {:trigger entries[i].prev} :: 0 <= i < |entries| ==>
            entries[i].prev == (if i == 0 then null else entries[i - 1]))
      && (forall i {:trigger entries[i].next} :: 0 <= i < |entries| ==>
            entries[i].next == (if i + 1 == |entries| then null else entries[i + 1]))
    }

    /** The links back to the first entry tell the entries apart. */
    lemma {:induction false} LinksDiffer(i: nat, j: nat)
      requires Valid() && i < j < |entries|
      ensures entries[i] != entries[j]
    {
      assert entries[j].prev == entries[j - 1] && entries[i].prev == (if i == 0 then null else entries[i - 1]);
      if i > 0 {
        LinksDiffer(i - 1, j - 1);
      }
    }

    lemma EntriesDiffer()
      requires Valid()
      ensures Distinct(entries)
    {
      forall i, j | 0 <= i < j < |entries| ensures entries[i] != entries[j] {
        LinksDiffer(i, j);
      }
    }

    constructor ()
      ensures Valid() && entries == [] && runs == [] && fresh(Repr)
    {
      timeouts, entries, runs, Repr := null, [], [], {this};
    }

    /** `add_timeout`: the new entry becomes the first. */
    method AddTimeout(now: int, delay: int, repeat: bool) returns (t: Timeout)
      requires Valid()
      modifies Repr
      ensures fresh(Repr - old(Repr)) && runs == old(runs)
      ensures Valid() && fresh(t) && entries == [t] + old(entries)
      ensures t.timeout == now + delay && t.repeat == repeat
    {
      EntriesDiffer();
      ghost var was := entries;
      t := new Timeout(now + delay, repeat, timeouts);
      assert t !in was;
      if timeouts != null {
        timeouts.prev := t;
      }
      timeouts := t;
      entries, Repr := [t] + was, Repr + {t};
      assert forall i :: 1 <= i < |entries| ==> entries[i] == was[i - 1];
    }

    /** The unlinking that both `check_timeouts` and `del_timeout` do. */
    method Unlink(t: Timeout, ghost k: nat)
      requires Valid() && k < |entries| && entries[k] == t
      modifies Repr
      ensures fresh(Repr - old(Repr)) && runs == old(runs)
      ensures Valid() && entries == Minus(old(entries), {t})
    {
      EntriesDiffer();
      MinusOne(entries, k);
      ghost var was := entries;
      assert entries[k].prev == (if k == 0 then null else was[k - 1]);
      assert entries[k].next == (if k + 1 == |was| then null else was[k + 1]);
      if t.prev != null {
        t.prev.next := t.next;
      } else {
        timeouts := t.next;
      }
      if t.next != null {
        t.next.prev := t.prev;
      }
      entries := was[..k] + was[k + 1..];
      assert forall i :: 0 <= i < |entries| ==> entries[i] == was[if i < k then i else i + 1];
    }

    /** `del_timeout`: removes the entry if it is in the list. */
    method DelTimeout(t: Timeout)
      requires Valid()
      modifies Repr
      ensures fresh(Repr - old(Repr)) && runs == old(runs)
      ensures Valid() && entries == Minus(old(entries), {t})
    {
      var ptr := timeouts;
      ghost var k := 0;
      while ptr != null && ptr != t
        invariant 0 <= k <= |entries| && t !in entries[..k]
        invariant ptr == if k == |entries| then null else entries[k]
        decreases |entries| - k
      {
        ptr := ptr.next;
        k := k + 1;
      }
      if ptr == null {
        MinusNothing(entries, {t});
        return;
      }
      Unlink(t, k);
    }

    /** One addition by an action, when the list is what it `was` without the `killed`
        entries, behind the `added` ones. */
    method ActAdd(now: int, ghost was: seq<Timeout>, ghost killed: set<Timeout>, ghost added: seq<Timeout>)
      returns (t: Timeout)
      requires Valid() && entries == added + Minus(was, killed)
      modifies Repr
      ensures fresh(Repr - old(Repr)) && runs == old(runs)
      ensures Valid() && entries == ([t] + added) + Minus(was, killed) && fresh(t)
    {
      var delay: int, repeat: bool := *, *;
      t := AddTimeout(now, delay, repeat);
      assert entries == ([t] + added) + Minus(was, killed);
    }

    /** One deletion by an action; the entry need not be in the list. */
    method ActDelete(t: Timeout, ghost was: seq<Timeout>, ghost killed: set<Timeout>, ghost added: seq<Timeout>)
      requires Valid() && entries == added + Minus(was, killed)
      modifies Repr
      ensures fresh(Repr - old(Repr)) && runs == old(runs)
      ensures Valid() && entries == Minus(added, {t}) + Minus(was, killed + {t})
      ensures forall i :: 0 <= i < |Minus(added, {t})| ==> Minus(added, {t})[i] in added
    {
      MinusConcat(added, Minus(was, killed), {t});
      MinusMinus(was, killed, {t});
      MinusSubset(added, {t});
      DelTimeout(t);
    }

    /** An action: any finite number of additions to the list and of deletions from it, of
        entries other than the one that is running. It is recorded with the entries it deleted and
        those it added and left there. */
    method RunCode(to: Timeout, now: int) returns (ghost killed: set<Timeout>, ghost added: seq<Timeout>)
      requires Valid() && to in entries
      modifies Repr
      ensures fresh(Repr - old(Repr))
      ensures Valid() && entries == added + Minus(old(entries), killed)
      ensures runs == old(runs) + [Run(to, killed, added)] && to !in killed
      ensures forall i :: 0 <= i < |added| ==> fresh(added[i])
    {
      killed, added := {}, [];
      ghost var was := entries;
      MinusNothing(was, {});
      var n: nat := *;
      while n > 0
        invariant Valid() && entries == added + Minus(was, killed) && to !in killed
        invariant fresh(Repr - old(Repr)) && runs == old(runs)
        invariant forall i :: 0 <= i < |added| ==> fresh(added[i])
      {
        if * {
          var t := ActAdd(now, was, killed, added);
          added := [t] + added;
        } else {
          var t: Timeout? :| t == null || t != to;
          if t != null {
            var target: Timeout := t;
            ActDelete(target, was, killed, added);
            added, killed := Minus(added, {target}), killed + {target};
          }
        }
        n := n - 1;
      }
      runs := runs + [Run(to, killed, added)];
    }

    static function First(s: seq<Timeout>): Timeout? {
      if s == [] then null else s[0]
    }

    /** The entry after the first of `rest` is the next one of the list. */
    lemma NextOf(front: seq<Timeout>, rest: seq<Timeout>)
      requires Valid() && entries == front + rest && rest != []
      ensures rest[0].next == First(rest[1..])
    {
      assert entries[|front|].next == (if |front| + 1 == |entries| then null else entries[|front| + 1]);
    }

    /** How the list divides at position `q`: additions, entries passed over, entries to come. */
    static lemma DivideAt(added: seq<Timeout>, was: seq<Timeout>, q: nat, dead: set<Timeout>)
      requires q < |was| && was[q] !in dead
      ensures added + Minus(was, dead)
              == added + Minus(was[..q], dead) + ([was[q]] + Minus(was[q + 1..], dead))
      ensures Minus(was[q..], dead) == [was[q]] + Minus(was[q + 1..], dead)
    {
      assert was == was[..q] + was[q..];
      MinusConcat(was[..q], was[q..], dead);
      assert was[q..][1..] == was[q + 1..];
    }

    static lemma AfterCode(more: seq<Timeout>, added: seq<Timeout>, was: seq<Timeout>, dead: set<Timeout>,
        killed: set<Timeout>)
      ensures more + Minus(added + Minus(was, dead), killed)
              == (more + Minus(added, killed)) + Minus(was, dead + killed)
    {
      MinusConcat(added, Minus(was, dead), killed);
      MinusMinus(was, dead, killed);
    }

    static lemma AfterUnlink(added: seq<Timeout>, was: seq<Timeout>, dead: set<Timeout>, to: Timeout)
      requires to !in added
      ensures Minus(added + Minus(was, dead), {to}) == added + Minus(was, dead + {to})
    {
      MinusConcat(added, Minus(was, dead), {to});
      MinusMinus(was, dead, {to});
      MinusNothing(added, {to});
    }

    /** Runs the action of `to`, the entry at position `q` of the list as it `was`, and takes
        it out unless it repeats; `next` is where the walk goes on. */
    method RunEntry(to: Timeout, now: int, ghost was: seq<Timeout>, ghost q: nat,
        ghost added: seq<Timeout>, ghost dead: set<Timeout>)
      returns (next: Timeout?, ghost r: Run)
      requires Valid() && entries == added + Minus(was, dead) && Distinct(was)
      requires q < |was| && was[q] == to && to !in dead && to !in added
      modifies Repr
      ensures fresh(Repr - old(Repr))
      ensures Valid()
      ensures runs == old(runs) + [r] && r.entry == to && to !in r.deleted
      ensures var dead' := dead + r.deleted + (if to.repeat then {} else {to});
              && entries == (r.added + Minus(added, r.deleted)) + Minus(was, dead')
              && next == First(Minus<Timeout>(was[q + 1..], dead'))
      ensures forall i :: 0 <= i < |r.added| ==> fresh(r.added[i])
    {
      MinusIn(was, dead, to);
      ghost var killed, more;
      killed, more := RunCode(to, now);
      r := Run(to, killed, more);
      ghost var dead1, added' := dead + killed, more + Minus(added, killed);
      AfterCode(more, added, was, dead, killed);
      MinusSubset(added, killed);
      assert entries == added' + Minus(was, dead1);
      DivideAt(added', was, q, dead1);
      ghost var front, rest := added' + Minus(was[..q], dead1), [to] + Minus(was[q + 1..], dead1);
      NextOf(front, rest);
      next := to.next;
      assert dead1 + {} == dead1;
      if !to.repeat {
        Unlink(to, |front|);
        AfterUnlink(added', was, dead1, to);
        SameTail(was, q, dead1);
      }
    }

    static lemma SameTail(was: seq<Timeout>, q: nat, dead: set<Timeout>)
      requires q < |was| && Distinct(was)
      ensures Minus(was[q + 1..], dead + {was[q]}) == Minus(was[q + 1..], dead)
    {
      MinusMinus(was[q + 1..], dead, {was[q]});
      MinusSubset(was[q + 1..], dead);
      MinusNothing(Minus(was[q + 1..], dead), {was[q]});
    }

    /** The first entry from position `p` on that is not dead. */
    static ghost function Ahead(was: seq<Timeout>, p: nat, dead: set<Timeout>): Timeout?
      requires p <= |was|
      decreases |was| - p
    {
      if p == |was| then null else if was[p] in dead then Ahead(was, p + 1, dead) else was[p]
    }

    static lemma {:induction false} AheadIs(was: seq<Timeout>, p: nat, dead: set<Timeout>)
      requires p <= |was|
      ensures Ahead(was, p, dead) == First(Minus<Timeout>(was[p..], dead))
      ensures Ahead(was, p, dead) != null ==> Ahead(was, p, dead) in was
      decreases |was| - p
    {
      if p < |was| {
        assert was[p..][1..] == was[p + 1..];
        if was[p] in dead {
          AheadIs(was, p + 1, dead);
        }
      }
    }

    /** The walk is at `to`, the first entry still in the list from position `p` on; `done` are
        the actions of this pass. */
    ghost predicate Walking(was: seq<Timeout>, p: nat, due: set<Timeout>, repeating: set<Timeout>, done: seq<Run>,
        to: Timeout?)
      reads this, Repr
    {
      && Valid() && Once(was) && p <= |was|
      && RunsInOrder(was, p, due, Deletions(done), Entries(done)) && NoneDeletesItself(done)
      && entries == Additions(done) + Minus(was, Gone(Deletions(done), repeating))
      && to == Ahead(was, p, Gone(Deletions(done), repeating))
    }

    /** The turn of an entry that is due: its action runs. */
    method Act(to: Timeout, t: int, ghost was: seq<Timeout>, ghost q: nat, ghost due: set<Timeout>,
        ghost repeating: set<Timeout>, ghost done: seq<Run>)
      returns (next: Timeout?, ghost r: Run)
      requires Walking(was, q, due, repeating, done, to) && q < |was| && to == was[q]
      requires to !in Gone(Deletions(done), repeating) && to in due && (to in repeating <==> to.repeat)
      requires to !in Additions(done)
      modifies Repr
      ensures fresh(Repr - old(Repr)) && runs == old(runs) + [r]
      ensures Walking(was, q + 1, due, repeating, done + [r], next)
      ensures forall x :: x in Additions(done + [r]) ==> x in Additions(done) || fresh(x)
    {
      OnceIs(was);
      ghost var added := Additions(done);
      next, r := RunEntry(to, t, was, q, added, Gone(Deletions(done), repeating));
      OneMoreRun(done, r);
      PassRun(was, q, due, repeating, Deletions(done), Entries(done), r.deleted);
      AheadIs(was, q + 1, Gone(Deletions(done + [r]), repeating));
      MinusSubset(added, r.deleted);
    }

    /** Where in the list as it `was` the walk is. */
    lemma PlaceOf(was: seq<Timeout>, p: nat, due: set<Timeout>, repeating: set<Timeout>, done: seq<Run>, to: Timeout)
      returns (q: nat)
      requires Walking(was, p, due, repeating, done, to)
      ensures Walking(was, q, due, repeating, done, to) && p <= q < |was| && to == was[q]
      ensures to !in Gone(Deletions(done), repeating)
    {
      OnceIs(was);
      var dead := Gone(Deletions(done), repeating);
      AheadIs(was, p, dead);
      q := NextLive(was, p, due, repeating, Deletions(done), Entries(done));
      AheadIs(was, q, dead);
    }

    /** The turn of an entry that is not due. */
    lemma Skip(was: seq<Timeout>, q: nat, due: set<Timeout>, repeating: set<Timeout>, done: seq<Run>, to: Timeout)
      requires Walking(was, q, due, repeating, done, to) && q < |was| && to == was[q]
      requires to !in Gone(Deletions(done), repeating) && to !in due
      ensures Walking(was, q + 1, due, repeating, done, to.next)
    {
      OnceIs(was);
      var added, dead := Additions(done), Gone(Deletions(done), repeating);
      DivideAt(added, was, q, dead);
      NextOf(added + Minus(was[..q], dead), [to] + Minus(was[q + 1..], dead));
      AheadIs(was, q + 1, dead);
      PassOver(was, q, due, repeating, Deletions(done), Entries(done));
    }

    /** One turn of the loop: the entry is passed over, or its action runs. */
    method Visit(to: Timeout, t: int, ghost was: seq<Timeout>, ghost p: nat, ghost due: set<Timeout>,
        ghost repeating: set<Timeout>, ghost before: seq<Run>, ghost done: seq<Run>)
      returns (next: Timeout?, ghost p': nat, ghost done': seq<Run>)
      requires Walking(was, p, due, repeating, done, to) && runs == before + done
      requires to in was ==> (to in due <==> to.timeout <= t) && (to in repeating <==> to.repeat)
      requires to !in Additions(done)
      modifies Repr
      ensures fresh(Repr - old(Repr)) && runs == before + done'
      ensures Walking(was, p', due, repeating, done', next) && p < p'
      ensures var now := Additions(done'); forall i :: 0 <= i < |now| ==> now[i] in Additions(done) || fresh(now[i])
    {
      ghost var q := PlaceOf(was, p, due, repeating, done, to);
      p', done' := q + 1, done;
      if t < to.timeout {
        Skip(was, q, due, repeating, done, to);
        next := to.next;
      } else {
        ghost var r;
        next, r := Act(to, t, was, q, due, repeating, done);
        done' := done + [r];
        Regroup(before, done, [r]);
      }
    }

    static lemma Regroup<T>(a: seq<T>, b: seq<T>, c: seq<T>)
      ensures (a + b) + c == a + (b + c)
    {
    }

    lemma WalkingEnds(was: seq<Timeout>, p: nat, due: set<Timeout>, repeating: set<Timeout>, done: seq<Run>)
      requires Walking(was, p, due, repeating, done, null)
      ensures RunsInOrder(was, |was|, due, Deletions(done), Entries(done))
    {
      OnceIs(was);
      var q := NextLive(was, p, due, repeating, Deletions(done), Entries(done));
      AheadIs(was, p, Gone(Deletions(done), repeating));
      AheadIs(was, q, Gone(Deletions(done), repeating));
    }

    lemma WalkingStarts(due: set<Timeout>, repeating: set<Timeout>)
      requires Valid()
      ensures Walking(entries, 0, due, repeating, [], timeouts)
    {
      EntriesDiffer();
      OnceIs(entries);
      MinusNothing(entries, {});
      assert entries[..0] == [];
      assert Gone(map[], repeating) == {};
      assert [] + entries == entries;
    }

    /** The loop of `check_timeouts`. */
    method Walk(t: int, ghost was: seq<Timeout>) returns (ghost p: nat, ghost done: seq<Run>)
      requires Walking(was, 0, Due(was, t), Repeating(was), [], timeouts)
      modifies Repr
      ensures fresh(Repr - old(Repr)) && runs == old(runs) + done
      ensures Walking(was, p, Due(was, t), Repeating(was), done, null)
      ensures var added := Additions(done); forall i :: 0 <= i < |added| ==> fresh(added[i])
    {
      ghost var before, due, repeating := runs, Due(was, t), Repeating(was);
      p, done := 0, [];
      var to := timeouts;
      while to != null
        invariant Walking(was, p, due, repeating, done, to)
        invariant fresh(Repr - old(Repr)) && runs == before + done
        invariant var added := Additions(done); forall i :: 0 <= i < |added| ==> fresh(added[i])
        decreases |was| - p
      {
        AheadIs(was, p, Gone(Deletions(done), repeating));
        to, p, done := Visit(to, t, was, p, due, repeating, before, done);
      }
    }

    /** `check_timeouts` at time `t`. Exactly the due entries that were in the list at the start
        and had not been deleted are run, once each and in list order. What is left of the list
        is what was not deleted and has not run, or repeats, in order, behind what the actions
        added and left; all of that is new, and none of it has run. */
    method CheckTimeouts(t: int)
      requires Valid()
      modifies Repr
      ensures Valid() && fresh(Repr - old(Repr)) && old(runs) <= runs
      ensures var done := runs[|old(runs)|..];
              && RunsInOrder(old(entries), |old(entries)|, Due(old(entries), t), Deletions(done), Entries(done))
              && NoneDeletesItself(done)
              && entries == Additions(done) + Minus(old(entries), Gone(Deletions(done), Repeating(old(entries))))
              && forall i :: 0 <= i < |Additions(done)| ==> fresh(Additions(done)[i])
    {
      ghost var was := entries;
      WalkingStarts(Due(was, t), Repeating(was));
      ghost var p, done := Walk(t, was);
      WalkingEnds(was, p, Due(was, t), Repeating(was), done);
      assert runs[|old(runs)|..] == done;
    }
  }
}

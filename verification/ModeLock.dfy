/** SET MLOCK: how a parameter string becomes a mode lock (`do_set_mlock`).

    The string is read against a specification that looks at positions only: which sign is
    in force at a position, where a mode was written last, and which of the words after
    the string belongs to a '+k' or '+l'. */
module ModeLock {
  import opened CText
  import opened ChannelModes
  import opened ModeReplay

  datatype Reason = KeyRequired | LimitRequired | LimitPositive | Syntax

  datatype Answer = Stored(lock: Lock) | Rejected(reason: Reason)

  /** The sign in force before position `p`: the last '+' or '-' to the left of it. */
  function SignAt(s: string, p: nat): Option<bool>
    requires p <= |s|
  {
    if p == 0 then None
    else if s[p - 1] == '+' then Some(true)
    else if s[p - 1] == '-' then Some(false)
    else SignAt(s, p - 1)
  }

  /** The last of the first `p` positions that writes mode `c`: it names the mode and a sign
      is in force. */
  function LastAt(s: string, p: nat, c: char): (r: Option<nat>)
    requires p <= |s|
    ensures r.Some? ==> r.value < p
  {
    if p == 0 then None
    else if s[p - 1] == c && SignAt(s, p - 1).Some? then Some(p - 1)
    else LastAt(s, p - 1, c)
  }

  /** The sign that last position gives the mode. */
  function Final(s: string, p: nat, c: char): Option<bool>
    requires p <= |s|
  {
    if LastAt(s, p, c).Some? then SignAt(s, LastAt(s, p, c).value) else None
  }

  lemma {:induction false} LastAtIsLast(s: string, p: nat, c: char)
    requires p <= |s|
    ensures LastAt(s, p, c) == None
            <==> forall i :: 0 <= i < p && s[i] == c ==> SignAt(s, i) == None
    ensures LastAt(s, p, c).Some? ==>
              var i := LastAt(s, p, c).value;
              s[i] == c && SignAt(s, i).Some? && forall j :: i < j < p ==> s[j] != c
  {
    if p > 0 {
      LastAtIsLast(s, p - 1, c);
      if LastAt(s, p - 1, c).Some? {
        SignStays(s, LastAt(s, p - 1, c).value, p - 1);
      }
    }
  }

  lemma {:induction false} SignStays(s: string, i: nat, p: nat)
    requires i <= p <= |s| && SignAt(s, i).Some?
    ensures SignAt(s, p).Some?
  {
    if i < p {
      SignStays(s, i, p - 1);
    }
  }

  predicate TakesWord(s: string, i: nat)
    requires i < |s|
  {
    (s[i] == 'k' || s[i] == 'l') && SignAt(s, i) == Some(true)
  }

  /** How many of the words the first `p` positions use up. */
  function Used(s: string, p: nat): nat
    requires p <= |s|
  {
    if p == 0 then 0 else Used(s, p - 1) + if TakesWord(s, p - 1) then 1 else 0
  }

  /** Is `strtol` of the word positive? */
  predicate Positive(word: string) {
    !Scan(word).negative && Scan(word).magnitude > 0
  }

  /** What is wrong with position `i`, if anything. */
  function Fault(s: string, words: seq<string>, i: nat): Option<Reason>
    requires i < |s|
  {
    if !TakesWord(s, i) then None
    else if |words| <= Used(s, i) then Some(if s[i] == 'k' then KeyRequired else LimitRequired)
    else if s[i] == 'l' && !Positive(words[Used(s, i)]) then Some(LimitPositive)
    else None
  }

  predicate Faultless(s: string, words: seq<string>, p: nat)
    requires p <= |s|
  {
    forall i :: 0 <= i < p ==> Fault(s, words, i) == None
  }

  /** Is mode `c` locked with sign `on` by the first `p` positions? The oper-only mode is
      left as the stored lock has it when someone else names it. */
  predicate Wants(s: string, p: nat, c: char, on: bool, oper: bool, prev: Lock)
    requires p <= |s|
  {
    if c == 'O' && !oper then
      LastAt(s, p, c).Some? && (if on then 'O' in prev.on && 'O' !in prev.off else 'O' in prev.off)
    else Final(s, p, c) == Some(on)
  }

  /** The word that belongs to the last "+c", or nothing when mode `c` is not left on. */
  function WordOf(s: string, words: seq<string>, p: nat, c: char): string
    requires p <= |s|
  {
    if Final(s, p, c) == Some(true) && Used(s, LastAt(s, p, c).value) < |words|
    then words[Used(s, LastAt(s, p, c).value)] else []
  }

  function LimitOf(word: string): uint32 {
    if word == [] then 0 else Strtol(Scan(word))
  }

  /** The flags the first `p` positions lock on and off. */
  ghost predicate SpellsFlags(s: string, p: nat, oper: bool, prev: Lock, on: set<char>, off: set<char>)
    requires p <= |s|
  {
    && (forall c {:trigger c in on} :: c in on <==> c in FLAGS && Wants(s, p, c, true, oper, prev))
    && (forall c {:trigger c in off} :: c in off <==> c in FLAGS + {'k', 'l'} && Wants(s, p, c, false, oper, prev))
  }

  /** The lock the first `p` positions spell. */
  ghost predicate Spells(s: string, words: seq<string>, p: nat, oper: bool, prev: Lock, lk: Lock)
    requires p <= |s|
  {
    && SpellsFlags(s, p, oper, prev, lk.on, lk.off)
    && lk.key == WordOf(s, words, p, 'k')
    && lk.limit == LimitOf(WordOf(s, words, p, 'l'))
  }

  predicate IsOff(s: string) { Fold(s) == "off" }

  // ----- one position at a time -----

  /** A mode the position does not write keeps its last writer. */
  lemma NotWritten(s: string, words: seq<string>, p: nat, c: char)
    requires p < |s| && (s[p] != c || SignAt(s, p) == None)
    ensures LastAt(s, p + 1, c) == LastAt(s, p, c)
    ensures Final(s, p + 1, c) == Final(s, p, c)
    ensures WordOf(s, words, p + 1, c) == WordOf(s, words, p, c)
  {
  }

  lemma Written(s: string, words: seq<string>, p: nat)
    requires p < |s| && SignAt(s, p).Some?
    ensures LastAt(s, p + 1, s[p]) == Some(p)
    ensures Final(s, p + 1, s[p]) == SignAt(s, p)
    ensures WordOf(s, words, p + 1, s[p])
            == if SignAt(s, p).value && Used(s, p) < |words| then words[Used(s, p)] else []
  {
  }

  lemma SpellsIdle(s: string, words: seq<string>, p: nat, oper: bool, prev: Lock, lk: Lock)
    requires p < |s| && Spells(s, words, p, oper, prev, lk)
    requires s[p] !in FLAGS + {'k', 'l'} || SignAt(s, p) == None
    ensures Spells(s, words, p + 1, oper, prev, lk)
  {
    forall c | c in FLAGS + {'k', 'l'}
      ensures LastAt(s, p + 1, c) == LastAt(s, p, c) && Final(s, p + 1, c) == Final(s, p, c)
    {
      NotWritten(s, words, p, c);
    }
    NotWritten(s, words, p, 'k');
    NotWritten(s, words, p, 'l');
  }

  function Flip(lk: Lock, c: char, add: bool): Lock {
    if add then lk.(on := lk.on + {c}, off := lk.off - {c})
    else lk.(on := lk.on - {c}, off := lk.off + {c})
  }

  /** The oper-only mode named by someone who is no oper: it is kept as it is stored. */
  function KeepOperMode(lk: Lock, prev: Lock): Lock {
    var a := if 'O' in prev.on then Flip(lk, 'O', true) else lk;
    if 'O' in prev.off then Flip(a, 'O', false) else a
  }

  /** '+k' and '+l' take a word, '-k' and '-l' lock the mode off. */
  function SetWord(lk: Lock, c: char, add: bool, word: string): Lock {
    var off := if add then lk.off - {c} else lk.off + {c};
    if c == 'k' then lk.(key := word, off := off) else lk.(limit := LimitOf(word), off := off)
  }

  lemma FlagsElsewhere(s: string, words: seq<string>, p: nat, oper: bool, prev: Lock, lk: Lock, c: char)
    requires p < |s| && SpellsFlags(s, p, oper, prev, lk.on, lk.off) && c != s[p]
    ensures c in lk.on <==> c in FLAGS && Wants(s, p + 1, c, true, oper, prev)
    ensures c in lk.off <==> c in FLAGS + {'k', 'l'} && Wants(s, p + 1, c, false, oper, prev)
  {
    NotWritten(s, words, p, c);
  }

  lemma SpellsFlag(s: string, words: seq<string>, p: nat, oper: bool, prev: Lock, lk: Lock)
    requires p < |s| && Spells(s, words, p, oper, prev, lk)
    requires s[p] in FLAGS && SignAt(s, p).Some? && (s[p] == 'O' ==> oper)
    ensures Spells(s, words, p + 1, oper, prev, Flip(lk, s[p], SignAt(s, p).value))
  {
    Written(s, words, p);
    NotWritten(s, words, p, 'k');
    NotWritten(s, words, p, 'l');
    forall c | c != s[p]
      ensures c in lk.on <==> c in FLAGS && Wants(s, p + 1, c, true, oper, prev)
      ensures c in lk.off <==> c in FLAGS + {'k', 'l'} && Wants(s, p + 1, c, false, oper, prev)
    {
      FlagsElsewhere(s, words, p, oper, prev, lk, c);
    }
  }

  lemma KeptOperMode(lk: Lock, prev: Lock)
    requires 'O' in lk.on ==> 'O' in prev.on && 'O' !in prev.off
    requires 'O' in lk.off ==> 'O' in prev.off
    ensures var kept := KeepOperMode(lk, prev);
            && kept.key == lk.key && kept.limit == lk.limit
            && ('O' in kept.on <==> 'O' in prev.on && 'O' !in prev.off)
            && ('O' in kept.off <==> 'O' in prev.off)
            && forall c :: c != 'O' ==> (c in kept.on <==> c in lk.on) && (c in kept.off <==> c in lk.off)
  {
  }

  lemma SpellsKeptFlag(s: string, words: seq<string>, p: nat, prev: Lock, lk: Lock)
    requires p < |s| && Spells(s, words, p, false, prev, lk)
    requires s[p] == 'O' && SignAt(s, p).Some?
    ensures Spells(s, words, p + 1, false, prev, KeepOperMode(lk, prev))
  {
    Written(s, words, p);
    NotWritten(s, words, p, 'k');
    NotWritten(s, words, p, 'l');
    forall c | c != s[p]
      ensures c in lk.on <==> c in FLAGS && Wants(s, p + 1, c, true, false, prev)
      ensures c in lk.off <==> c in FLAGS + {'k', 'l'} && Wants(s, p + 1, c, false, false, prev)
    {
      FlagsElsewhere(s, words, p, false, prev, lk, c);
    }
    KeptOperMode(lk, prev);
  }

  lemma OffAfterWord(s: string, words: seq<string>, p: nat, oper: bool, prev: Lock, on: set<char>, off: set<char>)
    requires p < |s| && SpellsFlags(s, p, oper, prev, on, off)
    requires (s[p] == 'k' || s[p] == 'l') && SignAt(s, p).Some?
    ensures SpellsFlags(s, p + 1, oper, prev, on, if SignAt(s, p).value then off - {s[p]} else off + {s[p]})
  {
    var x := s[p];
    var next := if SignAt(s, p).value then off - {x} else off + {x};
    Written(s, words, p);
    forall c
      ensures c in on <==> c in FLAGS && Wants(s, p + 1, c, true, oper, prev)
      ensures c in next <==> c in FLAGS + {'k', 'l'} && Wants(s, p + 1, c, false, oper, prev)
    {
      if c == x {
        assert c !in FLAGS;
      } else {
        NotWritten(s, words, p, c);
        assert c in next <==> c in off;
      }
    }
  }

  lemma SpellsWord(s: string, words: seq<string>, p: nat, oper: bool, prev: Lock, lk: Lock)
    requires p < |s| && Spells(s, words, p, oper, prev, lk)
    requires (s[p] == 'k' || s[p] == 'l') && SignAt(s, p).Some?
    requires SignAt(s, p).value ==> Used(s, p) < |words|
    ensures var word := if SignAt(s, p).value then words[Used(s, p)] else [];
            Spells(s, words, p + 1, oper, prev, SetWord(lk, s[p], SignAt(s, p).value, word))
  {
    OffAfterWord(s, words, p, oper, prev, lk.on, lk.off);
    Written(s, words, p);
    NotWritten(s, words, p, if s[p] == 'k' then 'l' else 'k');
  }

  // ----- the command -----

  /** One turn of the loop: what is wrong with position `p`, or the new lock, sign and word
      count. */
  method Turn(s: string, words: seq<string>, p: nat, oper: bool, prev: Lock,
      lk: Lock, add: Option<bool>, used: nat)
    returns (fault: Option<Reason>, lk': Lock, add': Option<bool>, used': nat)
    requires p < |s| && add == SignAt(s, p) && used == Used(s, p) <= |words|
    requires Spells(s, words, p, oper, prev, lk)
    ensures fault == Fault(s, words, p)
    ensures fault.None? ==> Spells(s, words, p + 1, oper, prev, lk')
    ensures fault.None? ==> add' == SignAt(s, p + 1) && used' == Used(s, p + 1) <= |words|
  {
    fault, lk', add', used' := None, lk, add, used;
    var c := s[p];
    if c == '+' || c == '-' {
      SpellsIdle(s, words, p, oper, prev, lk);
      add' := Some(c == '+');
    } else if add.None? || c !in FLAGS + {'k', 'l'} {
      SpellsIdle(s, words, p, oper, prev, lk);
    } else if c == 'k' || c == 'l' {
      var word := [];
      if add.value {
        if used == |words| {
          fault := Some(if c == 'k' then KeyRequired else LimitRequired);
          return;
        }
        word := words[used];
        if c == 'l' && !Positive(word) {
          fault := Some(LimitPositive);
          return;
        }
        used' := used + 1;
      }
      SpellsWord(s, words, p, oper, prev, lk);
      lk' := SetWord(lk, c, add.value, word);
    } else if c == 'O' && !oper {
      SpellsKeptFlag(s, words, p, prev, lk);
      lk' := KeepOperMode(lk, prev);
    } else {
      SpellsFlag(s, words, p, oper, prev, lk);
      lk' := Flip(lk, c, add.value);
    }
  }

  /** The loop ends at the first fault, or with the lock the whole string spells. */
  method ReadLock(s: string, words: seq<string>, oper: bool, prev: Lock)
    returns (fault: Option<Reason>, lk: Lock, add: Option<bool>, ghost p: nat)
    ensures p <= |s| && Faultless(s, words, p)
    ensures fault.Some? ==> p < |s| && Fault(s, words, p) == fault
    ensures fault.None? ==> p == |s| && add == SignAt(s, p) && Spells(s, words, p, oper, prev, lk)
  {
    fault, add, lk := None, None, Lock({}, {}, 0, []);
    var used, i := 0, 0;
    while i < |s|
      invariant 0 <= i <= |s| && fault.None?
      invariant add == SignAt(s, i) && used == Used(s, i) <= |words|
      invariant Faultless(s, words, i)
      invariant Spells(s, words, i, oper, prev, lk)
    {
      fault, lk, add, used := Turn(s, words, i, oper, prev, lk, add, used);
      if fault.Some? {
        return fault, lk, add, i;
      }
      i := i + 1;
    }
    p := i;
  }

  /** The new lock for parameter `s` and the words that follow it, or the complaint. Nothing
      is stored unless a sign was given and every '+k' and '+l' has its word. */
  method SetMlock(s: string, words: seq<string>, oper: bool, prev: Lock) returns (r: Answer)
    ensures r.Stored? <==> IsOff(s) || (SignAt(s, |s|).Some? && Faultless(s, words, |s|))
    ensures r.Stored? && IsOff(s) ==> r.lock == Lock({}, {}, 0, [])
    ensures r.Stored? && !IsOff(s) ==> Spells(s, words, |s|, oper, prev, r.lock)
    ensures r == Rejected(Syntax) <==> !IsOff(s) && SignAt(s, |s|) == None
    ensures r.Rejected? && r.reason != Syntax ==>
              exists i :: 0 <= i < |s| && Fault(s, words, i) == Some(r.reason) && Faultless(s, words, i)
  {
    if IsOff(s) {
      return Stored(Lock({}, {}, 0, []));
    }
    ghost var p;
    var fault, lk, add;
    fault, lk, add, p := ReadLock(s, words, oper, prev);
    if fault.Some? {
      SignStays(s, p, |s|);
      return Rejected(fault.value);
    }
    r := if add.None? then Rejected(Syntax) else Stored(lk);
  }

  // ----- what the stored lock is like -----

  /** Whatever string is given, the lock it spells asks for nothing both ways: so every
      property of the mode check that wants a well-formed lock applies to it. */
  lemma SpelledLockIsWellFormed(s: string, words: seq<string>, oper: bool, prev: Lock, lk: Lock)
    requires Spells(s, words, |s|, oper, prev, lk)
    ensures WellFormed(lk)
  {
    assert 'k' in lk.off ==> Final(s, |s|, 'k') == Some(false);
    assert 'l' in lk.off ==> Final(s, |s|, 'l') == Some(false);
  }

  /** Someone who is no oper never brings the oper-only mode into either half of the lock,
      and the halves the old lock had it in are kept when he names it. */
  lemma OnlyOpersAddOperMode(s: string, words: seq<string>, prev: Lock, lk: Lock)
    requires Spells(s, words, |s|, false, prev, lk)
    ensures 'O' in lk.on ==> 'O' in prev.on
    ensures 'O' in lk.off ==> 'O' in prev.off
    ensures LastAt(s, |s|, 'O').Some? && 'O' !in prev.on * prev.off
            ==> ('O' in lk.on <==> 'O' in prev.on) && ('O' in lk.off <==> 'O' in prev.off)
  {
  }

  // ----- the stored lock, said of the characters -----

  predicate IsSign(c: char) { c == '+' || c == '-' }

  /** What stands before position `p` ends with this sign and letters. */
  predicate SignedBy(s: string, p: nat, sign: char)
    requires p <= |s|
  {
    exists i :: 0 <= i < p && s[i] == sign && forall k :: i < k < p ==> !IsSign(s[k])
  }

  lemma {:induction false} SignAtIs(s: string, p: nat)
    requires p <= |s|
    ensures SignAt(s, p) == Some(true) <==> SignedBy(s, p, '+')
    ensures SignAt(s, p) == Some(false) <==> SignedBy(s, p, '-')
    ensures SignAt(s, p) == None <==> forall k :: 0 <= k < p ==> !IsSign(s[k])
  {
    if p > 0 {
      SignAtIs(s, p - 1);
      if IsSign(s[p - 1]) {
        assert s[p - 1] == '+' ==> SignedBy(s, p, '+');
        assert s[p - 1] == '-' ==> SignedBy(s, p, '-');
      } else {
        SignedOneMore(s, p, '+');
        SignedOneMore(s, p, '-');
      }
    }
  }

  lemma SignedOneMore(s: string, p: nat, sign: char)
    requires 0 < p <= |s| && !IsSign(s[p - 1]) && IsSign(sign)
    ensures SignedBy(s, p, sign) <==> SignedBy(s, p - 1, sign)
  {
    if SignedBy(s, p - 1, sign) {
      var i :| 0 <= i < p - 1 && s[i] == sign && forall k :: i < k < p - 1 ==> !IsSign(s[k]);
      assert forall k :: i < k < p ==> !IsSign(s[k]);
    }
  }

  /** Position `j` is the last to name the mode. */
  predicate LastNamed(s: string, c: char, j: nat) {
    j < |s| && s[j] == c && forall k :: j < k < |s| ==> s[k] != c
  }

  lemma {:induction false} LastNamedExists(s: string, c: char) returns (j: nat)
    requires c in s
    ensures LastNamed(s, c, j)
  {
    j := |s| - 1;
    while s[j] != c
      invariant 0 <= j < |s| && forall k :: j < k < |s| ==> s[k] != c
      decreases j
    {
      assert exists i :: 0 <= i < |s| && s[i] == c;
      j := j - 1;
    }
  }

  /** What is final about a mode is the sign in force where it is named last. */
  lemma FinalIs(s: string, c: char, j: nat)
    requires LastNamed(s, c, j)
    ensures Final(s, |s|, c) == SignAt(s, j)
    ensures SignAt(s, j).Some? ==> LastAt(s, |s|, c) == Some(j)
    ensures SignAt(s, j).None? ==> LastAt(s, |s|, c) == None
  {
    LastAtIsLast(s, |s|, c);
    if LastAt(s, |s|, c).Some? {
      var i := LastAt(s, |s|, c).value;
      assert i == j;
    }
  }

  /** A flag that is named is locked on if the nearest sign before the last place that names it
      is a plus, and off if it is a minus. */
  lemma SpelledFlag(s: string, words: seq<string>, oper: bool, prev: Lock, lk: Lock, c: char, j: nat)
    requires Spells(s, words, |s|, oper, prev, lk) && LastNamed(s, c, j)
    requires c in ['i', 'm', 'M', 'n', 'p', 's', 't', 'c', 'O', 'R'] && (c == 'O' ==> oper)
    ensures c in lk.on <==> SignedBy(s, j, '+')
    ensures c in lk.off <==> SignedBy(s, j, '-')
  {
    FinalIs(s, c, j);
    SignAtIs(s, j);
  }

  /** A mode that is not named is not locked, and nothing else is. */
  lemma UnnamedIsOpen(s: string, words: seq<string>, oper: bool, prev: Lock, lk: Lock, c: char)
    requires Spells(s, words, |s|, oper, prev, lk)
    requires c !in s || c !in ['i', 'm', 'M', 'n', 'p', 's', 't', 'c', 'O', 'R', 'k', 'l']
    ensures c !in lk.on && c !in lk.off
    ensures c == 'k' ==> lk.key == []
    ensures c == 'l' ==> lk.limit == 0
  {
    LastAtIsLast(s, |s|, c);
    if LastAt(s, |s|, c).Some? {
      assert s[LastAt(s, |s|, c).value] in s;
    }
  }

  // ----- the words -----

  /** The places before `p` that take a word. */
  function Takers(s: string, p: nat): set<nat>
    requires p <= |s|
  {
    set i: nat | i < p && (s[i] == 'k' || s[i] == 'l') && SignedBy(s, i, '+')
  }

  lemma TakersOneMore(s: string, p: nat)
    requires p < |s|
    ensures p !in Takers(s, p)
    ensures Takers(s, p + 1) == if TakesWord(s, p) then Takers(s, p) + {p} else Takers(s, p)
  {
    SignAtIs(s, p);
  }

  lemma {:induction false} UsedIs(s: string, p: nat)
    requires p <= |s|
    ensures Used(s, p) == |Takers(s, p)|
  {
    if p == 0 {
      assert Takers(s, 0) == {};
    } else {
      UsedIs(s, p - 1);
      TakersOneMore(s, p - 1);
    }
  }

  /** A key or limit is locked on with the word whose number is that of the places before that
      take a word, locked off behind a minus, and otherwise left open. */
  lemma SpelledKey(s: string, words: seq<string>, oper: bool, prev: Lock, lk: Lock, j: nat)
    requires Spells(s, words, |s|, oper, prev, lk) && Faultless(s, words, |s|) && LastNamed(s, 'k', j)
    ensures 'k' in lk.off <==> SignedBy(s, j, '-')
    ensures if SignedBy(s, j, '+') then |Takers(s, j)| < |words| && lk.key == words[|Takers(s, j)|] else lk.key == []
  {
    FinalIs(s, 'k', j);
    SignAtIs(s, j);
    UsedIs(s, j);
    assert Fault(s, words, j) == None;
  }

  lemma SpelledLimit(s: string, words: seq<string>, oper: bool, prev: Lock, lk: Lock, j: nat)
    requires Spells(s, words, |s|, oper, prev, lk) && Faultless(s, words, |s|) && LastNamed(s, 'l', j)
    ensures 'l' in lk.off <==> SignedBy(s, j, '-')
    ensures if SignedBy(s, j, '+') then |Takers(s, j)| < |words| && lk.limit == Strtol(Scan(words[|Takers(s, j)|]))
            else lk.limit == 0
  {
    FinalIs(s, 'l', j);
    SignAtIs(s, j);
    UsedIs(s, j);
    assert Fault(s, words, j) == None;
  }

  /** A word is a limit if it is read as a positive number, and then it is that number. */
  lemma WordIsLimit(n: uint32)
    ensures Positive(Dec(n)) <==> n > 0
    ensures Strtol(Scan(Dec(n))) == n
  {
    ScanPositive(n);
    WrittenIsRead(n);
  }

  lemma NoLimitBelowOne(n: nat)
    ensures !Positive(['-'] + Dec(n)) && !Positive([])
  {
    ScanNegative(n);
  }

  /** What is wrong with a position: a word is missing, or is no positive number. */
  lemma FaultIs(s: string, words: seq<string>, j: nat)
    requires j < |s|
    ensures var missing := SignedBy(s, j, '+') && |words| <= |Takers(s, j)|;
            && (Fault(s, words, j) == Some(KeyRequired) <==> s[j] == 'k' && missing)
            && (Fault(s, words, j) == Some(LimitRequired) <==> s[j] == 'l' && missing)
            && (Fault(s, words, j) == Some(LimitPositive) <==>
                  s[j] == 'l' && SignedBy(s, j, '+') && !missing && !Positive(words[|Takers(s, j)|]))
            && Fault(s, words, j) != Some(Syntax)
  {
    SignAtIs(s, j);
    UsedIs(s, j);
  }
}

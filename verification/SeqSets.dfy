/** Lists with elements taken out or put in, and lists without repetition. */
module SeqSets {

  /** The elements of `s` that are not in `dead`, in order. */
  ghost function Minus<T>(s: seq<T>, dead: set<T>): seq<T> {
    if s == [] then [] else (if s[0] in dead then [] else [s[0]]) + Minus(s[1..], dead)
  }

  lemma {:induction false} MinusConcat<T>(a: seq<T>, b: seq<T>, dead: set<T>)
    ensures Minus(a + b, dead) == Minus(a, dead) + Minus(b, dead)
  {
    if a == [] {
      assert a + b == b;
    } else {
      assert (a + b)[1..] == a[1..] + b;
      MinusConcat(a[1..], b, dead);
    }
  }

  lemma {:induction false} MinusMinus<T>(s: seq<T>, a: set<T>, b: set<T>)
    ensures Minus(Minus(s, a), b) == Minus(s, a + b)
  {
    if s != [] {
      MinusMinus(s[1..], a, b);
      if s[0] in a {
        assert Minus(s, a) == Minus(s[1..], a);
      } else {
        assert ([s[0]] + Minus(s[1..], a))[1..] == Minus(s[1..], a);
      }
    }
  }

  lemma {:induction false} MinusIn<T>(s: seq<T>, dead: set<T>, x: T)
    ensures x in Minus(s, dead) <==> x in s && x !in dead
  {
    if s != [] {
      MinusIn(s[1..], dead, x);
    }
  }

  lemma {:induction false} MinusSubset<T>(s: seq<T>, dead: set<T>)
    ensures forall i :: 0 <= i < |Minus(s, dead)| ==> Minus(s, dead)[i] in s
  {
    if s != [] {
      MinusSubset(s[1..], dead);
    }
  }

  lemma {:induction false} MinusNothing<T>(s: seq<T>, dead: set<T>)
    requires forall x :: x in s ==> x !in dead
    ensures Minus(s, dead) == s
  {
    if s != [] {
      MinusNothing(s[1..], dead);
    }
  }

  predicate Distinct<T(==)>(s: seq<T>) {
    forall i, j :: 0 <= i < j < |s| ==> s[i] != s[j]
  }

  /** The same, one element at a time. */
  predicate Once<T(==)>(s: seq<T>) {
    s == [] || (s[0] !in s[1..] && Once(s[1..]))
  }

  lemma {:induction false} OnceIs<T>(s: seq<T>)
    ensures Once(s) <==> Distinct(s)
  {
    if s != [] {
      OnceIs(s[1..]);
      assert forall i :: 1 <= i < |s| ==> s[i] == s[1..][i - 1];
    }
  }

  predicate Ascending(s: seq<nat>) {
    forall i, j :: 0 <= i < j < |s| ==> s[i] < s[j]
  }

  function AsSet<T(==)>(s: seq<T>): set<T> { set x | x in s }

  function Inserted<T>(s: seq<T>, k: nat, x: T): (r: seq<T>)
    requires k <= |s|
    ensures |r| == |s| + 1
    ensures forall i :: 0 <= i <= |s| ==> r[i] == if i < k then s[i] else if i == k then x else s[i - 1]
  {
    s[..k] + [x] + s[k..]
  }

  function Without<T>(s: seq<T>, k: nat): (r: seq<T>)
    requires k < |s|
    ensures |r| == |s| - 1
    ensures forall i :: 0 <= i < |r| ==> r[i] == s[if i < k then i else i + 1]
  {
    s[..k] + s[k + 1..]
  }

  lemma DistinctInserted<T>(s: seq<T>, k: nat, x: T)
    requires Distinct(s) && x !in s && k <= |s|
    ensures Distinct(Inserted(s, k, x))
  {
  }

  lemma DistinctWithout<T>(s: seq<T>, k: nat)
    requires Distinct(s) && k < |s|
    ensures Distinct(Without(s, k)) && s[k] !in Without(s, k)
    ensures forall x :: x in Without(s, k) ==> x in s
  {
  }

  lemma {:induction false} MinusDistinct<T>(s: seq<T>, dead: set<T>)
    requires Distinct(s)
    ensures Distinct(Minus(s, dead))
  {
    if s != [] {
      MinusDistinct(s[1..], dead);
      MinusIn(s[1..], dead, s[0]);
    }
  }

  /** Taking out one element of a list without repetition cuts it at that element. */
  lemma {:induction false} MinusOne<T>(s: seq<T>, i: nat)
    requires Distinct(s) && i < |s|
    ensures Minus(s, {s[i]}) == s[..i] + s[i + 1..]
  {
    if i == 0 {
      MinusNothing(s[1..], {s[0]});
      assert Minus(s, {s[0]}) == Minus(s[1..], {s[0]});
    } else {
      MinusOne(s[1..], i - 1);
      assert s[1..][i - 1] == s[i];
      assert s[1..][i..] == s[i + 1..];
      assert [s[0]] + s[1..][..i - 1] == s[..i];
    }
  }

  /** The elements of `s` that are in `keep`, in order. */
  ghost function Keep<T>(s: seq<T>, keep: set<T>): seq<T> {
    if s == [] then [] else Keep(s[..|s| - 1], keep) + (if s[|s| - 1] in keep then [s[|s| - 1]] else [])
  }

  lemma {:induction false} KeepIn<T>(s: seq<T>, keep: set<T>, x: T)
    ensures x in Keep(s, keep) <==> x in s && x in keep
  {
    if s != [] {
      KeepIn(s[..|s| - 1], keep, x);
      assert s == s[..|s| - 1] + [s[|s| - 1]];
    }
  }

  lemma {:induction false} KeepSame<T>(s: seq<T>, a: set<T>, b: set<T>)
    requires forall x :: x in s ==> (x in a <==> x in b)
    ensures Keep(s, a) == Keep(s, b)
  {
    if s != [] {
      KeepSame(s[..|s| - 1], a, b);
    }
  }
}

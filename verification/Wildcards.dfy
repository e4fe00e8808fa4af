/** Matching a string against a pattern with '*' and '?' (`do_match_wild`, in the services and
    in the database function, which has the same code). */
module Wildcards {
  import opened CText

  predicate Same(a: char, b: char, docase: bool) {
    if docase then a == b else ToLower(a) == ToLower(b)
  }

  predicate Wild(c: char) { c == '?' || c == '*' }

  /** What a pattern means: '?' stands for one character, '*' for any string. */
  ghost predicate Matches(p: string, s: string, docase: bool)
    decreases |p|
  {
    if p == [] then s == []
    else if p[0] == '*' then exists k :: 0 <= k <= |s| && Matches(p[1..], s[k..], docase)
    else s != [] && (p[0] == '?' || Same(s[0], p[0], docase)) && Matches(p[1..], s[1..], docase)
  }

  /** Somewhere in `s` a character equals the first of `p`, and the code accepts from there. */
  ghost predicate Lands(p: string, s: string, docase: bool)
    requires p != []
    decreases |p|, 1
  {
    exists k :: 0 <= k < |s| && Same(s[k], p[0], docase) && Accepts(p, s[k..], docase)
  }

  /** What the code accepts. After a '*' it looks for the next pattern character as a literal,
      and goes on at the same place when that fails. */
  ghost predicate Accepts(p: string, s: string, docase: bool)
    decreases |p|, 0
  {
    if p == [] then s == []
    else if p[0] == '?' then s != [] && Accepts(p[1..], s[1..], docase)
    else if p[0] == '*' then
      p[1..] == [] || Lands(p[1..], s, docase) || Accepts(p[1..], s, docase)
    else s != [] && Same(s[0], p[0], docase) && Accepts(p[1..], s[1..], docase)
  }

  /** `do_match_wild`. */
  method DoMatchWild(pattern: string, str: string, docase: bool) returns (r: bool)
    ensures r == Accepts(pattern, str, docase)
    decreases |pattern|
  {
    var p, s := pattern, str;
    while true
      invariant |p| <= |pattern|
      invariant Accepts(p, s, docase) == Accepts(pattern, str, docase)
      decreases |p|
    {
      if p == [] {
        return s == [];
      }
      var c := p[0];
      p := p[1..];
      if c == '?' {
        if s == [] {
          return false;
        }
        s := s[1..];
      } else if c == '*' {
        if p == [] {
          return true;
        }
        var k := 0;
        while k < |s|
          invariant 0 <= k <= |s|
          invariant forall j :: 0 <= j < k ==> !(Same(s[j], p[0], docase) && Accepts(p, s[j..], docase))
        {
          if Same(s[k], p[0], docase) {
            var rest := DoMatchWild(p, s[k..], docase);
            if rest {
              return true;
            }
          }
          k := k + 1;
        }
      } else {
        if s == [] || !Same(s[0], c, docase) {
          return false;
        }
        s := s[1..];
      }
    }
  }

  /** Everything that is accepted matches, for every pattern. */
  lemma {:induction false} AcceptsOnlyMatches(p: string, s: string, docase: bool)
    requires Accepts(p, s, docase)
    ensures Matches(p, s, docase)
    decreases |p|
  {
    if p == [] {
    } else if p[0] == '*' {
      if p[1..] == [] {
        assert Matches(p[1..], s[|s|..], docase);
      } else if k :| 0 <= k < |s| && Same(s[k], p[1..][0], docase) && Accepts(p[1..], s[k..], docase) {
        AcceptsOnlyMatches(p[1..], s[k..], docase);
      } else {
        AcceptsOnlyMatches(p[1..], s, docase);
        assert s[0..] == s;
      }
    } else {
      AcceptsOnlyMatches(p[1..], s[1..], docase);
    }
  }

  // ----- which patterns are matched completely -----

  /** One or more '?' and then the end or an ordinary character. */
  predicate Hungry(q: string) {
    q != [] && q[0] == '?' && (|q| == 1 || !Wild(q[1]) || Hungry(q[1..]))
  }

  /** Some '*' is followed by such a run of '?'. */
  predicate Gap(p: string) {
    p != [] && ((p[0] == '*' && Hungry(p[1..])) || Gap(p[1..]))
  }

  /** A run of '?' before a '*', or a '*' itself, may as well begin further left. */
  lemma {:induction false} Absorbs(q: string, s: string, k: nat, docase: bool)
    requires q != [] && Wild(q[0]) && !Hungry(q) && k <= |s|
    requires Matches(q, s[k..], docase)
    ensures Matches(q, s, docase)
    decreases |q|
  {
    if q[0] == '*' {
      var j :| 0 <= j <= |s[k..]| && Matches(q[1..], s[k..][j..], docase);
      assert s[k..][j..] == s[k + j..];
    } else {
      assert s[k..][1..] == s[1..][k..];
      Absorbs(q[1..], s[1..], k, docase);
    }
  }

  lemma {:induction false} AcceptsAllMatches(p: string, s: string, docase: bool)
    requires !Gap(p) && Matches(p, s, docase)
    ensures Accepts(p, s, docase)
    decreases |p|
  {
    if p == [] {
    } else if p[0] == '*' && p[1..] != [] {
      var q := p[1..];
      var k :| 0 <= k <= |s| && Matches(q, s[k..], docase);
      if Wild(q[0]) {
        Absorbs(q, s, k, docase);
        AcceptsAllMatches(q, s, docase);
      } else {
        AcceptsAllMatches(q, s[k..], docase);
        assert Same(s[k], q[0], docase);
        assert Lands(q, s, docase);
      }
    } else if p[0] != '*' {
      AcceptsAllMatches(p[1..], s[1..], docase);
    }
  }

  // ----- and which are not -----

  /** A string the pattern means: `z` for every '?', nothing for every '*' but one that is
      followed by a hungry run, which gets a `z` of its own. */
  function Witness(p: string, z: char): string {
    if p == [] then []
    else if p[0] == '?' then [z] + Witness(p[1..], z)
    else if p[0] == '*' then
      (if !Gap(p[1..]) && Hungry(p[1..]) then [z] else []) + Witness(p[1..], z)
    else [p[0]] + Witness(p[1..], z)
  }

  lemma {:induction false} WitnessMatches(p: string, z: char, docase: bool)
    ensures Matches(p, Witness(p, z), docase)
  {
    if p != [] {
      var w, rest := Witness(p, z), Witness(p[1..], z);
      WitnessMatches(p[1..], z, docase);
      if p[0] == '*' {
        var k := if !Gap(p[1..]) && Hungry(p[1..]) then 1 else 0;
        assert w[k..] == rest;
      } else {
        assert w[1..] == rest;
      }
    }
  }

  /** `z` is an ordinary character and no character of the pattern. */
  predicate Unused(p: string, z: char, docase: bool) {
    !Wild(z) && forall i :: 0 <= i < |p| ==> !Same(z, p[i], docase)
  }

  lemma {:induction false} WitnessChars(p: string, z: char)
    requires !Wild(z)
    ensures forall i :: 0 <= i < |Witness(p, z)| ==> !Wild(Witness(p, z)[i])
  {
    if p != [] {
      WitnessChars(p[1..], z);
    }
  }

  function Literals(p: string): nat {
    if p == [] then 0 else (if Wild(p[0]) then 0 else 1) + Literals(p[1..])
  }

  function Others(s: string, z: char): nat {
    if s == [] then 0 else (if s[0] == z then 0 else 1) + Others(s[1..], z)
  }

  lemma {:induction false} OthersFrom(s: string, z: char, k: nat)
    requires k <= |s|
    ensures Others(s[k..], z) + Others(s[..k], z) == Others(s, z)
  {
    if k == 0 {
      assert s[0..] == s && s[..0] == [];
    } else {
      OthersFrom(s[1..], z, k - 1);
      assert s[k..] == s[1..][k - 1..] && s[..k][1..] == s[1..][..k - 1];
    }
  }

  lemma {:induction false} WitnessOthers(p: string, z: char, docase: bool)
    requires Unused(p, z, docase)
    ensures Others(Witness(p, z), z) == Literals(p)
  {
    if p != [] {
      var w, rest := Witness(p, z), Witness(p[1..], z);
      WitnessOthers(p[1..], z, docase);
      assert !Same(z, p[0], docase);
      assert ([z] + rest)[1..] == rest && ([p[0]] + rest)[1..] == rest && [] + rest == rest;
    }
  }

  /** Every ordinary pattern character needs a character of its own that is not `z`. */
  lemma {:induction false} LiteralsNeedOthers(p: string, s: string, z: char, docase: bool)
    requires Unused(p, z, docase) && Accepts(p, s, docase)
    ensures Literals(p) <= Others(s, z)
    decreases |p|
  {
    if p == [] {
    } else if p[0] == '*' {
      if p[1..] == [] {
      } else if k :| 0 <= k < |s| && Same(s[k], p[1..][0], docase) && Accepts(p[1..], s[k..], docase) {
        LiteralsNeedOthers(p[1..], s[k..], z, docase);
        OthersFrom(s, z, k);
      } else {
        LiteralsNeedOthers(p[1..], s, z, docase);
      }
    } else {
      LiteralsNeedOthers(p[1..], s[1..], z, docase);
    }
  }

  lemma {:induction false} HungryMisses(q: string, z: char, docase: bool)
    requires Hungry(q) && Unused(q, z, docase)
    ensures !Accepts(q, [z] + Witness(q, z), docase)
  {
    var q', w := q[1..], Witness(q[1..], z);
    assert ([z] + Witness(q, z))[1..] == [z] + w;
    if Hungry(q') {
      HungryMisses(q', z, docase);
    }
  }

  lemma {:induction false} WitnessMissed(p: string, z: char, docase: bool)
    requires Gap(p) && Unused(p, z, docase)
    ensures !Accepts(p, Witness(p, z), docase)
  {
    var p', w := p[1..], Witness(p, z);
    var w' := Witness(p', z);
    if p[0] != '*' {
      assert w[1..] == w';
      WitnessMissed(p', z, docase);
    } else {
      WitnessChars(p, z);
      if Gap(p') {
        assert w == w';
        WitnessMissed(p', z, docase);
        NoLanding(p', z, docase);
      } else {
        assert w == [z] + w';
        HungryMisses(p', z, docase);
      }
    }
  }

  lemma NoLanding(p: string, z: char, docase: bool)
    requires p != [] && Unused(p, z, docase) && !Accepts(p, Witness(p, z), docase)
    ensures !Lands(p, Witness(p, z), docase)
  {
    var w := Witness(p, z);
    WitnessChars(p, z);
    if k :| 0 <= k < |w| && Same(w[k], p[0], docase) && Accepts(p, w[k..], docase) {
      if !Wild(p[0]) {
        WitnessTooShort(p, z, k, docase);
      }
    }
  }

  /** Past its first character the witness has too few ordinary characters left. */
  lemma WitnessTooShort(p: string, z: char, k: nat, docase: bool)
    requires p != [] && !Wild(p[0]) && Unused(p, z, docase)
    requires k < |Witness(p, z)| && Accepts(p, Witness(p, z)[k..], docase)
    ensures k == 0 && Accepts(p, Witness(p, z), docase)
  {
    var w := Witness(p, z);
    OthersFrom(w, z, k);
    WitnessOthers(p, z, docase);
    assert k > 0 ==> w[..k][0] == p[0] != z;
    assert w[0..] == w;
    LiteralsNeedOthers(p, w[k..], z, docase);
  }

  /** The code accepts all that a pattern means exactly when no '*' is followed by one or more
      '?' and then by the end or an ordinary character: there the '*' is dropped, so that "*?"
      rejects "ab". One direction needs a character the pattern leaves unused. */
  lemma CompleteIffNoGap(p: string, z: char, docase: bool)
    requires Unused(p, z, docase)
    ensures (forall s :: Matches(p, s, docase) ==> Accepts(p, s, docase)) <==> !Gap(p)
  {
    if Gap(p) {
      WitnessMatches(p, z, docase);
      WitnessMissed(p, z, docase);
    } else {
      forall s | Matches(p, s, docase) ensures Accepts(p, s, docase) {
        AcceptsAllMatches(p, s, docase);
      }
    }
  }

  lemma StarQuestionRejects()
    ensures Gap("*?") && Matches("*?", "ab", true) && !Accepts("*?", "ab", true)
  {
    var s := "ab";
    assert "*?"[1..] == "?" && "?"[1..] == "" && s[1..] == "b" && "b"[1..] == "";
    assert Matches("?", "b", true);
    assert Matches("*?", s, true) by { assert Matches("*?"[1..], s[1..], true); }
    assert !Accepts("", "b", true);
    assert !Accepts("?", "ab", true);
    assert forall k :: 0 <= k < |s| ==> !Same(s[k], '?', true);
  }

  // ----- without case -----

  lemma FoldFrom(s: string, k: nat)
    requires k <= |s|
    ensures Fold(s)[k..] == Fold(s[k..])
  {
  }

  /** Matching without case is matching the lower-case strings with case. */
  lemma {:induction false} NoCaseIsFolded(p: string, s: string)
    ensures Accepts(p, s, false) == Accepts(Fold(p), Fold(s), true)
    decreases |p|
  {
    if p != [] {
      var q := p[1..];
      FoldFrom(p, 1);
      assert p[0] == '*' <==> Fold(p)[0] == '*';
      assert p[0] == '?' <==> Fold(p)[0] == '?';
      if p[0] == '*' {
        NoCaseIsFolded(q, s);
        if q != [] {
          forall k | 0 <= k < |s|
            ensures (Same(s[k], q[0], false) && Accepts(q, s[k..], false))
                    <==> (Same(Fold(s)[k], Fold(q)[0], true) && Accepts(Fold(q), Fold(s)[k..], true))
          {
            FoldFrom(s, k);
            NoCaseIsFolded(q, s[k..]);
          }
          assert Lands(q, s, false) == Lands(Fold(q), Fold(s), true);
        }
      } else if s != [] {
        FoldFrom(s, 1);
        NoCaseIsFolded(q, s[1..]);
      }
    }
  }
}

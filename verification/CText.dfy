/** The C string and number primitives the services use: case folding, `strtol`/`strtoul`
    as they are read into 32-bit variables, and the `%d` that prints a limit. */
module CText {

  datatype Option<+T> = None | Some(value: T)

  const UINT32_RANGE: nat := 0x1_0000_0000
  const ULONG_MAX: nat := 0xFFFF_FFFF_FFFF_FFFF
  const LONG_MAX: nat := 0x7FFF_FFFF_FFFF_FFFF

  type uint32 = n: nat | n < UINT32_RANGE

  // ----- case folding (the program's own `tolower`, not RFC 1459's) -----

  function ToLower(c: char): char {
    if 'A' <= c <= 'Z' then c - 'A' + 'a' else c
  }

  function Fold(s: string): (r: string)
    ensures |r| == |s|
    ensures forall i :: 0 <= i < |s| ==> r[i] == ToLower(s[i])
  {
    seq(|s|, i requires 0 <= i < |s| => ToLower(s[i]))
  }

  /** Two characters are the same letter if they are equal or the two cases of one of the 26. */
  lemma SameLetterIff(a: char, b: char)
    ensures ToLower(a) == ToLower(b)
            <==> || a == b
                 || ('A' <= a <= 'Z' && b as int == a as int + 32)
                 || ('A' <= b <= 'Z' && a as int == b as int + 32)
  {
  }

  /** Texts are equal up to case if they are so letter by letter. */
  lemma SameTextIff(a: string, b: string)
    ensures Fold(a) == Fold(b) <==> |a| == |b| && forall i :: 0 <= i < |a| ==> ToLower(a[i]) == ToLower(b[i])
  {
    if Fold(a) == Fold(b) {
      forall i | 0 <= i < |a| ensures ToLower(a[i]) == ToLower(b[i]) {
        assert Fold(a)[i] == Fold(b)[i];
      }
    }
  }

  /** `irc_tolower`, which also folds the brackets; the comparison of names does not use it. */
  function IrcLower(c: char): char {
    if 'A' <= c <= 'Z' || '[' <= c <= ']' then (c as int + 32) as char else c
  }

  /** Of two names that section 2.2 of RFC 1459 calls the same, the program sees one name if and only
      if they differ in the case of letters alone, and not in brackets. */
  lemma SameNameIff(a: string, b: string)
    requires |a| == |b| && forall i :: 0 <= i < |a| ==> IrcLower(a[i]) == IrcLower(b[i])
    ensures Fold(a) == Fold(b)
            <==> forall i :: 0 <= i < |a| && a[i] != b[i] ==> 'A' <= a[i] <= 'Z' || 'a' <= a[i] <= 'z'
  {
    SameTextIff(a, b);
  }

  // ----- decimal numerals -----

  predicate IsDigit(c: char) { '0' <= c <= '9' }

  predicate IsSpace(c: char) { c == ' ' || '\t' <= c <= '\r' }

  function Digit(n: nat): (c: char)
    requires n < 10
    ensures IsDigit(c) && (c - '0') as int == n
  {
    '0' + n as char
  }

  function Dec(n: nat): string {
    if n < 10 then [Digit(n)] else Dec(n / 10) + [Digit(n % 10)]
  }

  predicate AllDigits(s: string) {
    forall i :: 0 <= i < |s| ==> IsDigit(s[i])
  }

  function DecVal(s: string): nat
    requires AllDigits(s)
  {
    if s == [] then 0 else 10 * DecVal(s[..|s| - 1]) + (s[|s| - 1] - '0') as int
  }

  lemma {:induction false} DecIsNumeral(n: nat)
    ensures Dec(n) != [] && AllDigits(Dec(n)) && DecVal(Dec(n)) == n
  {
    if n >= 10 {
      DecIsNumeral(n / 10);
      assert Dec(n)[..|Dec(n)| - 1] == Dec(n / 10);
    } else {
      assert Dec(n)[..0] == [];
    }
  }

  /** Length of the longest prefix of `s` made of digits. */
  function DigitRun(s: string): (k: nat)
    ensures k <= |s| && AllDigits(s[..k])
    ensures k < |s| ==> !IsDigit(s[k])
  {
    if s == [] || !IsDigit(s[0]) then 0
    else
      var k := 1 + DigitRun(s[1..]);
      assert forall i :: 1 <= i < k ==> s[i] == s[1..][..k - 1][i - 1];
      k
  }

  lemma {:induction false} DigitRunOf(ds: string, rest: string)
    requires AllDigits(ds) && (rest == [] || !IsDigit(rest[0]))
    ensures DigitRun(ds + rest) == |ds|
  {
    if ds == [] {
      assert ds + rest == rest;
    } else {
      assert (ds + rest)[1..] == ds[1..] + rest;
      DigitRunOf(ds[1..], rest);
    }
  }

  function SpaceRun(s: string): (k: nat)
    ensures k <= |s|
    ensures k < |s| ==> !IsSpace(s[k])
  {
    if s == [] || !IsSpace(s[0]) then 0 else 1 + SpaceRun(s[1..])
  }

  /** What `strtol`/`strtoul` with base 10 see: a sign, a magnitude and the number of
      characters consumed; nothing is consumed when there are no digits. */
  datatype Numeral = Numeral(negative: bool, magnitude: nat, used: nat)

  function Scan(s: string): (r: Numeral)
    ensures r.used <= |s|
  {
    var w := SpaceRun(s);
    var sign := if w < |s| && (s[w] == '-' || s[w] == '+') then 1 else 0;
    var d := DigitRun(s[w + sign..]);
    if d == 0 then Numeral(false, 0, 0)
    else Numeral(sign == 1 && s[w] == '-', DecVal(s[w + sign..][..d]), w + sign + d)
  }

  /** `(unsigned int) strtoul(s, ..., 10)` with a 64-bit `unsigned long`. */
  function Strtoul(n: Numeral): uint32 {
    if n.magnitude > ULONG_MAX then ULONG_MAX % UINT32_RANGE
    else if n.negative then (ULONG_MAX + 1 - n.magnitude) % UINT32_RANGE
    else n.magnitude % UINT32_RANGE
  }

  /** `(unsigned int) strtol(s, ..., 10)` with a 64-bit `long`. */
  function Strtol(n: Numeral): uint32 {
    if n.negative then
      (if n.magnitude > LONG_MAX + 1 then 0 else (ULONG_MAX + 1 - n.magnitude) % UINT32_RANGE)
    else
      (if n.magnitude > LONG_MAX then LONG_MAX % UINT32_RANGE else n.magnitude % UINT32_RANGE)
  }

  /** Both readings leave the number within 32 bits as it is and cut others off modulo 2^32, as long
      as they fit the 64-bit type they are read into; beyond it they read as its largest or least value,
      of which 32 bits are left. */
  lemma ReadingsAre(n: Numeral)
    ensures !n.negative && n.magnitude <= 0x7FFF_FFFF_FFFF_FFFF ==>
              Strtol(n) == Strtoul(n) == n.magnitude % 0x1_0000_0000
    ensures n.negative && n.magnitude <= 0x7FFF_FFFF_FFFF_FFFF ==>
              Strtol(n) == Strtoul(n) && (Strtol(n) + n.magnitude) % 0x1_0000_0000 == 0
    ensures n.magnitude > 0xFFFF_FFFF_FFFF_FFFF ==>
              Strtoul(n) == 0xFFFF_FFFF && Strtol(n) == if n.negative then 0 else 0xFFFF_FFFF
  {
    if n.negative && n.magnitude <= LONG_MAX {
      var big, r := ULONG_MAX + 1 - n.magnitude, Strtol(n);
      assert r == big % UINT32_RANGE;
      assert r + n.magnitude == UINT32_RANGE * (UINT32_RANGE - big / UINT32_RANGE);
    }
  }

  lemma {:induction false} ScanDec(n: nat, rest: string)
    requires rest == [] || !IsDigit(rest[0])
    ensures Scan(Dec(n) + rest) == Numeral(false, n, |Dec(n)|)
  {
    DecIsNumeral(n);
    var s := Dec(n) + rest;
    assert IsDigit(s[0]);
    DigitRunOf(Dec(n), rest);
    assert s[0..] == s;
    assert s[..|Dec(n)|] == Dec(n);
  }

  /** `%d` applied to a 32-bit unsigned value: it is printed as a signed one. */
  function PrintD(n: uint32): string {
    if n < 0x8000_0000 then Dec(n) else ['-'] + Dec(UINT32_RANGE - n)
  }

  lemma ScanNegative(m: nat)
    ensures Scan(['-'] + Dec(m)) == Numeral(true, m, 1 + |Dec(m)|)
  {
    DecIsNumeral(m);
    var s := ['-'] + Dec(m);
    DigitRunOf(Dec(m), []);
    assert Dec(m) + [] == Dec(m);
    assert SpaceRun(s) == 0;
    assert s[1..] == Dec(m);
    assert Dec(m)[..|Dec(m)|] == Dec(m);
  }

  lemma ScanPositive(m: nat)
    ensures Scan(Dec(m)) == Numeral(false, m, |Dec(m)|)
  {
    ScanDec(m, []);
    assert Dec(m) + [] == Dec(m);
  }

  lemma SmallIsKept(n: uint32, used: nat)
    ensures Strtol(Numeral(false, n, used)) == n && Strtoul(Numeral(false, n, used)) == n
  {
  }

  /** A number of 32 bits that is written in decimal is read as itself. */
  lemma WrittenIsRead(n: uint32)
    ensures Strtol(Scan(Dec(n))) == n && Strtoul(Scan(Dec(n))) == n
  {
    ScanPositive(n);
    SmallIsKept(n, |Dec(n)|);
  }

  lemma ReadBackSigned(n: uint32, m: nat, used: nat)
    requires n + m == UINT32_RANGE
    ensures Strtoul(Numeral(true, m, used)) == n
  {
    assert ULONG_MAX + 1 - m == n + 0xFFFF_FFFF * UINT32_RANGE;
  }

  /** A limit printed with `%d` is read back by `strtoul` as the same 32-bit value, also
      when it is too large for a signed integer and was printed as a negative one. */
  lemma PrintedLimitReadsBack(n: uint32)
    ensures Strtoul(Scan(PrintD(n))) == n
  {
    if n < 0x8000_0000 {
      WrittenIsRead(n);
    } else {
      var m := UINT32_RANGE - n;
      ScanNegative(m);
      ReadBackSigned(n, m, 1 + |Dec(m)|);
    }
  }
}

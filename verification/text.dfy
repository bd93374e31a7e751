/** The string operations the service relies on: ASCII lower-casing and
    substring search (`toLowerCase().includes(...)` in the chat step),
    decimal rendering of naturals (`toString()` of the OTP code and of the
    slot hours and minutes) and left padding (`padStart`). */
module Text {

  /* ---------------- lower-casing and substring search ---------------- */

  function LowerChar(c: char): char
  {
    if 'A' <= c <= 'Z' then (c as int + 32) as char else c
  }

  /** ASCII lower-casing, character by character: no capital letter is left,
      each capital becomes the same letter in lower case, and every other
      character stays as it was. */
  function Lower(s: string): (r: string)
    ensures |r| == |s|
    ensures forall i :: 0 <= i < |s| ==> r[i] == LowerChar(s[i])
    ensures forall i :: 0 <= i < |r| ==> !('A' <= r[i] <= 'Z')
    ensures forall i :: 0 <= i < |s| && 'A' <= s[i] <= 'Z' ==>
      'a' <= r[i] <= 'z' && r[i] as int - 'a' as int == s[i] as int - 'A' as int
    ensures forall i :: 0 <= i < |s| && !('A' <= s[i] <= 'Z') ==> r[i] == s[i]
  {
    seq(|s|, i requires 0 <= i < |s| => LowerChar(s[i]))
  }

  /** Lower-casing twice changes nothing more. */
  lemma LowerIdempotent(s: string)
    ensures Lower(Lower(s)) == Lower(s)
  {
  }

  /** Lower-casing turns no other string into a string made only of
      non-letters, such as "1": the digit keywords are matched exactly. */
  lemma LowerFixesNonLetters(s: string, t: string)
    requires forall i :: 0 <= i < |t| ==> !('A' <= t[i] <= 'Z') && !('a' <= t[i] <= 'z')
    ensures Lower(s) == t <==> s == t
  {
    if Lower(s) == t {
      forall i | 0 <= i < |s|
        ensures s[i] == t[i]
      {
        assert LowerChar(s[i]) == t[i];
      }
    }
  }

  ghost predicate OccursAt(sub: string, s: string, i: int)
  {
    0 <= i && i + |sub| <= |s| && s[i..i + |sub|] == sub
  }

  /** `sub` is a substring of `s`: the meaning of JavaScript's `s.includes(sub)`. */
  ghost predicate Occurs(sub: string, s: string)
  {
    exists i :: OccursAt(sub, s, i)
  }

  lemma OccursShift(sub: string, s: string)
    requires |sub| <= |s| && s[..|sub|] != sub
    ensures Occurs(sub, s) <==> Occurs(sub, s[1..])
  {
    if Occurs(sub, s) {
      var i :| OccursAt(sub, s, i);
      assert i != 0;
      assert s[1..][i - 1..i - 1 + |sub|] == s[i..i + |sub|];
      assert OccursAt(sub, s[1..], i - 1);
    }
    if Occurs(sub, s[1..]) {
      var i :| OccursAt(sub, s[1..], i);
      assert s[1..][i..i + |sub|] == s[i + 1..i + 1 + |sub|];
      assert OccursAt(sub, s, i + 1);
    }
  }

  /** Left-to-right substring search. */
  function Includes(s: string, sub: string): (r: bool)
    ensures r <==> Occurs(sub, s)
    decreases |s|
  {
    if |sub| > |s| then
      false
    else if s[..|sub|] == sub then
      assert OccursAt(sub, s, 0);
      true
    else
      OccursShift(sub, s);
      Includes(s[1..], sub)
  }

  /* ---------------- decimal rendering ---------------- */

  predicate IsDigit(c: char)
  {
    '0' <= c <= '9'
  }

  predicate AllDigits(s: string)
  {
    forall i :: 0 <= i < |s| ==> IsDigit(s[i])
  }

  function DigitChar(d: nat): (c: char)
    requires d < 10
    ensures IsDigit(c)
  {
    ('0' as int + d) as char
  }

  function DigitValue(c: char): (d: nat)
    requires IsDigit(c)
    ensures d < 10
  {
    c as int - '0' as int
  }

  /** The number a string of decimal digits denotes (most significant first). */
  function Value(s: string): nat
    requires AllDigits(s)
  {
    if s == [] then 0 else 10 * Value(s[..|s| - 1]) + DigitValue(s[|s| - 1])
  }

  function Pow10(k: nat): (p: nat)
    ensures p >= 1
  {
    if k == 0 then 1 else 10 * Pow10(k - 1)
  }

  /** JavaScript's `String(n)` for a natural number below 10^21 (from there on
      JavaScript switches to exponent notation; the service only renders
      numbers below 10^6). */
  function Decimal(n: nat): (r: string)
    ensures 1 <= |r|
  {
    if n < 10 then [DigitChar(n)] else Decimal(n / 10) + [DigitChar(n % 10)]
  }

  /** `String(n)` is the shortest decimal rendering of n: digits only, no
      leading zero, denoting n. */
  lemma {:induction false} DecimalDenotes(n: nat)
    ensures AllDigits(Decimal(n))
    ensures Decimal(n)[0] == '0' ==> n == 0
    ensures Value(Decimal(n)) == n
  {
    if n >= 10 {
      DecimalDenotes(n / 10);
      var prefix := Decimal(n / 10);
      var r := Decimal(n);
      assert r == prefix + [DigitChar(n % 10)];
      assert r[..|r| - 1] == prefix;
      assert r[0] == prefix[0];
    } else {
      assert Decimal(n) == [DigitChar(n)];
      assert [DigitChar(n)][..0] == [];
    }
  }

  /** A number with k + 1 decimal digits is rendered with k + 1 characters. */
  lemma {:induction false} DecimalLength(n: nat, k: nat)
    requires Pow10(k) <= n < Pow10(k + 1)
    ensures |Decimal(n)| == k + 1
  {
    if k == 0 {
      assert n < 10;
    } else {
      assert n >= 10;
      DecimalLength(n / 10, k - 1);
    }
  }

  /** The two-digit string of a and b denotes 10 * a + b. */
  lemma ValueOfTwoDigits(a: nat, b: nat)
    requires a < 10 && b < 10
    ensures Value([DigitChar(a), DigitChar(b)]) == 10 * a + b
  {
    var s := [DigitChar(a), DigitChar(b)];
    assert DigitValue(DigitChar(a)) == a && DigitValue(DigitChar(b)) == b;
    assert Value([DigitChar(a)]) == a by {
      assert [DigitChar(a)][..0] == [];
    }
    assert s[..1] == [DigitChar(a)];
    assert Value(s) == 10 * Value(s[..1]) + DigitValue(s[1]);
  }

  /* ---------------- padding ---------------- */

  function Repeat(c: char, n: nat): string
  {
    if n == 0 then [] else [c] + Repeat(c, n - 1)
  }

  /** JavaScript's `s.padStart(width, fill)` for a one-character fill. */
  function PadStart(s: string, width: nat, fill: char): string
  {
    if |s| >= width then s else Repeat(fill, width - |s|) + s
  }

  /** `padStart` makes the string at least `width` long, keeps it as the
      tail, and fills the head with `fill`. */
  lemma PadStartShape(s: string, width: nat, fill: char)
    ensures var r := PadStart(s, width, fill);
      && |r| == (if |s| >= width then |s| else width)
      && r[|r| - |s|..] == s
      && forall i :: 0 <= i < |r| - |s| ==> r[i] == fill
  {
    if |s| < width {
      RepeatShape(fill, width - |s|);
      var r := PadStart(s, width, fill);
      assert r[|r| - |s|..] == s;
    }
  }

  lemma {:induction false} RepeatShape(c: char, n: nat)
    ensures |Repeat(c, n)| == n
    ensures forall i :: 0 <= i < n ==> Repeat(c, n)[i] == c
  {
    if n > 0 {
      RepeatShape(c, n - 1);
      assert Repeat(c, n) == [c] + Repeat(c, n - 1);
    }
  }

  /** `String(n).padStart(2, '0')` for n below 100 is the two digits of n. */
  lemma TwoDigits(n: nat)
    requires n < 100
    ensures PadStart(Decimal(n), 2, '0') == [DigitChar(n / 10), DigitChar(n % 10)]
  {
    if n < 10 {
      assert Decimal(n) == [DigitChar(n)];
      assert Repeat('0', 1) == ['0'] == [DigitChar(0)];
    } else {
      var hi, lo := n / 10, n % 10;
      assert hi < 10;
      assert Decimal(hi) == [DigitChar(hi)];
      assert Decimal(n) == [DigitChar(hi)] + [DigitChar(lo)];
    }
  }
}

/** The string operations the screens use: `String(n)` / `n.toString()` of an
    integer, `toLowerCase` (on ASCII letters only), `includes` and
    `startsWith`. */
module Strings {

  /** The decimal digit character for `d`. */
  function DigitChar(d: nat): (c: char)
    requires d < 10
    ensures '0' <= c <= '9'
    ensures c as int - '0' as int == d
  {
    ('0' as int + d) as char
  }

  /** `String(n)` for a non-negative integer: its decimal digits, most
      significant first, with no leading zeros. */
  function NatToDecimal(n: nat): (r: string)
    ensures 1 <= |r|
    ensures n < 10 <==> |r| == 1
    ensures '0' <= r[0] <= '9'
    ensures r[|r| - 1] == DigitChar(n % 10)
  {
    if n < 10 then [DigitChar(n)] else NatToDecimal(n / 10) + [DigitChar(n % 10)]
  }

  /** The decimal form of a number is made of digits only. */
  lemma {:induction false} NatToDecimalDigits(n: nat)
    ensures forall i :: 0 <= i < |NatToDecimal(n)| ==> '0' <= NatToDecimal(n)[i] <= '9'
  {
    if 10 <= n {
      NatToDecimalDigits(n / 10);
      var r, prefix := NatToDecimal(n), NatToDecimal(n / 10);
      assert r == prefix + [DigitChar(n % 10)];
      assert forall i :: 0 <= i < |prefix| ==> r[i] == prefix[i];
    } else {
      assert NatToDecimal(n) == [DigitChar(n)];
    }
  }

  /** `String(n)` for any integer: a minus sign before the digits of `-n`
      when `n` is negative. */
  function IntToDecimal(n: int): (r: string)
    ensures 1 <= |r|
    ensures r[0] == '-' <==> n < 0
  {
    if n < 0 then "-" + NatToDecimal(-n) else NatToDecimal(n)
  }

  /** A number of two or more digits is the decimal form of its tenth
      followed by its last digit. */
  lemma NatToDecimalLastDigit(n: nat)
    requires 10 <= n
    ensures NatToDecimal(n)[..|NatToDecimal(n)| - 1] == NatToDecimal(n / 10)
  {
  }

  /** Different numbers have different decimal forms. */
  lemma {:induction false} NatToDecimalInjective(a: nat, b: nat)
    requires NatToDecimal(a) == NatToDecimal(b)
    ensures a == b
  {
    if 10 <= a {
      NatToDecimalLastDigit(a);
      NatToDecimalLastDigit(b);
      NatToDecimalInjective(a / 10, b / 10);
    }
  }

  /** The digits of a negative number follow its minus sign. */
  lemma IntToDecimalNegative(n: int)
    requires n < 0
    ensures IntToDecimal(n)[1..] == NatToDecimal(-n)
  {
    var digits := NatToDecimal(-n);
    assert ("-" + digits)[1..] == digits;
  }

  /** Different integers have different decimal forms. */
  lemma IntToDecimalInjective(a: int, b: int)
    requires IntToDecimal(a) == IntToDecimal(b)
    ensures a == b
  {
    if a < 0 {
      IntToDecimalNegative(a);
      IntToDecimalNegative(b);
      NatToDecimalInjective(-a, -b);
    } else {
      NatToDecimalInjective(a, b);
    }
  }

  /** `toLowerCase` on one character; only the ASCII capitals change. */
  function LowerChar(c: char): char
  {
    if 'A' <= c <= 'Z' then (c as int + 32) as char else c
  }

  /** `toLowerCase` on a string, character by character. */
  function Lower(s: string): (r: string)
    ensures |r| == |s|
    ensures forall i :: 0 <= i < |s| ==> r[i] == LowerChar(s[i])
  {
    seq(|s|, i requires 0 <= i < |s| => LowerChar(s[i]))
  }

  /** Lower-casing a lower-cased string changes nothing. */
  lemma LowerIdempotent(s: string)
    ensures Lower(Lower(s)) == Lower(s)
  {
  }

  /** `s.includes(sub)`: `sub` occurs in `s` as a contiguous block. */
  predicate Contains(s: string, sub: string)
  {
    sub <= s || (s != [] && Contains(s[1..], sub))
  }

  /** `sub` occurs in `s` starting at position `i`. */
  ghost predicate OccursAt(s: string, sub: string, i: int)
  {
    0 <= i <= |s| - |sub| && s[i..i + |sub|] == sub
  }

  /** An occurrence at the start is a prefix. */
  lemma OccursAtStart(s: string, sub: string)
    ensures OccursAt(s, sub, 0) <==> sub <= s
  {
  }

  /** An occurrence past the first character of `s` is an occurrence in
      the rest of `s`, one position earlier. */
  lemma OccursAtShift(s: string, sub: string, i: int)
    requires s != [] && 1 <= i
    ensures OccursAt(s, sub, i) <==> OccursAt(s[1..], sub, i - 1)
  {
    if i <= |s| - |sub| {
      assert s[1..][i - 1..i - 1 + |sub|] == s[i..i + |sub|];
    }
  }

  /** `Contains` holds exactly when `sub` occurs at some position of `s`. */
  lemma {:induction false} ContainsAt(s: string, sub: string)
    ensures Contains(s, sub) <==> exists i :: OccursAt(s, sub, i)
  {
    OccursAtStart(s, sub);
    if sub <= s {
    } else if s == [] {
    } else {
      ContainsAt(s[1..], sub);
      if exists i :: OccursAt(s, sub, i) {
        var i :| OccursAt(s, sub, i);
        OccursAtShift(s, sub, i);
      }
      if exists j :: OccursAt(s[1..], sub, j) {
        var j :| OccursAt(s[1..], sub, j);
        OccursAtShift(s, sub, j + 1);
      }
    }
  }
}

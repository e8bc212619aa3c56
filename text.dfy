/**
 * The parts of Python's string formatting that the frame and annotation
 * file names use: str() of an int, the "0W" format spec (zero-filled to a
 * width) and the "0>W" spec (right-aligned with '0' as the fill character).
 */
module Text {

  import opened Wrappers

  predicate IsDigit(c: char) { '0' <= c <= '9' }

  predicate AllDigits(s: string) { forall i :: 0 <= i < |s| ==> IsDigit(s[i]) }

  /** `s` is a decimal numeral whose int() is n. */
  predicate Spells(s: string, n: nat) { AllDigits(s) && Value(s) == n }

  function DigitChar(d: nat): (c: char)
    requires d < 10
    ensures IsDigit(c)
  {
    ('0' as int + d) as char
  }

  function DigitValue(c: char): (d: nat)
    requires IsDigit(c)
    ensures d < 10
  {
    c as int - '0' as int
  }

  /** `m` copies of the character `c`. */
  function Fill(c: char, m: nat): (s: string)
    ensures |s| == m
  {
    seq(m, _ => c)
  }

  /** str(n) for a non-negative int: its decimal digits, without leading zeros. */
  function Digits(n: nat): (s: string)
    ensures 1 <= |s| && AllDigits(s)
    ensures s[0] == '0' ==> n == 0
    decreases n
  {
    if n < 10 then [DigitChar(n)] else Digits(n / 10) + [DigitChar(n % 10)]
  }

  /** int(s) for a string of decimal digits (leading zeros allowed). */
  function Value(s: string): nat
    requires AllDigits(s)
  {
    if s == [] then 0 else Value(s[..|s| - 1]) * 10 + DigitValue(s[|s| - 1])
  }

  /** int(str(n)) == n. */
  lemma {:induction false} ValueOfDigits(n: nat)
    ensures Value(Digits(n)) == n
    decreases n
  {
    if n >= 10 {
      ValueOfDigits(n / 10);
      var s := Digits(n);
      assert s[..|s| - 1] == Digits(n / 10);
    }
  }

  lemma {:induction false} ValueOfZeros(m: nat)
    ensures AllDigits(Fill('0', m)) && Value(Fill('0', m)) == 0
  {
    if m > 0 {
      assert Fill('0', m)[..m - 1] == Fill('0', m - 1);
      ValueOfZeros(m - 1);
    }
  }

  /** Leading zeros do not change the value of a digit string. */
  lemma {:induction false} ValueIgnoresLeadingZeros(m: nat, s: string)
    requires AllDigits(s)
    ensures AllDigits(Fill('0', m) + s) && Value(Fill('0', m) + s) == Value(s)
    decreases |s|
  {
    var t := Fill('0', m) + s;
    if s == [] {
      assert t == Fill('0', m);
      ValueOfZeros(m);
    } else {
      assert t[..|t| - 1] == Fill('0', m) + s[..|s| - 1];
      ValueIgnoresLeadingZeros(m, s[..|s| - 1]);
    }
  }

  /** str(i) for any int: a '-' sign before the digits of a negative number. */
  function Str(i: int): string
  {
    if i < 0 then "-" + Digits(-i) else Digits(i)
  }

  /** str() of an int is made of digits and at most a '-'. */
  lemma StrChars(i: int)
    ensures Str(i) != [] && forall k :: 0 <= k < |Str(i)| ==> IsDigit(Str(i)[k]) || Str(i)[k] == '-'
  {
    if i < 0 {
      assert forall k :: 1 <= k < |Str(i)| ==> Str(i)[k] == Digits(-i)[k - 1];
    }
  }

  /** str() of an int holds no separator used in the file names. */
  lemma StrHasNoSeparator(i: int)
    ensures '/' !in Str(i) && '.' !in Str(i) && '_' !in Str(i)
  {
    StrChars(i);
  }

  /** format(n, "0W") for n >= 0: the digits of n, zero-filled on the left to at least `width` characters. */
  function ZeroPad(n: nat, width: nat): string
  {
    if |Digits(n)| < width then Fill('0', width - |Digits(n)|) + Digits(n) else Digits(n)
  }

  /** The zero-padded text is exactly `width` long unless n needs more digits, and it reads back as n. */
  lemma ZeroPadRoundTrip(n: nat, width: nat)
    ensures |ZeroPad(n, width)| == Max(width, |Digits(n)|)
    ensures AllDigits(ZeroPad(n, width)) && Value(ZeroPad(n, width)) == n
  {
    var d := Digits(n);
    ValueOfDigits(n);
    if |d| < width {
      assert ZeroPad(n, width) == Fill('0', width - |d|) + d;
      ValueIgnoresLeadingZeros(width - |d|, d);
    } else {
      assert ZeroPad(n, width) == d;
    }
  }

  /** Two numbers padded to the same width give the same text only if they are equal. */
  /** A character that is not a digit never occurs in a zero-padded number. */
  lemma ZeroPadExcludes(n: nat, width: nat, c: char)
    requires !IsDigit(c)
    ensures c !in ZeroPad(n, width)
  {
    ZeroPadRoundTrip(n, width);
  }

  lemma ZeroPadInjective(a: nat, b: nat, width: nat)
    requires ZeroPad(a, width) == ZeroPad(b, width)
    ensures a == b
  {
    ZeroPadRoundTrip(a, width);
    ZeroPadRoundTrip(b, width);
  }

  /** format(s, "0>W"): s right-aligned in `width` characters, filled on the left with `fill`. */
  function AlignRight(s: string, width: nat, fill: char): string
  {
    if |s| < width then Fill(fill, width - |s|) + s else s
  }

  /** For a non-negative number, "0>W" of its str() and "0W" give the same text ... */
  lemma AlignRightOfNatural(n: nat, width: nat)
    ensures AlignRight(Str(n), width, '0') == ZeroPad(n, width)
  {
  }

  /** ... but for a negative one "0>W" puts the fill before the sign: "0>9" of -5 is "0000000-5". */
  lemma AlignRightOfNegative()
    ensures AlignRight(Str(-5), 9, '0') == "0000000-5"
  {
    assert Digits(5) == "5";
    assert Fill('0', 7) == "0000000";
  }

  /** Splitting at the first occurrence of a separator that neither head contains. */
  lemma SplitAtSeparator(a: string, x: string, b: string, y: string, c: char)
    requires c !in a && c !in b
    requires a + [c] + x == b + [c] + y
    ensures a == b && x == y
  {
    var l, r := a + [c] + x, b + [c] + y;
    assert l[|a|] == c && r[|b|] == c;
    assert forall i :: 0 <= i < |a| ==> l[i] == a[i] != c;
    assert forall i :: 0 <= i < |b| ==> r[i] == b[i] != c;
    assert |a| == |b|;
    assert a == l[..|a|] && b == r[..|b|];
    assert x == l[|a| + 1..] && y == r[|b| + 1..];
  }

  /** A common prefix and suffix can be cancelled. */
  lemma CancelAround(pre: string, x: string, y: string, suf: string)
    requires pre + x + suf == pre + y + suf
    ensures x == y
  {
    var l, r := pre + x + suf, pre + y + suf;
    assert |x| == |y|;
    assert x == l[|pre|..|pre| + |x|] && y == r[|pre|..|pre| + |y|];
  }
}

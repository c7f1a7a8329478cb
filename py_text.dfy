/**
 * The few operations on Python's `str` that the upload endpoint relies on:
 * `str.lower()`, `str.rfind(c)` (written here as LastIndexOf) and `str(n)`
 * for a non-negative integer.
 */
module PyText {

  /** `str.lower()` on one character: ASCII capitals and the Kelvin sign
      (U+212A, which Python lower-cases to `k`) change; every other
      character that can lower-case to ASCII is one of these. */
  function LowerChar(c: char): char
  {
    if 'A' <= c <= 'Z' then (c as int + 32) as char
    else if c == '\U{212A}' then 'k'
    else c
  }

  /** `str.lower()`, character by character: the length is kept and no
      ASCII capital survives; LowerContents says what each character becomes. */
  function Lower(s: string): (r: string)
    ensures |r| == |s|
    ensures forall i :: 0 <= i < |r| ==> !('A' <= r[i] <= 'Z')
  {
    seq(|s|, i requires 0 <= i < |s| => LowerChar(s[i]))
  }

  /** What `Lower` does to each character: an ASCII capital becomes its own
      small letter, the Kelvin sign becomes `k`, and every other character
      is kept. */
  lemma LowerContents(s: string)
    ensures forall i :: 0 <= i < |s| && 'A' <= s[i] <= 'Z' ==>
              Lower(s)[i] == "abcdefghijklmnopqrstuvwxyz"[s[i] as int - 'A' as int]
    ensures forall i :: 0 <= i < |s| && s[i] == '\U{212A}' ==> Lower(s)[i] == 'k'
    ensures forall i :: 0 <= i < |s| && !('A' <= s[i] <= 'Z') && s[i] != '\U{212A}' ==> Lower(s)[i] == s[i]
  {
  }

  /** Lower-casing twice is lower-casing once. */
  lemma LowerIdempotent(s: string)
    ensures Lower(Lower(s)) == Lower(s)
  {
  }

  /** The index of the last `c` among the first `n` characters of `s`, or -1. */
  function LastIndexBefore(s: string, c: char, n: nat): (i: int)
    requires n <= |s|
    ensures -1 <= i < n
    ensures i == -1 ==> forall k :: 0 <= k < n ==> s[k] != c
    ensures 0 <= i ==> s[i] == c && forall k :: i < k < n ==> s[k] != c
    decreases n
  {
    if n == 0 then -1
    else if s[n - 1] == c then n - 1
    else LastIndexBefore(s, c, n - 1)
  }

  /** `s.rfind(c)`: the index of the last occurrence of `c`, or -1. */
  function LastIndexOf(s: string, c: char): (i: int)
    ensures -1 <= i < |s|
    ensures i == -1 <==> c !in s
    ensures 0 <= i ==> s[i] == c && forall k :: i < k < |s| ==> s[k] != c
  {
    LastIndexBefore(s, c, |s|)
  }

  /** The last occurrence is the only index that has `c` and no `c` after it. */
  lemma LastIndexOfIs(s: string, c: char, i: int)
    requires (i == -1 && c !in s) || (0 <= i < |s| && s[i] == c && forall j :: i < j < |s| ==> s[j] != c)
    ensures LastIndexOf(s, c) == i
  {
  }

  lemma LastIndexOfAppendMissing(a: string, b: string, c: char)
    requires c !in b
    ensures LastIndexOf(a + b, c) == LastIndexOf(a, c)
  {
    var j := LastIndexOf(a, c);
    forall k | j < k < |a| + |b|
      ensures (a + b)[k] != c
    {
      if k >= |a| {
        assert (a + b)[k] == b[k - |a|];
      }
    }
    if j == -1 {
      assert c !in a + b;
    }
    LastIndexOfIs(a + b, c, j);
  }

  lemma LastIndexOfAppendPresent(a: string, b: string, c: char)
    requires c in b
    ensures LastIndexOf(a + b, c) == |a| + LastIndexOf(b, c)
  {
    var j := LastIndexOf(b, c);
    assert (a + b)[|a| + j] == b[j];
    forall k | |a| + j < k < |a| + |b|
      ensures (a + b)[k] != c
    {
      assert (a + b)[k] == b[k - |a|];
    }
    LastIndexOfIs(a + b, c, |a| + j);
  }

  function DigitChar(d: nat): char
    requires d < 10
  {
    (48 + d) as char
  }

  function DigitValue(c: char): nat
  {
    if '0' <= c <= '9' then c as int - 48 else 0
  }

  predicate IsDigit(c: char)
  {
    '0' <= c <= '9'
  }

  /** `str(n)` for a non-negative integer: its decimal digits, most significant first. */
  function NatToString(n: nat): (s: string)
    ensures |s| >= 1
    ensures forall i :: 0 <= i < |s| ==> IsDigit(s[i])
    decreases n
  {
    if n < 10 then [DigitChar(n)] else NatToString(n / 10) + [DigitChar(n % 10)]
  }

  /** `int(s)` for a string of decimal digits (the empty string reads as 0). */
  function StringToNat(s: string): nat
    decreases |s|
  {
    if s == [] then 0 else 10 * StringToNat(s[..|s| - 1]) + DigitValue(s[|s| - 1])
  }

  /** Reading back the digits that `str(n)` writes gives `n`. */
  lemma {:induction false} StringToNatInverts(n: nat)
    ensures StringToNat(NatToString(n)) == n
    decreases n
  {
    if n >= 10 {
      var s := NatToString(n);
      assert s[..|s| - 1] == NatToString(n / 10);
      StringToNatInverts(n / 10);
    }
  }

  /** Distinct numbers are written as distinct strings. */
  lemma NatToStringInjective(m: nat, n: nat)
    requires NatToString(m) == NatToString(n)
    ensures m == n
  {
    StringToNatInverts(m);
    StringToNatInverts(n);
  }

  lemma NoSeparatorInDigits(n: nat)
    ensures '.' !in NatToString(n) && '/' !in NatToString(n)
  {
  }
}

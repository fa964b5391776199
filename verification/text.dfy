/** Character searches and decimal rendering used by the frame formatter.

    Go strings are byte sequences and the Go searches return byte offsets; the model
    uses `seq<char>` and character indices. The two indices differ once a non-ASCII
    character precedes the match, but the separators the Go code searches for ('/'
    and '.') are ASCII, as is the ':' that `ParseLine` looks for, and ASCII bytes
    never occur inside a multi-byte UTF-8 sequence, so the pieces cut at such a
    separator are the same text either way.

    The functions here carry no postconditions of their own; what they compute is
    stated by the lemma that follows each one. Callers that need a fact call the
    lemma, which keeps the facts out of proofs that only pass these values along. */
module Text {

  datatype Option<+T> = None | Some(value: T)

  /** `s` has no occurrence of `c`. */
  predicate Lacks(s: string, c: char) {
    forall k :: 0 <= k < |s| ==> s[k] != c
  }

  /** Index of the last `c` in `s`, or -1 when `s` holds none
      (strings.LastIndex with a one-character needle). */
  function LastIndexOf(s: string, c: char): int {
    LastIndexBefore(s, c, |s|)
  }

  /** Index of the last `c` in `s[..n]`, or -1. */
  function LastIndexBefore(s: string, c: char, n: nat): int
    requires n <= |s|
  {
    if n == 0 then -1
    else if s[n - 1] == c then n - 1
    else LastIndexBefore(s, c, n - 1)
  }

  lemma {:induction false} LastIndexBeforeSpec(s: string, c: char, n: nat)
    requires n <= |s|
    ensures var r := LastIndexBefore(s, c, n);
      && -1 <= r < n
      && (r >= 0 ==> s[r] == c)
      && (forall k :: r < k < n ==> s[k] != c)
  {
    if n > 0 && s[n - 1] != c {
      LastIndexBeforeSpec(s, c, n - 1);
    }
  }

  lemma LastIndexOfSpec(s: string, c: char)
    ensures var r := LastIndexOf(s, c);
      && -1 <= r < |s|
      && (r >= 0 ==> s[r] == c)
      && (forall k :: r < k < |s| ==> s[k] != c)
  {
    LastIndexBeforeSpec(s, c, |s|);
  }

  /** Index of the first `c` in `s`, or -1 when `s` holds none
      (strings.Index with a one-character needle). */
  function IndexOf(s: string, c: char): int {
    IndexFrom(s, c, 0)
  }

  /** Index of the first `c` in `s` at or after `i`, or -1. */
  function IndexFrom(s: string, c: char, i: nat): int
    requires i <= |s|
    decreases |s| - i
  {
    if i == |s| then -1
    else if s[i] == c then i
    else IndexFrom(s, c, i + 1)
  }

  lemma {:induction false} IndexFromSpec(s: string, c: char, i: nat)
    requires i <= |s|
    decreases |s| - i
    ensures var r := IndexFrom(s, c, i);
      && (r == -1 || i <= r < |s|)
      && (r >= 0 ==> s[r] == c)
      && (forall k :: i <= k < |s| && (r < 0 || k < r) ==> s[k] != c)
  {
    if i < |s| && s[i] != c {
      IndexFromSpec(s, c, i + 1);
    }
  }

  lemma IndexOfSpec(s: string, c: char)
    ensures var r := IndexOf(s, c);
      && -1 <= r < |s|
      && (r >= 0 ==> s[r] == c)
      && (forall k :: 0 <= k < |s| && (r < 0 || k < r) ==> s[k] != c)
  {
    IndexFromSpec(s, c, 0);
  }

  /** A search finds nothing exactly when the character is absent. */
  lemma SearchMissIffAbsent(s: string, c: char)
    ensures LastIndexOf(s, c) < 0 <==> Lacks(s, c)
    ensures IndexOf(s, c) < 0 <==> Lacks(s, c)
  {
    LastIndexOfSpec(s, c);
    IndexOfSpec(s, c);
  }

  /** A position holding `c` with no `c` after it is the last index of `c`. */
  lemma LastIndexOfAt(s: string, c: char, p: int)
    requires 0 <= p < |s| && s[p] == c
    requires forall k :: p < k < |s| ==> s[k] != c
    ensures LastIndexOf(s, c) == p
  {
    LastIndexOfSpec(s, c);
  }

  /** A position holding `c` with no `c` before it is the first index of `c`. */
  lemma IndexOfAt(s: string, c: char, p: int)
    requires 0 <= p < |s| && s[p] == c
    requires forall k :: 0 <= k < p ==> s[k] != c
    ensures IndexOf(s, c) == p
  {
    IndexOfSpec(s, c);
  }

  predicate IsDigit(c: char) {
    '0' <= c <= '9'
  }

  predicate AllDigits(s: string) {
    forall k :: 0 <= k < |s| ==> IsDigit(s[k])
  }

  function DigitChar(d: nat): (c: char)
    requires d < 10
    ensures IsDigit(c)
  {
    (48 + d) as char
  }

  function DigitValue(c: char): (d: nat)
    requires IsDigit(c)
    ensures d < 10 && DigitChar(d) == c
  {
    c as int - 48
  }

  /** Decimal digits of `n`, most significant first. */
  function NatToDecimal(n: nat): string {
    if n < 10 then [DigitChar(n)] else NatToDecimal(n / 10) + [DigitChar(n % 10)]
  }

  /** Go's `%d` rendering of an int: a '-' before the magnitude when negative. */
  function IntToDecimal(x: int): string {
    if x < 0 then "-" + NatToDecimal(-x) else NatToDecimal(x)
  }

  /** Value of a string of decimal digits; the empty string reads as 0. */
  function DigitsValue(s: string): nat
    requires AllDigits(s)
  {
    if |s| == 0 then 0 else 10 * DigitsValue(s[..|s| - 1]) + DigitValue(s[|s| - 1])
  }

  /** Reads an optionally negative decimal integer; None when `s` is not one. */
  function ParseInt(s: string): Option<int> {
    if |s| > 1 && s[0] == '-' && AllDigits(s[1..]) then Some(-(DigitsValue(s[1..]) as int))
    else if |s| > 0 && AllDigits(s) then Some(DigitsValue(s))
    else None
  }

  /** The rendering of a natural number is a non-empty run of digits with no
      leading zero, and reading it back gives the number. */
  lemma {:induction false} NatToDecimalSpec(n: nat)
    ensures var s := NatToDecimal(n);
      && |s| > 0 && AllDigits(s)
      && (|s| > 1 ==> s[0] != '0')
    ensures DigitsValue(NatToDecimal(n)) == n
  {
    var s := NatToDecimal(n);
    if n >= 10 {
      NatToDecimalSpec(n / 10);
      assert s[..|s| - 1] == NatToDecimal(n / 10);
      assert s[|s| - 1] == DigitChar(n % 10);
    }
  }

  /** `%d` output is a '-' exactly for negative numbers, then only digits. */
  lemma IntToDecimalShape(x: int)
    ensures var s := IntToDecimal(x);
      && |s| > 0
      && (x < 0 <==> s[0] == '-')
      && forall k :: 0 <= k < |s| ==> IsDigit(s[k]) || (k == 0 && x < 0)
  {
    NatToDecimalSpec(if x < 0 then -x else x);
  }

  /** `%d` rendering followed by parsing gives back the number. */
  lemma DecimalRoundTrip(x: int)
    ensures ParseInt(IntToDecimal(x)) == Some(x)
  {
    var s := IntToDecimal(x);
    if x < 0 {
      NatToDecimalSpec(-x);
      assert s[1..] == NatToDecimal(-x);
    } else {
      NatToDecimalSpec(x);
    }
  }
}

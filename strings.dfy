/**
 * The few string operations of the Java and Python runtimes that the model needs:
 * substring search (`String.indexOf`), case-insensitive comparison
 * (`String.equalsIgnoreCase`) and the decimal rendering of a non-negative `int`
 * that string concatenation performs.
 */
module Strings {

  /** `t` occurs in `s` starting at index `i`. */
  predicate OccursAt(s: string, t: string, i: int) {
    0 <= i <= |s| - |t| && s[i..i + |t|] == t
  }

  /** `s.indexOf(t) != -1`: `t` occurs in `s` as a contiguous block. */
  predicate Contains(s: string, t: string) {
    exists i | 0 <= i <= |s| - |t| :: OccursAt(s, t, i)
  }

  /** A string cannot contain `t` when one of `t`'s characters never occurs in it. */
  lemma MissingCharNotContained(s: string, t: string, c: char)
    requires c in t && c !in s
    ensures !Contains(s, t)
  {
  }

  /**
   * Case folding as `equalsIgnoreCase` applies it when one side is ASCII: ASCII
   * upper-case letters fold to lower case, and so do the four non-ASCII characters
   * whose Java upper or lower case is an ASCII letter (dotted and dotless I, long s,
   * Kelvin sign). Every other character folds to itself.
   */
  function Fold(c: char): char {
    if 'A' <= c <= 'Z' then (c as int + 32) as char
    else if c == '\U{130}' || c == '\U{131}' then 'i'
    else if c == '\U{17F}' then 's'
    else if c == '\U{212A}' then 'k'
    else c
  }

  /** `s.equalsIgnoreCase(t)` for an ASCII `t`: same length, pairwise equal after folding. */
  predicate EqualsIgnoreCase(s: string, t: string) {
    |s| == |t| && forall i | 0 <= i < |s| :: Fold(s[i]) == Fold(t[i])
  }

  /** The character of a decimal digit. */
  function DigitChar(d: nat): (c: char)
    requires d < 10
    ensures '0' <= c <= '9' && c as int - '0' as int == d
  {
    ('0' as int + d) as char
  }

  /** Decimal rendering of a non-negative integer, as `"" + i` produces it. */
  function Decimal(n: nat): (r: string)
    ensures |r| > 0 && (n < 10 <==> |r| == 1)
    ensures forall i | 0 <= i < |r| :: '0' <= r[i] <= '9'
  {
    if n < 10 then [DigitChar(n)] else Decimal(n / 10) + [DigitChar(n % 10)]
  }

  /** Different numbers render differently, so every counter value names a different file. */
  lemma {:induction false} DecimalInjective(a: nat, b: nat)
    requires Decimal(a) == Decimal(b)
    ensures a == b
  {
    var ra, rb := Decimal(a), Decimal(b);
    assert DigitChar(a % 10) == ra[|ra| - 1] == rb[|rb| - 1] == DigitChar(b % 10);
    if a >= 10 && b >= 10 {
      assert Decimal(a / 10) == ra[..|ra| - 1] == rb[..|rb| - 1] == Decimal(b / 10);
      DecimalInjective(a / 10, b / 10);
    }
  }
}

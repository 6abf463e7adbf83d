/** Character classes and small searches over text, shared by the scanner,
    the pattern matcher and the patcher. Text is `string`, i.e. `seq<char>`. */
module Text {

  datatype Option<T> = None | Some(value: T)

  /** Python's `\s` on a str pattern: exactly the characters for which
      `str.isspace()` holds. */
  predicate IsSpace(ch: char) {
    var n := ch as int;
    || 9 <= n <= 13
    || 28 <= n <= 32
    || n == 0x85 || n == 0xA0 || n == 0x1680
    || 0x2000 <= n <= 0x200A
    || n == 0x2028 || n == 0x2029 || n == 0x202F || n == 0x205F || n == 0x3000
  }

  /** A word character for `\b`, restricted to ASCII. */
  predicate IsWordChar(ch: char) {
    'a' <= ch <= 'z' || 'A' <= ch <= 'Z' || '0' <= ch <= '9' || ch == '_'
  }

  /** `\b` at position i: exactly one of the two neighbouring characters is a
      word character (the outside of the text counts as non-word). */
  predicate WordBoundary(s: string, i: nat)
    requires i <= |s|
  {
    (i > 0 && IsWordChar(s[i - 1])) != (i < |s| && IsWordChar(s[i]))
  }

  /** w occurs in s starting at position i. */
  predicate OccursAt(s: string, i: nat, w: string) {
    i + |w| <= |s| && s[i..i + |w|] == w
  }

  /** Python's `w in s`. */
  predicate Contains(s: string, w: string) {
    exists i | 0 <= i <= |s| - |w| :: OccursAt(s, i, w)
  }

  /** Every character of s[i..j] is whitespace. */
  predicate AllSpace(s: string, i: nat, j: nat)
    requires i <= j <= |s|
  {
    forall k :: i <= k < j ==> IsSpace(s[k])
  }

  /** No character of s[i..j] is ch. */
  predicate Avoids(s: string, i: nat, j: nat, ch: char)
    requires i <= j <= |s|
  {
    forall k :: i <= k < j ==> s[k] != ch
  }

  /** The end of the longest run of whitespace starting at i (greedy `\s*`). */
  function SkipSpace(s: string, i: nat): (j: nat)
    requires i <= |s|
    ensures i <= j <= |s|
    ensures AllSpace(s, i, j)
    ensures j == |s| || !IsSpace(s[j])
    decreases |s| - i
  {
    if i == |s| || !IsSpace(s[i]) then i else SkipSpace(s, i + 1)
  }

  /** The first position at or after i that holds ch, or |s| (greedy `[^ch]*`). */
  function SkipUntil(s: string, i: nat, ch: char): (j: nat)
    requires i <= |s|
    ensures i <= j <= |s|
    ensures Avoids(s, i, j, ch)
    ensures j == |s| || s[j] == ch
    decreases |s| - i
  {
    if i == |s| || s[i] == ch then i else SkipUntil(s, i + 1, ch)
  }

  /** Python's `s.find(ch, i)`, with None for -1. */
  function FindChar(s: string, ch: char, i: nat): (r: Option<nat>)
    requires i <= |s|
    ensures r.Some? ==> i <= r.value < |s| && s[r.value] == ch && Avoids(s, i, r.value, ch)
    ensures r.None? ==> Avoids(s, i, |s|, ch)
  {
    var j := SkipUntil(s, i, ch);
    if j < |s| then Some(j) else None
  }

  /** The value of a string of decimal digits. */
  function DigitsValue(s: string): nat
    requires forall k :: 0 <= k < |s| ==> '0' <= s[k] <= '9'
  {
    if |s| == 0 then 0
    else DigitsValue(s[..|s| - 1]) * 10 + (s[|s| - 1] as int - '0' as int)
  }

  /** Python's `str(n)` for a non-negative int (the ordinal in `f"dance_{n}_finished"`). */
  function Decimal(n: nat): (r: string)
    ensures |r| >= 1
    ensures forall k :: 0 <= k < |r| ==> '0' <= r[k] <= '9'
    ensures DigitsValue(r) == n
    ensures r[0] == '0' <==> n == 0
  {
    if n < 10 then [('0' as int + n) as char]
    else
      var prefix := Decimal(n / 10);
      var r := prefix + [('0' as int + n % 10) as char];
      assert r[..|r| - 1] == prefix;
      r
  }
}

/** The pieces of Java string handling the model needs: decimal rendering of a
    number (string concatenation with a `Long`) and `String.contains`. */
module Text {

  /** The decimal digit for `d`. */
  function Digit(d: nat): (c: char)
    requires d < 10
    ensures '0' <= c <= '9'
  {
    "0123456789"[d]
  }

  /** `Long.toString(n)` for a non-negative `n`. */
  function NumStr(n: nat): (s: string)
    ensures |s| >= 1
    ensures forall i :: 0 <= i < |s| ==> '0' <= s[i] <= '9'
    decreases n
  {
    if n < 10 then [Digit(n)] else NumStr(n / 10) + [Digit(n % 10)]
  }

  /** `s.startsWith(p)`. */
  predicate StartsWith(s: string, p: string) {
    |p| <= |s| && s[..|p|] == p
  }

  /** `s.contains(p)`: `p` occurs somewhere in `s`. */
  predicate Contains(s: string, p: string)
    decreases |s|
  {
    StartsWith(s, p) || (|s| > 0 && Contains(s[1..], p))
  }

  /** An occurrence of `p` at position `i` of `s` is what `Contains` finds. */
  lemma {:induction false} ContainsAt(s: string, p: string, i: nat)
    requires i + |p| <= |s| && s[i..i + |p|] == p
    ensures Contains(s, p)
    decreases i
  {
    if i == 0 {
      assert s[..|p|] == p;
    } else {
      assert s[1..][i - 1..i - 1 + |p|] == s[i..i + |p|];
      ContainsAt(s[1..], p, i - 1);
    }
  }

  /** A string without the character `c` contains no string that has `c` in it. */
  lemma {:induction false} ContainsNeedsChar(s: string, p: string, k: nat)
    requires k < |p| && p[k] !in s
    ensures !Contains(s, p)
    decreases |s|
  {
    if |p| <= |s| {
      assert s[k] in s;
      assert s[..|p|][k] != p[k];
    }
    if |s| > 0 {
      ContainsNeedsChar(s[1..], p, k);
    }
  }
}

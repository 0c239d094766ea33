/**
 * String searching as the handler uses it: `String.prototype.includes`
 * and a case-insensitive regular-expression test for literal words.
 */
module Text {

  /** `sub` occurs in `s` starting at index `i`. */
  predicate OccursAt(s: string, sub: string, i: nat) {
    i + |sub| <= |s| && s[i..i + |sub|] == sub
  }

  /** `s.includes(sub)`: true iff `sub` occurs somewhere in `s`. */
  function Contains(s: string, sub: string): (r: bool)
    ensures r <==> exists i: nat :: OccursAt(s, sub, i)
    decreases |s|
  {
    if |sub| > |s| then false
    else if s[..|sub|] == sub then
      assert OccursAt(s, sub, 0);
      true
    else
      OccursAfterFirst(s, sub);
      Contains(s[1..], sub)
  }

  /** Without a match at 0, `sub` occurs in `s` iff it occurs in `s[1..]`. */
  lemma OccursAfterFirst(s: string, sub: string)
    requires |s| > 0 && !OccursAt(s, sub, 0)
    ensures (exists i: nat :: OccursAt(s, sub, i)) <==> (exists i: nat :: OccursAt(s[1..], sub, i))
  {
    if i: nat :| OccursAt(s, sub, i) {
      assert i > 0;
      assert s[1..][i - 1..i - 1 + |sub|] == s[i..i + |sub|];
      assert OccursAt(s[1..], sub, i - 1);
    }
    if i: nat :| OccursAt(s[1..], sub, i) {
      assert s[1..][i..i + |sub|] == s[i + 1..i + 1 + |sub|];
      assert OccursAt(s, sub, i + 1);
    }
  }

  /** Lower-cases an ASCII upper-case letter; every other character is unchanged. */
  function LowerChar(c: char): char {
    if 'A' <= c <= 'Z' then (c as int + 32) as char else c
  }

  function Lower(s: string): string {
    seq(|s|, i requires 0 <= i < |s| => LowerChar(s[i]))
  }

  /**
   * `/word/i.test(s)` for a lower-case ASCII `word`. Without the `u` flag,
   * JavaScript folds case by upper-casing and never lets a non-ASCII
   * character fold onto an ASCII one, so only the ASCII letters of `s` fold.
   */
  predicate ContainsIgnoringCase(s: string, word: string) {
    Contains(Lower(s), word)
  }
}

/** Occurrences of one string inside another, shared by the menu filter and the server. */
module Strings {

  /** `sub` occurs in `s` starting at position `i`. */
  predicate OccursAt(s: string, sub: string, i: nat)
  {
    i + |sub| <= |s| && s[i..i + |sub|] == sub
  }

  /** A slice of `s` after its first character is the same slice of `s[1..]`, one position earlier. */
  lemma Shift(s: string, j: nat, n: nat)
    requires 0 < |s| && j + n <= |s| - 1
    ensures s[j + 1..j + 1 + n] == s[1..][j..j + n]
  {
    assert s[1..][j..] == s[j + 1..];
    assert s[1..][j..j + n] == s[1..][j..][..n];
    assert s[j + 1..j + 1 + n] == s[j + 1..][..n];
  }

  /** A string is its text before position `i`, the `n` characters there, and the rest. */
  lemma Rejoin(s: string, i: nat, n: nat)
    requires i + n <= |s|
    ensures s == s[..i] + s[i..i + n] + s[i + n..]
  {
  }
}

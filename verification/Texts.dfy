/**
 What it means that one text stands inside another.
 */
module Texts {

  /** The text `s` stands in `text` at position `i`. */
  ghost predicate Has(text: string, i: nat, s: string) {
    i + |s| <= |text| && text[i..i + |s|] == s
  }

  lemma HasParts(text: string, i: nat, s: string, t: string)
    requires Has(text, i, s + t)
    ensures Has(text, i, s) && Has(text, i + |s|, t)
  {
    assert (s + t)[..|s|] == s && (s + t)[|s|..] == t;
  }

  lemma HasChar(text: string, i: nat, s: string, j: nat)
    requires Has(text, i, s) && j < |s|
    ensures i + j < |text| && text[i + j] == s[j]
  {
    assert text[i..i + |s|][j] == text[i + j];
  }

  /** The text from position `i` on is `s`. */
  ghost predicate EndsWith(text: string, i: nat, s: string) {
    i <= |text| && text[i..] == s
  }

  lemma EndsWithParts(text: string, i: nat, s: string, rest: string)
    requires EndsWith(text, i, s + rest)
    ensures Has(text, i, s) && EndsWith(text, i + |s|, rest)
  {
    assert text[i + |s|..] == text[i..][|s|..];
    assert text[i..i + |s|] == text[i..][..|s|];
  }
}

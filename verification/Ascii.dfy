/** ASCII characters and text: blanks, quotes, prefixes, and letters without regard to case. */
module Ascii {

  predicate IsSpace(c: char) {
    c == ' ' || c == '\t' || c == '\n' || c == '\r' || c == '\U{000C}'
  }

  predicate IsQuote(c: char) {
    c == '\'' || c == '"'
  }

  predicate StartsWith(s: string, prefix: string) {
    |prefix| <= |s| && s[..|prefix|] == prefix
  }

  function Lower(c: char): char {
    if 'A' <= c <= 'Z' then c - 'A' + 'a' else c
  }

  predicate EqIgnoreCase(a: string, b: string) {
    |a| == |b| && forall i | 0 <= i < |a| :: Lower(a[i]) == Lower(b[i])
  }

  /** Capital letters stand 32 places in front of the small ones. */
  predicate SameLetter(c: char, d: char) {
    c == d || ('A' <= c <= 'Z' && d as int == c as int + 32) || ('A' <= d <= 'Z' && c as int == d as int + 32)
  }

  /** Texts are equal but for case exactly if each place has the same letter or the same character. */
  lemma CaselessExactly(a: string, b: string)
    ensures EqIgnoreCase(a, b) <==> |a| == |b| && forall i | 0 <= i < |a| :: SameLetter(a[i], b[i])
  {
    forall c: char, d: char ensures Lower(c) == Lower(d) <==> SameLetter(c, d) {
      assert Lower(c) as int == if 'A' <= c <= 'Z' then c as int + 32 else c as int;
      assert Lower(d) as int == if 'A' <= d <= 'Z' then d as int + 32 else d as int;
    }
  }
}

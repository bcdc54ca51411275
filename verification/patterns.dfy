/** The three regular expressions the submit handler tests the trimmed fields
    against, each read as a predicate on the whole string (every pattern is
    anchored with `^` and `$` and carries no flags). */
module Patterns {
  import opened Text

  /** `/^[a-zA-Z ]+$/`: one or more ASCII letters or spaces. */
  predicate MatchesName(s: string) {
    |s| > 0 && forall k :: 0 <= k < |s| ==> IsAsciiLetter(s[k]) || s[k] == ' '
  }

  /** `/^\d+$/`: one or more ASCII digits. */
  predicate MatchesDigits(s: string) {
    |s| > 0 && forall k :: 0 <= k < |s| ==> IsDigit(s[k])
  }

  /** The class `[^\s@]`. */
  predicate IsPlain(c: char) {
    !IsWhitespace(c) && c != '@'
  }

  /** `s[lo..hi]` matches `[^\s@]+`. */
  predicate PlainRun(s: string, lo: int, hi: int)
    requires 0 <= lo <= hi <= |s|
  {
    lo < hi && forall k :: lo <= k < hi ==> IsPlain(s[k])
  }

  /** `/^[^\s@]+@[^\s@]+\.[^\s@]+$/`, read as the regular expression's own
      semantics: `s` splits as local part, `@`, host, `.`, last label, with each
      of the three parts a non-empty run of `[^\s@]`. */
  predicate MatchesEmail(s: string) {
    exists at, dot :: 0 <= at < dot < |s| && Splits(s, at, dot)
  }

  /** The split of `MatchesEmail` with the `@` at `at` and the `.` at `dot`. */
  predicate Splits(s: string, at: int, dot: int)
    requires 0 <= at < dot < |s|
  {
    && s[at] == '@' && s[dot] == '.'
    && PlainRun(s, 0, at) && PlainRun(s, at + 1, dot) && PlainRun(s, dot + 1, |s|)
  }

  /** The same language described by its shape: no whitespace anywhere, exactly
      one `@`, something before it, and after it a domain holding a `.` that is
      neither the domain's first nor its last character. */
  predicate EmailShape(s: string) {
    && (forall k :: 0 <= k < |s| ==> !IsWhitespace(s[k]))
    && exists at :: 0 < at < |s| && SoleAt(s, at) && DottedDomain(s[at + 1..])
  }

  /** Position `at` holds the only `@` of `s`. */
  predicate SoleAt(s: string, at: int)
    requires 0 <= at < |s|
  {
    s[at] == '@' && forall k :: 0 <= k < |s| && k != at ==> s[k] != '@'
  }

  /** `d` has a `.` strictly inside it. */
  predicate DottedDomain(d: string) {
    exists k :: 0 < k < |d| - 1 && d[k] == '.'
  }

  /** The regular expression and the shape describe the same strings. */
  lemma EmailPatternIsShape(s: string)
    ensures MatchesEmail(s) <==> EmailShape(s)
  {
    if MatchesEmail(s) {
      var at, dot :| 0 <= at < dot < |s| && Splits(s, at, dot);
      forall k | 0 <= k < |s| ensures !IsWhitespace(s[k]) && (k != at ==> s[k] != '@') {
        if k < at {
          assert IsPlain(s[k]);
        } else if at < k < dot {
          assert IsPlain(s[k]);
        } else if dot < k {
          assert IsPlain(s[k]);
        }
      }
      assert SoleAt(s, at);
      assert s[at + 1..][dot - at - 1] == '.';
      assert DottedDomain(s[at + 1..]);
    }
    if EmailShape(s) {
      var at :| 0 < at < |s| && SoleAt(s, at) && DottedDomain(s[at + 1..]);
      var d := s[at + 1..];
      var k :| 0 < k < |d| - 1 && d[k] == '.';
      var dot := at + 1 + k;
      assert s[dot] == '.';
      assert Splits(s, at, dot);
    }
  }
}

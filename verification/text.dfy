/** Characters and the whitespace trimming that the submit handler applies to
    every form field before it checks anything. */
module Text {

  /** The code points ECMAScript counts as WhiteSpace or LineTerminator. This one
      set is what `String.prototype.trim` strips and what the regular-expression
      class `\s` matches: tab, line feed, vertical tab, form feed, carriage
      return, the Zs space separators, the line and paragraph separators and the
      byte-order mark. */
  predicate IsWhitespace(c: char) {
    || c == '\t' || c == '\n' || c == '\U{000B}' || c == '\U{000C}' || c == '\r'
    || c == ' ' || c == '\U{00A0}' || c == '\U{1680}'
    || ('\U{2000}' <= c <= '\U{200A}')
    || c == '\U{2028}' || c == '\U{2029}' || c == '\U{202F}' || c == '\U{205F}'
    || c == '\U{3000}' || c == '\U{FEFF}'
  }

  /** The regular-expression class `[a-zA-Z]`. */
  predicate IsAsciiLetter(c: char) {
    ('a' <= c <= 'z') || ('A' <= c <= 'Z')
  }

  /** The regular-expression class `\d`, which is ASCII-only in ECMAScript. */
  predicate IsDigit(c: char) {
    '0' <= c <= '9'
  }

  predicate AllWhitespace(s: string) {
    forall k :: 0 <= k < |s| ==> IsWhitespace(s[k])
  }

  /** Neither end of `s` is whitespace: what `trim` leaves behind. */
  predicate IsTrimmed(s: string) {
    |s| == 0 || (!IsWhitespace(s[0]) && !IsWhitespace(s[|s| - 1]))
  }

  /** The first position at or after `i` that holds no whitespace, or `|s|`. */
  function SkipLeading(s: string, i: nat): (a: nat)
    requires i <= |s|
    ensures i <= a <= |s|
    ensures forall k :: i <= k < a ==> IsWhitespace(s[k])
    ensures a == |s| || !IsWhitespace(s[a])
    decreases |s| - i
  {
    if i < |s| && IsWhitespace(s[i]) then SkipLeading(s, i + 1) else i
  }

  /** The end, at or below `j` and no lower than `lo`, of `s[lo..j]` once its
      trailing whitespace is dropped. */
  function SkipTrailing(s: string, lo: nat, j: nat): (b: nat)
    requires lo <= j <= |s|
    ensures lo <= b <= j
    ensures forall k :: b <= k < j ==> IsWhitespace(s[k])
    ensures b == lo || !IsWhitespace(s[b - 1])
    decreases j
  {
    if lo < j && IsWhitespace(s[j - 1]) then SkipTrailing(s, lo, j - 1) else j
  }

  /** `t` sits in `s` at position `lead` with only whitespace before and after it. */
  predicate Frames(s: string, lead: int, t: string) {
    && 0 <= lead <= |s| - |t|
    && t == s[lead..lead + |t|]
    && (forall k :: 0 <= k < lead ==> IsWhitespace(s[k]))
    && (forall k :: lead + |t| <= k < |s| ==> IsWhitespace(s[k]))
  }

  /** `String.prototype.trim`: the part of `s` left once the whitespace at both
      ends is removed. The result is a trimmed slice of `s` with nothing but
      whitespace around it, and it is empty exactly when `s` is all whitespace. */
  function Trim(s: string): (t: string)
    ensures IsTrimmed(t)
    ensures exists lead :: Frames(s, lead, t)
    ensures t == [] <==> AllWhitespace(s)
  {
    var a := SkipLeading(s, 0);
    var b := SkipTrailing(s, a, |s|);
    assert b > a ==> s[a..b][0] == s[a];
    assert Frames(s, a, s[a..b]);
    s[a..b]
  }

  /** Trimming a string that is already trimmed changes nothing. */
  lemma TrimOfTrimmed(s: string)
    requires IsTrimmed(s)
    ensures Trim(s) == s
  {
    if s != [] {
      assert SkipLeading(s, 0) == 0;
      assert SkipTrailing(s, 0, |s|) == |s|;
    }
  }

  /** Trim's contract pins its result down: any non-empty trimmed slice of `s`
      with only whitespace around it is the result of trimming `s`. */
  lemma TrimUnique(s: string, lead: int, t: string)
    requires Frames(s, lead, t) && IsTrimmed(t) && t != []
    ensures Trim(s) == t
  {
    var a := SkipLeading(s, 0);
    assert t[0] == s[lead];
    assert a == lead;
    var b := SkipTrailing(s, a, |s|);
    assert t[|t| - 1] == s[lead + |t| - 1];
    assert b == lead + |t|;
  }

  /** `trim` is idempotent. */
  lemma TrimIdempotent(s: string)
    ensures Trim(Trim(s)) == Trim(s)
  {
    TrimOfTrimmed(Trim(s));
  }
}

/** The JavaScript string primitives the application relies on:
    `Array.prototype.join`, `String.prototype.startsWith`, global
    `String.prototype.replace` with a literal pattern, and
    `String.prototype.trim`. Strings are sequences of characters. */
module Strings {

  /** `parts.join(sep)`: the parts in order with `sep` between neighbours. */
  function Join(parts: seq<string>, sep: string): string {
    if |parts| == 0 then ""
    else if |parts| == 1 then parts[0]
    else parts[0] + sep + Join(parts[1..], sep)
  }

  /** A character that occurs neither in the separator nor in any part does
      not occur in the joined string. */
  lemma {:induction false} JoinAvoids(parts: seq<string>, sep: string, c: char)
    requires c !in sep
    requires forall i :: 0 <= i < |parts| ==> c !in parts[i]
    ensures c !in Join(parts, sep)
  {
    if |parts| > 1 {
      JoinAvoids(parts[1..], sep, c);
      assert c !in parts[0];
    }
  }

  predicate StartsWith(s: string, prefix: string) {
    |prefix| <= |s| && s[..|prefix|] == prefix
  }

  predicate EndsWith(s: string, suffix: string) {
    |suffix| <= |s| && s[|s| - |suffix|..] == suffix
  }

  lemma EndsWithTrans(s: string, t: string, u: string)
    requires EndsWith(s, t) && EndsWith(t, u)
    ensures EndsWith(s, u)
  {
    assert s[|s| - |t|..][|t| - |u|..] == s[|s| - |u|..];
  }

  /** A joined string begins with the first part and ends with the last. */
  lemma {:induction false} JoinEnds(parts: seq<string>, sep: string)
    requires |parts| > 0
    ensures StartsWith(Join(parts, sep), parts[0])
    ensures EndsWith(Join(parts, sep), parts[|parts| - 1])
  {
    if |parts| > 1 {
      JoinEnds(parts[1..], sep);
      var rest := Join(parts[1..], sep);
      var r := parts[0] + sep + rest;
      assert r[..|parts[0]|] == parts[0];
      assert r[|r| - |parts[|parts| - 1]|..] == rest[|rest| - |parts[|parts| - 1]|..];
    }
  }

  /** `pat` occurs in `s` starting at index `i`. */
  predicate OccursAt(pat: string, s: string, i: int) {
    0 <= i && i + |pat| <= |s| && s[i..i + |pat|] == pat
  }

  predicate Occurs(pat: string, s: string) {
    exists i :: 0 <= i <= |s| && OccursAt(pat, s, i)
  }

  /** `s.replace(/pat/g, rep)` for a literal, non-empty `pat`: the string is
      scanned from the left; at each position where `pat` starts, it is
      replaced by `rep` and scanning resumes after it; otherwise the character
      is kept. Matches therefore never overlap. */
  function ReplaceAll(s: string, pat: string, rep: string): string
    requires |pat| > 0
    decreases |s|
  {
    if |s| < |pat| then s
    else if StartsWith(s, pat) then rep + ReplaceAll(s[|pat|..], pat, rep)
    else [s[0]] + ReplaceAll(s[1..], pat, rep)
  }

  /** An occurrence in a suffix is an occurrence in the whole string. */
  lemma OccursInSuffix(pat: string, s: string, k: nat, i: int)
    requires k <= |s|
    requires OccursAt(pat, s[k..], i)
    ensures OccursAt(pat, s, i + k)
  {
    assert s[k..][i..i + |pat|] == s[i + k..i + k + |pat|];
  }

  /** Replacing a pattern that does not occur changes nothing. */
  lemma {:induction false} ReplaceAllAbsent(s: string, pat: string, rep: string)
    requires |pat| > 0
    requires !Occurs(pat, s)
    ensures ReplaceAll(s, pat, rep) == s
    decreases |s|
  {
    if |s| >= |pat| {
      assert !OccursAt(pat, s, 0);
      forall i | OccursAt(pat, s[1..], i)
        ensures false
      {
        OccursInSuffix(pat, s, 1, i);
      }
      ReplaceAllAbsent(s[1..], pat, rep);
      assert [s[0]] + s[1..] == s;
    }
  }

  /** A one-character pattern occurs exactly when the character does. */
  lemma OccursChar(c: char, s: string)
    ensures Occurs([c], s) <==> c in s
  {
    if c in s {
      var i :| 0 <= i < |s| && s[i] == c;
      assert OccursAt([c], s, i);
    }
    if Occurs([c], s) {
      var i :| 0 <= i <= |s| && OccursAt([c], s, i);
      assert s[i..i + 1] == [c];
      assert s[i] == c;
    }
  }

  /** ECMAScript WhiteSpace and LineTerminator code points: the characters
      `String.prototype.trim` removes (tab, vertical tab, form feed, space,
      no-break space, zero width no-break space, every other space separator,
      line feed, carriage return, line and paragraph separators). */
  predicate IsWhitespace(c: char) {
    var n := c as int;
    n == 0x09 || n == 0x0A || n == 0x0B || n == 0x0C || n == 0x0D || n == 0x20
    || n == 0xA0 || n == 0x1680 || (0x2000 <= n <= 0x200A)
    || n == 0x2028 || n == 0x2029 || n == 0x202F || n == 0x205F
    || n == 0x3000 || n == 0xFEFF
  }

  /** Drops the leading whitespace: the result is the suffix of `s` that
      starts at its first non-whitespace character. */
  function TrimStart(s: string): (r: string)
    ensures |r| <= |s| && r == s[|s| - |r|..]
    ensures forall i :: 0 <= i < |s| - |r| ==> IsWhitespace(s[i])
    ensures r == [] || !IsWhitespace(r[0])
    decreases |s|
  {
    if |s| > 0 && IsWhitespace(s[0]) then TrimStart(s[1..]) else s
  }

  /** Drops the trailing whitespace: the result is the prefix of `s` that
      ends at its last non-whitespace character. */
  function TrimEnd(s: string): (r: string)
    ensures |r| <= |s| && r == s[..|r|]
    ensures forall i :: |r| <= i < |s| ==> IsWhitespace(s[i])
    ensures r == [] || !IsWhitespace(r[|r| - 1])
    decreases |s|
  {
    if |s| > 0 && IsWhitespace(s[|s| - 1]) then TrimEnd(s[..|s| - 1]) else s
  }

  /** `r` is the slice of `s` at `lead`, and everything outside it is
      whitespace. */
  predicate TrimmedAt(s: string, r: string, lead: int) {
    && 0 <= lead && lead + |r| <= |s| && s[lead..lead + |r|] == r
    && (forall i :: 0 <= i < lead ==> IsWhitespace(s[i]))
    && (forall i :: lead + |r| <= i < |s| ==> IsWhitespace(s[i]))
  }

  /** `s.trim()`. */
  function Trim(s: string): (r: string)
    ensures exists lead :: TrimmedAt(s, r, lead)
    ensures r == [] || (!IsWhitespace(r[0]) && !IsWhitespace(r[|r| - 1]))
  {
    var t := TrimStart(s);
    var r := TrimEnd(t);
    assert TrimmedAt(s, r, |s| - |t|);
    r
  }

  /** A pattern found in a trimmed string was already in the original. */
  lemma TrimKeepsAbsence(pat: string, s: string)
    requires !Occurs(pat, s)
    ensures !Occurs(pat, Trim(s))
  {
    var r := Trim(s);
    var lead :| TrimmedAt(s, r, lead);
    forall i | OccursAt(pat, r, i)
      ensures false
    {
      assert s[lead..][..|r|] == r;
      assert r[i..i + |pat|] == s[lead + i..lead + i + |pat|];
      assert OccursAt(pat, s, lead + i);
    }
  }

  /** Trimming twice is trimming once. */
  lemma TrimIdempotent(s: string)
    ensures Trim(Trim(s)) == Trim(s)
  {
  }
}

/** Clean-up of the generator's reply text before it is parsed as JSON:
    every "```json" is removed, then every "```", then surrounding
    whitespace is trimmed. */
module Fences {
  import opened Strings

  const Fence: string := "```"
  const JsonFence: string := "```json"

  /** `s.replace(/pat/g, '')`. */
  function RemoveAll(s: string, pat: string): string
    requires |pat| > 0
  {
    ReplaceAll(s, pat, "")
  }

  /** The reply text with its code-fence markers and surrounding whitespace
      removed. */
  function StripFences(text: string): (r: string)
    ensures !Occurs(Fence, r)
    ensures r == [] || (!IsWhitespace(r[0]) && !IsWhitespace(r[|r| - 1]))
  {
    var unfenced := RemoveAll(RemoveAll(text, JsonFence), Fence);
    NoFenceLeft(RemoveAll(text, JsonFence));
    TrimKeepsAbsence(Fence, unfenced);
    Trim(unfenced)
  }

  /** When `s` does not start with a fence, removing fences keeps its first
      character in front. */
  lemma KeepsHead(s: string)
    requires |s| > 0 && !StartsWith(s, Fence)
    ensures |RemoveAll(s, Fence)| > 0 && RemoveAll(s, Fence)[0] == s[0]
  {
  }

  /** Removing every "```" leaves none behind. The scan resumes right after
      each removed fence, so a backtick in front of a removed fence would
      itself have started an earlier fence; two pieces glued together by a
      removal therefore never form a new one. */
  lemma {:induction false} NoFenceLeft(s: string)
    ensures !Occurs(Fence, RemoveAll(s, Fence))
    decreases |s|
  {
    var r := RemoveAll(s, Fence);
    if |s| < 3 {
      assert r == s;
    } else if StartsWith(s, Fence) {
      NoFenceLeft(s[3..]);
      assert r == RemoveAll(s[3..], Fence);
    } else {
      var t := s[1..];
      var x := RemoveAll(t, Fence);
      NoFenceLeft(t);
      assert r == [s[0]] + x;
      forall i | 0 <= i <= |r| && OccursAt(Fence, r, i)
        ensures false
      {
        if i > 0 {
          assert r[i..i + 3] == x[i - 1..i - 1 + 3];
          assert OccursAt(Fence, x, i - 1);
        } else {
          FenceAtStart(s, r, t, x);
        }
      }
    }
  }

  /** A fence is three backticks in a row. */
  lemma FenceChars(r: string, i: int)
    ensures OccursAt(Fence, r, i) <==>
              0 <= i && i + 3 <= |r| && r[i] == '`' && r[i + 1] == '`' && r[i + 2] == '`'
  {
    if 0 <= i && i + 3 <= |r| {
      assert r[i..i + 3] == [r[i], r[i + 1], r[i + 2]];
    }
  }

  /** The case of `NoFenceLeft` where a kept first character would start a
      fence together with the rest of the result. */
  lemma FenceAtStart(s: string, r: string, t: string, x: string)
    requires |s| >= 3 && !StartsWith(s, Fence)
    requires t == s[1..] && x == RemoveAll(t, Fence) && r == [s[0]] + x
    ensures !OccursAt(Fence, r, 0)
  {
    FenceChars(r, 0);
    if s[0] == '`' {
      assert s[..3] == [s[0], s[1], s[2]];
      assert s[1] != '`' || s[2] != '`';
      assert !StartsWith(t, Fence) by {
        assert |t| < 3 || t[..3] == [s[1], s[2], s[3]];
      }
      KeepsHead(t);
      if s[2] != '`' {
        var u := t[1..];
        if |t| < 3 {
          assert x == t;
        } else {
          assert u[0] == s[2];
          KeepsHead(u);
          assert x == [t[0]] + RemoveAll(u, Fence);
        }
        assert x[1] == s[2];
        assert r[2] != '`';
      } else {
        assert r[1] == s[1];
      }
    }
  }

  /** Stripping an already stripped text changes nothing. */
  lemma StripFencesIdempotent(text: string)
    ensures StripFences(StripFences(text)) == StripFences(text)
  {
    var r := StripFences(text);
    StripFencesPlain(r);
    TrimIdempotent(r);
  }

  /** A text without "```" has no "```json" either. */
  lemma NoJsonFence(r: string)
    requires !Occurs(Fence, r)
    ensures !Occurs(JsonFence, r)
  {
    if Occurs(JsonFence, r) {
      var i :| 0 <= i <= |r| && OccursAt(JsonFence, r, i);
      assert r[i..i + 3] == r[i..i + 7][..3];
      assert OccursAt(Fence, r, i);
    }
  }

  /** A reply without fences loses only its surrounding white space. */
  lemma StripFencesPlain(text: string)
    requires !Occurs(Fence, text)
    ensures StripFences(text) == Trim(text)
  {
    NoJsonFence(text);
    ReplaceAllAbsent(text, JsonFence, "");
    ReplaceAllAbsent(text, Fence, "");
  }

  /** The usual reply, a backtick-free text wrapped in "```json" and "```",
      comes back as the trimmed text. */
  lemma StripFencesBlock(t: string)
    requires '`' !in t
    ensures StripFences(JsonFence + t + Fence) == Trim(t)
  {
    var u := JsonFence + t + Fence;
    assert u[..7] == JsonFence;
    assert u[7..] == t + Fence;
    assert !Occurs(JsonFence, t + Fence) by {
      if Occurs(JsonFence, t + Fence) {
        var i :| 0 <= i <= |t + Fence| && OccursAt(JsonFence, t + Fence, i);
        OccursAtHead(JsonFence, t + Fence, i);
      }
    }
    ReplaceAllAbsent(t + Fence, JsonFence, "");
    assert RemoveAll(u, JsonFence) == t + Fence;
    RemoveBeforeFence(t);
  }

  /** An occurrence starts with the pattern's first character. */
  lemma OccursAtHead(pat: string, s: string, i: int)
    requires |pat| > 0 && OccursAt(pat, s, i)
    ensures s[i] == pat[0]
  {
    assert s[i..i + |pat|][0] == s[i];
  }

  /** Removing fences from a backtick-free text followed by one fence leaves
      the text. */
  lemma {:induction false} RemoveBeforeFence(t: string)
    requires '`' !in t
    ensures RemoveAll(t + Fence, Fence) == t
    decreases |t|
  {
    if |t| == 0 {
      assert t + Fence == Fence;
      assert RemoveAll(Fence, Fence) == "" + RemoveAll("", Fence);
    } else {
      assert (t + Fence)[0] == t[0];
      assert !StartsWith(t + Fence, Fence);
      assert (t + Fence)[1..] == t[1..] + Fence;
      RemoveBeforeFence(t[1..]);
      assert [t[0]] + t[1..] == t;
    }
  }
}

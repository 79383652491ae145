/** The pieces of Python's `str` the model needs: `isspace`, `in` on strings, and stripping. */
module Text {

  /** Python's `str.isspace()` for one character: the characters `str.rstrip()` and `str.strip()`
      remove when called without an argument. */
  predicate IsSpace(c: char) {
    || '\t' <= c <= '\r'
    || '\U{1C}' <= c <= '\U{1F}'
    || c == ' '
    || c == '\U{85}'
    || c == '\U{A0}'
    || c == '\U{1680}'
    || '\U{2000}' <= c <= '\U{200A}'
    || c == '\U{2028}'
    || c == '\U{2029}'
    || c == '\U{202F}'
    || c == '\U{205F}'
    || c == '\U{3000}'
  }

  predicate OccursAt(s: string, sub: string, i: nat) {
    i + |sub| <= |s| && s[i..i + |sub|] == sub
  }

  /** Python's `sub in s` for strings. */
  predicate Contains(s: string, sub: string) {
    exists i: nat :: i <= |s| && OccursAt(s, sub, i)
  }

  /** Removes the longest suffix of `s` whose characters all satisfy `drop`
      (`s.rstrip()` with `drop := IsSpace`, `s.rstrip('/')` with `drop := c => c == '/'`). */
  function RStripBy(s: string, drop: char -> bool): (r: string)
    ensures r <= s
    ensures forall i :: |r| <= i < |s| ==> drop(s[i])
    ensures |r| == 0 || !drop(r[|r| - 1])
  {
    if |s| > 0 && drop(s[|s| - 1]) then RStripBy(s[..|s| - 1], drop) else s
  }

  /** `s.rstrip()`. */
  function RStrip(s: string): string {
    RStripBy(s, IsSpace)
  }

  /** Removes the longest prefix of `s` whose characters all satisfy `drop`
      (`s.lstrip()` with `drop := IsSpace`). */
  function LStripBy(s: string, drop: char -> bool): (r: string)
    ensures |r| <= |s| && r == s[|s| - |r|..]
    ensures forall i :: 0 <= i < |s| - |r| ==> drop(s[i])
    ensures |r| == 0 || !drop(r[0])
  {
    if |s| > 0 && drop(s[0]) then
      var r := LStripBy(s[1..], drop);
      assert s[1..][|s| - 1 - |r|..] == s[|s| - |r|..];
      r
    else
      s
  }

  /** Removes the characters satisfying `drop` from both ends (`s.strip()` with `drop := IsSpace`). */
  function StripBy(s: string, drop: char -> bool): string {
    RStripBy(LStripBy(s, drop), drop)
  }

  /** Stripping the end of `a + b` only reaches into `a` when `b` is all stripped away. */
  lemma {:induction false} RStripByAppend(a: string, b: string, drop: char -> bool)
    ensures RStripBy(a + b, drop) == if RStripBy(b, drop) == [] then RStripBy(a, drop) else a + RStripBy(b, drop)
    decreases |b|
  {
    if |b| == 0 {
      assert a + b == a;
    } else if drop(b[|b| - 1]) {
      assert (a + b)[..|a + b| - 1] == a + b[..|b| - 1];
      RStripByAppend(a, b[..|b| - 1], drop);
    }
  }

  lemma {:induction false} LStripByLeading(pre: string, s: string, drop: char -> bool)
    requires forall i :: 0 <= i < |pre| ==> drop(pre[i])
    requires |s| > 0 && !drop(s[0])
    ensures LStripBy(pre + s, drop) == s
  {
    if |pre| == 0 {
      assert pre + s == s;
    } else {
      assert (pre + s)[1..] == pre[1..] + s;
      LStripByLeading(pre[1..], s, drop);
    }
  }

  /** Stripping removes exactly the dropped characters around a string whose two ends are kept. */
  lemma StripBySurrounding(pre: string, s: string, post: string, drop: char -> bool)
    requires forall i :: 0 <= i < |pre| ==> drop(pre[i])
    requires forall i :: 0 <= i < |post| ==> drop(post[i])
    requires |s| > 0 && !drop(s[0]) && !drop(s[|s| - 1])
    ensures StripBy(pre + s + post, drop) == s
  {
    assert pre + s + post == pre + (s + post);
    LStripByLeading(pre, s + post, drop);
    RStripByAppend(s, post, drop);
  }

  /** A string whose two ends are kept is its own strip. */
  lemma NothingToStrip(s: string, drop: char -> bool)
    requires |s| > 0 && !drop(s[0]) && !drop(s[|s| - 1])
    ensures StripBy(s, drop) == s
  {
  }

  /** The strip never reaches past a final non-space character. */
  lemma RStripKeepsLastNonSpace(s: string)
    requires |s| > 0 && !IsSpace(s[|s| - 1])
    ensures RStrip(s) == s
  {
  }
}

/** The .NET string operations the client relies on, over `string` (that is, `seq<char>`). */
module Strings {

  /** `s.StartsWith(prefix)`, compared character by character. */
  predicate StartsWith(s: string, prefix: string) {
    |prefix| <= |s| && s[..|prefix|] == prefix
  }

  /**
   * `s` starts with `prefix` exactly when it agrees with `prefix` character by
   * character, which is when `s` is `prefix` followed by the rest of `s`.
   */
  lemma StartsWithPrefix(s: string, prefix: string)
    ensures StartsWith(s, prefix) <==>
              |prefix| <= |s| && forall k :: 0 <= k < |prefix| ==> s[k] == prefix[k]
    ensures StartsWith(s, prefix) <==> |prefix| <= |s| && s == prefix + s[|prefix|..]
  {
    if |prefix| <= |s| && forall k :: 0 <= k < |prefix| ==> s[k] == prefix[k] {
      assert s[..|prefix|] == prefix;
    }
  }

  /** `s.IndexOf(c)`: the position of the first `c` in `s`, or -1 when there is none. */
  function IndexOf(s: string, c: char): (r: int)
    ensures -1 <= r < |s|
    ensures r == -1 <==> c !in s
    ensures 0 <= r ==> s[r] == c && c !in s[..r]
  {
    if |s| == 0 then -1
    else if s[0] == c then 0
    else
      var k := IndexOf(s[1..], c);
      assert s[1..][..k + 1] == s[1..k + 2] by { assert k + 1 <= |s[1..]| || k == -1; }
      if k == -1 then -1 else (assert s[..k + 1] == [s[0]] + s[1..][..k]; k + 1)
  }

  /** The pieces joined back together, `c` between consecutive pieces. */
  function Join(pieces: seq<string>, c: char): string
    requires |pieces| >= 1
  {
    if |pieces| == 1 then pieces[0] else pieces[0] + [c] + Join(pieces[1..], c)
  }

  /**
   * `s.Split(c)`: the maximal runs between occurrences of `c`, empty runs kept.
   * The pieces are free of `c` and join back to `s`, so there is one piece more
   * than there are separators.
   */
  function Split(s: string, c: char): (r: seq<string>)
    ensures |r| >= 1
    ensures forall k :: 0 <= k < |r| ==> c !in r[k]
    ensures Join(r, c) == s
    ensures |r| == 1 <==> c !in s
    decreases |s|
  {
    var i := IndexOf(s, c);
    if i == -1 then [s]
    else
      var rest := Split(s[i + 1..], c);
      SplitStep(s, c, i, rest);
      [s[..i]] + rest
  }

  /** One more piece in front: the text before the first separator. */
  lemma SplitStep(s: string, c: char, i: int, rest: seq<string>)
    requires 0 <= i < |s| && s[i] == c && c !in s[..i]
    requires |rest| >= 1 && Join(rest, c) == s[i + 1..]
    requires forall k :: 0 <= k < |rest| ==> c !in rest[k]
    ensures Join([s[..i]] + rest, c) == s
    ensures forall k :: 0 <= k < |rest| + 1 ==> c !in ([s[..i]] + rest)[k]
  {
    var r := [s[..i]] + rest;
    assert r[1..] == rest;
    assert s == s[..i] + [c] + s[i + 1..];
  }

  /**
   * When `s` is `a`, a separator, `b`, and then either nothing or another
   * separator, with neither `a` nor `b` holding a separator, the first two
   * pieces of the split are `a` and `b`.
   */
  lemma SplitFirstTwo(s: string, c: char, a: string, b: string, rest: string)
    requires s == a + [c] + b + rest
    requires c !in a && c !in b
    requires rest == [] || rest[0] == c
    ensures |Split(s, c)| >= 2
    ensures Split(s, c)[0] == a && Split(s, c)[1] == b
  {
    IndexOfIs(s, c, |a|);
    var tail := s[|a| + 1..];
    assert tail == b + rest;
    assert s[..|a|] == a;
    if rest == [] {
      assert tail == b;
    } else {
      IndexOfIs(tail, c, |b|);
      assert tail[..|b|] == b;
    }
  }

  /** The first `c` in `s` is at `i` when `s[i]` is `c` and nothing before it is. */
  lemma IndexOfIs(s: string, c: char, i: int)
    requires 0 <= i < |s| && s[i] == c && c !in s[..i]
    ensures IndexOf(s, c) == i
  {
  }

  /** `char.IsWhiteSpace`: the space, line and paragraph separators, U+0009 to U+000D and U+0085. */
  predicate IsWhiteSpace(ch: char) {
    || ('\t' <= ch <= '\r')
    || ch == ' '
    || ch == '\U{0085}'
    || ch == '\U{00A0}'
    || ch == '\U{1680}'
    || ('\U{2000}' <= ch <= '\U{200A}')
    || ch == '\U{2028}'
    || ch == '\U{2029}'
    || ch == '\U{202F}'
    || ch == '\U{205F}'
    || ch == '\U{3000}'
  }

  /** The first index at or after `i` whose character is not white space, or `|s|` when there is none. */
  function SkipWhiteSpace(s: string, i: nat): (n: nat)
    requires i <= |s|
    ensures i <= n <= |s|
    ensures forall k :: i <= k < n ==> IsWhiteSpace(s[k])
    ensures n < |s| ==> !IsWhiteSpace(s[n])
    decreases |s| - i
  {
    if i < |s| && IsWhiteSpace(s[i]) then SkipWhiteSpace(s, i + 1) else i
  }

  /**
   * Walking back from `j`, the end of `s[lo..j]` without its trailing white
   * space; the walk never passes `lo`.
   */
  function BackOverWhiteSpace(s: string, lo: nat, j: nat): (n: nat)
    requires lo <= j <= |s|
    ensures lo <= n <= j
    ensures forall k :: n <= k < j ==> IsWhiteSpace(s[k])
    ensures lo < n ==> !IsWhiteSpace(s[n - 1])
    decreases j
  {
    if lo < j && IsWhiteSpace(s[j - 1]) then BackOverWhiteSpace(s, lo, j - 1) else j
  }

  /**
   * `s.Trim()`: the start moves forward over white space, then the end moves
   * back over white space down to the start, and the characters between are kept.
   */
  function Trim(s: string): string {
    var start := SkipWhiteSpace(s, 0);
    s[start..BackOverWhiteSpace(s, start, |s|)]
  }

  /**
   * `Trim` keeps one run of `s`: only white space lies before and after it
   * in `s`, and the run neither starts nor ends with white space.
   */
  lemma TrimIsTrimmedRun(s: string)
    ensures var r, lead := Trim(s), SkipWhiteSpace(s, 0);
            && lead + |r| <= |s| && r == s[lead..lead + |r|]
            && (forall k :: 0 <= k < lead ==> IsWhiteSpace(s[k]))
            && (forall k :: lead + |r| <= k < |s| ==> IsWhiteSpace(s[k]))
            && (r == [] || (!IsWhiteSpace(r[0]) && !IsWhiteSpace(r[|r| - 1])))
  {
    var start := SkipWhiteSpace(s, 0);
    var stop := BackOverWhiteSpace(s, start, |s|);
    assert Trim(s) == s[start..stop];
  }

  /** White space added after a text that starts with no white space is trimmed away again. */
  lemma TrimIgnoresTrailingWhiteSpace(s: string, w: char)
    requires IsWhiteSpace(w) && |s| > 0 && !IsWhiteSpace(s[0])
    ensures Trim(s + [w]) == Trim(s)
  {
    var u := s + [w];
    assert SkipWhiteSpace(s, 0) == 0 && SkipWhiteSpace(u, 0) == 0;
    assert BackOverWhiteSpace(u, 0, |u|) == BackOverWhiteSpace(u, 0, |s|);
    assert u[..|s|] == s[..|s|];
    BackOverPrefix(u, s, 0, |s|);
    var stop := BackOverWhiteSpace(s, 0, |s|);
    assert Trim(u) == u[..stop] == s[..stop] == Trim(s);
  }

  /** The walk back over white space sees only `s[lo..j]`: text after `j` does not change it. */
  lemma {:induction false} BackOverPrefix(s: string, t: string, lo: nat, j: nat)
    requires lo <= j <= |s| && j <= |t| && s[..j] == t[..j]
    ensures BackOverWhiteSpace(s, lo, j) == BackOverWhiteSpace(t, lo, j)
    decreases j
  {
    if lo < j {
      assert s[j - 1] == t[j - 1] by {
        assert s[j - 1] == s[..j][j - 1] && t[j - 1] == t[..j][j - 1];
      }
      assert s[..j - 1] == t[..j - 1] by {
        assert s[..j - 1] == s[..j][..j - 1] && t[..j - 1] == t[..j][..j - 1];
      }
      BackOverPrefix(s, t, lo, j - 1);
    }
  }

  /**
   * Splitting the pieces joined by `c` gives the pieces back, when none of
   * them holds `c`.
   */
  lemma {:induction false} SplitJoin(p: seq<string>, c: char)
    requires |p| >= 1 && forall k :: 0 <= k < |p| ==> c !in p[k]
    ensures Split(Join(p, c), c) == p
    decreases |p|
  {
    if |p| > 1 {
      var tail := p[1..];
      var joined := Join(tail, c);
      assert Join(p, c) == p[0] + [c] + joined;
      assert Split(p[0] + [c] + joined, c) == [p[0]] + Split(joined, c) by {
        assert c !in p[0];
        SplitCons(p[0], joined, c);
      }
      assert Split(joined, c) == tail by {
        assert forall k :: 0 <= k < |tail| ==> tail[k] == p[k + 1];
        SplitJoin(tail, c);
      }
      assert p == [p[0]] + tail;
    }
  }

  /** A separator-free text in front of a separator becomes the first piece. */
  lemma SplitCons(a: string, rest: string, c: char)
    requires c !in a
    ensures Split(a + [c] + rest, c) == [a] + Split(rest, c)
  {
    var s := a + [c] + rest;
    assert s[..|a|] == a;
    IndexOfIs(s, c, |a|);
    assert s[|a| + 1..] == rest;
  }
}

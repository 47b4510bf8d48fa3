/**
 * The few operations of Python's `str` the backend relies on: `lower`,
 * `strip`, `split`, `startswith` and the `in` substring test, plus the
 * character classes its regular expressions use.
 *
 * Only ASCII is given meaning: `\w` is taken to be the ASCII letters,
 * digits and `_`; whitespace is the ASCII characters for which
 * `str.isspace()` holds; `lower` folds only `A`..`Z`.
 */
module Text {

  /** `\w`, restricted to ASCII. */
  predicate IsWordChar(c: char) {
    ('a' <= c <= 'z') || ('A' <= c <= 'Z') || ('0' <= c <= '9') || c == '_'
  }

  /** ASCII whitespace: space, `\t` `\n` `\v` `\f` `\r`, and the separators 0x1c..0x1f. */
  predicate IsSpace(c: char) {
    c == ' ' || (9 <= c as int <= 13) || (28 <= c as int <= 31)
  }

  predicate IsUpper(c: char) {
    'A' <= c <= 'Z'
  }

  predicate AllSpace(s: string) {
    forall k :: 0 <= k < |s| ==> IsSpace(s[k])
  }

  /** Lower-cases one character; word characters, whitespace and `-` keep their class. */
  function LowerChar(c: char): (d: char)
    ensures !IsUpper(d)
    ensures IsWordChar(d) == IsWordChar(c) && IsSpace(d) == IsSpace(c)
    ensures !IsUpper(c) ==> d == c
  {
    if IsUpper(c) then (c as int + 32) as char else c
  }

  /** `s.lower()`. */
  function Lower(s: string): string {
    seq(|s|, k requires 0 <= k < |s| => LowerChar(s[k]))
  }

  /** `s.startswith(prefix)`. */
  predicate StartsWith(s: string, prefix: string) {
    |prefix| <= |s| && s[..|prefix|] == prefix
  }

  /** `sub` occurs in `s` starting at offset `i`. */
  predicate OccursAt(s: string, sub: string, i: int) {
    0 <= i <= |s| - |sub| && s[i..i + |sub|] == sub
  }

  /** `sub in s`. */
  predicate Contains(s: string, sub: string)
    decreases |s|
  {
    |sub| <= |s| && (s[..|sub|] == sub || Contains(s[1..], sub))
  }

  /** `sub in s` holds exactly when `sub` occurs in `s` at some offset. */
  lemma {:induction false} ContainsAt(s: string, sub: string)
    ensures Contains(s, sub) <==> exists i :: OccursAt(s, sub, i)
    decreases |s|
  {
    if |sub| <= |s| && s[..|sub|] == sub {
      assert OccursAt(s, sub, 0);
    } else if |sub| <= |s| && |s| > 0 {
      ContainsAt(s[1..], sub);
      if Contains(s[1..], sub) {
        var i :| OccursAt(s[1..], sub, i);
        assert OccursAt(s, sub, i + 1);
      }
      if exists i :: OccursAt(s, sub, i) {
        var i :| OccursAt(s, sub, i);
        assert i != 0;
        assert OccursAt(s[1..], sub, i - 1);
      }
    }
  }

  /** `s.lstrip()`. */
  function StripLeft(s: string): (r: string)
    ensures |r| <= |s|
    ensures r != [] ==> !IsSpace(r[0])
    decreases |s|
  {
    if s != [] && IsSpace(s[0]) then StripLeft(s[1..]) else s
  }

  /** What `lstrip` removes is a whitespace prefix, and what it keeps is the rest of `s`. */
  lemma {:induction false} StripLeftSplits(s: string)
    ensures var r := StripLeft(s); r == s[|s| - |r|..] && AllSpace(s[..|s| - |r|])
    decreases |s|
  {
    if s != [] && IsSpace(s[0]) {
      StripLeftSplits(s[1..]);
      var r := StripLeft(s[1..]);
      assert s[..|s| - |r|] == [s[0]] + s[1..][..|s| - 1 - |r|];
    }
  }

  /** `s.rstrip()`. */
  function StripRight(s: string): (r: string)
    ensures |r| <= |s|
    ensures r != [] ==> !IsSpace(r[|r| - 1])
    decreases |s|
  {
    if s != [] && IsSpace(s[|s| - 1]) then StripRight(s[..|s| - 1]) else s
  }

  /** What `rstrip` removes is a whitespace suffix, and what it keeps is the start of `s`. */
  lemma {:induction false} StripRightSplits(s: string)
    ensures var r := StripRight(s); r == s[..|r|] && AllSpace(s[|r|..])
    decreases |s|
  {
    if s != [] && IsSpace(s[|s| - 1]) {
      StripRightSplits(s[..|s| - 1]);
      var r := StripRight(s[..|s| - 1]);
      assert s[|r|..] == s[..|s| - 1][|r|..] + [s[|s| - 1]];
    }
  }

  /** `r` is what remains of `s` once the whitespace prefix `s[..i]` and a whitespace suffix are cut. */
  predicate TrimmedAt(s: string, r: string, i: int) {
    0 <= i <= |s| - |r| && r == s[i..i + |r|] && AllSpace(s[..i]) && AllSpace(s[i + |r|..])
  }

  /**
   * `s.strip()`: the slice of `s` that remains once the whitespace at both
   * ends is removed; empty exactly when `s` is all whitespace.
   */
  function Strip(s: string): (r: string)
    ensures r != [] ==> !IsSpace(r[0]) && !IsSpace(r[|r| - 1])
    ensures r == [] <==> AllSpace(s)
  {
    var l := StripLeft(s);
    var r := StripRight(l);
    StripIsTrimmed(s, l, r);
    StripRightSplits(l);
    r
  }

  /** `s.strip()` is a slice of `s` with only whitespace on either side of it. */
  lemma StripTrims(s: string)
    ensures exists i :: TrimmedAt(s, Strip(s), i)
  {
    StripIsTrimmed(s, StripLeft(s), StripRight(StripLeft(s)));
    assert TrimmedAt(s, Strip(s), |s| - |StripLeft(s)|);
  }

  lemma {:induction false} StripIsTrimmed(s: string, l: string, r: string)
    requires l == StripLeft(s) && r == StripRight(l)
    ensures TrimmedAt(s, r, |s| - |l|)
    ensures r == [] <==> AllSpace(s)
  {
    StripLeftSplits(s);
    StripRightSplits(l);
    var i := |s| - |l|;
    assert s[i..i + |r|] == l[..|r|];
    assert s[i + |r|..] == l[|r|..];
    if r == [] {
      assert l == [] by {
        assert l[|r|..] == l;
      }
      assert s[..i] == s;
    } else {
      assert s[i] == r[0];
    }
  }

  /** Length of the run of non-whitespace characters that begins `s`. */
  function TokenLength(s: string): (n: nat)
    ensures n <= |s|
    ensures forall k :: 0 <= k < n ==> !IsSpace(s[k])
    ensures n < |s| ==> IsSpace(s[n])
  {
    if s == [] || IsSpace(s[0]) then 0 else 1 + TokenLength(s[1..])
  }

  /** `s.split()` with no separator: the maximal runs of non-whitespace, in order. */
  function Split(s: string): (words: seq<string>)
    ensures forall w :: w in words ==> w != [] && forall k :: 0 <= k < |w| ==> !IsSpace(w[k])
    decreases |s|
  {
    var t := StripLeft(s);
    if t == [] then []
    else
      var n := TokenLength(t);
      assert n > 0;
      var w := t[..n];
      assert forall k :: 0 <= k < |w| ==> !IsSpace(w[k]);
      [w] + Split(t[n..])
  }

  /** `len(s.split())`. */
  function WordCount(s: string): nat {
    |Split(s)|
  }

  /** Positions `k > 0` where whitespace at `k - 1` is followed by a non-space at `k`. */
  function Boundaries(s: string): nat
    decreases |s|
  {
    if |s| < 2 then 0
    else (if IsSpace(s[0]) && !IsSpace(s[1]) then 1 else 0) + Boundaries(s[1..])
  }

  /** Reference count of words: the positions where a run of non-whitespace starts. */
  function WordStarts(s: string): nat {
    (if s != [] && !IsSpace(s[0]) then 1 else 0) + Boundaries(s)
  }

  lemma {:induction false} WordStartsSkipsSpace(s: string)
    ensures WordStarts(s) == WordStarts(StripLeft(s))
    decreases |s|
  {
    if s != [] && IsSpace(s[0]) {
      WordStartsSkipsSpace(s[1..]);
      if |s| >= 2 {
        assert s[1..][0] == s[1];
      }
    }
  }

  lemma {:induction false} WordStartsAfterToken(t: string)
    requires t != [] && !IsSpace(t[0])
    ensures WordStarts(t) == 1 + WordStarts(t[TokenLength(t)..])
    decreases |t|
  {
    var n := TokenLength(t);
    if |t| >= 2 {
      assert t[1..][0] == t[1];
      if !IsSpace(t[1]) {
        WordStartsAfterToken(t[1..]);
        assert TokenLength(t[1..]) == n - 1;
        assert t[1..][n - 1..] == t[n..];
      }
    }
  }

  /** The number of words `split()` yields is the number of places a word starts. */
  lemma {:induction false} SplitCountsWordStarts(s: string)
    ensures WordCount(s) == WordStarts(s)
    decreases |s|
  {
    var t := StripLeft(s);
    WordStartsSkipsSpace(s);
    if t != [] {
      WordStartsAfterToken(t);
      SplitCountsWordStarts(t[TokenLength(t)..]);
    }
  }
}

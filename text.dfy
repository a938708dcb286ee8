/**
 * The pieces of Python's `str` behaviour the installer helper relies on:
 * `strip`, `rstrip(c)`, `split(None, 1)`, `split(c)`, `splitlines` and
 * `startswith`. Strings are sequences of Unicode scalar values. Python 3
 * strings can also hold lone surrogates (file names decoded with
 * `surrogateescape`); a Dafny `char` cannot, so such strings are outside
 * this model.
 */
module Text {

  /** `c.isspace()`: the whitespace `str.strip()` and `str.split()` remove. */
  predicate IsSpace(c: char) {
    || c == ' '
    || ('\t' <= c <= '\r')
    || ('\U{1c}' <= c <= '\U{1f}')
    || c == '\U{85}' || c == '\U{a0}' || c == '\U{1680}'
    || ('\U{2000}' <= c <= '\U{200a}')
    || c == '\U{2028}' || c == '\U{2029}' || c == '\U{202f}' || c == '\U{205f}' || c == '\U{3000}'
  }

  /** The characters `str.splitlines()` treats as line boundaries (`\r\n` counts once). */
  predicate IsLineBreak(c: char) {
    || c == '\n' || c == '\r' || c == '\U{0b}' || c == '\U{0c}'
    || ('\U{1c}' <= c <= '\U{1e}')
    || c == '\U{85}' || c == '\U{2028}' || c == '\U{2029}'
  }

  /** `s` is `r` followed by nothing but copies of `c`, and `r` does not end in `c`. */
  ghost predicate StrippedOf(r: string, s: string, c: char) {
    && r <= s
    && (r == [] || r[|r| - 1] != c)
    && forall k :: |r| <= k < |s| ==> s[k] == c
  }

  /** `s.rstrip(c)` for a single character `c`. */
  function RStripChar(s: string, c: char): (r: string)
    ensures StrippedOf(r, s, c)
  {
    if s == [] || s[|s| - 1] != c then s else RStripChar(s[..|s| - 1], c)
  }

  /** `s.lstrip()`: drops leading whitespace. */
  function LStrip(s: string): (r: string)
    ensures |r| <= |s| && r == s[|s| - |r|..]
    ensures r == [] || !IsSpace(r[0])
    ensures forall k :: 0 <= k < |s| - |r| ==> IsSpace(s[k])
  {
    if s != [] && IsSpace(s[0]) then LStrip(s[1..]) else s
  }

  /** `lstrip()` leaves nothing exactly when the string is all whitespace. */
  lemma LStripEmpty(s: string)
    ensures LStrip(s) == [] <==> AllSpace(s)
  {
    var r := LStrip(s);
    if r != [] {
      assert r[0] == s[|s| - |r|];
    }
  }

  /** `s.rstrip()`: drops trailing whitespace. */
  function RStrip(s: string): (r: string)
    ensures r <= s
    ensures r == [] || !IsSpace(r[|r| - 1])
    ensures forall k :: |r| <= k < |s| ==> IsSpace(s[k])
  {
    if s != [] && IsSpace(s[|s| - 1]) then RStrip(s[..|s| - 1]) else s
  }

  /** `s.strip()`. */
  function Strip(s: string): (r: string)
    ensures r == [] || (!IsSpace(r[0]) && !IsSpace(r[|r| - 1]))
  {
    RStrip(LStrip(s))
  }

  /** Every character of `s` is whitespace (the empty string included). */
  predicate AllSpace(s: string) {
    forall k :: 0 <= k < |s| ==> IsSpace(s[k])
  }

  /** `s` is non-empty and neither starts nor ends with whitespace. */
  predicate Trimmed(s: string) {
    s != [] && !IsSpace(s[0]) && !IsSpace(s[|s| - 1])
  }

  /** Trailing whitespace after a string that ends in a non-space is what `rstrip()` removes. */
  lemma {:induction false} RStripSpaces(s: string, gap: string)
    requires AllSpace(gap)
    requires s != [] && !IsSpace(s[|s| - 1])
    ensures RStrip(s + gap) == s
    decreases |gap|
  {
    if gap != [] {
      var t := s + gap;
      var shorter := gap[..|gap| - 1];
      assert t[|t| - 1] == gap[|gap| - 1];
      assert t[..|t| - 1] == s + shorter;
      assert AllSpace(shorter) by {
        forall k | 0 <= k < |shorter| ensures IsSpace(shorter[k]) {
          assert shorter[k] == gap[k];
        }
      }
      RStripSpaces(s, shorter);
    } else {
      assert s + gap == s;
    }
  }

  /** `strip()` removes a leading and a trailing run of whitespace and nothing else. */
  lemma StripParts(s: string) returns (lead: string, trail: string)
    ensures AllSpace(lead) && AllSpace(trail)
    ensures s == lead + Strip(s) + trail
  {
    lead := LStripParts(s);
    trail := RStripParts(LStrip(s));
    Regroup(lead, RStrip(LStrip(s)), trail);
  }

  lemma LStripParts(s: string) returns (lead: string)
    ensures AllSpace(lead) && s == lead + LStrip(s)
  {
    var l := LStrip(s);
    lead := s[..|s| - |l|];
    CutAt(s, |lead|);
    assert AllSpace(lead) by {
      forall k | 0 <= k < |lead| ensures IsSpace(lead[k]) {
        assert lead[k] == s[k];
      }
    }
  }

  lemma RStripParts(s: string) returns (trail: string)
    ensures AllSpace(trail) && s == RStrip(s) + trail
  {
    var t := RStrip(s);
    trail := s[|t|..];
    CutAt(s, |t|);
    assert s[..|t|] == t;
    assert AllSpace(trail) by {
      forall k | 0 <= k < |trail| ensures IsSpace(trail[k]) {
        assert trail[k] == s[|t| + k];
      }
    }
  }

  /** Leading whitespace before a non-space is what `lstrip()` removes. */
  lemma {:induction false} LStripSpaces(gap: string, rest: string)
    requires AllSpace(gap)
    requires rest != [] && !IsSpace(rest[0])
    ensures LStrip(gap + rest) == rest
    decreases |gap|
  {
    if gap != [] {
      var s := gap + rest;
      assert s[0] == gap[0] && IsSpace(s[0]);
      assert s[1..] == gap[1..] + rest;
      assert LStrip(s) == LStrip(s[1..]);
      assert forall k :: 0 <= k < |gap[1..]| ==> gap[1..][k] == gap[k + 1];
      LStripSpaces(gap[1..], rest);
    } else {
      assert gap + rest == rest;
    }
  }

  /** `strip()` of a trimmed string between two runs of whitespace is that string. */
  lemma StripAround(lead: string, t: string, trail: string)
    requires AllSpace(lead) && AllSpace(trail) && Trimmed(t)
    ensures Strip(lead + t + trail) == t
  {
    Regroup(lead, t, trail);
    assert (t + trail)[0] == t[0];
    LStripSpaces(lead, t + trail);
    RStripSpaces(t, trail);
  }

  /** Length of the leading run of non-whitespace characters of `t`. */
  function WordEnd(t: string): (i: nat)
    ensures i <= |t|
    ensures forall k :: 0 <= k < i ==> !IsSpace(t[k])
    ensures i < |t| ==> IsSpace(t[i])
  {
    if t == [] || IsSpace(t[0]) then 0 else 1 + WordEnd(t[1..])
  }

  /**
   * `s.split(None, 1)`: at most one split at the first run of whitespace;
   * leading whitespace never yields an empty part, and the remainder keeps
   * its trailing whitespace.
   */
  function SplitWsOnce(s: string): (parts: seq<string>)
    ensures |parts| <= 2
  {
    var t := LStrip(s);
    if t == [] then []
    else
      var i := WordEnd(t);
      var rest := LStrip(t[i..]);
      if rest == [] then [t[..i]] else [t[..i], rest]
  }

  /**
   * What `split(None, 1)` returns: nothing for an all-whitespace string;
   * otherwise the first word of the `lstrip()`ped string, and, when more
   * follows, after a non-empty run of whitespace, the rest as it stands.
   */
  lemma SplitWsOnceShape(s: string) returns (gap: string)
    ensures var parts := SplitWsOnce(s);
            && (parts == [] <==> AllSpace(s))
            && (parts != [] ==> parts[0] != [] && forall k :: 0 <= k < |parts[0]| ==> !IsSpace(parts[0][k]))
            && (|parts| == 2 ==> parts[1] != [] && !IsSpace(parts[1][0]))
            && (|parts| == 1 ==> AllSpace(gap) && LStrip(s) == parts[0] + gap)
            && (|parts| == 2 ==> gap != [] && AllSpace(gap) && LStrip(s) == parts[0] + gap + parts[1])
  {
    gap := "";
    var t := LStrip(s);
    LStripEmpty(s);
    if t != [] {
      gap := GapAfterWord(t);
      var i := WordEnd(t);
      assert SplitWsOnce(s) == if LStrip(t[i..]) == [] then [t[..i]] else [t[..i], LStrip(t[i..])];
    }
  }

  /** A string that does not start with whitespace is its own `lstrip()`. */
  lemma LStripAtWord(s: string)
    requires s != [] && !IsSpace(s[0])
    ensures LStrip(s) == s
  {
  }
  /** The two parts `split(None, 1)` makes of a string that starts with a non-space. */
  lemma TwoParts(t: string) returns (word: string, gap: string, rest: string)
    requires t != [] && !IsSpace(t[0]) && |SplitWsOnce(t)| == 2
    ensures SplitWsOnce(t) == [word, rest] && t == word + gap + rest
    ensures forall k :: 0 <= k < |word| ==> !IsSpace(word[k])
    ensures gap != [] && AllSpace(gap) && rest != [] && !IsSpace(rest[0])
  {
    LStripAtWord(t);
    gap := GapAfterWord(t);
    var i := WordEnd(t);
    word := t[..i];
    rest := LStrip(t[i..]);
  }

  /**
   * A string that starts with a non-space is its first word, a run of
   * whitespace, and the `lstrip()` of what follows the word; the run is
   * non-empty when something follows.
   */
  lemma GapAfterWord(t: string) returns (gap: string)
    requires t != [] && !IsSpace(t[0])
    ensures var i := WordEnd(t);
            var rest := LStrip(t[i..]);
            && t[..i] != [] && (forall k :: 0 <= k < |t[..i]| ==> !IsSpace(t[..i][k]))
            && (rest == [] ==> AllSpace(gap) && t == t[..i] + gap)
            && (rest != [] ==> gap != [] && AllSpace(gap) && !IsSpace(rest[0]) && t == t[..i] + gap + rest)
  {
    var i := WordEnd(t);
    var word := t[..i];
    var after := t[i..];
    var rest := LStrip(after);
    var m := |after| - |rest|;
    gap := after[..m];
    assert word[0] == t[0];
    assert forall k :: 0 <= k < |word| ==> !IsSpace(word[k]) by {
      forall k | 0 <= k < |word| ensures !IsSpace(word[k]) {
        assert word[k] == t[k];
      }
    }
    CutAt(after, m);
    CutAt(t, i);
    assert rest == after[m..];
    Regroup(word, gap, rest);
    assert AllSpace(gap) by {
      forall k | 0 <= k < |gap| ensures IsSpace(gap[k]) {
        assert gap[k] == after[k];
      }
    }
    if rest == [] {
      assert after == gap;
    }
  }

  /** A string is its prefix up to `m` followed by the rest. */
  lemma CutAt(a: string, m: nat)
    requires m <= |a|
    ensures a == a[..m] + a[m..]
  {
  }

  lemma Regroup(a: string, b: string, c: string)
    ensures a + (b + c) == a + b + c
  {
  }

  /** Index of the first line boundary in `s`, or `|s|` when there is none. */
  function FirstBreak(s: string): (i: nat)
    ensures i <= |s|
    ensures forall k :: 0 <= k < i ==> !IsLineBreak(s[k])
    ensures i < |s| ==> IsLineBreak(s[i])
  {
    if s == [] || IsLineBreak(s[0]) then 0 else 1 + FirstBreak(s[1..])
  }

  /** `s.splitlines()`: the lines of `s` without their boundaries, no trailing empty line. */
  function SplitLines(s: string): (lines: seq<string>)
    ensures forall k, j :: 0 <= k < |lines| && 0 <= j < |lines[k]| ==> !IsLineBreak(lines[k][j])
    decreases |s|
  {
    if s == [] then []
    else
      var i := FirstBreak(s);
      if i == |s| then [s]
      else
        var width := if s[i] == '\r' && i + 1 < |s| && s[i + 1] == '\n' then 2 else 1;
        [s[..i]] + SplitLines(s[i + width..])
  }

  /** Index of the first `sep` in `s`, or `|s|`. */
  function IndexOf(s: string, sep: char): (i: nat)
    ensures i <= |s|
    ensures forall k :: 0 <= k < i ==> s[k] != sep
    ensures i < |s| ==> s[i] == sep
  {
    if s == [] || s[0] == sep then 0 else 1 + IndexOf(s[1..], sep)
  }

  /** `s.split(sep)` for a single separator character: never empty. */
  function SplitOn(s: string, sep: char): (parts: seq<string>)
    ensures |parts| >= 1
    ensures forall k, j :: 0 <= k < |parts| && 0 <= j < |parts[k]| ==> parts[k][j] != sep
    decreases |s|
  {
    var i := IndexOf(s, sep);
    if i == |s| then [s] else [s[..i]] + SplitOn(s[i + 1..], sep)
  }

  /** `sep.join(parts)`. */
  function JoinWith(parts: seq<string>, sep: char): string
  {
    if parts == [] then "" else if |parts| == 1 then parts[0] else parts[0] + [sep] + JoinWith(parts[1..], sep)
  }

  /** Splitting on `sep` and joining back with `sep` gives the original string. */
  lemma {:induction false} JoinSplitOn(s: string, sep: char)
    ensures JoinWith(SplitOn(s, sep), sep) == s
    decreases |s|
  {
    var i := IndexOf(s, sep);
    if i < |s| {
      var rest := SplitOn(s[i + 1..], sep);
      var parts := [s[..i]] + rest;
      assert SplitOn(s, sep) == parts;
      assert |parts| > 1 && parts[0] == s[..i] && parts[1..] == rest;
      JoinSplitOn(s[i + 1..], sep);
      assert JoinWith(parts, sep) == s[..i] + [sep] + s[i + 1..];
      assert s == s[..i] + [sep] + s[i + 1..];
    }
  }

  /** A string free of `sep` glued in front of another with `sep` is its first part. */
  lemma SplitOnPrepend(head: string, sep: char, tail: string)
    requires sep !in head
    ensures SplitOn(head + [sep] + tail, sep) == [head] + SplitOn(tail, sep)
  {
    var s := head + [sep] + tail;
    IndexOfPrefix(head, sep, tail);
    assert s[..|head|] == head;
    assert s[|head| + 1..] == tail;
  }

  lemma {:induction false} IndexOfPrefix(head: string, sep: char, tail: string)
    requires sep !in head
    ensures IndexOf(head + [sep] + tail, sep) == |head|
    decreases |head|
  {
    if head != [] {
      assert head[0] in head;
      IndexOfPrefix(head[1..], sep, tail);
      assert (head + [sep] + tail)[1..] == head[1..] + [sep] + tail;
    }
  }
}

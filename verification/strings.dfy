/**
 * The handful of Python `str` operations the registry helpers are built
 * from, with Python's own semantics: `replace(pat, "")`, `split(sep)[0]`,
 * `rstrip(chars)`, `lstrip(chars)`, `strip()` and `endswith`.
 */
module Strings {

  predicate StartsWith(s: string, prefix: string) {
    |prefix| <= |s| && s[..|prefix|] == prefix
  }

  predicate EndsWith(s: string, suffix: string) {
    |suffix| <= |s| && s[|s| - |suffix|..] == suffix
  }

  /** `pat` occurs in `s` starting at index `i`. */
  predicate OccursAt(s: string, pat: string, i: int) {
    0 <= i && i + |pat| <= |s| && s[i..i + |pat|] == pat
  }

  /** Python's `pat in s` for a substring. */
  predicate Contains(s: string, pat: string) {
    exists i | 0 <= i <= |s| :: OccursAt(s, pat, i)
  }

  /**
   * Python's `s.replace(pat, "")`: scans left to right and deletes every
   * non-overlapping occurrence of `pat`, in a single pass (what the
   * deletions bring together is not scanned again).
   */
  function RemoveAll(s: string, pat: string): (r: string)
    requires pat != []
    ensures |r| <= |s|
    decreases |s|
  {
    if |s| < |pat| then s
    else if s[..|pat|] == pat then RemoveAll(s[|pat|..], pat)
    else [s[0]] + RemoveAll(s[1..], pat)
  }

  /** Nothing changes when `pat` does not occur. */
  lemma {:induction false} RemoveAllWithoutOccurrence(s: string, pat: string)
    requires pat != []
    requires !Contains(s, pat)
    ensures RemoveAll(s, pat) == s
    decreases |s|
  {
    if |s| >= |pat| {
      assert !OccursAt(s, pat, 0);
      forall i | OccursAt(s[1..], pat, i) ensures false {
        assert s[1..][i..i + |pat|] == s[i + 1..i + 1 + |pat|];
        assert OccursAt(s, pat, i + 1);
      }
      RemoveAllWithoutOccurrence(s[1..], pat);
    }
  }

  /** Where no occurrence starts at the front, the first character is kept. */
  lemma RemoveAllKeepsHead(s: string, pat: string)
    requires pat != []
    requires |pat| <= |s| && !OccursAt(s, pat, 0)
    ensures RemoveAll(s, pat) == [s[0]] + RemoveAll(s[1..], pat)
  {
    assert s[0..|pat|] == s[..|pat|];
  }

  /** One more character is copied through when no occurrence starts at it. */
  lemma RemoveAllKeepsOneMore(s: string, k: nat, pat: string)
    requires pat != [] && 0 < k <= |s|
    requires !OccursAt(s, pat, k - 1)
    ensures s[..k - 1] + RemoveAll(s[k - 1..], pat) == s[..k] + RemoveAll(s[k..], pat)
  {
    var t := s[k - 1..];
    assert t[1..] == s[k..];
    if |pat| <= |t| {
      assert t[0..|pat|] == s[k - 1..k - 1 + |pat|];
      RemoveAllKeepsHead(t, pat);
    } else {
      assert RemoveAll(s[k..], pat) == s[k..];
      assert t == [s[k - 1]] + s[k..];
    }
    assert s[..k - 1] + [s[k - 1]] == s[..k];
  }

  /**
   * When no occurrence of `pat` starts among the first `k` characters, those
   * characters are copied through and the scan goes on from index `k`.
   */
  lemma {:induction false} RemoveAllKeepsFront(s: string, k: nat, pat: string)
    requires pat != [] && k <= |s|
    requires forall i :: 0 <= i < k ==> !OccursAt(s, pat, i)
    ensures RemoveAll(s, pat) == s[..k] + RemoveAll(s[k..], pat)
  {
    if k == 0 {
      assert s[..0] + RemoveAll(s[0..], pat) == RemoveAll(s, pat);
    } else {
      RemoveAllKeepsFront(s, k - 1, pat);
      RemoveAllKeepsOneMore(s, k, pat);
    }
  }

  /**
   * A prefix `a` in which no occurrence of `pat` starts is copied through
   * unchanged, and the scan resumes on `b` as if it stood alone.
   */
  lemma RemoveAllKeepsPrefix(a: string, b: string, pat: string)
    requires pat != []
    requires forall i :: 0 <= i < |a| ==> !OccursAt(a + b, pat, i)
    ensures RemoveAll(a + b, pat) == a + RemoveAll(b, pat)
  {
    RemoveAllKeepsFront(a + b, |a|, pat);
    assert (a + b)[..|a|] == a && (a + b)[|a|..] == b;
  }

  /** Python's `s.split(sep)[0]`: the text before the first `sep`, or all of `s`. */
  function BeforeFirst(s: string, sep: char): (r: string)
    ensures sep !in r
    ensures StartsWith(s, r)
    ensures r == s || s[|r|] == sep
  {
    if s == [] || s[0] == sep then []
    else [s[0]] + BeforeFirst(s[1..], sep)
  }

  /** The three properties in BeforeFirst's contract determine its result. */
  lemma {:induction false} BeforeFirstUnique(s: string, sep: char, r: string)
    requires sep !in r
    requires StartsWith(s, r)
    requires r == s || s[|r|] == sep
    ensures r == BeforeFirst(s, sep)
  {
    if s != [] && s[0] != sep {
      assert r != [];
      BeforeFirstUnique(s[1..], sep, r[1..]);
    }
  }

  /** Text with no separator in it is its own first field, whatever follows the separator. */
  lemma BeforeFirstOfField(h: string, sep: char, rest: string)
    requires sep !in h
    ensures BeforeFirst(h + [sep] + rest, sep) == h
  {
    var s := h + [sep] + rest;
    assert s[..|h|] == h && s[|h|] == sep;
    BeforeFirstUnique(s, sep, h);
  }

  /** Python's `s.rstrip(chars)`: drops every trailing character that is in `chars`. */
  function RStrip(s: string, chars: set<char>): (r: string)
    ensures StartsWith(s, r)
    ensures r == [] || r[|r| - 1] !in chars
    ensures forall i :: |r| <= i < |s| ==> s[i] in chars
    decreases |s|
  {
    if s != [] && s[|s| - 1] in chars then RStrip(s[..|s| - 1], chars) else s
  }

  /** Python's `s.lstrip(chars)`: drops every leading character that is in `chars`. */
  function LStrip(s: string, chars: set<char>): (r: string)
    ensures EndsWith(s, r)
    ensures r == [] || r[0] !in chars
    ensures forall i :: 0 <= i < |s| - |r| ==> s[i] in chars
    decreases |s|
  {
    if s != [] && s[0] in chars then LStrip(s[1..], chars) else s
  }

  /** The characters for which Python's `str.isspace()` holds. */
  const Whitespace: set<char> := {
    '\t', '\n', '\U{000B}', '\U{000C}', '\r', '\U{001C}', '\U{001D}', '\U{001E}', '\U{001F}',
    ' ', '\U{0085}', '\U{00A0}', '\U{1680}', '\U{2000}', '\U{2001}', '\U{2002}', '\U{2003}',
    '\U{2004}', '\U{2005}', '\U{2006}', '\U{2007}', '\U{2008}', '\U{2009}', '\U{200A}',
    '\U{2028}', '\U{2029}', '\U{202F}', '\U{205F}', '\U{3000}'
  }

  /**
   * `r` is what is left of `s` from index `i` on once characters in `chars`
   * have been cut from both ends: everything before `i` and everything
   * after `r` is in `chars`.
   */
  predicate TrimmedAt(s: string, r: string, i: int, chars: set<char>) {
    0 <= i && i + |r| <= |s| && s[i..i + |r|] == r
    && (forall j :: 0 <= j < i ==> s[j] in chars)
    && (forall j :: i + |r| <= j < |s| ==> s[j] in chars)
  }

  /**
   * Python's `s.strip()`: the piece of `s` left after removing leading and
   * trailing whitespace only; what is cut off on either side is whitespace,
   * and the piece itself neither starts nor ends with whitespace.
   */
  function Strip(s: string): (r: string)
    ensures exists i | 0 <= i <= |s| :: TrimmedAt(s, r, i, Whitespace)
    ensures r == [] || (r[0] !in Whitespace && r[|r| - 1] !in Whitespace)
  {
    StrippedEnds(s, Whitespace);
    LStrip(RStrip(s, Whitespace), Whitespace)
  }

  /**
   * `rstrip` and then `lstrip` over any set of characters leave a piece of
   * `s` trimmed at both ends that neither starts nor ends with a stripped
   * character.
   */
  lemma StrippedEnds(s: string, chars: set<char>)
    ensures var r := LStrip(RStrip(s, chars), chars);
            && (exists i | 0 <= i <= |s| :: TrimmedAt(s, r, i, chars))
            && (r == [] || (r[0] !in chars && r[|r| - 1] !in chars))
  {
    var t := RStrip(s, chars);
    var u := LStrip(t, chars);
    StrippedPiece(s, chars);
    assert TrimmedAt(s, u, |t| - |u|, chars);
    StrippedLastKept(t, chars);
  }

  /** `lstrip` keeps the last character of what it strips, unless it strips everything. */
  lemma StrippedLastKept(t: string, chars: set<char>)
    ensures var u := LStrip(t, chars);
            u == [] || u[|u| - 1] == t[|t| - 1]
  {
    var u := LStrip(t, chars);
    if u != [] {
      assert u == t[|t| - |u|..];
    }
  }

  /** What `rstrip` and then `lstrip` leave of `s` is `s` trimmed at both ends. */
  lemma StrippedPiece(s: string, chars: set<char>)
    ensures var t := RStrip(s, chars);
            var u := LStrip(t, chars);
            TrimmedAt(s, u, |t| - |u|, chars)
  {
    var t := RStrip(s, chars);
    var u := LStrip(t, chars);
    assert s[|t| - |u|..|t|] == t[|t| - |u|..];
    forall j | 0 <= j < |t| - |u| ensures s[j] in chars {
      assert s[j] == t[j];
    }
  }

  /**
   * The contract of `Strip` leaves no choice: a piece of `s` that is
   * trimmed of whitespace at both ends and has none at its own ends is
   * `strip()` of `s`.
   */
  lemma StripUnique(s: string, r: string, i: int)
    requires TrimmedAt(s, r, i, Whitespace)
    requires r == [] || (r[0] !in Whitespace && r[|r| - 1] !in Whitespace)
    ensures r == Strip(s)
  {
    var q := Strip(s);
    var k :| 0 <= k <= |s| && TrimmedAt(s, q, k, Whitespace);
    if r != [] && q != [] {
      // Both pieces start at the first and end at the last non-whitespace character.
      assert s[i] == r[0] && s[k] == q[0];
      assert s[i + |r| - 1] == r[|r| - 1] && s[k + |q| - 1] == q[|q| - 1];
      assert i == k;
      assert i + |r| == k + |q|;
    }
  }

  /** Text with no surrounding whitespace is left as it is by `strip()`. */
  lemma StripUnpadded(s: string)
    requires s == [] || (s[0] !in Whitespace && s[|s| - 1] !in Whitespace)
    ensures Strip(s) == s
  {
    var t := RStrip(s, Whitespace);
    assert t == s;
  }

  /** Stripping twice is stripping once. */
  lemma StripIdempotent(s: string)
    ensures Strip(Strip(s)) == Strip(s)
  {
    StripUnpadded(Strip(s));
  }

  /** `rstrip` is blind to trailing characters it would remove anyway. */
  lemma RStripAppend(s: string, c: char, chars: set<char>)
    requires c in chars
    ensures RStrip(s + [c], chars) == RStrip(s, chars)
  {
    assert (s + [c])[..|s|] == s;
  }

  /**
   * Removing trailing separators never changes the first field: either the
   * first separator lies inside what is kept, or everything after the kept
   * part is separators and the first field is all of it.
   */
  lemma BeforeFirstOfRStrip(s: string, sep: char)
    ensures BeforeFirst(RStrip(s, {sep}), sep) == BeforeFirst(s, sep)
  {
    var t := RStrip(s, {sep});
    var r := BeforeFirst(t, sep);
    assert t == s[..|t|];
    assert r == t[..|r|];
    if r != t {
      assert s[|r|] == t[|r|];
    } else if t != s {
      assert s[|t|] in {sep};
    }
    BeforeFirstUnique(s, sep, r);
  }
}

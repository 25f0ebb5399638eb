/**
 * The parts of Python's `str` behaviour that the backend relies on when it
 * reads the text printed by dpkg-query and `dpkg -S`, and that the window
 * relies on when it filters: `strip()`, `splitlines()`, `split(sep)`,
 * `pat in s`, `find`, `replace(pat, "")` and `lower()`.
 */
module Text {
  import opened Wrappers

  /** The characters for which Python's `str.isspace()` holds. */
  const SPACES: set<char> := {
    '\U{9}', '\U{A}', '\U{B}', '\U{C}', '\U{D}', '\U{1C}', '\U{1D}', '\U{1E}',
    '\U{1F}', '\U{20}', '\U{85}', '\U{A0}', '\U{1680}', '\U{2000}', '\U{2001}', '\U{2002}',
    '\U{2003}', '\U{2004}', '\U{2005}', '\U{2006}', '\U{2007}', '\U{2008}', '\U{2009}', '\U{200A}',
    '\U{2028}', '\U{2029}', '\U{202F}', '\U{205F}', '\U{3000}'
  }

  /** Python's `str.isspace()` on one character. */
  predicate IsSpace(c: char) {
    c in SPACES
  }

  /** A line boundary of `str.splitlines()` ("\r\n" is treated as one). */
  predicate IsLineBreak(c: char) {
    var n := c as int;
    (10 <= n <= 13) || (28 <= n <= 30) || n == 0x85 || n == 0x2028 || n == 0x2029
  }

  /** The first index at or after `i` whose character is not whitespace, or `|s|`. */
  function SkipSpace(s: string, i: nat): (j: nat)
    requires i <= |s|
    ensures i <= j <= |s|
    decreases |s| - i
  {
    if i < |s| && IsSpace(s[i]) then SkipSpace(s, i + 1) else i
  }

  /** The end of `s[lo..j]` once its trailing whitespace is dropped. */
  function TrimSpace(s: string, lo: nat, j: nat): (e: nat)
    requires lo <= j <= |s|
    ensures lo <= e <= j
  {
    if lo < j && IsSpace(s[j - 1]) then TrimSpace(s, lo, j - 1) else j
  }

  /** `SkipSpace` passes over whitespace only, and stops at the end or before a non-space. */
  lemma {:induction false} SkipSpaceStops(s: string, i: nat)
    requires i <= |s|
    ensures var j := SkipSpace(s, i);
      (forall m :: i <= m < j ==> IsSpace(s[m])) && (j == |s| || !IsSpace(s[j]))
    decreases |s| - i
  {
    if i < |s| && IsSpace(s[i]) {
      SkipSpaceStops(s, i + 1);
    }
  }

  /** `TrimSpace` drops whitespace only, and stops at `lo` or after a non-space. */
  lemma {:induction false} TrimSpaceStops(s: string, lo: nat, j: nat)
    requires lo <= j <= |s|
    ensures var e := TrimSpace(s, lo, j);
      (forall m :: e <= m < j ==> IsSpace(s[m])) && (e == lo || !IsSpace(s[e - 1]))
  {
    if lo < j && IsSpace(s[j - 1]) {
      TrimSpaceStops(s, lo, j - 1);
    }
  }

  /** `s.lstrip()`: `s` without its leading whitespace. */
  function StripStart(s: string): (r: string)
    ensures |r| <= |s|
  {
    s[SkipSpace(s, 0)..]
  }

  /** `s.rstrip()`: `s` without its trailing whitespace. */
  function StripEnd(s: string): (r: string)
    ensures |r| <= |s|
  {
    s[..TrimSpace(s, 0, |s|)]
  }

  /** `s.strip()`: `s` without its leading and trailing whitespace. */
  function Strip(s: string): (r: string)
    ensures |r| <= |s|
  {
    var start := SkipSpace(s, 0);
    s[start..TrimSpace(s, start, |s|)]
  }

  /** What `lstrip` removes is whitespace, and what it keeps does not start with whitespace. */
  lemma StripStartShape(s: string)
    ensures var r := StripStart(s); var k := |s| - |r|;
      r == s[k..] && (forall i :: 0 <= i < k ==> IsSpace(s[i])) && (r == [] || !IsSpace(r[0]))
  {
    SkipSpaceStops(s, 0);
  }

  /** What `rstrip` removes is whitespace, and what it keeps does not end with whitespace. */
  lemma StripEndShape(s: string)
    ensures var r := StripEnd(s);
      r == s[..|r|] && (forall i :: |r| <= i < |s| ==> IsSpace(s[i])) && (r == [] || !IsSpace(r[|r| - 1]))
  {
    TrimSpaceStops(s, 0, |s|);
  }

  /** Trimming a suffix of `s` trims at the same place, counted from the start of the suffix. */
  lemma {:induction false} TrimSpaceShift(s: string, k: nat, j: nat)
    requires k <= j <= |s|
    ensures TrimSpace(s[k..], 0, j - k) == TrimSpace(s, k, j) - k
  {
    if k < j {
      assert s[k..][j - k - 1] == s[j - 1];
      if IsSpace(s[j - 1]) {
        TrimSpaceShift(s, k, j - 1);
      }
    }
  }

  /**
   * `strip` keeps one run of `s` that neither starts nor ends with
   * whitespace, removes only whitespace around it, and is `lstrip` then `rstrip`.
   */
  lemma StripShape(s: string)
    ensures var r := Strip(s); var k := |s| - |StripStart(s)|;
      k + |r| <= |s| && r == s[k..k + |r|]
      && (forall i :: 0 <= i < k ==> IsSpace(s[i]))
      && (forall i :: k + |r| <= i < |s| ==> IsSpace(s[i]))
      && (r == [] || (!IsSpace(r[0]) && !IsSpace(r[|r| - 1])))
      && r == StripEnd(StripStart(s))
  {
    var k := SkipSpace(s, 0);
    var e := TrimSpace(s, k, |s|);
    SkipSpaceStops(s, 0);
    TrimSpaceStops(s, k, |s|);
    var t := s[k..];
    assert TrimSpace(t, 0, |t|) == e - k by {
      TrimSpaceShift(s, k, |s|);
    }
  }

  /** A string without whitespace at either end is its own `strip()`. */
  lemma StripTrimmed(s: string)
    requires s == [] || (!IsSpace(s[0]) && !IsSpace(s[|s| - 1]))
    ensures Strip(s) == s
  {
    assert StripStart(s) == s;
  }

  /** Index of the first line boundary in `s`, if there is one. */
  function FirstBreak(s: string): (r: Option<nat>)
    ensures r.Some? ==> r.value < |s| && IsLineBreak(s[r.value])
    ensures forall j :: 0 <= j < |s| && (r.None? || j < r.value) ==> !IsLineBreak(s[j])
  {
    if s == [] then None
    else if IsLineBreak(s[0]) then Some(0)
    else match FirstBreak(s[1..])
      case None => None
      case Some(i) => Some(i + 1)
  }

  /**
   * `s.splitlines()`: the lines of `s` without their boundaries; a boundary
   * at the very end does not open an empty last line.
   */
  function SplitLines(s: string): (lines: seq<string>)
    ensures forall k, j :: 0 <= k < |lines| && 0 <= j < |lines[k]| ==> !IsLineBreak(lines[k][j])
    ensures lines == [] <==> s == []
    decreases |s|
  {
    match FirstBreak(s)
    case None => if s == [] then [] else [s]
    case Some(i) =>
      var width := if s[i] == '\r' && i + 1 < |s| && s[i + 1] == '\n' then 2 else 1;
      [s[..i]] + SplitLines(s[i + width..])
  }

  /** `s` holds no line boundary. */
  predicate NoBreak(s: string) {
    forall j :: 0 <= j < |s| ==> !IsLineBreak(s[j])
  }

  /**
   * A break-free line, one boundary and the rest split into that line and
   * the lines of the rest; "\r\n" is one boundary, and a lone '\r' is one
   * unless a '\n' follows it.
   */
  lemma SplitLinesCons(a: string, brk: string, b: string)
    requires NoBreak(a)
    requires brk == "\r\n" || (|brk| == 1 && IsLineBreak(brk[0]) && !(brk[0] == '\r' && b != [] && b[0] == '\n'))
    ensures SplitLines(a + brk + b) == [a] + SplitLines(b)
  {
    var s := a + brk + b;
    assert s[|a|] == brk[0];
    assert FirstBreak(s) == Some(|a|) by {
      assert forall j :: 0 <= j < |a| ==> s[j] == a[j];
    }
    if brk == "\r\n" {
      assert s[|a| + 1] == '\n';
    } else if b != [] {
      assert s[|a| + 1] == b[0];
    }
    assert s[..|a|] == a;
    assert s[|a| + |brk|..] == b;
  }

  /** Break-free lines, the last one non-empty, joined with '\n', split back into those lines. */
  lemma {:induction false} SplitLinesJoin(lines: seq<string>)
    requires |lines| >= 1 && lines[|lines| - 1] != []
    requires forall k :: 0 <= k < |lines| ==> NoBreak(lines[k])
    ensures SplitLines(Join(lines, '\n')) == lines
  {
    if |lines| == 1 {
      assert FirstBreak(lines[0]).None? by {
        assert NoBreak(lines[0]);
      }
    } else {
      var rest := lines[1..];
      assert lines == [lines[0]] + rest;
      JoinCons(lines[0], rest, '\n');
      assert NoBreak(lines[0]);
      SplitLinesCons(lines[0], "\n", Join(rest, '\n'));
      SplitLinesJoin(rest);
    }
  }

  /** Index of the first `c` in `s`. */
  function IndexOf(s: string, c: char): (i: nat)
    requires c in s
    ensures i < |s| && s[i] == c && c !in s[..i]
  {
    if s[0] == c then 0
    else
      var i := IndexOf(s[1..], c) + 1;
      assert s[..i] == [s[0]] + s[1..][..i - 1];
      i
  }

  /** `s.split(sep)` for a one-character separator. */
  function Split(s: string, sep: char): (parts: seq<string>)
    ensures |parts| >= 1
    ensures forall k :: 0 <= k < |parts| ==> sep !in parts[k]
    decreases |s|
  {
    if sep !in s then [s]
    else
      var i := IndexOf(s, sep);
      [s[..i]] + Split(s[i + 1..], sep)
  }

  /** `sep.join(parts)` for a one-character separator. */
  function Join(parts: seq<string>, sep: char): string {
    if parts == [] then []
    else if |parts| == 1 then parts[0]
    else parts[0] + [sep] + Join(parts[1..], sep)
  }

  /** Joining a head and at least one more field puts the separator after the head. */
  lemma JoinCons(head: string, rest: seq<string>, sep: char)
    requires |rest| >= 1
    ensures Join([head] + rest, sep) == head + [sep] + Join(rest, sep)
  {
    assert ([head] + rest)[1..] == rest;
  }

  /** A string is what comes before index `i`, the character at `i`, and what comes after. */
  lemma AroundIndex(s: string, i: nat)
    requires i < |s|
    ensures s == s[..i] + [s[i]] + s[i + 1..]
  {
  }

  /** Joining the fields again gives back the split string. */
  lemma {:induction false} JoinSplit(s: string, sep: char)
    ensures Join(Split(s, sep), sep) == s
    decreases |s|
  {
    if sep in s {
      var i := IndexOf(s, sep);
      var head, tail := s[..i], s[i + 1..];
      var rest := Split(tail, sep);
      assert Split(s, sep) == [head] + rest;
      JoinSplit(tail, sep);
      JoinCons(head, rest, sep);
      AroundIndex(s, i);
    }
  }

  /** Fields that do not contain the separator come back from a join and a split. */
  lemma {:induction false} SplitJoin(parts: seq<string>, sep: char)
    requires |parts| >= 1
    requires forall k :: 0 <= k < |parts| ==> sep !in parts[k]
    ensures Split(Join(parts, sep), sep) == parts
  {
    if |parts| > 1 {
      var rest := Join(parts[1..], sep);
      var s := parts[0] + [sep] + rest;
      assert s[|parts[0]|] == sep;
      var i := IndexOf(s, sep);
      assert s[..|parts[0]|] == parts[0];
      assert i == |parts[0]|;
      assert s[i + 1..] == rest;
      SplitJoin(parts[1..], sep);
    }
  }

  predicate IsPrefix(p: string, s: string) {
    |p| <= |s| && s[..|p|] == p
  }

  /** Python's `pat in s`; the empty pattern is in every string. */
  predicate Contains(s: string, pat: string)
    ensures pat == [] ==> Contains(s, pat)
    ensures Contains(s, pat) ==> |pat| <= |s|
    decreases |s|
  {
    IsPrefix(pat, s) || (s != [] && Contains(s[1..], pat))
  }

  /** A string that contains `q` contains every prefix of `q`. */
  lemma {:induction false} ContainsPrefixOf(s: string, p: string, q: string)
    requires IsPrefix(p, q)
    ensures Contains(s, q) ==> Contains(s, p)
    decreases |s|
  {
    if IsPrefix(q, s) {
      assert s[..|p|] == q[..|p|];
    } else if s != [] {
      ContainsPrefixOf(s[1..], p, q);
    }
  }

  /** An occurrence at any position makes the pattern contained. */
  lemma {:induction false} ContainsAt(s: string, pat: string, j: nat)
    requires j + |pat| <= |s| && s[j..j + |pat|] == pat
    ensures Contains(s, pat)
    decreases j
  {
    if j > 0 {
      assert s[1..][j - 1..j - 1 + |pat|] == s[j..j + |pat|];
      ContainsAt(s[1..], pat, j - 1);
    }
  }

  /** Python's `s.find(pat)`, with `None` in place of -1. */
  function Find(s: string, pat: string): (r: Option<nat>)
    ensures r.Some? <==> Contains(s, pat)
    ensures r.Some? ==> r.value + |pat| <= |s| && s[r.value..r.value + |pat|] == pat
    ensures r.Some? ==> IsPrefix(pat, s[r.value..])
    ensures r.Some? ==> forall j :: 0 <= j < r.value ==> !IsPrefix(pat, s[j..])
    decreases |s|
  {
    if IsPrefix(pat, s) then Some(0)
    else if s == [] then None
    else match Find(s[1..], pat)
      case None => None
      case Some(i) =>
        assert forall j :: 1 <= j <= i ==> s[j..] == s[1..][j - 1..];
        Some(i + 1)
  }

  /** A string lacking a character of the pattern cannot contain the pattern. */
  lemma {:induction false} MissingCharNotContained(s: string, pat: string, c: char)
    requires c in pat && c !in s
    ensures !Contains(s, pat)
    decreases |s|
  {
    if s != [] {
      MissingCharNotContained(s[1..], pat, c);
    }
  }

  /**
   * Python's `s.replace(pat, "")` for a non-empty pattern: the occurrences of
   * `pat`, found left to right without overlap, removed.
   */
  function RemoveAll(s: string, pat: string): (r: string)
    requires pat != []
    ensures |r| <= |s|
    decreases |s|
  {
    if IsPrefix(pat, s) then RemoveAll(s[|pat|..], pat)
    else if s == [] then []
    else [s[0]] + RemoveAll(s[1..], pat)
  }

  /** The first `k` characters, where no occurrence of the pattern starts, are kept as they are. */
  lemma {:induction false} RemoveKeepsFreePrefix(s: string, k: nat, pat: string)
    requires pat != [] && k <= |s|
    requires forall j :: 0 <= j < k ==> !IsPrefix(pat, s[j..])
    ensures RemoveAll(s, pat) == s[..k] + RemoveAll(s[k..], pat)
    decreases k
  {
    if k == 0 {
      assert s[..0] == [] && s[0..] == s;
    } else {
      var t, rest := s[1..], RemoveAll(s[k..], pat);
      assert RemoveAll(s, pat) == [s[0]] + RemoveAll(t, pat) by {
        assert s[0..] == s;
      }
      assert RemoveAll(t, pat) == t[..k - 1] + rest by {
        forall j | 0 <= j < k - 1
          ensures !IsPrefix(pat, t[j..])
        {
          assert t[j..] == s[j + 1..];
        }
        RemoveKeepsFreePrefix(t, k - 1, pat);
        assert t[k - 1..] == s[k..];
      }
      assert [s[0]] + t[..k - 1] == s[..k];
      assert [s[0]] + (t[..k - 1] + rest) == s[..k] + rest;
    }
  }

  /**
   * At the first occurrence of the pattern, what precedes it is kept, the
   * occurrence is dropped, and removal goes on after it.
   */
  lemma RemoveAtFirst(s: string, pat: string, i: nat)
    requires pat != [] && Find(s, pat) == Some(i)
    ensures i + |pat| <= |s|
    ensures RemoveAll(s, pat) == s[..i] + RemoveAll(s[i + |pat|..], pat)
  {
    RemoveKeepsFreePrefix(s, i, pat);
    var b := s[i..];
    assert IsPrefix(pat, b);
    assert b[|pat|..] == s[i + |pat|..];
  }

  /** Removing a pattern that does not occur changes nothing. */
  lemma {:induction false} RemoveAbsent(s: string, pat: string)
    requires pat != [] && !Contains(s, pat)
    ensures RemoveAll(s, pat) == s
    decreases |s|
  {
    if s != [] {
      RemoveAbsent(s[1..], pat);
    }
  }

  /** A leading occurrence is removed together with everything the rest loses. */
  lemma RemoveLeading(pat: string, rest: string)
    requires pat != []
    ensures RemoveAll(pat + rest, pat) == RemoveAll(rest, pat)
  {
    assert (pat + rest)[..|pat|] == pat;
    assert (pat + rest)[|pat|..] == rest;
  }

  function LowerChar(c: char): char {
    if 'A' <= c <= 'Z' then (c as int + 32) as char else c
  }

  /** `s.lower()` on the ASCII letters. */
  function Lower(s: string): (r: string)
    ensures |r| == |s|
    ensures forall i :: 0 <= i < |s| ==> r[i] == LowerChar(s[i])
  {
    seq(|s|, i requires 0 <= i < |s| => LowerChar(s[i]))
  }
}

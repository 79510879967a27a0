/**
 * The few Python `str` operations the geo-matching core relies on:
 * `strip()`, `lower()`, `split(',')`, `find(sub)`, `sub in s` and slicing
 * `s[a:b]` with Python's negative-index and clamping rules.
 * Only the ASCII part of `strip` and `lower` is modelled.
 */
module Text {

  /** The ASCII characters for which Python's `str.isspace()` holds. */
  predicate IsSpace(c: char) {
    c == ' ' || c == '\t' || c == '\n' || c == '\r' || c == '\U{0B}' || c == '\U{0C}'
    || c == '\U{1C}' || c == '\U{1D}' || c == '\U{1E}' || c == '\U{1F}'
  }

  /** Python's `s.lstrip()`. */
  function StripLeft(s: string): string
  {
    if |s| > 0 && IsSpace(s[0]) then StripLeft(s[1..]) else s
  }

  /** Python's `s.rstrip()`. */
  function StripRight(s: string): string
  {
    if |s| > 0 && IsSpace(s[|s| - 1]) then StripRight(s[..|s| - 1]) else s
  }

  /** Python's `s.strip()`. */
  function Strip(s: string): string
  {
    StripRight(StripLeft(s))
  }

  /** `lstrip()` keeps a suffix of `s`, drops only whitespace, and leaves no leading whitespace. */
  lemma {:induction false} StripLeftKeepsSuffix(s: string)
    ensures |StripLeft(s)| <= |s| && StripLeft(s) == s[|s| - |StripLeft(s)|..]
    ensures forall k :: 0 <= k < |s| - |StripLeft(s)| ==> IsSpace(s[k])
    ensures StripLeft(s) == [] || !IsSpace(StripLeft(s)[0])
  {
    if |s| > 0 && IsSpace(s[0]) {
      StripLeftKeepsSuffix(s[1..]);
    }
  }

  /** `rstrip()` keeps a prefix of `s`, drops only whitespace, and leaves no trailing whitespace. */
  lemma {:induction false} StripRightKeepsPrefix(s: string)
    ensures |StripRight(s)| <= |s| && StripRight(s) == s[..|StripRight(s)|]
    ensures forall k :: |StripRight(s)| <= k < |s| ==> IsSpace(s[k])
    ensures StripRight(s) == [] || !IsSpace(StripRight(s)[|StripRight(s)| - 1])
  {
    if |s| > 0 && IsSpace(s[|s| - 1]) {
      StripRightKeepsPrefix(s[..|s| - 1]);
    }
  }

  /**
   * `strip()` keeps the slice `s[i..j]` for some `i <= j`, everything outside
   * it is whitespace, and the result neither starts nor ends with whitespace.
   */
  lemma StripKeepsSlice(s: string) returns (i: nat, j: nat)
    ensures i <= j <= |s| && Strip(s) == s[i..j]
    ensures forall k :: 0 <= k < i || j <= k < |s| ==> IsSpace(s[k])
    ensures Strip(s) == [] || (!IsSpace(Strip(s)[0]) && !IsSpace(Strip(s)[|Strip(s)| - 1]))
  {
    var l := StripLeft(s);
    StripLeftKeepsSuffix(s);
    StripRightKeepsPrefix(l);
    i := |s| - |l|;
    j := i + |StripRight(l)|;
    if Strip(s) != [] {
      assert Strip(s)[0] == l[0];
    }
  }

  /** A string without surrounding whitespace is left alone by `strip()`. */
  lemma StripTrimmed(s: string)
    requires s == [] || (!IsSpace(s[0]) && !IsSpace(s[|s| - 1]))
    ensures Strip(s) == s
  {
  }

  /** `strip()` is idempotent. */
  lemma StripIdempotent(s: string)
    ensures Strip(Strip(s)) == Strip(s)
  {
    var _, _ := StripKeepsSlice(s);
    StripTrimmed(Strip(s));
  }

  predicate IsUpper(c: char) {
    'A' <= c <= 'Z'
  }

  /** ASCII lower-casing of one character: 'A'..'Z' become 'a'..'z', anything else is kept. */
  function LowerChar(c: char): (r: char)
    ensures !IsUpper(r)
    ensures IsUpper(c) ==> 'a' <= r <= 'z' && r as int == c as int + 32
    ensures !IsUpper(c) ==> r == c
  {
    if IsUpper(c) then (c as int + 32) as char else c
  }

  /**
   * Python's `s.lower()` on ASCII letters: each upper-case letter becomes its
   * lower-case counterpart, every other character is kept.
   */
  function Lower(s: string): (r: string)
    ensures |r| == |s|
    ensures forall i :: 0 <= i < |s| ==> r[i] == LowerChar(s[i])
    ensures forall i :: 0 <= i < |r| ==> !IsUpper(r[i])
    ensures forall i :: 0 <= i < |s| && !IsUpper(s[i]) ==> r[i] == s[i]
  {
    seq(|s|, i requires 0 <= i < |s| => LowerChar(s[i]))
  }

  /** `lower()` is idempotent. */
  lemma LowerIdempotent(s: string)
    ensures Lower(Lower(s)) == Lower(s)
  {
  }

  /** `sub` occurs in `s` starting at index `j`. */
  predicate OccursAt(s: string, sub: string, j: int) {
    0 <= j && j + |sub| <= |s| && s[j..j + |sub|] == sub
  }

  /** The first occurrence of `sub` in `s` at or after `from`, or -1. */
  function FindFrom(s: string, sub: string, from: nat): (r: int)
    ensures r == -1 || from <= r <= |s| - |sub|
    ensures r >= 0 ==> OccursAt(s, sub, r)
    ensures r >= 0 ==> forall j :: from <= j < r ==> !OccursAt(s, sub, j)
    ensures r == -1 ==> forall j :: from <= j ==> !OccursAt(s, sub, j)
    decreases |s| - from
  {
    if from + |sub| > |s| then -1
    else if s[from..from + |sub|] == sub then from
    else FindFrom(s, sub, from + 1)
  }

  /**
   * Python's `s.find(sub)`: the index of the first occurrence of `sub`,
   * or -1 when `sub` does not occur at all.
   */
  function Find(s: string, sub: string): (r: int)
    ensures r == -1 || 0 <= r <= |s| - |sub|
    ensures r >= 0 ==> OccursAt(s, sub, r) && forall j :: 0 <= j < r ==> !OccursAt(s, sub, j)
    ensures r == -1 <==> forall j :: !OccursAt(s, sub, j)
  {
    FindFrom(s, sub, 0)
  }

  /** Python's `sub in s` for two strings. */
  predicate HasSubstring(s: string, sub: string) {
    Find(s, sub) != -1
  }

  /** `sub in s` holds exactly when `sub` occurs at some index. */
  lemma HasSubstringOccurs(s: string, sub: string)
    ensures HasSubstring(s, sub) <==> exists j :: OccursAt(s, sub, j)
  {
  }

  /** For a one-character pattern, `find` is the first index holding that character. */
  lemma FindChar(s: string, c: char)
    ensures Find(s, [c]) == -1 <==> c !in s
    ensures Find(s, [c]) >= 0 ==> Find(s, [c]) < |s| && s[Find(s, [c])] == c && c !in s[..Find(s, [c])]
  {
    var r := Find(s, [c]);
    forall j | 0 <= j < |s|
      ensures OccursAt(s, [c], j) <==> s[j] == c
    {
      assert s[j..j + 1] == [s[j]];
    }
    if r >= 0 {
      forall j | 0 <= j < r ensures s[..r][j] != c {
        assert !OccursAt(s, [c], j);
      }
    } else {
      forall j | 0 <= j < |s| ensures s[j] != c {
        assert !OccursAt(s, [c], j);
      }
    }
  }

  /** A Python slice index normalised against a length `n`: negatives count from the end, then clamped to [0, n]. */
  function SliceIndex(i: int, n: nat): (r: nat)
    ensures r <= n
    ensures 0 <= i <= n ==> r == i
    ensures -(n as int) <= i < 0 ==> r == i + n
  {
    if i < 0 then (if i + n < 0 then 0 else i + n)
    else if i > n then n
    else i
  }

  /** Python's `s[start:stop]`. */
  function Slice(s: string, start: int, stop: int): (r: string)
    ensures |r| <= |s|
    ensures 0 <= start <= stop <= |s| ==> r == s[start..stop]
  {
    var lo, hi := SliceIndex(start, |s|), SliceIndex(stop, |s|);
    if lo < hi then s[lo..hi] else []
  }

  /** Python's `s[start:]`. */
  function SliceFrom(s: string, start: int): (r: string)
    ensures |r| <= |s|
    ensures 0 <= start <= |s| ==> r == s[start..]
    ensures start > |s| ==> r == []
    ensures -|s| <= start < 0 ==> r == s[|s| + start..]
  {
    s[SliceIndex(start, |s|)..]
  }

  /** Python's `s.split(sep)` for a one-character separator. */
  function Split(s: string, sep: char): (parts: seq<string>)
    ensures |parts| >= 1
    decreases |s|
  {
    var i := Find(s, [sep]);
    if i < 0 then [s] else [s[..i]] + Split(s[i + 1..], sep)
  }

  /** No part contains the separator, and there are two or more parts exactly when `s` holds the separator. */
  lemma {:induction false} SplitParts(s: string, sep: char)
    ensures forall k :: 0 <= k < |Split(s, sep)| ==> sep !in Split(s, sep)[k]
    ensures |Split(s, sep)| >= 2 <==> sep in s
    decreases |s|
  {
    FindChar(s, sep);
    var i := Find(s, [sep]);
    if i >= 0 {
      SplitParts(s[i + 1..], sep);
    }
  }

  /** Python's `sep.join(parts)` for a one-character separator. */
  function Join(parts: seq<string>, sep: char): string
  {
    if |parts| == 0 then ""
    else if |parts| == 1 then parts[0]
    else parts[0] + [sep] + Join(parts[1..], sep)
  }

  /** Splitting and joining back on the same separator gives the original string. */
  lemma {:induction false} JoinSplit(s: string, sep: char)
    ensures Join(Split(s, sep), sep) == s
    decreases |s|
  {
    FindChar(s, sep);
    var i := Find(s, [sep]);
    if i >= 0 {
      JoinSplit(s[i + 1..], sep);
      assert s == s[..i] + [sep] + s[i + 1..];
    }
  }

  /** A string without the separator splits into itself alone. */
  lemma SplitNoSeparator(s: string, sep: char)
    requires sep !in s
    ensures Split(s, sep) == [s]
  {
    FindChar(s, sep);
  }

  /** Splitting at the first separator: the part before it, then the split of the rest. */
  lemma SplitFirst(a: string, sep: char, b: string)
    requires sep !in a
    ensures Split(a + [sep] + b, sep) == [a] + Split(b, sep)
  {
    var s := a + [sep] + b;
    assert s[..|a|] == a;
    assert s[|a| + 1..] == b;
    FindChar(s, sep);
    assert s[|a|] == sep;
  }

  /** Splitting a joined list of separator-free parts gives the parts back. */
  lemma {:induction false} SplitJoin(parts: seq<string>, sep: char)
    requires |parts| >= 1
    requires forall k :: 0 <= k < |parts| ==> sep !in parts[k]
    ensures Split(Join(parts, sep), sep) == parts
  {
    if |parts| == 1 {
      SplitNoSeparator(parts[0], sep);
    } else {
      SplitFirst(parts[0], sep, Join(parts[1..], sep));
      SplitJoin(parts[1..], sep);
      assert parts == [parts[0]] + parts[1..];
    }
  }
}

/**
 * The few functions of Go's `strings` package the engine relies on, over strings of
 * characters. Separators are single characters here (the source only splits on one
 * parenthesis at a time), and `LastIndex` searches for a whole substring.
 */
module GoStrings {

  /** `strings.Index` for a one-character separator: the first position of `c`, or -1. */
  function IndexOf(s: string, c: char): (i: int)
    ensures -1 <= i < |s|
    ensures i == -1 <==> c !in s
    ensures 0 <= i ==> s[i] == c && c !in s[..i]
  {
    if s == [] then -1
    else if s[0] == c then 0
    else
      var j := IndexOf(s[1..], c);
      if j == -1 then -1
      else
        assert s[..j + 1] == [s[0]] + s[1..][..j];
        j + 1
  }

  /** Glues the parts back together with the separator between consecutive parts. */
  function Join(parts: seq<string>, sep: char): string
    requires |parts| >= 1
  {
    if |parts| == 1 then parts[0] else parts[0] + [sep] + Join(parts[1..], sep)
  }

  /**
   * `strings.Split` with a one-character separator: the pieces between consecutive
   * separators, so that joining them again gives back the input.
   */
  function Split(s: string, sep: char): (parts: seq<string>)
    ensures |parts| >= 1
    ensures forall k :: 0 <= k < |parts| ==> sep !in parts[k]
    ensures Join(parts, sep) == s
    ensures |parts| == 1 <==> sep !in s
    ensures sep in s ==> parts[0] == s[..IndexOf(s, sep)]
    decreases |s|
  {
    var i := IndexOf(s, sep);
    if i < 0 then [s]
    else
      var rest := Split(s[i + 1..], sep);
      var parts := [s[..i]] + rest;
      JoinCons(s[..i], rest, sep);
      Around(s, i);
      assert forall k :: 1 <= k < |parts| ==> parts[k] == rest[k - 1];
      parts
  }

  /** A string is the part before position `i`, the character there, and the part after it. */
  lemma Around(s: string, i: int)
    requires 0 <= i < |s|
    ensures s == s[..i] + [s[i]] + s[i + 1..]
  {
  }

  lemma {:induction false} JoinCons(part: string, rest: seq<string>, sep: char)
    requires |rest| >= 1
    ensures Join([part] + rest, sep) == part + [sep] + Join(rest, sep)
  {
    assert ([part] + rest)[1..] == rest;
  }

  /** The position of the first `c` is the one with `c` there and none before it. */
  lemma IndexOfAt(s: string, c: char, i: int)
    requires 0 <= i < |s| && s[i] == c && c !in s[..i]
    ensures IndexOf(s, c) == i
  {
  }

  /** The second piece of a split runs from just after the first separator to the next one, or to the end. */
  lemma SplitSecond(s: string, sep: char)
    requires sep in s
    ensures var t := s[IndexOf(s, sep) + 1..];
            Split(s, sep)[1] == if sep in t then t[..IndexOf(t, sep)] else t
  {
  }

  /** Whether `sub` occurs in `s` starting at position `j`. */
  predicate OccursAt(s: string, sub: string, j: int)
  {
    0 <= j && j + |sub| <= |s| && s[j..j + |sub|] == sub
  }

  /** `strings.Contains`: whether `sub` occurs somewhere in `s`. */
  predicate Contains(s: string, sub: string)
  {
    exists j :: 0 <= j <= |s| - |sub| && OccursAt(s, sub, j)
  }

  /** A string contains each of its prefixes. */
  lemma ContainsPrefix(sub: string, rest: string)
    ensures Contains(sub + rest, sub)
  {
    assert OccursAt(sub + rest, sub, 0) by {
      assert (sub + rest)[0..|sub|] == sub;
    }
  }

  /** Searches the start positions `k`, `k - 1`, ..., `0` for an occurrence of `sub`. */
  function LastIndexFrom(s: string, sub: string, k: int): (i: int)
    requires -1 <= k && k + |sub| <= |s|
    ensures -1 <= i <= k
    ensures i >= 0 ==> OccursAt(s, sub, i)
    ensures forall j :: i < j <= k ==> !OccursAt(s, sub, j)
    decreases k + 1
  {
    if k < 0 then -1
    else if s[k..k + |sub|] == sub then k
    else LastIndexFrom(s, sub, k - 1)
  }

  /**
   * `strings.LastIndex`: the start of the last occurrence of `sub` in `s`, or -1. As in
   * Go, the empty substring is found at the very end.
   */
  function LastIndex(s: string, sub: string): (i: int)
    ensures i >= 0 ==> OccursAt(s, sub, i)
    ensures forall j :: i < j ==> !OccursAt(s, sub, j)
  {
    if |sub| > |s| then -1 else LastIndexFrom(s, sub, |s| - |sub|)
  }

  /** A string that ends with `sub` has its last occurrence of `sub` right at that end. */
  lemma LastIndexOfSuffix(p: string, sub: string)
    ensures LastIndex(p + sub, sub) == |p|
  {
    assert OccursAt(p + sub, sub, |p|) by {
      assert (p + sub)[|p|..|p| + |sub|] == sub;
    }
  }

  /** The characters Go's `unicode.IsSpace` reports as white space. */
  const WhiteSpace: set<char> := {
    '\t', '\n', '\U{000B}', '\U{000C}', '\r', ' ', '\U{0085}', '\U{00A0}', '\U{1680}',
    '\U{2000}', '\U{2001}', '\U{2002}', '\U{2003}', '\U{2004}', '\U{2005}', '\U{2006}',
    '\U{2007}', '\U{2008}', '\U{2009}', '\U{200A}',
    '\U{2028}', '\U{2029}', '\U{202F}', '\U{205F}', '\U{3000}'}

  predicate IsSpace(c: char)
  {
    c in WhiteSpace
  }

  /** Scans forward from `i` past white space: the first position from `i` on that is not. */
  function SkipSpace(s: string, i: nat): (n: nat)
    requires i <= |s|
    ensures i <= n <= |s|
    ensures forall k :: i <= k < n ==> IsSpace(s[k])
    ensures n == |s| || !IsSpace(s[n])
    decreases |s| - i
  {
    if i < |s| && IsSpace(s[i]) then SkipSpace(s, i + 1) else i
  }

  /** Scans backward from `j` down to `lo` past white space: the end of the last character that is not. */
  function SkipSpaceBack(s: string, lo: nat, j: nat): (n: nat)
    requires lo <= j <= |s|
    ensures lo <= n <= j
    ensures forall k :: n <= k < j ==> IsSpace(s[k])
    ensures n == lo || !IsSpace(s[n - 1])
    decreases j
  {
    if lo < j && IsSpace(s[j - 1]) then SkipSpaceBack(s, lo, j - 1) else j
  }

  /** `r` is `s[i..j]` with only white space before `i` and from `j` on. */
  predicate Sliced(s: string, r: string, i: int, j: int)
  {
    && 0 <= i <= j <= |s| && r == s[i..j]
    && (forall k :: 0 <= k < i ==> IsSpace(s[k]))
    && (forall k :: j <= k < |s| ==> IsSpace(s[k]))
  }

  /** `strings.TrimSpace`: the input without its leading and trailing white space. */
  function TrimSpace(s: string): (r: string)
    ensures r == [] || (!IsSpace(r[0]) && !IsSpace(r[|r| - 1]))
    ensures exists i, j :: Sliced(s, r, i, j)
    ensures forall c :: c in r ==> c in s
  {
    var i := SkipSpace(s, 0);
    var j := SkipSpaceBack(s, i, |s|);
    assert Sliced(s, s[i..j], i, j);
    s[i..j]
  }

  /** Text without white space at either end is left as it is. */
  lemma {:induction false} TrimSpaceKeepsTrimmed(s: string)
    requires s == [] || (!IsSpace(s[0]) && !IsSpace(s[|s| - 1]))
    ensures TrimSpace(s) == s
  {
  }
}

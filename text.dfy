/**
 * The handful of Python `str` operations the configuration loader relies on:
 * `strip()`, `strip(chars)`, `startswith`, the first occurrence of a character
 * and `lower()`.
 */
module Text {
  import opened Wrappers

  /** The characters for which Python's `str.isspace()` holds; `str.strip()` with no argument removes them. */
  const Whitespace: set<char> := {
    ' ', '\t', '\n', '\U{b}', '\U{c}', '\r', '\U{1c}', '\U{1d}', '\U{1e}', '\U{1f}', '\U{85}', '\U{a0}', '\U{1680}',
    '\U{2000}', '\U{2001}', '\U{2002}', '\U{2003}', '\U{2004}', '\U{2005}', '\U{2006}', '\U{2007}', '\U{2008}',
    '\U{2009}', '\U{200a}', '\U{2028}', '\U{2029}', '\U{202f}', '\U{205f}', '\U{3000}'
  }

  predicate IsSpace(c: char) {
    c in Whitespace
  }

  /** Removes the leading characters that satisfy `drop` (Python's `lstrip`). */
  function TrimStart(s: string, drop: char -> bool): string {
    if s != [] && drop(s[0]) then TrimStart(s[1..], drop) else s
  }

  /** Removes the trailing characters that satisfy `drop` (Python's `rstrip`). */
  function TrimEnd(s: string, drop: char -> bool): string {
    if s != [] && drop(s[|s| - 1]) then TrimEnd(s[..|s| - 1], drop) else s
  }

  /**
   * Python's `strip`: both ends lose every character that satisfies `drop`,
   * however many there are, and the middle is kept as it is.
   */
  function Trim(s: string, drop: char -> bool): string {
    TrimEnd(TrimStart(s, drop), drop)
  }

  /** `TrimStart` keeps a suffix, drops only characters that satisfy `drop`, and stops at the first that does not. */
  lemma {:induction false} TrimStartSpec(s: string, drop: char -> bool)
    ensures var r := TrimStart(s, drop);
      && |r| <= |s| && r == s[|s| - |r|..]
      && (forall k :: 0 <= k < |s| - |r| ==> drop(s[k]))
      && (r == [] || !drop(r[0]))
  {
    if s != [] && drop(s[0]) {
      var t := s[1..];
      TrimStartSpec(t, drop);
      var r := TrimStart(t, drop);
      assert TrimStart(s, drop) == r;
      assert t[|t| - |r|..] == s[|s| - |r|..];
      forall k | 0 <= k < |s| - |r|
        ensures drop(s[k])
      {
        if k > 0 {
          assert s[k] == t[k - 1];
        }
      }
    }
  }

  /** `TrimEnd` keeps a prefix, drops only characters that satisfy `drop`, and stops at the last that does not. */
  lemma {:induction false} TrimEndSpec(s: string, drop: char -> bool)
    ensures var r := TrimEnd(s, drop);
      && |r| <= |s| && r == s[..|r|]
      && (forall k :: |r| <= k < |s| ==> drop(s[k]))
      && (r == [] || !drop(r[|r| - 1]))
  {
    if s != [] && drop(s[|s| - 1]) {
      var t := s[..|s| - 1];
      TrimEndSpec(t, drop);
      var r := TrimEnd(t, drop);
      assert TrimEnd(s, drop) == r;
      assert t[..|r|] == s[..|r|];
      forall k | |r| <= k < |s|
        ensures drop(s[k])
      {
        if k < |s| - 1 {
          assert s[k] == t[k];
        }
      }
    }
  }

  /** What `Trim` guarantees: neither end of the result can be dropped, and a string already trimmed is kept. */
  lemma TrimSpec(s: string, drop: char -> bool)
    ensures var r := Trim(s, drop);
      && |r| <= |s|
      && (r == [] || (!drop(r[0]) && !drop(r[|r| - 1])))
      && ((s == [] || (!drop(s[0]) && !drop(s[|s| - 1]))) ==> r == s)
      && (forall c :: c in r ==> c in s)
  {
    TrimStartSpec(s, drop);
    var t := TrimStart(s, drop);
    TrimEndSpec(t, drop);
    var r := TrimEnd(t, drop);
    if r != [] {
      assert r[0] == t[0];
    }
    forall c | c in r ensures c in s {
      var k :| 0 <= k < |r| && r[k] == c;
      assert c == s[|s| - |t| + k];
    }
  }

  predicate StartsWith(s: string, prefix: string) {
    |prefix| <= |s| && s[..|prefix|] == prefix
  }

  /** The position of the first occurrence of `c` in `s`, if any. */
  function IndexOf(s: string, c: char): Option<nat> {
    if s == [] then None
    else if s[0] == c then Some(0)
    else match IndexOf(s[1..], c)
      case None => None
      case Some(i) => Some(i + 1)
  }

  /** `IndexOf` finds `c` exactly when `c` occurs, and then at its first occurrence. */
  lemma {:induction false} IndexOfSpec(s: string, c: char)
    ensures IndexOf(s, c).None? <==> c !in s
    ensures IndexOf(s, c).Some? ==> var i := IndexOf(s, c).value; i < |s| && s[i] == c && c !in s[..i]
  {
    if s != [] && s[0] != c {
      IndexOfSpec(s[1..], c);
      assert s == [s[0]] + s[1..];
      if IndexOf(s[1..], c).Some? {
        var i := IndexOf(s[1..], c).value;
        assert s[..i + 1] == [s[0]] + s[1..][..i];
      }
    }
  }

  /** Python's `lower()` on one character, restricted to ASCII letters. */
  function LowerChar(c: char): (r: char)
    ensures 'A' <= c <= 'Z' ==> 'a' <= r <= 'z' && r as int - 'a' as int == c as int - 'A' as int
    ensures !('A' <= c <= 'Z') ==> r == c
  {
    if 'A' <= c <= 'Z' then (c as int - 'A' as int + 'a' as int) as char else c
  }

  /** Python's `lower()`, restricted to ASCII letters: each upper-case letter becomes its own lower-case letter. */
  function Lower(s: string): (r: string)
    ensures |r| == |s| && IsLower(r)
    ensures forall i :: 0 <= i < |s| && !('A' <= s[i] <= 'Z') ==> r[i] == s[i]
    ensures forall i :: 0 <= i < |s| && 'A' <= s[i] <= 'Z' ==> r[i] as int - 'a' as int == s[i] as int - 'A' as int
  {
    seq(|s|, i requires 0 <= i < |s| => LowerChar(s[i]))
  }

  predicate IsLower(s: string) {
    forall i :: 0 <= i < |s| ==> !('A' <= s[i] <= 'Z')
  }

  /** Lower-casing leaves nothing to lower-case: its result is a fixed point. */
  lemma LowerIsLower(s: string)
    ensures IsLower(Lower(s))
    ensures Lower(Lower(s)) == Lower(s)
  {
  }

  /** Trimming removes exactly a run of droppable characters at either end and stops at the first one that is not. */
  lemma TrimBetween(pre: string, mid: string, post: string, drop: char -> bool)
    requires forall k :: 0 <= k < |pre| ==> drop(pre[k])
    requires forall k :: 0 <= k < |post| ==> drop(post[k])
    requires mid == [] || (!drop(mid[0]) && !drop(mid[|mid| - 1]))
    ensures Trim(pre + mid + post, drop) == mid
  {
    var s := pre + mid + post;
    var t := TrimStart(s, drop);
    TrimStartSpec(s, drop);
    if mid == [] {
      assert forall k :: 0 <= k < |s| ==> drop(s[k]) by {
        forall k | 0 <= k < |s| ensures drop(s[k]) {
          if k < |pre| { assert s[k] == pre[k]; } else { assert s[k] == post[k - |pre|]; }
        }
      }
      assert t == [];
    } else {
      assert s[|pre|] == mid[0];
      assert |s| - |t| == |pre|;
      assert t == mid + post;
      var u := TrimEnd(t, drop);
      TrimEndSpec(t, drop);
      assert t[|mid| - 1] == mid[|mid| - 1];
      assert |u| == |mid|;
      assert u == t[..|mid|] == mid;
    }
  }
}

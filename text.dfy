/** The two `java.lang.String` operations the validators rely on: `trim` and `contains`. */
module Text {

  /** `String.trim` strips every character whose code is at most U+0020 (space). */
  predicate IsTrimmable(c: char)
  {
    c <= ' '
  }

  /** Every character of `s` is one that `trim` strips. */
  ghost predicate AllTrimmable(s: string)
  {
    forall k :: 0 <= k < |s| ==> IsTrimmable(s[k])
  }

  /** The leading run of trimmable characters removed: the longest suffix of `s` that does not start with one. */
  function TrimStart(s: string): (r: string)
    ensures |r| <= |s| && r == s[|s| - |r|..]
    ensures forall k :: 0 <= k < |s| - |r| ==> IsTrimmable(s[k])
    ensures r == [] || !IsTrimmable(r[0])
  {
    if s != [] && IsTrimmable(s[0]) then TrimStart(s[1..]) else s
  }

  /** The trailing run of trimmable characters removed: the longest prefix of `s` that does not end with one. */
  function TrimEnd(s: string): (r: string)
    ensures |r| <= |s| && r == s[..|r|]
    ensures forall k :: |r| <= k < |s| ==> IsTrimmable(s[k])
    ensures r == [] || !IsTrimmable(r[|r| - 1])
  {
    if s != [] && IsTrimmable(s[|s| - 1]) then TrimEnd(s[..|s| - 1]) else s
  }

  /** `s[i..j]` is what `trim` must return for `s`: everything outside it is trimmable, and
      when it is not empty it neither starts nor ends with a trimmable character. */
  ghost predicate TrimBounds(s: string, i: int, j: int)
  {
    && 0 <= i <= j <= |s|
    && (forall k :: 0 <= k < i ==> IsTrimmable(s[k]))
    && (forall k :: j <= k < |s| ==> IsTrimmable(s[k]))
    && (i < j ==> !IsTrimmable(s[i]) && !IsTrimmable(s[j - 1]))
  }

  /** `r` is a result `trim` may give for `s`. */
  ghost predicate IsTrimOf(s: string, r: string)
  {
    exists i, j :: TrimBounds(s, i, j) && r == s[i..j]
  }

  /** `String.trim`. */
  function Trim(s: string): (r: string)
    ensures IsTrimOf(s, r)
    ensures r == [] <==> AllTrimmable(s)
  {
    var a := TrimStart(s);
    var r := TrimEnd(a);
    var i := |s| - |a|;
    assert TrimBounds(s, i, i + |r|) && r == s[i..i + |r|];
    r
  }

  /** The bounds `trim` keeps are determined by `s`, up to where an all-trimmable `s` is cut. */
  lemma TrimBoundsUnique(s: string, i1: int, j1: int, i2: int, j2: int)
    requires TrimBounds(s, i1, j1) && TrimBounds(s, i2, j2)
    ensures s[i1..j1] == s[i2..j2]
  {
    if i1 < j1 && i2 < j2 {
      assert i1 == i2 && j1 == j2;
    }
  }

  /** So `trim` has exactly one result: the one `Trim` computes. */
  lemma TrimOfUnique(s: string, r: string)
    requires IsTrimOf(s, r)
    ensures r == Trim(s)
  {
    var i1, j1 :| TrimBounds(s, i1, j1) && r == s[i1..j1];
    var i2, j2 :| TrimBounds(s, i2, j2) && Trim(s) == s[i2..j2];
    TrimBoundsUnique(s, i1, j1, i2, j2);
  }

  /** `s` starts with `prefix`. */
  predicate StartsWith(s: string, prefix: string)
  {
    |prefix| <= |s| && s[..|prefix|] == prefix
  }

  /** `String.contains`: `sub` occurs somewhere in `s` as a contiguous slice. */
  function Contains(s: string, sub: string): (b: bool)
    ensures b <==> exists i :: 0 <= i <= |s| - |sub| && s[i..][..|sub|] == sub
    decreases |s|
  {
    if StartsWith(s, sub) then
      assert s[0..][..|sub|] == sub;
      true
    else if s == [] then
      false
    else
      var b := Contains(s[1..], sub);
      assert forall i :: 1 <= i <= |s| ==> s[i..] == s[1..][i - 1..];
      b
  }

  /** Containing a one-character string is membership of that character. */
  lemma ContainsChar(s: string, c: char)
    ensures Contains(s, [c]) <==> c in s
  {
    if c in s {
      var i :| 0 <= i < |s| && s[i] == c;
      assert s[i..][..1] == [c];
    }
    if Contains(s, [c]) {
      var i :| 0 <= i <= |s| - 1 && s[i..][..1] == [c];
      assert s[i] == s[i..][..1][0];
    }
  }
}

/**
  Java's `String.trim()`: it removes every leading and trailing character
  whose code is at most U+0020 (space and all control characters), and
  keeps the rest, inner blanks included.
 */
module JavaText {

  /** A character that `trim()` strips from either end. */
  predicate IsTrimmable(c: char) {
    c <= ' '
  }

  /** Every character of `s` is one `trim()` strips. */
  ghost predicate AllTrimmable(s: string) {
    forall k :: 0 <= k < |s| ==> IsTrimmable(s[k])
  }

  /** The first index at or after `i` whose character survives `trim()`, or `|s|`. */
  function SkipLeading(s: string, i: nat): (n: nat)
    requires i <= |s|
    ensures i <= n <= |s|
    ensures forall k :: i <= k < n ==> IsTrimmable(s[k])
    ensures n < |s| ==> !IsTrimmable(s[n])
    decreases |s| - i
  {
    if i < |s| && IsTrimmable(s[i]) then SkipLeading(s, i + 1) else i
  }

  /**
    Walking back from `j`, but not below `lo`: the end of the part that
    survives `trim()`.
   */
  function SkipTrailing(s: string, lo: nat, j: nat): (n: nat)
    requires lo <= j <= |s|
    ensures lo <= n <= j
    ensures forall k :: n <= k < j ==> IsTrimmable(s[k])
    ensures lo < n ==> !IsTrimmable(s[n - 1])
    decreases j
  {
    if lo < j && IsTrimmable(s[j - 1]) then SkipTrailing(s, lo, j - 1) else j
  }

  /**
    `s.trim()`. The result is a slice of `s`: everything before it and
    after it is trimmable, and its own first and last characters are not.
   */
  function Trim(s: string): (r: string)
    ensures |r| <= |s|
    ensures r != [] ==> !IsTrimmable(r[0]) && !IsTrimmable(r[|r| - 1])
    ensures r == [] <==> AllTrimmable(s)
    ensures exists a, b :: 0 <= a <= b <= |s| && r == s[a..b] && AllTrimmable(s[..a]) && AllTrimmable(s[b..])
  {
    var start := SkipLeading(s, 0);
    var end := SkipTrailing(s, start, |s|);
    assert AllTrimmable(s[..start]);
    assert AllTrimmable(s[end..]);
    s[start..end]
  }

  /** `s.trim().isEmpty()`: the string holds nothing but trimmable characters. */
  function IsBlank(s: string): (b: bool)
    ensures b <==> AllTrimmable(s)
  {
    Trim(s) == []
  }
}

/**
 * The two operations of java.lang.String that library-name resolution relies
 * on: `indexOf(String)`, the first occurrence of a substring, and `trim()`,
 * which removes every character at or below U+0020 from both ends.
 */
module JavaString {

  /** `indexOf` answers this when the substring does not occur. */
  const NotFound: int := -1

  /** `t` occurs in `s` starting at index `k`. */
  predicate OccursAt(s: string, t: string, k: nat) {
    k + |t| <= |s| && s[k..k + |t|] == t
  }

  /** First occurrence of `t` in `s` at or after index `i`. */
  function IndexOfFrom(s: string, t: string, i: nat): (r: int)
    requires i <= |s|
    ensures r == NotFound || (i <= r && OccursAt(s, t, r))
    ensures r == NotFound ==> forall k: nat :: i <= k ==> !OccursAt(s, t, k)
    ensures r != NotFound ==> forall k: nat :: i <= k < r ==> !OccursAt(s, t, k)
    decreases |s| - i
  {
    if OccursAt(s, t, i) then i
    else if i == |s| then NotFound
    else IndexOfFrom(s, t, i + 1)
  }

  /** `s.indexOf(t)`: the least index where `t` occurs, or -1 when none does. */
  function IndexOf(s: string, t: string): (r: int)
    ensures r == NotFound ==> forall k: nat :: !OccursAt(s, t, k)
    ensures r != NotFound ==> 0 <= r && OccursAt(s, t, r)
    ensures r != NotFound ==> forall k: nat :: k < r ==> !OccursAt(s, t, k)
  {
    IndexOfFrom(s, t, 0)
  }

  /** The first occurrence is the one `IndexOf` reports. */
  lemma IndexOfFirst(s: string, t: string, k: nat)
    requires OccursAt(s, t, k)
    requires forall j: nat :: j < k ==> !OccursAt(s, t, j)
    ensures IndexOf(s, t) == k
  {
  }

  /** `trim` treats every character at or below the space character as blank. */
  predicate Blank(c: char) {
    c <= ' '
  }

  predicate AllBlank(s: string) {
    forall k :: 0 <= k < |s| ==> Blank(s[k])
  }

  /** Number of blank characters at the start of `s`. */
  function LeadingBlanks(s: string): (n: nat)
    ensures n <= |s|
    ensures forall k :: 0 <= k < n ==> Blank(s[k])
    ensures n < |s| ==> !Blank(s[n])
  {
    if |s| == 0 || !Blank(s[0]) then 0
    else
      var m := LeadingBlanks(s[1..]);
      assert forall k :: 1 <= k < 1 + m ==> s[k] == s[1..][k - 1];
      1 + m
  }

  /** Number of blank characters at the end of `s`. */
  function TrailingBlanks(s: string): (n: nat)
    ensures n <= |s|
    ensures forall k :: |s| - n <= k < |s| ==> Blank(s[k])
    ensures n < |s| ==> !Blank(s[|s| - 1 - n])
  {
    if |s| == 0 || !Blank(s[|s| - 1]) then 0
    else
      var init := s[..|s| - 1];
      var m := TrailingBlanks(init);
      assert forall k :: |s| - (1 + m) <= k < |s| - 1 ==> s[k] == init[k];
      1 + m
  }

  /**
   * `s.trim()`: the leading blanks are skipped first, then the trailing
   * blanks of what remains.  The result is the slice of `s` that starts
   * after the leading blanks, and everything after it is blank.
   */
  function Trim(s: string): (r: string)
    ensures |r| <= |s|
    ensures LeadingBlanks(s) + |r| <= |s|
    ensures r == s[LeadingBlanks(s)..LeadingBlanks(s) + |r|]
    ensures forall k :: LeadingBlanks(s) + |r| <= k < |s| ==> Blank(s[k])
    ensures |r| > 0 ==> !Blank(r[0]) && !Blank(r[|r| - 1])
  {
    var st := LeadingBlanks(s);
    var rest := s[st..];
    var r := rest[..|rest| - TrailingBlanks(rest)];
    assert forall k :: st + |r| <= k < |s| ==> s[k] == rest[k - st];
    r
  }

  /** `trim` yields the empty string exactly when every character is blank. */
  lemma TrimEmptyIff(s: string)
    ensures Trim(s) == [] <==> AllBlank(s)
  {
    var n := LeadingBlanks(s);
    if Trim(s) != [] {
      assert !Blank(s[n]);
    }
  }

  /**
   * Reference characterisation: whatever blank prefix and suffix surround a
   * core that is empty or starts and ends with a non-blank, `trim` returns
   * exactly that core.
   */
  lemma TrimOfPadded(a: string, m: string, b: string)
    requires AllBlank(a) && AllBlank(b)
    requires |m| > 0 ==> !Blank(m[0]) && !Blank(m[|m| - 1])
    ensures Trim(a + m + b) == m
  {
    var s := a + m + b;
    var e := |a| + |m|;
    assert forall k :: 0 <= k < |a| ==> s[k] == a[k];
    assert forall k :: |a| <= k < e ==> s[k] == m[k - |a|];
    assert forall k :: e <= k < |s| ==> s[k] == b[k - e];
    if m == [] {
      TrimEmptyIff(s);
    } else {
      var n := LeadingBlanks(s);
      assert forall k :: 0 <= k < |a| ==> Blank(s[k]);
      assert !Blank(s[|a|]);
      assert n == |a|;
      var r := Trim(s);
      assert |a| + |r| >= e by {
        assert !Blank(s[e - 1]);
      }
      assert |a| + |r| <= e by {
        assert r[|r| - 1] == s[|a| + |r| - 1];
      }
      assert r == s[|a|..e];
    }
  }

  /** Trimming twice changes nothing beyond trimming once. */
  lemma TrimIdempotent(s: string)
    ensures Trim(Trim(s)) == Trim(s)
  {
    var r := Trim(s);
    assert r == [] + r + [];
    TrimOfPadded([], r, []);
  }

  /**
   * Every string falls apart into its leading blanks, its trimmed core and
   * its trailing blanks.
   */
  lemma TrimDecomposes(s: string)
    ensures s == s[..LeadingBlanks(s)] + Trim(s) + s[LeadingBlanks(s) + |Trim(s)|..]
  {
    var n := LeadingBlanks(s);
    var r := Trim(s);
    assert r == s[n..n + |r|];
    assert s == s[..n] + s[n..n + |r|] + s[n + |r|..];
  }
}

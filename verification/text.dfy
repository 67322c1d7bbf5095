/** Python's `str.strip()` with no argument, which `get_code` applies to the
    query before anything else. */
module Text {

  /** The characters Python's `str.isspace` accepts: the ASCII controls
      TAB..CR and FS..US, SPACE, NEL, NO-BREAK SPACE, and the Unicode space
      separators and line/paragraph separators. */
  predicate IsSpace(ch: char) {
    || ('\t' <= ch <= '\r')
    || ('\U{1C}' <= ch <= ' ')
    || ch == '\U{85}'
    || ch == '\U{A0}'
    || ch == '\U{1680}'
    || ('\U{2000}' <= ch <= '\U{200A}')
    || ch == '\U{2028}'
    || ch == '\U{2029}'
    || ch == '\U{202F}'
    || ch == '\U{205F}'
    || ch == '\U{3000}'
  }

  /** Every character of `s` is whitespace (vacuously so for the empty string). */
  predicate AllSpace(s: string) {
    forall i :: 0 <= i < |s| ==> IsSpace(s[i])
  }

  /** `s` neither starts nor ends with whitespace. */
  predicate Stripped(s: string) {
    s == [] || (!IsSpace(s[0]) && !IsSpace(s[|s| - 1]))
  }

  /** The first position at or after `i` that is not whitespace (or the end
      of `s`): everything skipped is whitespace. */
  function SkipSpaceForward(s: string, i: nat): (r: nat)
    requires i <= |s|
    ensures i <= r <= |s|
    ensures forall k :: i <= k < r ==> IsSpace(s[k])
    ensures r == |s| || !IsSpace(s[r])
    decreases |s| - i
  {
    if i == |s| || !IsSpace(s[i]) then i else SkipSpaceForward(s, i + 1)
  }

  /** The end of the stretch `s[lo..j]` once trailing whitespace is dropped:
      everything dropped is whitespace, and what remains is empty or ends in
      a non-whitespace character. */
  function SkipSpaceBackward(s: string, lo: nat, j: nat): (r: nat)
    requires lo <= j <= |s|
    ensures lo <= r <= j
    ensures forall k :: r <= k < j ==> IsSpace(s[k])
    ensures r == lo || !IsSpace(s[r - 1])
    decreases j
  {
    if j == lo || !IsSpace(s[j - 1]) then j else SkipSpaceBackward(s, lo, j - 1)
  }

  /** `str.strip()`: the query with whitespace removed at both ends. It is
      empty exactly when the query is whitespace only, and otherwise neither
      starts nor ends with whitespace (`TrimIsSlice` states where it comes
      from in the query). */
  function Trim(s: string): (r: string)
    ensures r == [] <==> AllSpace(s)
    ensures Stripped(r)
    ensures |r| <= |s|
  {
    var i := SkipSpaceForward(s, 0);
    var j := SkipSpaceBackward(s, i, |s|);
    if i == j then []
    else
      s[i..j]
  }

  /** The trimmed query is a slice of the query, and only whitespace lies
      outside that slice on either side. */
  lemma TrimIsSlice(s: string)
    ensures exists i, j :: 0 <= i <= j <= |s| && Trim(s) == s[i..j] && AllSpace(s[..i]) && AllSpace(s[j..])
  {
    var i := SkipSpaceForward(s, 0);
    var j := SkipSpaceBackward(s, i, |s|);
    assert AllSpace(s[..i]) && AllSpace(s[j..]);
    assert s[i..i] == [];
  }

  /** Skipping forward stops exactly at the first non-whitespace position. */
  lemma SkipSpaceForwardAt(s: string, i: nat, n: nat)
    requires i <= n <= |s|
    requires forall k :: i <= k < n ==> IsSpace(s[k])
    requires n == |s| || !IsSpace(s[n])
    ensures SkipSpaceForward(s, i) == n
  {
  }

  /** Skipping backward stops exactly after the last non-whitespace position. */
  lemma SkipSpaceBackwardAt(s: string, lo: nat, j: nat, n: nat)
    requires lo <= n <= j <= |s|
    requires forall k :: n <= k < j ==> IsSpace(s[k])
    requires n == lo || !IsSpace(s[n - 1])
    ensures SkipSpaceBackward(s, lo, j) == n
  {
  }

  /** Trimming is characterised by padding: whatever `m` is wrapped in
      whitespace on both sides, trimming gives back `m` exactly when `m`
      itself neither starts nor ends with whitespace. */
  lemma TrimOfPadded(a: string, m: string, b: string)
    requires AllSpace(a) && AllSpace(b) && Stripped(m)
    ensures Trim(a + m + b) == m
  {
    var s := a + m + b;
    if m == [] {
      assert forall k :: 0 <= k < |s| ==> IsSpace(s[k]) by {
        forall k | 0 <= k < |s| ensures IsSpace(s[k]) {
          if k < |a| { assert s[k] == a[k]; } else { assert s[k] == b[k - |a|]; }
        }
      }
    } else {
      var lo, hi := |a|, |a| + |m|;
      assert forall k :: 0 <= k < lo ==> s[k] == a[k];
      assert forall k :: hi <= k < |s| ==> s[k] == b[k - hi];
      assert s[lo] == m[0] && s[hi - 1] == m[|m| - 1];
      SkipSpaceForwardAt(s, 0, lo);
      SkipSpaceBackwardAt(s, lo, |s|, hi);
      assert s[lo..hi] == m;
    }
  }

  /** A string with no whitespace at either end is its own trim. */
  lemma TrimKeepsStripped(s: string)
    requires Stripped(s)
    ensures Trim(s) == s
  {
  }

  /** Whitespace followed by whitespace is whitespace. */
  lemma AllSpaceConcat(x: string, y: string)
    requires AllSpace(x) && AllSpace(y)
    ensures AllSpace(x + y)
  {
    forall k | 0 <= k < |x + y|
      ensures IsSpace((x + y)[k])
    {
      if k < |x| { assert (x + y)[k] == x[k]; } else { assert (x + y)[k] == y[k - |x|]; }
    }
  }

  /** A string is its prefix, middle and suffix put back together. */
  lemma SplitThree(s: string, i: nat, j: nat)
    requires i <= j <= |s|
    ensures s == s[..i] + s[i..j] + s[j..]
  {
  }

  /** Regrouping five pieces of a concatenation. */
  lemma Regroup(a: string, pre: string, t: string, post: string, b: string)
    ensures a + (pre + t + post) + b == (a + pre) + t + (post + b)
  {
  }

  /** Every string is its trim wrapped in the whitespace that trimming
      dropped on either side. */
  lemma TrimParts(s: string) returns (pre: string, post: string)
    ensures AllSpace(pre) && AllSpace(post)
    ensures s == pre + Trim(s) + post
  {
    var i := SkipSpaceForward(s, 0);
    var j := SkipSpaceBackward(s, i, |s|);
    pre, post := s[..i], s[j..];
    assert Trim(s) == s[i..j] by {
      if i == j { assert s[i..j] == []; }
    }
    SplitThree(s, i, j);
  }

  /** Whitespace padding does not change the trim of any string. */
  lemma TrimIgnoresPadding(a: string, m: string, b: string)
    requires AllSpace(a) && AllSpace(b)
    ensures Trim(a + m + b) == Trim(m)
  {
    var t := Trim(m);
    var pre, post := TrimParts(m);
    AllSpaceConcat(a, pre);
    AllSpaceConcat(post, b);
    Regroup(a, pre, t, post, b);
    TrimOfPadded(a + pre, t, post + b);
  }

  /** Trimming twice is trimming once. */
  lemma TrimIdempotent(s: string)
    ensures Trim(Trim(s)) == Trim(s)
  {
  }
}

/** Python's `str.strip(c)` for a single character `c`: it removes every
    leading and every trailing occurrence of `c`, and nothing else. */
module PyStrings {

  /** Every character of `u` is `c`. */
  ghost predicate OnlyChar(u: string, c: char) {
    forall k :: 0 <= k < |u| ==> u[k] == c
  }

  /** `u` neither starts nor ends with `c`. */
  ghost predicate NoEdge(u: string, c: char) {
    u == [] || (u[0] != c && u[|u| - 1] != c)
  }

  /** `r` is the infix of `s` starting at `i`, everything before and after it is
      `c`, and `r` does not start or end with `c`. */
  ghost predicate IsStripAt(s: string, c: char, r: string, i: nat) {
    && i + |r| <= |s|
    && r == s[i..i + |r|]
    && OnlyChar(s[..i], c)
    && OnlyChar(s[i + |r|..], c)
    && NoEdge(r, c)
  }

  /** Reference definition of stripping: `r` is what remains of `s` once some run
      of `c` is cut from the front and some run of `c` from the back, and `r`
      itself starts and ends with a character other than `c`. */
  ghost predicate IsStripOf(s: string, c: char, r: string) {
    exists i: nat :: IsStripAt(s, c, r, i)
  }

  /** `s.lstrip(c)`: the longest suffix of `s` after a run of `c`. */
  function StripLeading(s: string, c: char): (r: string)
    ensures |r| <= |s| && r == s[|s| - |r|..]
    ensures forall k :: 0 <= k < |s| - |r| ==> s[k] == c
    ensures r == [] || r[0] != c
    decreases |s|
  {
    if |s| > 0 && s[0] == c then StripLeading(s[1..], c) else s
  }

  /** `s.rstrip(c)`: the longest prefix of `s` before a run of `c`. */
  function StripTrailing(s: string, c: char): (r: string)
    ensures |r| <= |s| && r == s[..|r|]
    ensures forall k :: |r| <= k < |s| ==> s[k] == c
    ensures r == [] || r[|r| - 1] != c
    decreases |s|
  {
    if |s| > 0 && s[|s| - 1] == c then StripTrailing(s[..|s| - 1], c) else s
  }

  /** `s.strip(c)`, as used at app.py:154 (`'-'`) and app.py:167, 199 (`'_'`). */
  function Strip(s: string, c: char): (r: string)
    ensures |r| <= |s|
    ensures NoEdge(r, c)
  {
    StripTrailing(StripLeading(s, c), c)
  }

  /** `Strip` meets the reference definition. */
  lemma StripMeetsReference(s: string, c: char)
    ensures IsStripOf(s, c, Strip(s, c))
  {
    var l := StripLeading(s, c);
    var r := StripTrailing(l, c);
    var i := |s| - |l|;
    forall k | 0 <= k < |r| ensures s[i..i + |r|][k] == r[k] {
      assert r[k] == l[k] == s[i + k];
    }
    forall k | 0 <= k < i ensures s[..i][k] == c {
    }
    var j := i + |r|;
    var tail := s[j..];
    forall k | 0 <= k < |tail| ensures tail[k] == c {
      assert tail[k] == l[|r| + k];
    }
    assert IsStripAt(s, c, r, i);
  }

  /** A run of `c` of length `i` that ends the leading run is what `lstrip` removes. */
  lemma {:induction false} StripLeadingRun(s: string, c: char, i: nat)
    requires i <= |s| && OnlyChar(s[..i], c)
    requires i == |s| || s[i] != c
    ensures StripLeading(s, c) == s[i..]
    decreases i
  {
    if i > 0 {
      assert s[..i][0] == s[0];
      assert s[1..][..i - 1] == s[..i][1..];
      StripLeadingRun(s[1..], c, i - 1);
      assert s[1..][i - 1..] == s[i..];
    }
  }

  /** A run of `c` from `j` to the end that ends the trailing run is what `rstrip` removes. */
  lemma {:induction false} StripTrailingRun(s: string, c: char, j: nat)
    requires j <= |s| && OnlyChar(s[j..], c)
    requires j == 0 || s[j - 1] != c
    ensures StripTrailing(s, c) == s[..j]
    decreases |s| - j
  {
    if j < |s| {
      var u := s[..|s| - 1];
      assert s[j..][|s| - 1 - j] == s[|s| - 1];
      assert u[j..] == s[j..][..|s| - 1 - j];
      StripTrailingRun(u, c, j);
      assert u[..j] == s[..j];
    }
  }

  /** A non-empty infix whose surroundings consist of `c` and whose ends are not `c`
      is what `strip` keeps. */
  lemma StripKeepsInfix(s: string, c: char, r: string, i: nat)
    requires r != [] && IsStripAt(s, c, r, i)
    ensures Strip(s, c) == r
  {
    assert s[i] == r[0];
    StripLeadingRun(s, c, i);
    StripTrailingAfter(s[i..], c, r);
  }

  /** `rstrip` of a string that is `r` followed by a run of `c`, where `r` does not
      end with `c`, is `r`. */
  lemma StripTrailingAfter(l: string, c: char, r: string)
    requires r != [] && |r| <= |l| && l[..|r|] == r
    requires OnlyChar(l[|r|..], c) && r[|r| - 1] != c
    ensures StripTrailing(l, c) == r
  {
    assert l[|r| - 1] == r[|r| - 1];
    StripTrailingRun(l, c, |r|);
  }

  /** A string made of `c` alone strips to the empty string. */
  lemma StripOnlyChar(s: string, c: char, i: nat)
    requires i <= |s| && OnlyChar(s[..i], c) && OnlyChar(s[i..], c)
    ensures Strip(s, c) == []
  {
    assert OnlyChar(s, c) by {
      forall k | 0 <= k < |s| ensures s[k] == c {
        if k < i { assert s[..i][k] == s[k]; } else { assert s[i..][k - i] == s[k]; }
      }
    }
    assert s[..|s|] == s;
    StripLeadingRun(s, c, |s|);
  }

  /** The reference definition determines the stripped string uniquely. */
  lemma StripUnique(s: string, c: char, r: string)
    requires IsStripOf(s, c, r)
    ensures r == Strip(s, c)
  {
    var i: nat :| IsStripAt(s, c, r, i);
    if r != [] {
      StripKeepsInfix(s, c, r, i);
    } else {
      assert s[i + |r|..] == s[i..];
      StripOnlyChar(s, c, i);
    }
  }

  /** Stripping twice changes nothing more than stripping once. */
  lemma StripIdempotent(s: string, c: char)
    ensures Strip(Strip(s, c), c) == Strip(s, c)
  {
    StripNoEdgeIsIdentity(Strip(s, c), c);
  }

  /** A string that neither starts nor ends with `c` is left as it is. */
  lemma StripNoEdgeIsIdentity(s: string, c: char)
    requires NoEdge(s, c)
    ensures Strip(s, c) == s
  {
    assert s[0..0 + |s|] == s && s[..0] == [] && s[0 + |s|..] == [];
    assert IsStripAt(s, c, s, 0);
    StripUnique(s, c, s);
  }
}

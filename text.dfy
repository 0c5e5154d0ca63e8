/**
 * The string operations the scheduler relies on: ASCII lower-casing
 * (`toLowerCase`), substring search (`includes`) and ASCII whitespace
 * trimming (`trim`).
 */
module Text {

  /** ASCII whitespace as `trim` removes it: space, tab, LF, VT, FF and CR. */
  predicate IsSpace(c: char) {
    c == ' ' || ('\t' <= c <= '\r')
  }

  ghost predicate AllSpace(s: string) {
    forall i :: 0 <= i < |s| ==> IsSpace(s[i])
  }

  function LowerChar(c: char): char {
    if 'A' <= c <= 'Z' then (c as int + 32) as char else c
  }

  /**
   * `toLowerCase`, restricted to the ASCII letters: the result differs from
   * `s` only in letter case and holds no upper-case letter.
   */
  function Lower(s: string): (r: string)
    ensures CaseVariant(s, r)
    ensures forall i :: 0 <= i < |r| ==> !('A' <= r[i] <= 'Z')
  {
    seq(|s|, i requires 0 <= i < |s| => LowerChar(s[i]))
  }

  /** Two strings that differ at most in the case of ASCII letters. */
  ghost predicate CaseVariant(a: string, b: string) {
    |a| == |b| && forall i :: 0 <= i < |a| ==> LowerChar(a[i]) == LowerChar(b[i])
  }

  lemma LowerOfCaseVariants(a: string, b: string)
    requires CaseVariant(a, b)
    ensures Lower(a) == Lower(b)
  {
    forall i | 0 <= i < |a| ensures Lower(a)[i] == Lower(b)[i] { }
  }

  lemma LowerAppend(a: string, b: string)
    ensures Lower(a + b) == Lower(a) + Lower(b)
  {
    forall i | 0 <= i < |a| + |b| ensures Lower(a + b)[i] == (Lower(a) + Lower(b))[i] {
      if i >= |a| { assert (a + b)[i] == b[i - |a|]; }
    }
  }

  // ---------------------------------------------------------------------
  // Substring search

  /** `w` occurs in `s` starting at position `i`. */
  ghost predicate OccursAt(s: string, w: string, i: int) {
    0 <= i && i + |w| <= |s| && s[i..i + |w|] == w
  }

  predicate StartsWith(s: string, w: string) {
    |w| <= |s| && s[..|w|] == w
  }

  /**
   * `s.includes(w)`: try every starting position from the left. The empty
   * word is always found, and a word longer than `s` never is.
   */
  predicate Contains(s: string, w: string): (r: bool)
    ensures w == [] ==> r
    ensures r ==> |w| <= |s|
    decreases |s|
  {
    StartsWith(s, w) || (|s| > 0 && Contains(s[1..], w))
  }

  lemma {:induction false} OccursImpliesContains(s: string, w: string, i: int)
    requires OccursAt(s, w, i)
    ensures Contains(s, w)
    decreases i
  {
    if i > 0 {
      assert s[1..][i - 1..i - 1 + |w|] == s[i..i + |w|];
      OccursImpliesContains(s[1..], w, i - 1);
    }
  }

  lemma {:induction false} ContainsImpliesOccurs(s: string, w: string)
    requires Contains(s, w)
    ensures exists i :: OccursAt(s, w, i)
    decreases |s|
  {
    if StartsWith(s, w) {
      assert OccursAt(s, w, 0);
    } else {
      ContainsImpliesOccurs(s[1..], w);
      var j :| OccursAt(s[1..], w, j);
      assert s[1..][j..j + |w|] == s[j + 1..j + 1 + |w|];
      assert OccursAt(s, w, j + 1);
    }
  }

  /** The search finds `w` exactly when `w` occurs at some position of `s`. */
  lemma ContainsIffOccurs(s: string, w: string)
    ensures Contains(s, w) <==> exists i :: OccursAt(s, w, i)
  {
    if Contains(s, w) {
      ContainsImpliesOccurs(s, w);
    }
    forall i | OccursAt(s, w, i) ensures Contains(s, w) {
      OccursImpliesContains(s, w, i);
    }
  }

  /** A word with a character that `s` lacks is not found in `s`. */
  lemma MissingCharNotContained(s: string, w: string, c: char)
    requires c in w && c !in s
    ensures !Contains(s, w)
  {
    var k :| 0 <= k < |w| && w[k] == c;
    forall i | 0 <= i ensures !OccursAt(s, w, i) {
      if i + |w| <= |s| {
        assert s[i..i + |w|][k] == s[i + k] != c;
      }
    }
    ContainsIffOccurs(s, w);
  }

  /** An occurrence of `w` inside `a` or inside `b` is also one inside `a + sep + b`. */
  lemma ContainsInJoin(a: string, sep: string, b: string, w: string)
    requires Contains(a, w) || Contains(b, w)
    ensures Contains(a + sep + b, w)
  {
    var s := a + sep + b;
    ContainsIffOccurs(s, w);
    if Contains(a, w) {
      ContainsIffOccurs(a, w);
      var i :| OccursAt(a, w, i);
      assert s[i..i + |w|] == a[i..i + |w|];
      assert OccursAt(s, w, i);
    } else {
      ContainsIffOccurs(b, w);
      var i :| OccursAt(b, w, i);
      var k := |a| + |sep| + i;
      assert s[|a| + |sep|..] == b;
      assert s[k..k + |w|] == s[|a| + |sep|..][i..i + |w|];
      assert OccursAt(s, w, k);
    }
  }

  /**
   * A word without the separator character cannot straddle it: an occurrence
   * in `a + [sep] + b` lies wholly inside `a` or wholly inside `b`.
   */
  lemma ContainsInJoinSplits(a: string, sep: char, b: string, w: string)
    requires sep !in w
    requires Contains(a + [sep] + b, w)
    ensures Contains(a, w) || Contains(b, w)
  {
    var s := a + [sep] + b;
    ContainsIffOccurs(s, w);
    var i :| OccursAt(s, w, i);
    assert s[|a|] == sep;
    assert forall k :: 0 <= k < |w| ==> w[k] == s[i + k];
    assert i + |w| <= |a| || i > |a|;
    if i + |w| <= |a| {
      assert a[i..i + |w|] == s[i..i + |w|];
      assert OccursAt(a, w, i);
      ContainsIffOccurs(a, w);
    } else {
      var k := i - |a| - 1;
      assert b[k..k + |w|] == s[i..i + |w|];
      assert OccursAt(b, w, k);
      ContainsIffOccurs(b, w);
    }
  }

  // ---------------------------------------------------------------------
  // Trimming

  /** Drops the leading whitespace: the result is a suffix of `s` and what was dropped is all whitespace. */
  function TrimStart(s: string): (r: string)
    ensures |r| <= |s| && r == s[|s| - |r|..]
    ensures AllSpace(s[..|s| - |r|])
    ensures r == [] || !IsSpace(r[0])
  {
    if |s| > 0 && IsSpace(s[0]) then
      var r := TrimStart(s[1..]);
      assert s[..|s| - |r|] == [s[0]] + s[1..][..|s[1..]| - |r|];
      r
    else s
  }

  /** Drops the trailing whitespace: the result is a prefix of `s` and what was dropped is all whitespace. */
  function TrimEnd(s: string): (r: string)
    ensures |r| <= |s| && r == s[..|r|]
    ensures AllSpace(s[|r|..])
    ensures r == [] || !IsSpace(r[|r| - 1])
  {
    if |s| > 0 && IsSpace(s[|s| - 1]) then
      var r := TrimEnd(s[..|s| - 1]);
      assert s[|r|..] == s[..|s| - 1][|r|..] + [s[|s| - 1]];
      r
    else s
  }

  /**
   * `r` is the slice of `s` that starts at `k`, and everything before and
   * after that slice is whitespace.
   */
  ghost predicate MiddleOf(s: string, k: int, r: string) {
    0 <= k && k + |r| <= |s| && r == s[k..k + |r|] && AllSpace(s[..k]) && AllSpace(s[k + |r|..])
  }

  /**
   * Trimming both ends, stated on plain strings: `t` is `s` without its
   * leading whitespace and `r` is `t` without its trailing whitespace, so `r`
   * is the part of `s` between the two whitespace runs.
   */
  lemma TrimmedBothEnds(s: string, k: int, t: string, r: string)
    requires 0 <= k <= |s| && t == s[k..] && AllSpace(s[..k]) && (t == [] || !IsSpace(t[0]))
    requires |r| <= |t| && r == t[..|r|] && AllSpace(t[|r|..]) && (r == [] || !IsSpace(r[|r| - 1]))
    ensures MiddleOf(s, k, r)
    ensures r == [] || (!IsSpace(r[0]) && !IsSpace(r[|r| - 1]))
    ensures r == [] <==> AllSpace(s)
  {
    assert s[k..k + |r|] == t[..|r|];
    assert s[k + |r|..] == t[|r|..];
    if r != [] {
      assert r[0] == t[0];
    }
    if r == [] {
      assert t[|r|..] == t;
      assert |t| == 0;
      assert s[..k] == s;
    }
    assert t != [] ==> t[0] == s[k];
  }

  /**
   * `trim`, restricted to ASCII whitespace. The result is the part of `s`
   * left after cutting off the whitespace at both ends: it neither starts nor
   * ends with whitespace, and it is empty exactly when `s` is all whitespace.
   */
  function Trim(s: string): (r: string)
    ensures |r| <= |s|
    ensures MiddleOf(s, |s| - |TrimStart(s)|, r)
    ensures r == [] || (!IsSpace(r[0]) && !IsSpace(r[|r| - 1]))
    ensures r == [] <==> AllSpace(s)
  {
    var t := TrimStart(s);
    var k := |s| - |t|;
    assert t == s[k..] && AllSpace(s[..k]);
    var r := TrimEnd(t);
    assert r == t[..|r|] && AllSpace(t[|r|..]);
    TrimmedBothEnds(s, k, t, r);
    r
  }
}

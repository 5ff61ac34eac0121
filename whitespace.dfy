/**
  Go's strings.TrimSpace: remove leading and trailing white space, where white
  space is what unicode.IsSpace accepts.
 */
module Whitespace {

  /** unicode.IsSpace: the Latin-1 spaces and the other White_Space characters. */
  predicate IsSpace(c: char) {
    c == '\t' || c == '\n' || c == '\U{000B}' || c == '\U{000C}' || c == '\r' || c == ' '
    || c == '\U{0085}' || c == '\U{00A0}' || c == '\U{1680}'
    || ('\U{2000}' <= c <= '\U{200A}')
    || c == '\U{2028}' || c == '\U{2029}' || c == '\U{202F}' || c == '\U{205F}' || c == '\U{3000}'
  }

  predicate AllSpace(s: string) {
    forall k :: 0 <= k < |s| ==> IsSpace(s[k])
  }

  /** Drops the leading white space. */
  function TrimLeft(s: string): string {
    if s != [] && IsSpace(s[0]) then TrimLeft(s[1..]) else s
  }

  /** What TrimLeft leaves is a suffix that starts with no space, after only white space. */
  lemma {:induction false} TrimLeftSpec(s: string)
    ensures |TrimLeft(s)| <= |s| && TrimLeft(s) == s[|s| - |TrimLeft(s)|..]
    ensures AllSpace(s[..|s| - |TrimLeft(s)|])
    ensures TrimLeft(s) == [] || !IsSpace(TrimLeft(s)[0])
    decreases |s|
  {
    if s != [] && IsSpace(s[0]) {
      var r := TrimLeft(s[1..]);
      TrimLeftSpec(s[1..]);
      assert TrimLeft(s) == r;
      var n := |s| - |r|;
      assert r == s[n..] by { assert s[1..][n - 1..] == s[n..]; }
      assert AllSpace(s[..n]) by { assert s[..n] == [s[0]] + s[1..][..n - 1]; }
    }
  }

  /** Drops the trailing white space. */
  function TrimRight(s: string): string {
    if s != [] && IsSpace(s[|s| - 1]) then TrimRight(s[..|s| - 1]) else s
  }

  /** What TrimRight leaves is a prefix that ends with no space, before only white space. */
  lemma {:induction false} TrimRightSpec(s: string)
    ensures |TrimRight(s)| <= |s| && TrimRight(s) == s[..|TrimRight(s)|]
    ensures AllSpace(s[|TrimRight(s)|..])
    ensures TrimRight(s) == [] || !IsSpace(TrimRight(s)[|TrimRight(s)| - 1])
    decreases |s|
  {
    if s != [] && IsSpace(s[|s| - 1]) {
      var r := TrimRight(s[..|s| - 1]);
      TrimRightSpec(s[..|s| - 1]);
      assert TrimRight(s) == r;
      assert r == s[..|r|] by { assert s[..|s| - 1][..|r|] == s[..|r|]; }
      assert AllSpace(s[|r|..]) by {
        assert s[..|s| - 1][|r|..] == s[|r|..|s| - 1];
        forall k | |r| <= k < |s| ensures IsSpace(s[k]) {
          if k < |s| - 1 { assert s[k] == s[..|s| - 1][|r|..][k - |r|]; }
        }
      }
    } else {
      assert TrimRight(s) == s && s[..|s|] == s && s[|s|..] == [];
    }
  }

  /** `r` is `s` with the `i` characters before it and all after it being white space. */
  predicate TrimmedAt(s: string, r: string, i: nat) {
    i + |r| <= |s| && r == s[i..i + |r|] && AllSpace(s[..i]) && AllSpace(s[i + |r|..])
  }

  /** strings.TrimSpace. */
  function TrimSpace(s: string): string {
    TrimRight(TrimLeft(s))
  }

  /**
    What TrimSpace leaves is a slice of the input with only white space
    around it, and it neither starts nor ends with white space; it is empty
    exactly when the input is all white space.
   */
  lemma TrimSpaceIsMaximalTrim(s: string)
    ensures exists i: nat :: TrimmedAt(s, TrimSpace(s), i)
    ensures TrimSpace(s) == [] || (!IsSpace(TrimSpace(s)[0]) && !IsSpace(TrimSpace(s)[|TrimSpace(s)| - 1]))
    ensures TrimSpace(s) == [] <==> AllSpace(s)
  {
    var left := TrimLeft(s);
    var r := TrimRight(left);
    TrimLeftSpec(s);
    TrimRightSpec(left);
    TrimBoth(s, left, r);
    assert r == TrimSpace(s);
    assert TrimmedAt(s, TrimSpace(s), |s| - |left|);
  }

  /** A left trim followed by a right trim leaves the middle of the input. */
  lemma TrimBoth(s: string, left: string, r: string)
    requires |left| <= |s| && left == s[|s| - |left|..] && AllSpace(s[..|s| - |left|])
    requires left == [] || !IsSpace(left[0])
    requires |r| <= |left| && r == left[..|r|] && AllSpace(left[|r|..])
    requires r == [] || !IsSpace(r[|r| - 1])
    ensures TrimmedAt(s, r, |s| - |left|)
    ensures r == [] || (!IsSpace(r[0]) && !IsSpace(r[|r| - 1]))
    ensures r == [] <==> AllSpace(s)
  {
    var i := |s| - |left|;
    assert s[i..i + |r|] == left[..|r|];
    assert s[i + |r|..] == left[|r|..];
    if r != [] {
      assert r[0] == left[0];
      assert !AllSpace(s) by { assert s[i] == left[0]; }
    } else {
      assert left == [];
      assert s[..i] == s;
    }
  }
}

/**
  The order of sort.Strings: Go compares strings byte by byte, and for UTF-8
  text that is the lexicographic order of the code points, with a proper
  prefix coming first. Strictly sorted sequences of distinct strings, insertion
  into them, and the fact that such a sequence is determined by its elements.
 */
module StringOrder {

  /** a < b in Go's string comparison. */
  predicate Less(a: string, b: string)
    decreases |a|
  {
    if a == [] then b != []
    else if b == [] then false
    else if a[0] != b[0] then a[0] < b[0]
    else Less(a[1..], b[1..])
  }

  lemma {:induction false} LessIrreflexive(a: string)
    ensures !Less(a, a)
    decreases |a|
  {
    if a != [] { LessIrreflexive(a[1..]); }
  }

  lemma {:induction false} LessAsymmetric(a: string, b: string)
    ensures !(Less(a, b) && Less(b, a))
    decreases |a|
  {
    if a != [] && b != [] && a[0] == b[0] { LessAsymmetric(a[1..], b[1..]); }
  }

  lemma {:induction false} LessTotal(a: string, b: string)
    ensures a == b || Less(a, b) || Less(b, a)
    decreases |a|
  {
    if a != [] && b != [] && a[0] == b[0] {
      LessTotal(a[1..], b[1..]);
      if a[1..] == b[1..] { assert a == [a[0]] + a[1..] && b == [b[0]] + b[1..]; }
    }
  }

  lemma {:induction false} LessTransitive(a: string, b: string, c: string)
    requires Less(a, b) && Less(b, c)
    ensures Less(a, c)
    decreases |a|
  {
    if a != [] && a[0] == b[0] && b[0] == c[0] {
      LessTransitive(a[1..], b[1..], c[1..]);
    }
  }

  /** Sorted by sort.Strings with no repeated element. */
  predicate StrictlySorted(s: seq<string>) {
    forall i, j :: 0 <= i < j < |s| ==> Less(s[i], s[j])
  }

  /** Put a new element into its place in a strictly sorted sequence. */
  function Insert(s: seq<string>, x: string): seq<string>
    requires StrictlySorted(s)
  {
    if s == [] then [x]
    else if Less(x, s[0]) then [x] + s
    else [s[0]] + Insert(s[1..], x)
  }

  /**
    Inserting an element not yet present keeps the sequence strictly sorted
    and adds just that element.
   */
  lemma InsertSpec(s: seq<string>, x: string)
    requires StrictlySorted(s) && x !in s
    ensures StrictlySorted(Insert(s, x))
    ensures multiset(Insert(s, x)) == multiset(s) + multiset{x}
    ensures forall y :: y in Insert(s, x) <==> y in s || y == x
  {
    InsertAdds(s, x);
    InsertSorted(s, x);
  }

  /** Insert adds its element once and keeps all the others. */
  lemma {:induction false} InsertAdds(s: seq<string>, x: string)
    requires StrictlySorted(s)
    ensures multiset(Insert(s, x)) == multiset(s) + multiset{x}
    ensures forall y :: y in Insert(s, x) <==> y in s || y == x
  {
    if s != [] && !Less(x, s[0]) {
      InsertAdds(s[1..], x);
      assert s == [s[0]] + s[1..];
    }
  }

  lemma {:induction false} InsertSorted(s: seq<string>, x: string)
    requires StrictlySorted(s) && x !in s
    ensures StrictlySorted(Insert(s, x))
  {
    if s == [] {
    } else if Less(x, s[0]) {
      assert forall j :: 0 <= j < |s| ==> Less(x, s[j]) by {
        forall j | 0 < j < |s| ensures Less(x, s[j]) { LessTransitive(x, s[0], s[j]); }
      }
      ConsSorted(x, s);
    } else {
      var rest := Insert(s[1..], x);
      InsertSorted(s[1..], x);
      InsertAdds(s[1..], x);
      assert Less(s[0], x) by { LessTotal(x, s[0]); }
      forall j | 0 <= j < |rest| ensures Less(s[0], rest[j]) {
        assert rest[j] in rest;
      }
      ConsSorted(s[0], rest);
    }
  }

  /** An element below every element of a strictly sorted sequence can go in front. */
  lemma ConsSorted(h: string, s: seq<string>)
    requires StrictlySorted(s) && forall j :: 0 <= j < |s| ==> Less(h, s[j])
    ensures StrictlySorted([h] + s)
  {
    var r := [h] + s;
    forall i, j | 0 <= i < j < |r| ensures Less(r[i], r[j]) {
      if i > 0 { assert r[i] == s[i - 1] && r[j] == s[j - 1]; }
    }
  }

  /** Two strictly sorted sequences with the same elements are equal. */
  lemma {:induction false} SortedUnique(a: seq<string>, b: seq<string>)
    requires StrictlySorted(a) && StrictlySorted(b)
    requires forall x :: x in a <==> x in b
    ensures a == b
    decreases |a|
  {
    assert a == [] <==> b == [] by {
      if a != [] { assert a[0] in b; }
      if b != [] { assert b[0] in a; }
    }
    if a != [] {
      // each head is in the other sequence, so neither can come before the other
      assert a[0] == b[0] by {
        assert a[0] in b && b[0] in a;
        LessTotal(a[0], b[0]);
        LessAsymmetric(a[0], b[0]);
      }
      assert a == [a[0]] + a[1..] && b == [b[0]] + b[1..];
      forall x ensures x in a[1..] <==> x in b[1..] {
        LessIrreflexive(x);
        if x in a[1..] {
          var i :| 0 <= i < |a[1..]| && a[1..][i] == x;
          assert Less(a[0], a[i + 1]);
          assert x in a && x != b[0];
        }
        if x in b[1..] {
          var i :| 0 <= i < |b[1..]| && b[1..][i] == x;
          assert Less(b[0], b[i + 1]);
          assert x in b && x != a[0];
        }
      }
      SortedUnique(a[1..], b[1..]);
    }
  }

  /** The distinct elements of `xs` in sort.Strings order. */
  function SortedDistinct(xs: seq<string>): (r: seq<string>)
    ensures StrictlySorted(r)
    ensures forall x :: x in r <==> x in xs
  {
    if xs == [] then []
    else
      var init := xs[..|xs| - 1];
      var prev := SortedDistinct(init);
      assert xs == init + [xs[|xs| - 1]];
      if xs[|xs| - 1] in prev then prev
      else
        InsertSpec(prev, xs[|xs| - 1]);
        Insert(prev, xs[|xs| - 1])
  }
}

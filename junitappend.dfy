/**
  junitappend: bookkeeping of a JUnit report (suites found or created by
  name, test cases appended with their counters), and the time-based split
  of test names over CI nodes: deduplicate and sort the names, then put each
  one into the bucket with the least accumulated expected time.

  Durations and weights are integers (the program uses float64 seconds, but
  only adds and compares them).
 */
module Junitappend {
  import opened Wrappers
  import StringOrder

  // ---------------------------------------------------------------------
  // The report: suites and cases
  // ---------------------------------------------------------------------

  datatype TestFailure = TestFailure(failureType: string, message: string, data: string)

  /** A test case: a failure is attached exactly when there is a failure message. */
  datatype TestCase = TestCase(className: string, name: string, time: int, failure: Option<TestFailure>)

  /** Number of cases carrying a failure. */
  function FailureCount(cases: seq<TestCase>): nat {
    if cases == [] then 0
    else FailureCount(cases[..|cases| - 1]) + (if cases[|cases| - 1].failure.Some? then 1 else 0)
  }

  /** Sum of the cases' times. */
  function TotalTime(cases: seq<TestCase>): int {
    if cases == [] then 0 else TotalTime(cases[..|cases| - 1]) + cases[|cases| - 1].time
  }

  /** Never more failures than cases. */
  lemma {:induction false} FailuresAtMostCases(cases: seq<TestCase>)
    ensures FailureCount(cases) <= |cases|
  {
    if cases != [] { FailuresAtMostCases(cases[..|cases| - 1]); }
  }

  /** The case addTest builds. */
  function NewCase(className: string, testName: string, duration: int,
                   failureMsg: string, failureType: string, failureData: string): (tc: TestCase)
    ensures tc.className == className && tc.name == testName && tc.time == duration
    ensures tc.failure.Some? <==> failureMsg != ""
    ensures tc.failure.Some? ==> tc.failure.value == TestFailure(failureType, failureMsg, failureData)
  {
    TestCase(className, testName, duration,
             if failureMsg != "" then Some(TestFailure(failureType, failureMsg, failureData)) else None)
  }

  /** testSuite. Its name is fixed when it is created. */
  class TestSuite {
    var tests: int
    var failures: int
    var time: int
    const name: string
    var cases: seq<TestCase>

    /**
      The counters agree with the cases: true of every suite built from
      scratch through addTest.
     */
    ghost predicate Tallied()
      reads this
    {
      tests == |cases| && failures == FailureCount(cases) && time == TotalTime(cases)
    }

    constructor (name: string)
      ensures this.name == name && tests == 0 && failures == 0 && time == 0 && cases == []
      ensures Tallied()
    {
      this.name := name;
      tests := 0;
      failures := 0;
      time := 0;
      cases := [];
    }

    /**
      addTest: one more test, one more failure when there is a failure
      message, the duration added to the time, and the new case appended.
     */
    method AddTest(className: string, testName: string, duration: int,
                   failureMsg: string, failureType: string, failureData: string)
      modifies this
      ensures tests == old(tests) + 1
      ensures failures == old(failures) + (if failureMsg != "" then 1 else 0)
      ensures time == old(time) + duration
      ensures cases == old(cases) + [NewCase(className, testName, duration, failureMsg, failureType, failureData)]
      ensures old(Tallied()) ==> Tallied()
    {
      var tc := TestCase(className, testName, duration, None);
      tests := tests + 1;
      if failureMsg != "" {
        tc := tc.(failure := Some(TestFailure(failureType, failureMsg, failureData)));
        failures := failures + 1;
      }
      time := time + duration;
      ghost var before := cases;
      cases := cases + [tc];
      assert cases[..|cases| - 1] == before;
    }
  }

  /** A tallied suite never counts more failures than tests. */
  lemma TalliedFailuresAtMostTests(s: TestSuite)
    requires s.Tallied()
    ensures 0 <= s.failures <= s.tests
  {
    FailuresAtMostCases(s.cases);
  }

  function Names(suites: seq<TestSuite>): (r: seq<string>)
    ensures |r| == |suites| && forall i :: 0 <= i < |suites| ==> r[i] == suites[i].name
  {
    if suites == [] then [] else [suites[0].name] + Names(suites[1..])
  }

  /** The first position of `x` in `xs`, if any. */
  function FirstIndex(xs: seq<string>, x: string): (r: Option<nat>)
    ensures r.None? <==> x !in xs
    ensures r.Some? ==> r.value < |xs| && xs[r.value] == x && forall j :: 0 <= j < r.value ==> xs[j] != x
  {
    if xs == [] then None
    else if xs[0] == x then Some(0)
    else
      match FirstIndex(xs[1..], x)
      case None => None
      case Some(i) => Some(i + 1)
  }

  /** testSuites. */
  class TestSuites {
    var suites: seq<TestSuite>

    constructor ()
      ensures suites == []
    {
      suites := [];
    }

    /**
      createOrGetSuit: the first suite with that name, the list left as it
      is; otherwise one new empty suite with that name, appended.
     */
    method CreateOrGetSuit(name: string) returns (suite: TestSuite)
      modifies this
      ensures FirstIndex(Names(old(suites)), name).Some? ==>
        suites == old(suites) && suite == old(suites)[FirstIndex(Names(old(suites)), name).value]
      ensures FirstIndex(Names(old(suites)), name).None? ==>
        fresh(suite) && suites == old(suites) + [suite] && suite.name == name &&
        suite.tests == 0 && suite.failures == 0 && suite.time == 0 && suite.cases == [] && suite.Tallied()
    {
      ghost var names := Names(suites);
      var i := 0;
      while i < |suites|
        invariant 0 <= i <= |suites| == |names| && suites == old(suites)
        invariant forall j :: 0 <= j < i ==> names[j] != name
      {
        if suites[i].name == name {
          FirstIndexIsFirst(names, name, i);
          return suites[i];
        }
        i := i + 1;
      }
      assert name !in names;
      suite := new TestSuite(name);
      suites := suites + [suite];
    }
  }

  /** A position holding `x` with no `x` before it is the first index. */
  lemma FirstIndexIsFirst(xs: seq<string>, x: string, i: nat)
    requires i < |xs| && xs[i] == x && forall j :: 0 <= j < i ==> xs[j] != x
    ensures FirstIndex(xs, x) == Some(i)
  {
    var r := FirstIndex(xs, x);
    assert r.Some?;
    assert !(r.value < i) && !(i < r.value);
  }

  // ---------------------------------------------------------------------
  // Previous run times
  // ---------------------------------------------------------------------

  /** One entry of CircleCI's test metadata (the fields the split reads). */
  datatype CircleTestResult = CircleTestResult(className: string, name: string, runTime: int, source: string)

  /** The entry at `k` comes from `source`. */
  predicate Hit(tests: seq<CircleTestResult>, source: string, k: int) {
    0 <= k < |tests| && tests[k].source == source
  }

  /** The map timeByClass builds after the first `tests` entries, entry by entry. */
  function TimesFrom(tests: seq<CircleTestResult>, source: string): map<string, int> {
    if tests == [] then map[]
    else
      var last := tests[|tests| - 1];
      var m := TimesFrom(tests[..|tests| - 1], source);
      if last.source == source then m[last.name := last.runTime] else m
  }

  /** The keys are exactly the names of tests from `source`. */
  lemma {:induction false} TimesFromKeys(tests: seq<CircleTestResult>, source: string)
    ensures forall n :: n in TimesFrom(tests, source) <==>
      exists k :: Hit(tests, source, k) && tests[k].name == n
  {
    if tests != [] {
      var init := tests[..|tests| - 1];
      var last := tests[|tests| - 1];
      TimesFromKeys(init, source);
      var m := TimesFrom(tests, source);
      forall n ensures n in m <==> exists k :: Hit(tests, source, k) && tests[k].name == n {
        if last.source == source && last.name == n {
          assert Hit(tests, source, |tests| - 1);
        } else {
          assert n in m <==> n in TimesFrom(init, source);
          if n in TimesFrom(init, source) {
            var k :| Hit(init, source, k) && init[k].name == n;
            assert Hit(tests, source, k) && tests[k].name == n;
          }
          if exists k :: Hit(tests, source, k) && tests[k].name == n {
            var k :| Hit(tests, source, k) && tests[k].name == n;
            assert k < |init| && init[k] == tests[k];
            assert Hit(init, source, k) && init[k].name == n;
          }
        }
      }
    }
  }

  /** Each name maps to the run time of the last entry from `source` with that name. */
  lemma {:induction false} TimesFromLastWins(tests: seq<CircleTestResult>, source: string)
    ensures forall n :: n in TimesFrom(tests, source) ==>
      exists k :: (Hit(tests, source, k) && tests[k].name == n && TimesFrom(tests, source)[n] == tests[k].runTime &&
                   forall j :: k < j < |tests| && Hit(tests, source, j) ==> tests[j].name != n)
  {
    if tests != [] {
      var init := tests[..|tests| - 1];
      var last := tests[|tests| - 1];
      TimesFromLastWins(init, source);
      var m := TimesFrom(tests, source);
      forall n | n in m
        ensures exists k :: (Hit(tests, source, k) && tests[k].name == n && m[n] == tests[k].runTime &&
                             forall j :: k < j < |tests| && Hit(tests, source, j) ==> tests[j].name != n)
      {
        if last.source == source && last.name == n {
          assert Hit(tests, source, |tests| - 1);
        } else {
          assert n in TimesFrom(init, source) && m[n] == TimesFrom(init, source)[n];
          var k :| (Hit(init, source, k) && init[k].name == n && TimesFrom(init, source)[n] == init[k].runTime &&
                    forall j :: k < j < |init| && Hit(init, source, j) ==> init[j].name != n);
          assert Hit(tests, source, k) && tests[k] == init[k];
          forall j | k < j < |tests| && Hit(tests, source, j) ensures tests[j].name != n {
            if j < |init| { assert Hit(init, source, j) && init[j] == tests[j]; }
          }
        }
      }
    }
  }

  /** timeByClass: the run time of every test from `source`, by test name. */
  method TimeByClass(tests: seq<CircleTestResult>, source: string) returns (ret: map<string, int>)
    ensures ret == TimesFrom(tests, source)
  {
    ret := map[];
    var k := 0;
    while k < |tests|
      invariant 0 <= k <= |tests|
      invariant ret == TimesFrom(tests[..k], source)
    {
      assert tests[..k + 1][..k] == tests[..k];
      var t := tests[k];
      if t.source == source {
        ret := ret[t.name := t.runTime];
      }
      k := k + 1;
    }
    assert tests[..k] == tests;
  }

  // ---------------------------------------------------------------------
  // The least-loaded bucket
  // ---------------------------------------------------------------------

  /** `m` is the first position of a minimum of `b`. */
  predicate IsFirstMin(b: seq<int>, m: nat) {
    m < |b| && (forall j :: 0 <= j < |b| ==> b[m] <= b[j]) && (forall j :: 0 <= j < m ==> b[m] < b[j])
  }

  /** The first position of a minimum, and 0 for an empty sequence. */
  function ArgMin(b: seq<int>): (m: nat)
    ensures b != [] ==> m < |b|
    ensures |b| <= 1 ==> m == 0
  {
    if |b| <= 1 then 0
    else
      var m := ArgMin(b[..|b| - 1]);
      if b[|b| - 1] < b[m] then |b| - 1 else m
  }

  /** ArgMin finds the first minimum. */
  lemma {:induction false} ArgMinIsFirstMin(b: seq<int>)
    requires b != []
    ensures IsFirstMin(b, ArgMin(b))
  {
    if |b| > 1 {
      var init := b[..|b| - 1];
      ArgMinIsFirstMin(init);
      var m := ArgMin(init);
      assert forall j :: 0 <= j < |init| ==> init[j] == b[j];
    }
  }

  /** The first minimum is unique. */
  lemma FirstMinUnique(b: seq<int>, m1: nat, m2: nat)
    requires IsFirstMin(b, m1) && IsFirstMin(b, m2)
    ensures m1 == m2
  {
    assert b[m1] <= b[m2] && b[m2] <= b[m1];
  }

  /** minIndex: the first position holding the minimum; 0 when there are fewer than two. */
  method MinIndex(buckets: seq<int>) returns (min: nat)
    ensures buckets != [] ==> IsFirstMin(buckets, min)
    ensures |buckets| <= 1 ==> min == 0
    ensures min == ArgMin(buckets)
  {
    min := 0;
    var i := 1;
    while i < |buckets|
      invariant 1 <= i && (buckets != [] ==> i <= |buckets|)
      invariant buckets != [] ==> IsFirstMin(buckets[..i], min)
      invariant |buckets| <= 1 ==> min == 0
    {
      if buckets[i] < buckets[min] {
        min := i;
      }
      i := i + 1;
    }
    if buckets != [] {
      assert buckets[..i] == buckets;
      ArgMinIsFirstMin(buckets);
      FirstMinUnique(buckets, min, ArgMin(buckets));
    }
  }

  // ---------------------------------------------------------------------
  // The greedy split
  // ---------------------------------------------------------------------

  /** The expected time of a part: its previous run time, or the default weight. */
  function Weight(times: map<string, int>, avgTime: int, p: string): int {
    if p in times then times[p] else avgTime
  }

  function SumWeights(items: seq<string>, times: map<string, int>, avgTime: int): int {
    if items == [] then 0
    else SumWeights(items[..|items| - 1], times, avgTime) + Weight(times, avgTime, items[|items| - 1])
  }

  /** The buckets' loads and their items. */
  datatype Distribution = Distribution(loads: seq<int>, buckets: seq<seq<string>>)

  function Zeros(n: nat): (r: seq<int>)
    ensures |r| == n && forall i :: 0 <= i < n ==> r[i] == 0
  {
    seq(n, _ => 0)
  }

  function Empties(n: nat): (r: seq<seq<string>>)
    ensures |r| == n && forall i :: 0 <= i < n ==> r[i] == []
  {
    seq(n, _ => [])
  }

  /** Item `p` of weight `w` goes to the first least-loaded bucket, whose load grows by `w`. */
  function Place(d: Distribution, p: string, w: int): (r: Distribution)
    requires 0 < |d.loads| == |d.buckets|
    ensures |r.loads| == |d.loads| && |r.buckets| == |d.buckets|
  {
    var m := ArgMin(d.loads);
    Distribution(d.loads[m := d.loads[m] + w], d.buckets[m := d.buckets[m] + [p]])
  }

  /** The parts placed in order, each with its weight, into `n` empty buckets. */
  function Assign(parts: seq<string>, times: map<string, int>, avgTime: int, n: nat): (d: Distribution)
    requires 0 < n
    ensures |d.loads| == n && |d.buckets| == n
  {
    if parts == [] then Distribution(Zeros(n), Empties(n))
    else
      var p := parts[|parts| - 1];
      Place(Assign(parts[..|parts| - 1], times, avgTime, n), p, Weight(times, avgTime, p))
  }

  /** Every bucket's load is the sum of the weights of its items. */
  predicate LoadsAreSums(d: Distribution, times: map<string, int>, avgTime: int) {
    |d.loads| == |d.buckets| &&
    forall b :: 0 <= b < |d.loads| ==> d.loads[b] == SumWeights(d.buckets[b], times, avgTime)
  }

  lemma {:induction false} AssignLoadsAreSums(parts: seq<string>, times: map<string, int>, avgTime: int, n: nat)
    requires 0 < n
    ensures LoadsAreSums(Assign(parts, times, avgTime, n), times, avgTime)
  {
    if parts != [] {
      var p := parts[|parts| - 1];
      var prev := Assign(parts[..|parts| - 1], times, avgTime, n);
      AssignLoadsAreSums(parts[..|parts| - 1], times, avgTime, n);
      var m := ArgMin(prev.loads);
      var d := Assign(parts, times, avgTime, n);
      forall b | 0 <= b < n ensures d.loads[b] == SumWeights(d.buckets[b], times, avgTime) {
        assert prev.loads[b] == SumWeights(prev.buckets[b], times, avgTime);
        if b == m {
          var items := prev.buckets[m] + [p];
          assert items[..|items| - 1] == prev.buckets[m];
          assert d.buckets[b] == items;
        } else {
          assert d.loads[b] == prev.loads[b] && d.buckets[b] == prev.buckets[b];
        }
      }
    }
  }

  /** All items of a sequence of buckets, as one multiset. */
  function Union(bs: seq<seq<string>>): multiset<string> {
    if bs == [] then multiset{} else Union(bs[..|bs| - 1]) + multiset(bs[|bs| - 1])
  }

  lemma {:induction false} UnionOfEmpty(n: nat)
    ensures Union(Empties(n)) == multiset{}
  {
    if n > 0 {
      assert Empties(n)[..n - 1] == Empties(n - 1);
      UnionOfEmpty(n - 1);
    }
  }

  /** Appending an item to one bucket adds it to the union. */
  lemma {:induction false} UnionAppend(bs: seq<seq<string>>, m: nat, p: string)
    requires m < |bs|
    ensures Union(bs[m := bs[m] + [p]]) == Union(bs) + multiset{p}
  {
    var cs := bs[m := bs[m] + [p]];
    var k := |bs| - 1;
    assert Union(cs) == Union(cs[..k]) + multiset(cs[k]);
    assert Union(bs) == Union(bs[..k]) + multiset(bs[k]);
    if m == k {
      assert Union(cs[..k]) == Union(bs[..k]) by { assert cs[..k] == bs[..k]; }
      assert multiset(cs[k]) == multiset(bs[k]) + multiset{p} by { assert cs[k] == bs[k] + [p]; }
    } else {
      assert Union(cs[..k]) == Union(bs[..k]) + multiset{p} by {
        assert cs[..k] == bs[..k][m := bs[m] + [p]];
        UnionAppend(bs[..k], m, p);
      }
      assert cs[k] == bs[k];
    }
  }

  /** The buckets partition the parts: each part lands in exactly one bucket, once. */
  lemma {:induction false} AssignPartitionsParts(parts: seq<string>, times: map<string, int>, avgTime: int, n: nat)
    requires 0 < n
    ensures Union(Assign(parts, times, avgTime, n).buckets) == multiset(parts)
  {
    if parts == [] {
      UnionOfEmpty(n);
    } else {
      var init := parts[..|parts| - 1];
      var p := parts[|parts| - 1];
      var prev := Assign(init, times, avgTime, n);
      var m := ArgMin(prev.loads);
      assert Assign(parts, times, avgTime, n).buckets == prev.buckets[m := prev.buckets[m] + [p]];
      assert Union(Assign(parts, times, avgTime, n).buckets) == multiset(init) + multiset{p} by {
        AssignPartitionsParts(init, times, avgTime, n);
        UnionAppend(prev.buckets, m, p);
      }
      assert multiset(parts) == multiset(init) + multiset{p} by {
        assert parts == init + [p];
      }
    }
  }

  /** Every item of every bucket is one of `parts`. */
  predicate ItemsFrom(d: Distribution, parts: seq<string>) {
    forall b, x :: 0 <= b < |d.buckets| && x in d.buckets[b] ==> x in parts
  }

  lemma {:induction false} AssignItemsAreParts(parts: seq<string>, times: map<string, int>, avgTime: int, n: nat)
    requires 0 < n
    ensures ItemsFrom(Assign(parts, times, avgTime, n), parts)
  {
    if parts != [] {
      var init := parts[..|parts| - 1];
      var prev := Assign(init, times, avgTime, n);
      AssignItemsAreParts(init, times, avgTime, n);
      var d := Assign(parts, times, avgTime, n);
      var m := ArgMin(prev.loads);
      forall b, x | 0 <= b < n && x in d.buckets[b] ensures x in parts {
        if x != parts[|parts| - 1] {
          assert d.buckets[b] == if b == m then prev.buckets[m] + [parts[|parts| - 1]] else prev.buckets[b];
          assert x in prev.buckets[b];
          assert x in init;
        }
      }
    }
  }

  /** Every bucket is strictly sorted. */
  predicate BucketsSorted(d: Distribution) {
    forall b :: 0 <= b < |d.buckets| ==> StringOrder.StrictlySorted(d.buckets[b])
  }

  /** Parts that come sorted are kept sorted in every bucket: assignment order is input order. */
  lemma {:induction false} AssignKeepsOrder(parts: seq<string>, times: map<string, int>, avgTime: int, n: nat)
    requires 0 < n && StringOrder.StrictlySorted(parts)
    ensures BucketsSorted(Assign(parts, times, avgTime, n))
  {
    if parts != [] {
      var init := parts[..|parts| - 1];
      var p := parts[|parts| - 1];
      var prev := Assign(init, times, avgTime, n);
      var d := Assign(parts, times, avgTime, n);
      AssignKeepsOrder(init, times, avgTime, n);
      AssignItemsAreParts(init, times, avgTime, n);
      var m := ArgMin(prev.loads);
      var items := prev.buckets[m] + [p];
      assert StringOrder.StrictlySorted(prev.buckets[m]);
      forall i, j | 0 <= i < j < |items| ensures StringOrder.Less(items[i], items[j]) {
        if j == |items| - 1 {
          assert items[i] in prev.buckets[m];
          assert items[i] in init;
          var k :| 0 <= k < |init| && init[k] == items[i];
          assert parts[k] == items[i] && parts[|parts| - 1] == items[j];
        } else {
          assert items[i] == prev.buckets[m][i] && items[j] == prev.buckets[m][j];
        }
      }
      forall b | 0 <= b < n ensures StringOrder.StrictlySorted(d.buckets[b]) {
        if b == m {
          assert d.buckets[b] == items;
        } else {
          assert d.buckets[b] == prev.buckets[b];
          assert StringOrder.StrictlySorted(prev.buckets[b]);
        }
      }
    }
  }

  /** One more part: the next distribution is the previous one with that part placed. */
  lemma AssignStep(parts: seq<string>, times: map<string, int>, avgTime: int, n: nat, k: nat)
    requires 0 < n && k < |parts|
    ensures Assign(parts[..k + 1], times, avgTime, n) ==
      Place(Assign(parts[..k], times, avgTime, n), parts[k], Weight(times, avgTime, parts[k]))
  {
    assert parts[..k + 1][..k] == parts[..k] && parts[..k + 1][k] == parts[k];
  }

  /**
    The deduplication and sorting of split: collect the lines into a set, then
    lay the set out in sort.Strings order.
   */
  method DistinctParts(lines: seq<string>) returns (partsToSplit: seq<string>)
    ensures partsToSplit == StringOrder.SortedDistinct(lines)
  {
    var parts: set<string> := {};
    var k := 0;
    while k < |lines|
      invariant 0 <= k <= |lines|
      invariant forall x :: x in parts <==> x in lines[..k]
    {
      parts := parts + {lines[k]};
      k := k + 1;
    }
    assert lines[..k] == lines;
    partsToSplit := [];
    var rest := parts;
    while rest != {}
      invariant rest <= parts
      invariant StringOrder.StrictlySorted(partsToSplit)
      invariant forall x :: x in partsToSplit <==> x in parts && x !in rest
      decreases |rest|
    {
      var p :| p in rest;
      StringOrder.InsertSpec(partsToSplit, p);
      partsToSplit := StringOrder.Insert(partsToSplit, p);
      rest := rest - {p};
    }
    StringOrder.SortedUnique(partsToSplit, StringOrder.SortedDistinct(lines));
  }

  /** One step of split's loop: `p` and its weight go to the least-loaded bucket. */
  method PlaceInLeastLoaded(buckets: array<int>, bucketItem: array<seq<string>>, p: string, w: int,
                            ghost d: Distribution)
    requires 0 < buckets.Length == bucketItem.Length
    requires buckets[..] == d.loads && bucketItem[..] == d.buckets
    modifies buckets, bucketItem
    ensures buckets[..] == Place(d, p, w).loads && bucketItem[..] == Place(d, p, w).buckets
  {
    var minBucketIndex := MinIndex(buckets[..]);
    buckets[minBucketIndex] := buckets[minBucketIndex] + w;
    bucketItem[minBucketIndex] := bucketItem[minBucketIndex] + [p];
  }

  /**
    split: the parts of this node, in the order they were assigned. The
    previous run's times are those of the suite `suitName`; `avgTime` is the
    weight of a part without a previous time.
   */
  method Split(prevRun: seq<CircleTestResult>, suitName: string, avgTime: int, lines: seq<string>,
               nodeTotal: int, nodeIndex: int) returns (emitted: seq<string>)
    requires 0 <= nodeIndex < nodeTotal
    ensures emitted == Assign(StringOrder.SortedDistinct(lines), TimesFrom(prevRun, suitName), avgTime, nodeTotal).buckets[nodeIndex]
  {
    var times := TimeByClass(prevRun, suitName);
    var partsToSplit := DistinctParts(lines);
    var buckets := new int[nodeTotal](_ => 0);
    var bucketItem := new seq<string>[nodeTotal](_ => []);
    var k := 0;
    ghost var dist := Assign([], times, avgTime, nodeTotal);
    assert partsToSplit[..k] == [];
    assert buckets[..] == Zeros(nodeTotal);
    assert bucketItem[..] == Empties(nodeTotal);
    while k < |partsToSplit|
      invariant 0 <= k <= |partsToSplit|
      invariant dist == Assign(partsToSplit[..k], times, avgTime, nodeTotal)
      invariant buckets[..] == dist.loads && bucketItem[..] == dist.buckets
    {
      var p := partsToSplit[k];
      var partRunningTime := if p in times then times[p] else avgTime;
      PlaceInLeastLoaded(buckets, bucketItem, p, partRunningTime, dist);
      AssignStep(partsToSplit, times, avgTime, nodeTotal, k);
      dist := Assign(partsToSplit[..k + 1], times, avgTime, nodeTotal);
      k := k + 1;
    }
    assert partsToSplit[..k] == partsToSplit;
    emitted := bucketItem[nodeIndex];
  }
}

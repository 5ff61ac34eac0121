/**
  envsplit: of a list of inputs, emit those whose position is congruent to
  this node's index modulo the node total, each on its own line. The index
  and the total come from two environment variables.
 */
module Envsplit {
  import opened Wrappers
  import Decimal

  /** uint64 arithmetic wraps modulo 2^64. */
  const Uint64Modulus: nat := 0x1_0000_0000_0000_0000

  /** The ways `indexes` can fail, in the order it checks for them. */
  datatype IndexError =
    | MissingEnv(name: string)
    | ParseError(text: string, cause: Decimal.NumError)
    | ZeroTotal
    | IndexNotBelowTotal(index: nat, total: nat)

  /** A validated node index and node total. */
  datatype NodeSplit = NodeSplit(index: nat, total: nat)

  /**
    indexes: look up both variables (the index first), parse both as uint64
    (the index first), reject a zero total, then an index not below the total.
    The environment lookup is the map `env`.
   */
  function Indexes(env: map<string, string>, indexEnv: string, totalEnv: string): (r: Result<NodeSplit, IndexError>)
    // the checks, in order
    ensures indexEnv !in env ==> r == Failure(MissingEnv(indexEnv))
    ensures indexEnv in env && totalEnv !in env ==> r == Failure(MissingEnv(totalEnv))
    ensures indexEnv in env && totalEnv in env && Decimal.ParseUint64(env[indexEnv]).Failure? ==>
      r == Failure(ParseError(env[indexEnv], Decimal.ParseUint64(env[indexEnv]).error))
    ensures (indexEnv in env && totalEnv in env && Decimal.ParseUint64(env[indexEnv]).Success? &&
             Decimal.ParseUint64(env[totalEnv]).Failure?) ==>
      r == Failure(ParseError(env[totalEnv], Decimal.ParseUint64(env[totalEnv]).error))
    ensures (indexEnv in env && totalEnv in env && Decimal.ParseUint64(env[indexEnv]).Success? &&
             Decimal.ParseUint64(env[totalEnv]) == Success(0)) ==>
      r == Failure(ZeroTotal)
    ensures (indexEnv in env && totalEnv in env && Decimal.ParseUint64(env[indexEnv]).Success? &&
             Decimal.ParseUint64(env[totalEnv]).Success? && Decimal.ParseUint64(env[totalEnv]).value != 0 &&
             Decimal.ParseUint64(env[indexEnv]).value >= Decimal.ParseUint64(env[totalEnv]).value) ==>
      r == Failure(IndexNotBelowTotal(Decimal.ParseUint64(env[indexEnv]).value, Decimal.ParseUint64(env[totalEnv]).value))
    ensures r == Failure(ZeroTotal) ==>
      totalEnv in env && env[totalEnv] != [] && Decimal.AllDigits(env[totalEnv]) && Decimal.Value(env[totalEnv]) == 0
    // success, in terms of the decimal values of the two texts
    ensures r.Success? <==>
      indexEnv in env && totalEnv in env &&
      var it, tt := env[indexEnv], env[totalEnv];
      it != [] && Decimal.AllDigits(it) && tt != [] && Decimal.AllDigits(tt) &&
      0 < Decimal.Value(tt) <= Decimal.MaxUint64 && Decimal.Value(it) < Decimal.Value(tt)
    ensures r.Success? ==>
      r.value.index == Decimal.Value(env[indexEnv]) && r.value.total == Decimal.Value(env[totalEnv]) &&
      r.value.index < r.value.total <= Decimal.MaxUint64
  {
    if indexEnv !in env then Failure(MissingEnv(indexEnv))
    else if totalEnv !in env then Failure(MissingEnv(totalEnv))
    else
      Decimal.ParseUint64Spec(env[indexEnv]);
      Decimal.ParseUint64Spec(env[totalEnv]);
      match Decimal.ParseUint64(env[indexEnv])
      case Failure(e) => Failure(ParseError(env[indexEnv], e))
      case Success(indexInt) =>
        match Decimal.ParseUint64(env[totalEnv])
        case Failure(e) => Failure(ParseError(env[totalEnv], e))
        case Success(totalInt) =>
          if totalInt == 0 then Failure(ZeroTotal)
          else if indexInt >= totalInt then Failure(IndexNotBelowTotal(indexInt, totalInt))
          else Success(NodeSplit(indexInt, totalInt))
  }

  /** The call with 0-based number `k` writes its argument: the uint64 counter is k mod 2^64. */
  predicate Picks(k: nat, indexInt: nat, totalInt: nat)
    requires 0 < totalInt
  {
    (k % Uint64Modulus) % totalInt == indexInt
  }

  /** The inputs at the positions picked for `indexInt`, in order. */
  function Selected(xs: seq<string>, indexInt: nat, totalInt: nat): seq<string>
    requires 0 < totalInt
  {
    if xs == [] then []
    else
      var k := |xs| - 1;
      Selected(xs[..k], indexInt, totalInt) + (if Picks(k, indexInt, totalInt) then [xs[k]] else [])
  }

  /** Each line followed by its newline. */
  function JoinLines(lines: seq<string>): string {
    if lines == [] then [] else JoinLines(lines[..|lines| - 1]) + lines[|lines| - 1] + "\n"
  }

  /**
    The function indexesFunc returns: a closure over the uint64 counter
    `index`, here the object that owns that counter.
   */
  class Selector {
    const indexInt: nat
    const totalInt: nat
    var index: nat
    /** How many times the selector has been called. */
    ghost var calls: nat

    ghost predicate Valid()
      reads this
    {
      0 < totalInt && index == calls % Uint64Modulus
    }

    constructor (indexInt: nat, totalInt: nat)
      requires 0 < totalInt
      ensures Valid() && calls == 0
      ensures this.indexInt == indexInt && this.totalInt == totalInt
    {
      this.indexInt := indexInt;
      this.totalInt := totalInt;
      index := 0;
      calls := 0;
    }

    /**
      One call: write `toWrite` and a newline when the counter is congruent to
      the index, and advance the counter in any case, wrapping at 2^64.
     */
    method Call(toWrite: string) returns (written: string)
      requires Valid()
      modifies this
      ensures Valid() && calls == old(calls) + 1
      ensures written == if Picks(old(calls), indexInt, totalInt) then toWrite + "\n" else ""
      ensures index == (old(index) + 1) % Uint64Modulus
    {
      written := "";
      if index % totalInt == indexInt {
        written := written + toWrite;
        written := written + "\n";
      }
      assert (calls % Uint64Modulus + 1) % Uint64Modulus == (calls + 1) % Uint64Modulus;
      index := (index + 1) % Uint64Modulus;
      calls := calls + 1;
    }
  }

  /**
    The input loop of `main`: one call of the selector per input, in order;
    what is written is the picked inputs, one per line.
   */
  method SplitInputs(indexInt: nat, totalInt: nat, inputs: seq<string>) returns (out: string)
    requires 0 < totalInt
    ensures out == JoinLines(Selected(inputs, indexInt, totalInt))
  {
    var f := new Selector(indexInt, totalInt);
    out := "";
    var k := 0;
    while k < |inputs|
      invariant 0 <= k <= |inputs|
      invariant f.Valid() && f.calls == k && f.indexInt == indexInt && f.totalInt == totalInt
      invariant out == JoinLines(Selected(inputs[..k], indexInt, totalInt))
    {
      var written := f.Call(inputs[k]);
      SelectedStep(inputs, indexInt, totalInt, k);
      out := out + written;
      k := k + 1;
    }
    assert inputs[..k] == inputs;
  }

  /** Extending the inputs by one extends the output by that input's part. */
  lemma SelectedStep(xs: seq<string>, indexInt: nat, totalInt: nat, k: nat)
    requires 0 < totalInt && k < |xs|
    ensures JoinLines(Selected(xs[..k + 1], indexInt, totalInt)) ==
      JoinLines(Selected(xs[..k], indexInt, totalInt)) + (if Picks(k, indexInt, totalInt) then xs[k] + "\n" else "")
  {
    var ys := xs[..k + 1];
    assert ys[..k] == xs[..k] && ys[k] == xs[k] && |ys| - 1 == k;
    var prev := Selected(xs[..k], indexInt, totalInt);
    assert Selected(ys, indexInt, totalInt) == prev + (if Picks(k, indexInt, totalInt) then [xs[k]] else []);
    if Picks(k, indexInt, totalInt) {
      var next := prev + [xs[k]];
      assert next[..|next| - 1] == prev && next[|next| - 1] == xs[k];
      assert JoinLines(next) == JoinLines(prev) + xs[k] + "\n";
      assert JoinLines(prev) + xs[k] + "\n" == JoinLines(prev) + (xs[k] + "\n");
    } else {
      assert prev + [] == prev;
      assert JoinLines(prev) + "" == JoinLines(prev);
    }
  }

  /**
    main: validate the variables, then split the inputs (command-line
    arguments or standard-input lines, given here as a sequence).
   */
  method Execute(env: map<string, string>, indexEnv: string, totalEnv: string, inputs: seq<string>)
    returns (r: Result<string, IndexError>)
    ensures Indexes(env, indexEnv, totalEnv).Failure? ==> r == Failure(Indexes(env, indexEnv, totalEnv).error)
    ensures Indexes(env, indexEnv, totalEnv).Success? ==>
      var p := Indexes(env, indexEnv, totalEnv).value;
      r == Success(JoinLines(Selected(inputs, p.index, p.total)))
  {
    var p := Indexes(env, indexEnv, totalEnv);
    if p.Failure? {
      return Failure(p.error);
    }
    var out := SplitInputs(p.value.index, p.value.total, inputs);
    return Success(out);
  }

  /** The outputs of the indices 0 .. n-1, as one multiset. */
  function Outputs(xs: seq<string>, totalInt: nat, n: nat): multiset<string>
    requires 0 < totalInt
  {
    if n == 0 then multiset{} else Outputs(xs, totalInt, n - 1) + multiset(Selected(xs, n - 1, totalInt))
  }

  /** Adding an input adds it to the output of the one index its position picks. */
  lemma {:induction false} OutputsStep(xs: seq<string>, totalInt: nat, n: nat)
    requires 0 < totalInt && xs != []
    ensures var k := |xs| - 1;
      Outputs(xs, totalInt, n) == Outputs(xs[..k], totalInt, n) +
        (if (k % Uint64Modulus) % totalInt < n then multiset{xs[k]} else multiset{})
  {
    if n > 0 {
      var k := |xs| - 1;
      var slot := (k % Uint64Modulus) % totalInt;
      OutputsStep(xs, totalInt, n - 1);
      var before := Outputs(xs[..k], totalInt, n - 1);
      var own := multiset(Selected(xs[..k], n - 1, totalInt));
      var lower: multiset<string> := if slot < n - 1 then multiset{xs[k]} else multiset{};
      var here: multiset<string> := if slot == n - 1 then multiset{xs[k]} else multiset{};
      assert Selected(xs, n - 1, totalInt) ==
        Selected(xs[..k], n - 1, totalInt) + (if slot == n - 1 then [xs[k]] else []);
      assert multiset(Selected(xs, n - 1, totalInt)) == own + here;
      assert Outputs(xs, totalInt, n - 1) == before + lower;
      assert Outputs(xs, totalInt, n) == Outputs(xs, totalInt, n - 1) + multiset(Selected(xs, n - 1, totalInt));
      MultisetRearrange(before, lower, own, here);
      assert lower + here == (if slot < n then multiset{xs[k]} else multiset{});
    }
  }

  lemma MultisetRearrange<T>(a: multiset<T>, b: multiset<T>, c: multiset<T>, d: multiset<T>)
    ensures (a + b) + (c + d) == (a + c) + (b + d)
  {
  }

  lemma {:induction false} OutputsOfNoInputs(totalInt: nat, n: nat)
    requires 0 < totalInt
    ensures Outputs([], totalInt, n) == multiset{}
  {
    if n > 0 { OutputsOfNoInputs(totalInt, n - 1); }
  }

  /**
    Across all indices 0 .. total-1 the outputs partition the input: every
    input is emitted by exactly one node, as often as it occurs.
   */
  lemma {:induction false} OutputsPartitionInputs(xs: seq<string>, totalInt: nat)
    requires 0 < totalInt
    ensures Outputs(xs, totalInt, totalInt) == multiset(xs)
  {
    if xs != [] {
      var k := |xs| - 1;
      assert Outputs(xs, totalInt, totalInt) == multiset(xs[..k]) + multiset{xs[k]} by {
        OutputsStep(xs, totalInt, totalInt);
        OutputsPartitionInputs(xs[..k], totalInt);
        assert (k % Uint64Modulus) % totalInt < totalInt;
      }
      assert multiset(xs) == multiset(xs[..k]) + multiset{xs[k]} by {
        assert xs == xs[..k] + [xs[k]];
      }
    } else {
      OutputsOfNoInputs(totalInt, totalInt);
    }
  }

  /**
    Before the counter wraps, position k is picked exactly when k mod total is
    the index: indexesFunc's k-th call rule.
   */
  lemma PicksBeforeWrap(k: nat, indexInt: nat, totalInt: nat)
    requires 0 < totalInt && k < Uint64Modulus
    ensures Picks(k, indexInt, totalInt) <==> k % totalInt == indexInt
  {
  }

  /** Each element of an output is an input, at a picked position. */
  lemma {:induction false} SelectedFromPickedPositions(xs: seq<string>, indexInt: nat, totalInt: nat)
    requires 0 < totalInt
    ensures forall y :: y in Selected(xs, indexInt, totalInt) ==>
      exists k :: 0 <= k < |xs| && xs[k] == y && Picks(k, indexInt, totalInt)
  {
    if xs != [] {
      var k := |xs| - 1;
      SelectedFromPickedPositions(xs[..k], indexInt, totalInt);
      forall y | y in Selected(xs, indexInt, totalInt)
        ensures exists j :: 0 <= j < |xs| && xs[j] == y && Picks(j, indexInt, totalInt)
      {
        if y in Selected(xs[..k], indexInt, totalInt) {
          var j :| 0 <= j < k && xs[..k][j] == y && Picks(j, indexInt, totalInt);
          assert xs[j] == y;
        } else {
          assert xs[k] == y && Picks(k, indexInt, totalInt);
        }
      }
    }
  }
}

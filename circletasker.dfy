/**
  The work-distribution coordinator of circletasker.

  `serve` reads newline-delimited work items, and `splitServer` hands them to
  worker indices one request at a time. Every request is processed under one
  mutex, so one request is one atomic state transition: `Handle` is that
  transition on the server's state as a value, and `SplitServer.Step` performs
  it in place on the server's fields. Workers drive it with HEAD (the
  readiness probe of `ready`) and GET (the item request of `next`).
 */
module Circletasker {
  import opened Wrappers
  import Decimal
  import Whitespace

  // ---------------------------------------------------------------------
  // State, requests and replies
  // ---------------------------------------------------------------------

  /** The outstanding dispatch of one index: which item was sent, and when. */
  datatype StartTime = StartTime(sentItem: string, sendTime: int)

  /**
    The state of splitServer: the FIFO queue of items, the indices that have
    signalled ready, the indices told done, one start record per index, the
    item -> duration ledger, and the value of the done wait-group counter.
   */
  datatype Server = Server(
    maxClientIndex: int,
    partsToServe: seq<string>,
    indexIsReady: set<int>,
    haveToldDone: set<int>,
    processStartTime: map<int, StartTime>,
    processResults: map<string, int>,
    doneCounter: int)

  /** One request: its X-index header (empty when absent), its method, and the clock. */
  datatype Request = Request(indexHeader: string, httpMethod: string, now: nat)

  /**
    What the handler answered. The index on Ready and Done is not sent on the
    wire; it is kept so that properties per index can be stated.
   */
  datatype Reply =
    | InvalidHeader(header: string)
    | InvalidIndex(parsed: int)
    | Ready(index: nat)
    | AlreadyReady(index: nat)
    | Item(item: string)
    | Done(index: nat)
    | AlreadyDone(index: nat)

  /** The state change and the reply of one request. */
  datatype Transition = Transition(next: Server, reply: Reply)

  const StatusOK := 200
  const StatusNoContent := 204
  const StatusBadRequest := 400

  /** The status code the handler writes for a reply (200 when it writes none). */
  function Status(r: Reply): (code: int)
    ensures code == StatusBadRequest <==> r.InvalidHeader? || r.InvalidIndex? || r.AlreadyReady? || r.AlreadyDone?
    ensures code == StatusNoContent <==> r.Done?
    ensures code == StatusOK <==> r.Ready? || r.Item?
  {
    match r
    case Ready(_) => StatusOK
    case Item(_) => StatusOK
    case Done(_) => StatusNoContent
    case _ => StatusBadRequest
  }

  function AlreadyToldMessage(index: nat): string {
    "Index " + Decimal.FormatNat(index) + " was already told to stop"
  }

  /**
    The body the handler writes for a reply: among the refusals, only an
    out-of-range index gets an empty one.
   */
  function Body(r: Reply): (b: string)
    ensures r.InvalidHeader? ==> b == "Invalid X-index " + r.header
    ensures r.Item? ==> b == r.item
    ensures Status(r) == StatusBadRequest ==> (b == [] <==> r.InvalidIndex?)
    ensures r.Ready? || r.Done? ==> b == []
    ensures r.AlreadyReady? || r.AlreadyDone? ==>
      b == "Index " + Decimal.FormatNat(r.index) + " was already told to stop"
  {
    match r
    case InvalidHeader(h) => "Invalid X-index " + h
    case AlreadyReady(i) => AlreadyToldMessage(i)
    case AlreadyDone(i) => AlreadyToldMessage(i)
    case Item(x) => x
    case _ => ""
  }

  predicate IsHead(req: Request) {
    req.httpMethod == "HEAD"
  }

  // ---------------------------------------------------------------------
  // One request: ServeHTTP as a transition
  // ---------------------------------------------------------------------

  /**
    Validation of the X-index header: it must parse as a decimal int64 and lie
    in [0, maxClientIndex).
   */
  function ParseIndex(maxClientIndex: int, header: string): (r: Result<nat, Reply>)
    ensures r.Success? ==> r.value < maxClientIndex
    ensures r.Success? ==> Decimal.ParseInt64(header) == Success(r.value as int)
    ensures Decimal.ParseInt64(header).Failure? ==> r == Failure(InvalidHeader(header))
    ensures Decimal.ParseInt64(header).Success? && r.Failure? ==>
      r == Failure(InvalidIndex(Decimal.ParseInt64(header).value))
    ensures Decimal.ParseInt64(header).Success? && 0 <= Decimal.ParseInt64(header).value < maxClientIndex ==>
      r == Success(Decimal.ParseInt64(header).value as nat)
  {
    match Decimal.ParseInt64(header)
    case Failure(_) => Failure(InvalidHeader(header))
    case Success(index) =>
      if index < 0 || index >= maxClientIndex then Failure(InvalidIndex(index))
      else Success(index)
  }

  /** The header a worker sends for its own index is accepted as that index. */
  lemma ParseIndexOfFormatted(maxClientIndex: int, i: nat)
    requires i < maxClientIndex && i < Decimal.Int64Cutoff
    ensures ParseIndex(maxClientIndex, Decimal.FormatNat(i)) == Success(i)
  {
    Decimal.FormatParseRoundTrip(i);
  }

  /** A GET first settles the index's outstanding dispatch into the ledger. */
  function ResolveDispatch(s: Server, index: nat, now: nat): Server {
    if index in s.processStartTime then
      var last := s.processStartTime[index];
      s.(processResults := s.processResults[last.sentItem := now - last.sendTime],
         processStartTime := s.processStartTime - {index})
    else s
  }

  function HandleHead(s: Server, index: nat): Transition {
    if index in s.indexIsReady then Transition(s, AlreadyReady(index))
    else Transition(s.(indexIsReady := s.indexIsReady + {index}), Ready(index))
  }

  function HandleGet(s: Server, index: nat, now: nat): Transition {
    var r := ResolveDispatch(s, index, now);
    if r.partsToServe != [] then
      var item := r.partsToServe[0];
      Transition(r.(partsToServe := r.partsToServe[1..],
                    processStartTime := r.processStartTime[index := StartTime(item, now)]),
                 Item(item))
    else if index in r.haveToldDone then Transition(r, AlreadyDone(index))
    else Transition(r.(haveToldDone := r.haveToldDone + {index}, doneCounter := r.doneCounter - 1),
                    Done(index))
  }

  /**
    ServeHTTP. Rejected requests change nothing; HEAD touches only the ready
    set; GET never touches it. Items leave the queue only from the front, one
    per Item reply. An index joins the ready set only with a Ready reply and
    the done set only with a Done reply, which also decrements the counter.
   */
  function Handle(s: Server, req: Request): Transition {
    match ParseIndex(s.maxClientIndex, req.indexHeader)
    case Failure(reply) => Transition(s, reply)
    case Success(index) =>
      if IsHead(req) then HandleHead(s, index) else HandleGet(s, index, req.now)
  }

  /** Rejected requests leave every part of the state unchanged. */
  predicate RejectionLaw(s: Server, req: Request, t: Transition) {
    (ParseIndex(s.maxClientIndex, req.indexHeader).Failure? ==>
       t.reply == ParseIndex(s.maxClientIndex, req.indexHeader).error) &&
    (t.reply.InvalidHeader? || t.reply.InvalidIndex? || t.reply.AlreadyReady? ==> t.next == s)
  }

  /**
    HEAD marks the index ready the first time and is refused after that; it
    leaves the queue, the dispatch records, the ledger and the done set alone.
   */
  predicate HeadLaw(s: Server, req: Request, t: Transition) {
    IsHead(req) && ParseIndex(s.maxClientIndex, req.indexHeader).Success? ==>
      var i := ParseIndex(s.maxClientIndex, req.indexHeader).value;
      t.reply == (if i in s.indexIsReady then AlreadyReady(i) else Ready(i)) &&
      t.next == s.(indexIsReady := t.next.indexIsReady)
  }

  /**
    GET settles the index's outstanding dispatch into the ledger (even when it
    ends in AlreadyDone), then hands out the front item and records its
    dispatch, or, with the queue empty, tells the index it is done the first
    time and refuses it after that. It never looks at the ready set.
   */
  predicate GetLaw(s: Server, req: Request, t: Transition) {
    !IsHead(req) && ParseIndex(s.maxClientIndex, req.indexHeader).Success? ==>
      var i := ParseIndex(s.maxClientIndex, req.indexHeader).value;
      (s.partsToServe != [] ==> t.reply == Item(s.partsToServe[0])) &&
      (s.partsToServe == [] ==> t.reply == (if i in s.haveToldDone then AlreadyDone(i) else Done(i))) &&
      (i in s.processStartTime ==>
        var last := s.processStartTime[i];
        t.next.processResults == s.processResults[last.sentItem := req.now - last.sendTime]) &&
      (i !in s.processStartTime ==> t.next.processResults == s.processResults) &&
      t.next.processStartTime ==
        (if t.reply.Item? then (s.processStartTime - {i})[i := StartTime(t.reply.item, req.now)]
         else s.processStartTime - {i}) &&
      t.next.indexIsReady == s.indexIsReady
  }

  /** The queue is FIFO: only an Item reply takes an item, and it is the front one. */
  predicate QueueLaw(s: Server, t: Transition) {
    (t.reply.Item? ==> s.partsToServe == [t.reply.item] + t.next.partsToServe) &&
    (!t.reply.Item? ==> t.next.partsToServe == s.partsToServe) &&
    t.next.maxClientIndex == s.maxClientIndex
  }

  /**
    An index joins the ready set only with a Ready reply, and the done set
    only with a Done reply, which also decrements the counter; neither reply
    is given to an index already in its set.
   */
  predicate MembershipLaw(s: Server, t: Transition) {
    (t.reply.Ready? ==>
      t.reply.index !in s.indexIsReady && t.next.indexIsReady == s.indexIsReady + {t.reply.index}) &&
    (!t.reply.Ready? ==> t.next.indexIsReady == s.indexIsReady) &&
    (t.reply.Done? ==>
      t.reply.index !in s.haveToldDone && t.next.haveToldDone == s.haveToldDone + {t.reply.index} &&
      t.next.doneCounter == s.doneCounter - 1) &&
    (!t.reply.Done? ==> t.next.haveToldDone == s.haveToldDone && t.next.doneCounter == s.doneCounter)
  }

  /** What one request does: the reply each case gets and the part of the state it changes. */
  lemma HandleSpec(s: Server, req: Request)
    ensures RejectionLaw(s, req, Handle(s, req))
    ensures HeadLaw(s, req, Handle(s, req))
    ensures GetLaw(s, req, Handle(s, req))
    ensures QueueLaw(s, Handle(s, req))
    ensures MembershipLaw(s, Handle(s, req))
  {
    HandleMembership(s, req);
  }

  lemma HandleMembership(s: Server, req: Request)
    ensures MembershipLaw(s, Handle(s, req))
  {
  }

  // ---------------------------------------------------------------------
  // The server's invariant
  // ---------------------------------------------------------------------

  predicate InRange(n: int, xs: set<int>) {
    forall i :: i in xs ==> 0 <= i < n
  }

  /**
    Every recorded index is a valid one, and the done counter is the number of
    indices not yet told done.
   */
  predicate Inv(s: Server) {
    0 <= s.maxClientIndex &&
    InRange(s.maxClientIndex, s.indexIsReady) &&
    InRange(s.maxClientIndex, s.haveToldDone) &&
    InRange(s.maxClientIndex, s.processStartTime.Keys) &&
    s.doneCounter == s.maxClientIndex - |s.haveToldDone|
  }

  /**
    sync.WaitGroup keeps its counter in an int32: `Add(n)` adds n modulo 2^32
    and panics when the sum reads as negative, so only a total below 2^31
    starts the counter at nodeTotal.
   */
  const WaitGroupLimit := 0x8000_0000

  /** The state `serve` builds: the counter starts at nodeTotal (doneWaitGroup.Add). */
  function Init(parts: seq<string>, nodeTotal: int): (s: Server)
    requires 0 <= nodeTotal < WaitGroupLimit
    ensures Inv(s) && s.partsToServe == parts && s.doneCounter == nodeTotal
    ensures s.maxClientIndex == nodeTotal && s.indexIsReady == {} && s.haveToldDone == {}
    ensures s.processStartTime == map[] && s.processResults == map[]
  {
    Server(nodeTotal, parts, {}, {}, map[], map[], nodeTotal)
  }

  lemma HandlePreservesInv(s: Server, req: Request)
    requires Inv(s)
    ensures Inv(Handle(s, req).next)
  {
    match ParseIndex(s.maxClientIndex, req.indexHeader)
    case Failure(_) =>
    case Success(i) =>
      if IsHead(req) { HeadPreservesInv(s, i); } else { GetPreservesInv(s, i, req.now); }
  }

  lemma HeadPreservesInv(s: Server, i: nat)
    requires Inv(s) && i < s.maxClientIndex
    ensures Inv(HandleHead(s, i).next)
  {
  }

  lemma GetPreservesInv(s: Server, i: nat, now: nat)
    requires Inv(s) && i < s.maxClientIndex
    ensures Inv(HandleGet(s, i, now).next)
  {
    var r := ResolveDispatch(s, i, now);
    assert Inv(r) by {
      assert r.processStartTime.Keys <= s.processStartTime.Keys;
    }
    if r.partsToServe == [] && i !in r.haveToldDone {
      assert |r.haveToldDone + {i}| == |r.haveToldDone| + 1;
    }
  }

  /** The integers 0 .. n-1. */
  function Indices(n: nat): (r: set<int>)
    ensures |r| == n
    ensures forall i :: i in r <==> 0 <= i < n
  {
    if n == 0 then {}
    else
      var r := Indices(n - 1) + {n - 1};
      assert n - 1 !in Indices(n - 1);
      r
  }

  /**
    The done counter never goes below zero, and it is zero exactly when every
    index has been told done: then, and only then, the coordinator's wait ends.
   */
  lemma CounterBounds(s: Server)
    requires Inv(s)
    ensures 0 <= s.doneCounter <= s.maxClientIndex
    ensures s.doneCounter == 0 <==> forall i :: 0 <= i < s.maxClientIndex ==> i in s.haveToldDone
  {
    var all := Indices(s.maxClientIndex);
    IndexSetCardinality(s.haveToldDone, s.maxClientIndex);
    if forall i :: 0 <= i < s.maxClientIndex ==> i in s.haveToldDone {
      assert s.haveToldDone == all;
    }
  }

  /** A set of indices below n has at most n elements, and exactly n only if it holds them all. */
  lemma {:induction false} IndexSetCardinality(a: set<int>, n: nat)
    requires InRange(n, a)
    ensures |a| <= n
    ensures |a| == n ==> a == Indices(n)
    decreases n
  {
    if n > 0 {
      var rest := a - {n - 1};
      assert InRange(n - 1, rest);
      IndexSetCardinality(rest, n - 1);
      if n - 1 in a {
        assert a == rest + {n - 1};
        assert |a| == |rest| + 1;
        if |a| == n {
          assert rest == Indices(n - 1);
          assert Indices(n) == Indices(n - 1) + {n - 1};
        }
      } else {
        assert rest == a;
      }
    } else {
      assert forall x :: x !in a;
      assert a == {};
    }
  }

  // ---------------------------------------------------------------------
  // Runs: a serialised sequence of requests
  // ---------------------------------------------------------------------

  /** The state after serving `reqs` one after the other. */
  function Run(s: Server, reqs: seq<Request>): Server
    decreases |reqs|
  {
    if reqs == [] then s else Run(Handle(s, reqs[0]).next, reqs[1..])
  }

  /** The replies to `reqs`, in order. */
  function Replies(s: Server, reqs: seq<Request>): (rs: seq<Reply>)
    ensures |rs| == |reqs|
    decreases |reqs|
  {
    if reqs == [] then [] else [Handle(s, reqs[0]).reply] + Replies(Handle(s, reqs[0]).next, reqs[1..])
  }

  /** The items handed out by a sequence of replies, in order. */
  function Served(rs: seq<Reply>): seq<string> {
    if rs == [] then []
    else (if rs[0].Item? then [rs[0].item] else []) + Served(rs[1..])
  }

  /** How many times `r` occurs in `rs`. */
  function Occurrences(rs: seq<Reply>, r: Reply): nat {
    if rs == [] then 0 else (if rs[0] == r then 1 else 0) + Occurrences(rs[1..], r)
  }

  /**
    Under any interleaving of requests, the items served followed by the queue
    left over are exactly the queue at the start: items go out in FIFO order,
    none twice and none dropped.
   */
  lemma {:induction false} RunServesQueueInOrder(s: Server, reqs: seq<Request>)
    ensures Served(Replies(s, reqs)) + Run(s, reqs).partsToServe == s.partsToServe
    decreases |reqs|
  {
    if reqs != [] {
      var t := Handle(s, reqs[0]);
      RunServesQueueInOrder(t.next, reqs[1..]);
      var rest := Replies(t.next, reqs[1..]);
      assert Replies(s, reqs) == [t.reply] + rest;
      assert ([t.reply] + rest)[1..] == rest;
      HandleSpec(s, reqs[0]);
      if t.reply.Item? {
        calc {
          Served(Replies(s, reqs)) + Run(s, reqs).partsToServe;
          [t.reply.item] + Served(rest) + Run(t.next, reqs[1..]).partsToServe;
          [t.reply.item] + t.next.partsToServe;
          s.partsToServe;
        }
      }
    }
  }

  /**
    Each index receives the Done reply at most once over a run, and never if
    it was told done before; afterwards it is in the done set exactly when
    it was before or it received Done.
   */
  lemma {:induction false} DoneAtMostOnce(s: Server, reqs: seq<Request>, i: nat)
    ensures Occurrences(Replies(s, reqs), Done(i)) + (if i in s.haveToldDone then 1 else 0)
         == (if i in Run(s, reqs).haveToldDone then 1 else 0)
    decreases |reqs|
  {
    if reqs != [] {
      var t := Handle(s, reqs[0]);
      DoneAtMostOnce(t.next, reqs[1..], i);
      var rest := Replies(t.next, reqs[1..]);
      assert Replies(s, reqs) == [t.reply] + rest;
      HandleMembership(s, reqs[0]);
      assert ([t.reply] + rest)[1..] == rest;
    }
  }

  /** The same for readiness: Ready at most once per index, never after one before. */
  lemma {:induction false} ReadyAtMostOnce(s: Server, reqs: seq<Request>, i: nat)
    ensures Occurrences(Replies(s, reqs), Ready(i)) + (if i in s.indexIsReady then 1 else 0)
         == (if i in Run(s, reqs).indexIsReady then 1 else 0)
    decreases |reqs|
  {
    if reqs != [] {
      var t := Handle(s, reqs[0]);
      ReadyAtMostOnce(t.next, reqs[1..], i);
      var rest := Replies(t.next, reqs[1..]);
      assert Replies(s, reqs) == [t.reply] + rest;
      HandleMembership(s, reqs[0]);
      assert ([t.reply] + rest)[1..] == rest;
    }
  }

  /** The invariant, and so the counter's bounds, hold after any run. */
  lemma {:induction false} RunPreservesInv(s: Server, reqs: seq<Request>)
    requires Inv(s)
    ensures Inv(Run(s, reqs))
    ensures 0 <= Run(s, reqs).doneCounter
    decreases |reqs|
  {
    if reqs == [] {
      CounterBounds(s);
    } else {
      HandlePreservesInv(s, reqs[0]);
      RunPreservesInv(Handle(s, reqs[0]).next, reqs[1..]);
    }
  }

  /** `req` is not a GET of index `i`: it is refused, a HEAD, or for another index. */
  predicate NotGetOf(maxClientIndex: int, req: Request, i: nat) {
    ParseIndex(maxClientIndex, req.indexHeader).Failure? || IsHead(req) ||
    ParseIndex(maxClientIndex, req.indexHeader).value != i
  }

  /** A request that is not a GET of `i` leaves the outstanding dispatch of `i` as it is. */
  lemma OtherKeepsDispatch(s: Server, req: Request, i: nat)
    requires NotGetOf(s.maxClientIndex, req, i)
    ensures Handle(s, req).next.maxClientIndex == s.maxClientIndex
    ensures i in s.processStartTime ==>
      i in Handle(s, req).next.processStartTime &&
      Handle(s, req).next.processStartTime[i] == s.processStartTime[i]
  {
    HandleSpec(s, req);
  }

  /** The same over any run of such requests. */
  lemma {:induction false} OthersKeepDispatch(s: Server, reqs: seq<Request>, i: nat)
    requires forall k :: 0 <= k < |reqs| ==> NotGetOf(s.maxClientIndex, reqs[k], i)
    ensures Run(s, reqs).maxClientIndex == s.maxClientIndex
    ensures i in s.processStartTime ==>
      i in Run(s, reqs).processStartTime && Run(s, reqs).processStartTime[i] == s.processStartTime[i]
    decreases |reqs|
  {
    if reqs != [] {
      OtherKeepsDispatch(s, reqs[0], i);
      var next := Handle(s, reqs[0]).next;
      assert forall k :: 0 <= k < |reqs[1..]| ==> NotGetOf(next.maxClientIndex, reqs[1..][k], i) by {
        forall k | 0 <= k < |reqs[1..]| ensures NotGetOf(next.maxClientIndex, reqs[1..][k], i) {
          assert reqs[1..][k] == reqs[k + 1];
        }
      }
      OthersKeepDispatch(next, reqs[1..], i);
    }
  }

  /**
    The ledger entry of an item is the time between its dispatch to an index
    and that index's next GET, whatever other requests the server handles in
    between; the two GETs may spell the index differently ("0", "+0", "00").
   */
  lemma LedgerRecordsElapsed(s: Server, header: string, t0: nat, others: seq<Request>, header2: string, t1: nat)
    requires ParseIndex(s.maxClientIndex, header).Success? && s.partsToServe != []
    requires ParseIndex(s.maxClientIndex, header2) == ParseIndex(s.maxClientIndex, header)
    requires forall k :: 0 <= k < |others| ==>
      NotGetOf(s.maxClientIndex, others[k], ParseIndex(s.maxClientIndex, header).value)
    ensures var first := Handle(s, Request(header, "GET", t0));
      var before := Run(first.next, others);
      var second := Handle(before, Request(header2, "GET", t1));
      first.reply == Item(s.partsToServe[0]) &&
      second.next.processResults == before.processResults[s.partsToServe[0] := t1 - t0]
  {
    var i := ParseIndex(s.maxClientIndex, header).value;
    var first := Handle(s, Request(header, "GET", t0));
    var before := Run(first.next, others);
    assert first.reply == Item(s.partsToServe[0]) by { GetDispatches(s, header, t0, i); }
    assert ParseIndex(before.maxClientIndex, header2) == Success(i) &&
           i in before.processStartTime && before.processStartTime[i] == StartTime(s.partsToServe[0], t0) by {
      GetDispatches(s, header, t0, i);
      OthersKeepDispatch(first.next, others, i);
    }
    GetSettles(before, header2, t1, i, s.partsToServe[0], t0);
  }

  /** A GET with items queued hands out the front item and records its dispatch. */
  lemma GetDispatches(s: Server, header: string, now: nat, i: nat)
    requires ParseIndex(s.maxClientIndex, header) == Success(i) && s.partsToServe != []
    ensures var t := Handle(s, Request(header, "GET", now));
      t.reply == Item(s.partsToServe[0]) && t.next.maxClientIndex == s.maxClientIndex &&
      i in t.next.processStartTime && t.next.processStartTime[i] == StartTime(s.partsToServe[0], now)
  {
  }

  /** A GET of an index with an outstanding dispatch enters its elapsed time into the ledger. */
  lemma GetSettles(s: Server, header: string, now: nat, i: nat, item: string, sent: int)
    requires ParseIndex(s.maxClientIndex, header) == Success(i)
    requires i in s.processStartTime && s.processStartTime[i] == StartTime(item, sent)
    ensures Handle(s, Request(header, "GET", now)).next.processResults == s.processResults[item := now - sent]
  {
  }

  /** One worker, items "hello" and "world": hello, world, done, then a client error. */
  lemma SingleWorkerScenario(t: nat)
    ensures var get := Request("0", "GET", t);
      Replies(Init(["hello", "world"], 1), [get, get, get, get])
        == [Item("hello"), Item("world"), Done(0), AlreadyDone(0)]
  {
    ParseIndexOfFormatted(1, 0);
    assert Decimal.FormatNat(0) == "0";
    var get := Request("0", "GET", t);
    var s0 := Init(["hello", "world"], 1);
    var s1 := Handle(s0, get).next;
    var s2 := Handle(s1, get).next;
    var s3 := Handle(s2, get).next;
    assert ["hello", "world"][1..] == ["world"];
    assert Handle(s0, get).reply == Item("hello");
    assert Handle(s1, get).reply == Item("world");
    assert Handle(s2, get).reply == Done(0);
    assert Handle(s3, get).reply == AlreadyDone(0);
    var s4 := Handle(s3, get).next;
    assert [get, get, get, get][1..] == [get, get, get];
    assert [get, get, get][1..] == [get, get];
    assert [get, get][1..] == [get];
    assert Replies(s3, [get]) == [AlreadyDone(0)] + Replies(s4, []);
    assert Replies(s2, [get, get]) == [Done(0)] + Replies(s3, [get]);
    assert Replies(s1, [get, get, get]) == [Item("world")] + Replies(s2, [get, get]);
    assert Replies(s0, [get, get, get, get]) == [Item("hello")] + Replies(s1, [get, get, get]);
  }

  // ---------------------------------------------------------------------
  // The server object
  // ---------------------------------------------------------------------

  /** splitServer, whose fields ServeHTTP updates in place under its mutex. */
  class SplitServer {
    const maxClientIndex: int
    var partsToServe: seq<string>
    var indexIsReady: set<int>
    var haveToldDone: set<int>
    var processStartTime: map<int, StartTime>
    var processResults: map<string, int>
    /** The counter of doneWaitGroup. */
    var doneWaitGroup: int

    /** The items the server was started with, and those handed out so far. */
    ghost const initialParts: seq<string>
    ghost var served: seq<string>

    function State(): Server
      reads this
    {
      Server(maxClientIndex, partsToServe, indexIsReady, haveToldDone,
             processStartTime, processResults, doneWaitGroup)
    }

    ghost predicate Valid()
      reads this
    {
      Inv(State()) && served + partsToServe == initialParts
    }

    /** The server `serve` builds, after doneWaitGroup.Add(nodeTotal). */
    constructor (parts: seq<string>, nodeTotal: int)
      requires 0 <= nodeTotal < WaitGroupLimit
      ensures Valid() && State() == Init(parts, nodeTotal)
      ensures initialParts == parts && served == []
    {
      maxClientIndex := nodeTotal;
      partsToServe := parts;
      indexIsReady := {};
      haveToldDone := {};
      processStartTime := map[];
      processResults := map[];
      doneWaitGroup := nodeTotal;
      initialParts := parts;
      served := [];
    }

    /** ServeHTTP: one request, handled as one atomic step. */
    method Step(indexHeader: string, httpMethod: string, now: nat) returns (reply: Reply)
      requires Valid()
      modifies this
      ensures Valid()
      ensures Transition(State(), reply) == Handle(old(State()), Request(indexHeader, httpMethod, now))
      ensures served == old(served) + (if reply.Item? then [reply.item] else [])
      ensures 0 <= doneWaitGroup
    {
      ghost var before := State();
      ghost var req := Request(indexHeader, httpMethod, now);
      var validated := ParseIndex(maxClientIndex, indexHeader);
      if validated.Failure? {
        reply := validated.error;
      } else if httpMethod == "HEAD" {
        reply := Head(validated.value);
        HeadPreservesInv(before, validated.value);
      } else {
        reply := Get(validated.value, now);
        GetPreservesInv(before, validated.value, now);
      }
      CounterBounds(State());
    }

    /** The HEAD branch of ServeHTTP: mark the index ready, once. */
    method Head(index: nat) returns (reply: Reply)
      modifies this
      ensures Transition(State(), reply) == HandleHead(old(State()), index)
      ensures served == old(served)
    {
      if index in indexIsReady {
        reply := AlreadyReady(index);
        return;
      }
      indexIsReady := indexIsReady + {index};
      reply := Ready(index);
    }

    /**
      The GET branch of ServeHTTP: settle the index's outstanding dispatch,
      then hand out the front item, or tell the index it is done, once.
     */
    method Get(index: nat, now: nat) returns (reply: Reply)
      modifies this
      ensures Transition(State(), reply) == HandleGet(old(State()), index, now)
      ensures served == old(served) + (if reply.Item? then [reply.item] else [])
      ensures old(partsToServe) == (if reply.Item? then [reply.item] else []) + partsToServe
    {
      if index in processStartTime {
        var lastItem := processStartTime[index];
        processResults := processResults[lastItem.sentItem := now - lastItem.sendTime];
        processStartTime := processStartTime - {index};
      }
      if |partsToServe| != 0 {
        var toRet := partsToServe[0];
        assert partsToServe == [toRet] + partsToServe[1..];
        partsToServe := partsToServe[1..];
        served := served + [toRet];
        processStartTime := processStartTime[index := StartTime(toRet, now)];
        reply := Item(toRet);
        return;
      }
      if index in haveToldDone {
        reply := AlreadyDone(index);
        return;
      }
      haveToldDone := haveToldDone + {index};
      doneWaitGroup := doneWaitGroup - 1;
      reply := Done(index);
    }
  }

  // ---------------------------------------------------------------------
  // serve: reading the items
  // ---------------------------------------------------------------------

  /** Length of the first line of `s`: up to and including the first '\n', or all of it. */
  function LineLength(s: string): (n: nat)
    ensures n <= |s| && (s != [] ==> n > 0)
  {
    if s == [] then 0
    else if s[0] == '\n' then 1
    else 1 + LineLength(s[1..])
  }

  /** The first line holds no newline before its end, and ends at the first newline if there is one. */
  lemma {:induction false} LineLengthFindsNewline(s: string)
    ensures forall k :: 0 <= k < LineLength(s) - 1 ==> s[k] != '\n'
    ensures '\n' in s ==> s[LineLength(s) - 1] == '\n'
    ensures '\n' !in s ==> LineLength(s) == |s|
    decreases |s|
  {
    if s != [] && s[0] != '\n' {
      assert s == [s[0]] + s[1..];
      LineLengthFindsNewline(s[1..]);
    }
  }

  /**
    What the loop of bufio.Reader.ReadString('\n') returns, the empty strings
    left out: each line with its newline, and a final unterminated line.
   */
  function Pieces(s: string): seq<string>
    decreases |s|
  {
    if s == [] then [] else [s[..LineLength(s)]] + Pieces(s[LineLength(s)..])
  }

  function Concat(ps: seq<string>): string {
    if ps == [] then [] else ps[0] + Concat(ps[1..])
  }

  function NewlineCount(s: string): nat {
    if s == [] then 0 else (if s[0] == '\n' then 1 else 0) + NewlineCount(s[1..])
  }

  /**
    A non-empty line: a newline can only be its last character, and it is
    there when the line is `terminated`.
   */
  predicate IsLine(p: string, terminated: bool) {
    p != [] &&
    (forall j :: 0 <= j < |p| - 1 ==> p[j] != '\n') &&
    (terminated ==> p[|p| - 1] == '\n')
  }

  /** The pieces put back together give the input. */
  lemma {:induction false} PiecesConcat(s: string)
    ensures Concat(Pieces(s)) == s
    decreases |s|
  {
    if s != [] {
      var n := LineLength(s);
      PiecesConcat(s[n..]);
      var ps := [s[..n]] + Pieces(s[n..]);
      assert ps[1..] == Pieces(s[n..]);
      assert s == s[..n] + s[n..];
    }
  }

  /**
    Every piece is a non-empty '\n'-delimited line, and every piece but the
    last ends with its newline.
   */
  lemma {:induction false} PiecesAreLines(s: string)
    ensures forall k :: 0 <= k < |Pieces(s)| ==> IsLine(Pieces(s)[k], k < |Pieces(s)| - 1)
    decreases |s|
  {
    if s != [] {
      var n := LineLength(s);
      var rest := Pieces(s[n..]);
      LineLengthFindsNewline(s);
      PiecesAreLines(s[n..]);
      var ps := [s[..n]] + rest;
      assert Pieces(s) == ps;
      assert rest != [] ==> '\n' in s by {
        if '\n' !in s { assert s[n..] == []; }
      }
      assert IsLine(ps[0], 0 < |ps| - 1);
      forall k | 1 <= k < |ps| ensures IsLine(ps[k], k < |ps| - 1) {
        assert ps[k] == rest[k - 1];
      }
    }
  }

  /** One item per newline, plus one for a last line without a newline. */
  lemma {:induction false} PiecesCount(s: string)
    ensures |Pieces(s)| == NewlineCount(s) + (if s != [] && s[|s| - 1] != '\n' then 1 else 0)
    decreases |s|
  {
    if s != [] {
      var n := LineLength(s);
      var rest := s[n..];
      LineLengthFindsNewline(s);
      PiecesCount(rest);
      NewlineCountSplit(s, n);
      if rest != [] {
        assert rest[|rest| - 1] == s[|s| - 1];
      } else if '\n' !in s {
        assert s[..n] == s;
      }
    }
  }

  lemma {:induction false} NewlineCountSplit(s: string, n: nat)
    requires s != [] && n == LineLength(s)
    ensures NewlineCount(s) == NewlineCount(s[n..]) + (if '\n' in s then 1 else 0)
    decreases |s|
  {
    if s[0] != '\n' {
      assert s == [s[0]] + s[1..];
      if s[1..] != [] {
        NewlineCountSplit(s[1..], n - 1);
        assert s[1..][n - 1..] == s[n..];
      }
    }
  }

  /** A line holding only "\n" is kept, and becomes an empty item. */
  lemma BlankLineBecomesEmptyItem()
    ensures Pieces("a\n\nb") == ["a\n", "\n", "b"]
    ensures Whitespace.TrimSpace("\n") == ""
  {
    var s := "a\n\nb";
    assert LineLength(s) == 2;
    assert s[2..] == "\nb";
    assert LineLength("\nb") == 1;
    assert "\nb"[1..] == "b";
    assert LineLength("b") == 1;
    assert "b"[1..] == [];
    assert s[..2] == "a\n" && "\nb"[..1] == "\n" && "b"[..1] == "b";
    assert Pieces("b") == ["b"] + Pieces([]);
    assert Pieces("\nb") == ["\n"] + Pieces("b");
    assert Pieces(s) == ["a\n"] + Pieces("\nb");
    assert Whitespace.TrimLeft("\n") == Whitespace.TrimLeft("\n"[1..]);
  }

  /**
    A terminated line followed by an unterminated one, as in "hello\nworld",
    is read as those two lines.
   */
  lemma TwoLinePieces(a: string, b: string)
    requires '\n' !in a && '\n' !in b && b != []
    ensures Pieces(a + "\n" + b) == [a + "\n", b]
  {
    assert Pieces(b) == [b] by {
      LineLengthOfWord(b);
      assert b[..|b|] == b && b[|b|..] == [];
    }
    var s := a + "\n" + b;
    assert LineLength(s) == |a| + 1 by {
      assert s == a + ("\n" + b);
      LineLengthAfterWord(a, "\n" + b);
    }
    assert s[..|a| + 1] == a + "\n" && s[|a| + 1..] == b;
  }

  /** Trimming the lines of "hello\nworld" gives the items "hello" and "world". */
  lemma TwoLineInputItems()
    ensures Whitespace.TrimSpace("hello\n") == "hello"
    ensures Whitespace.TrimSpace("world") == "world"
  {
    assert Whitespace.TrimLeft("hello\n") == "hello\n";
    assert "hello\n"[..5] == "hello";
    assert Whitespace.TrimRight("hello\n") == Whitespace.TrimRight("hello");
  }

  /** A string without a newline is one line. */
  lemma {:induction false} LineLengthOfWord(w: string)
    requires '\n' !in w
    ensures LineLength(w) == |w|
  {
    LineLengthFindsNewline(w);
  }

  /** Before the first newline, the first line takes the whole word and the newline. */
  lemma {:induction false} LineLengthAfterWord(w: string, rest: string)
    requires '\n' !in w && rest != [] && rest[0] == '\n'
    ensures LineLength(w + rest) == |w| + 1
    decreases |w|
  {
    if w == [] {
      assert w + rest == rest;
    } else {
      assert (w + rest)[1..] == w[1..] + rest;
      LineLengthAfterWord(w[1..], rest);
    }
  }

  /**
    The read loop of `serve`: ReadString('\n') until the end of the input,
    keeping every non-empty line with its newline.
   */
  method ReadLines(input: string) returns (allLines: seq<string>)
    ensures allLines == Pieces(input)
  {
    allLines := [];
    var unread := input;
    var eof := false;
    while !eof
      invariant eof ==> unread == []
      invariant allLines + Pieces(unread) == Pieces(input)
      decreases |unread|, !eof
    {
      var n := LineLength(unread);
      ReadStep(unread);
      var line := unread[..n];
      // ReadString reports the end of the input when the line lacks the delimiter
      eof := line == [] || line[|line| - 1] != '\n';
      if line != "" {
        assert (allLines + [line]) + Pieces(unread[n..]) == allLines + ([line] + Pieces(unread[n..]));
        allLines := allLines + [line];
      }
      unread := unread[n..];
    }
  }

  /**
    One ReadString call on what is left unread: the line it returns is the
    first piece, it is empty only at the end, and without a newline it takes
    all that is left.
   */
  lemma ReadStep(unread: string)
    ensures var line := unread[..LineLength(unread)];
      (line != [] ==> Pieces(unread) == [line] + Pieces(unread[|line|..])) &&
      (line == [] ==> unread == []) &&
      (line == [] || line[|line| - 1] != '\n' ==> unread[|line|..] == [])
  {
    LineLengthFindsNewline(unread);
  }

  /** The trim loop of `serve`: strings.TrimSpace on every line, in place. */
  method TrimLines(lines: seq<string>) returns (items: seq<string>)
    ensures |items| == |lines|
    ensures forall k :: 0 <= k < |items| ==> items[k] == Whitespace.TrimSpace(lines[k])
  {
    items := lines;
    var idx := 0;
    while idx < |items|
      invariant 0 <= idx <= |items| == |lines|
      invariant forall k :: 0 <= k < idx ==> items[k] == Whitespace.TrimSpace(lines[k])
      invariant forall k :: idx <= k < |items| ==> items[k] == lines[k]
    {
      items := items[idx := Whitespace.TrimSpace(items[idx])];
      idx := idx + 1;
    }
  }

  /** The items `serve` hands to the server: the trimmed lines of the input. */
  method ReadItems(input: string) returns (items: seq<string>)
    ensures |items| == |Pieces(input)|
    ensures forall k :: 0 <= k < |items| ==> items[k] == Whitespace.TrimSpace(Pieces(input)[k])
  {
    var allLines := ReadLines(input);
    items := TrimLines(allLines);
  }

  /**
    serve: the server is built from the trimmed items, with its counter at
    nodeTotal.
   */
  method Serve(input: string, nodeTotal: int) returns (server: SplitServer)
    requires 0 <= nodeTotal < WaitGroupLimit
    ensures fresh(server) && server.Valid()
    ensures |server.partsToServe| == |Pieces(input)|
    ensures forall k :: 0 <= k < |server.partsToServe| ==>
      server.partsToServe[k] == Whitespace.TrimSpace(Pieces(input)[k])
    ensures server.State() == Init(server.partsToServe, nodeTotal)
  {
    var items := ReadItems(input);
    server := new SplitServer(items, nodeTotal);
  }

  // ---------------------------------------------------------------------
  // next: how a worker reads the reply to its GET
  // ---------------------------------------------------------------------

  datatype NextResult = Wrote(output: string) | NoMoreWork | InvalidStatus(code: int)

  /** The status classification of `next`: 204 ends, 200 copies the body out, else an error. */
  function Next(status: int, body: string): NextResult {
    if status == StatusNoContent then NoMoreWork
    else if status == StatusOK then Wrote(body)
    else InvalidStatus(status)
  }

  /**
    A worker's GET ends in its output exactly when it was sent an item, and
    the output is that item; it ends quietly exactly when it was told done;
    every other reply is a 400 error.
   */
  lemma NextReadsGetReply(s: Server, req: Request)
    requires !IsHead(req)
    ensures var t := Handle(s, req);
      var r := Next(Status(t.reply), Body(t.reply));
      (r.Wrote? <==> t.reply.Item?) &&
      (r.Wrote? ==> r.output == t.reply.item) &&
      (r == NoMoreWork <==> t.reply.Done?) &&
      (r.InvalidStatus? <==> r == InvalidStatus(StatusBadRequest))
  {
  }
}

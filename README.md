# circleutil in Dafny

A model of the three test-splitting tools of circleutil, with proofs of what
they promise.

- **circletasker** (`circletasker.dfy`, module `Circletasker`) is a work queue for CI nodes.
  - `serve` reads newline-delimited items and trims each one. It then starts a `splitServer` that hands the items out.
  - Each GET with an `X-index` header gets one item, and each index gets one "done" reply (204) when the queue is empty.
  - HEAD requests mark an index ready. Every request runs under one mutex.
  - The model therefore treats one request as one atomic transition: `Handle` on the state as a value, and `SplitServer.Step` on the object's fields.
  - It proves this about the state:
    - FIFO service under any interleaving;
    - at most one Done and one Ready per index;
    - the wait-group counter never goes negative, and it reaches zero exactly when every index has been told done;
    - the time ledger records the time between a dispatch and the same index's next GET.
  - The worker side, `next`, classifies replies by status code.
- **envsplit** (`envsplit.dfy`, module `Envsplit`) reads a node index and a node total from two environment variables. It validates them, then prints every input whose position is congruent to the index modulo the total.
  - The counter closure of `indexesFunc` is the class `Selector`.
  - Its uint64 counter wraps at 2^64, as in Go.
  - The outputs of all the node indices together are exactly the inputs, as a multiset.
- **junitappend** (`junitappend.dfy`, module `Junitappend`) has two parts.
  - **Report bookkeeping:**
    - `createOrGetSuit` finds a suite by name, or appends a new one;
    - `addTest` appends a case and updates the counters.
  - **The greedy time-based split:**
    - builds the previous run's times by test name (`timeByClass`);
    - deduplicates the input lines and sorts them;
    - puts each part into the first bucket of least load (`minIndex`);
    - prints this node's bucket.
  - The split is proved to equal a reference function `Assign`. `Assign` is proved to keep these properties:
    - each part ends up in exactly one bucket;
    - each bucket's load is its parts' weight sum;
    - each bucket is sorted.

Shared modules:
- `Decimal` holds Go's `strconv.ParseUint`/`ParseInt` (base 10, 64 bits) and decimal formatting. Each is tied to a positional `Value` function.
- `Whitespace` holds `strings.TrimSpace` with `unicode.IsSpace`.
- `StringOrder` holds the order of `sort.Strings`, strictly sorted sequences and insertion.
- `Wrappers` holds `Option` and `Result`.

Parameters stand in for I/O and the environment:
- the clock is the `now` field of a request;
- standard input and the command-line arguments are strings or sequences of strings;
- the environment is a `map<string, string>`.

The model follows the code in these details:
- An `X-index` that does not parse is refused with a descriptive body. An index that parses but is out of range is refused with status 400 and an empty body (cmd/circletasker/circletasker.go:78-82). In the model, `Body(InvalidIndex(_))` is empty.
- For a repeated HEAD the handler writes the same "Index i was already told to stop" message as a repeated done.
- A GET refused as already done still settles the index's outstanding dispatch into the ledger first.

## Model

| member | source | states |
|---|---|---|
| Decimal.FormatNat | cmd/circletasker/circletasker.go:206 | the result is a non-empty string of decimal digits whose value is n, and it starts with '0' only when n is 0 |
| Decimal.AccumulateSpec | cmd/envsplit/envsplit.go:33-40 | the left-to-right digit loop succeeds exactly on an all-digit string whose value fits in 64 bits and returns that value; a digit string too large is a range error |
| Decimal.ParseUint64Spec | cmd/envsplit/envsplit.go:33-40 | ParseUint(s, 10, 64) succeeds iff s is a non-empty digit string of value at most 2^64-1, returning its value; "" is a syntax error, too large a range error |
| Decimal.ParseInt64Spec | cmd/circletasker/circletasker.go:70 | ParseInt(s, 10, 64) succeeds iff the text after an optional sign is a non-empty digit string whose signed value is in the int64 range, and returns the signed value |
| Decimal.FormatParseRoundTrip | cmd/circletasker/circletasker.go:206 | an index formatted by the worker parses back to itself with both parsers |
| Whitespace.TrimSpaceIsMaximalTrim | cmd/circletasker/circletasker.go:244 | TrimSpace returns a slice of the input with only white space around it, neither starting nor ending with white space, and empty iff the input is all white space |
| StringOrder.InsertSpec | cmd/junitappend/main.go:337 | inserting a new element into a strictly sorted sequence keeps it strictly sorted and adds exactly that element |
| StringOrder.SortedUnique | cmd/junitappend/main.go:337 | two strictly sorted sequences with the same elements are equal, so the sorted form of a set is unique |
| StringOrder.SortedDistinct | cmd/junitappend/main.go:324-337 | the reference result of dedup-then-sort: strictly sorted, with exactly the elements of the input |
| Circletasker.Status | cmd/circletasker/circletasker.go:73-123 | 400 exactly for the four refusals (bad header, out-of-range index, repeated HEAD, repeated done), 204 exactly for Done, and the default 200 for Ready and an item |
| Circletasker.Body | cmd/circletasker/circletasker.go:74-117 | a bad header gets "Invalid X-index " and the header, an item gets the item itself, a repeated HEAD or done gets "Index i was already told to stop", Ready and Done get nothing, and among the 400 replies only the out-of-range index has an empty body |
| Circletasker.ParseIndex | cmd/circletasker/circletasker.go:69-82 | an index is accepted iff the header parses as int64 and lies in [0, maxClientIndex); a parse failure is rejected with the header text, an out-of-range index with its value |
| Circletasker.ParseIndexOfFormatted | cmd/circletasker/circletasker.go:206 | the header a worker sends for a valid index is accepted as that index |
| Circletasker.ResolveDispatch | cmd/circletasker/circletasker.go:95-100 | defines settling: an index with an open dispatch has its elapsed time entered into the ledger under the dispatched item and the dispatch removed; otherwise the state is unchanged (stated by HandleSpec and GetSettles) |
| Circletasker.HandleHead | cmd/circletasker/circletasker.go:83-94 | defines the HEAD branch: a new index is added to the ready set with a Ready reply, a repeat is refused and changes nothing (stated by HandleSpec and ReadyAtMostOnce) |
| Circletasker.HandleGet | cmd/circletasker/circletasker.go:95-127 | defines the GET branch: settle, then serve the front item and record its dispatch, or tell done once (counter down by one), or refuse a repeat (stated by HandleSpec, RunServesQueueInOrder and DoneAtMostOnce) |
| Circletasker.Handle | cmd/circletasker/circletasker.go:66-128 | defines one request: a header that fails ParseIndex is answered with its refusal and no change, otherwise HEAD and GET go to their branches (stated by HandleSpec and HandlePreservesInv) |
| Circletasker.OtherKeepsDispatch | cmd/circletasker/circletasker.go:66-128 | a request that is not a GET of index i keeps maxClientIndex and i's open dispatch unchanged |
| Circletasker.OthersKeepDispatch | cmd/circletasker/circletasker.go:66-128 | the same over any sequence of such requests |
| Circletasker.GetDispatches | cmd/circletasker/circletasker.go:101-111 | a valid GET with items left is answered with the front item and records its dispatch time for that index |
| Circletasker.GetSettles | cmd/circletasker/circletasker.go:95-100 | a valid GET of an index with an open dispatch of an item sent at t enters now - t for that item into the ledger |
| Circletasker.HandleSpec | cmd/circletasker/circletasker.go:66-128 | per request: rejections change nothing; HEAD marks a new index ready and refuses a repeat, touching nothing else; GET settles the index's open dispatch into the ledger, then serves the front item or tells done once and refuses a repeat; the queue is FIFO; the done counter drops exactly with a Done reply |
| Circletasker.Init | cmd/circletasker/circletasker.go:247-268 | the server `serve` builds satisfies the invariant, accepts indices below nodeTotal, holds the items, has no index ready or done, no open dispatch and an empty ledger, and, for a total below 2^31 (the int32 WaitGroup range), has its counter at nodeTotal |
| Circletasker.HandlePreservesInv | cmd/circletasker/circletasker.go:66-128 | every request keeps recorded indices in range and the counter equal to maxClientIndex minus the done count |
| Circletasker.CounterBounds | cmd/circletasker/circletasker.go:121-127 | under the invariant the done counter stays within [0, maxClientIndex], and it is zero iff every index was told done |
| Circletasker.RunServesQueueInOrder | cmd/circletasker/circletasker.go:101-111 | over any sequence of requests, the items served followed by the remaining queue are the initial queue |
| Circletasker.DoneAtMostOnce | cmd/circletasker/circletasker.go:113-127 | over any run, each index receives Done at most once, never after being told done, and is in the done set afterwards iff it was before or received Done |
| Circletasker.ReadyAtMostOnce | cmd/circletasker/circletasker.go:83-94 | the same for readiness |
| Circletasker.RunPreservesInv | cmd/circletasker/circletasker.go:66-128 | the invariant and a non-negative wait-group counter hold after any run |
| Circletasker.LedgerRecordsElapsed | cmd/circletasker/circletasker.go:95-111 | an item served by a GET gets the ledger entry t1 - t0: the time between its dispatch at t0 and the same index's next GET at t1 (under the same or another spelling of the index), whatever requests that are not GETs of that index (refused ones, HEADs, other indices) the server handles in between |
| Circletasker.SingleWorkerScenario | cmd/circletasker/circletasker_test.go:47-62 | one worker with items hello and world gets hello, world, Done, then a refusal |
| Circletasker.SplitServer.constructor | cmd/circletasker/circletasker.go:247-268 | the new server object's state is the initial state, valid, with nothing served yet |
| Circletasker.SplitServer.Step | cmd/circletasker/circletasker.go:66-128 | the in-place handler performs exactly Handle on its state, returns Handle's reply, keeps the invariant and a non-negative counter, and records what it served |
| Circletasker.SplitServer.Head | cmd/circletasker/circletasker.go:83-94 | the HEAD branch updates the fields exactly as HandleHead |
| Circletasker.SplitServer.Get | cmd/circletasker/circletasker.go:95-127 | the GET branch updates the fields exactly as HandleGet and takes an item only from the front of the queue |
| Circletasker.LineLengthFindsNewline | cmd/circletasker/circletasker.go:232 | ReadString's line ends at the first newline, or takes the whole rest when there is none |
| Circletasker.Pieces | cmd/circletasker/circletasker.go:231-242 | defines the lines the read loop yields: each runs up to and including the first newline, or is the unterminated rest (stated by PiecesConcat, PiecesAreLines and PiecesCount) |
| Circletasker.PiecesConcat | cmd/circletasker/circletasker.go:231-242 | the lines read, put back together, are the input |
| Circletasker.PiecesAreLines | cmd/circletasker/circletasker.go:231-242 | every line read is non-empty, holds a newline only at its end, and all but the last end with one |
| Circletasker.PiecesCount | cmd/circletasker/circletasker.go:231-242 | one line per newline, plus one for a final unterminated line |
| Circletasker.BlankLineBecomesEmptyItem | cmd/circletasker/circletasker.go:236-245 | a blank line is kept by the read loop and becomes the empty item |
| Circletasker.TwoLinePieces | cmd/circletasker/circletasker_test.go:19 | a terminated line followed by an unterminated one is read as exactly those two lines |
| Circletasker.TwoLineInputItems | cmd/circletasker/circletasker_test.go:49-56 | trimming "hello\n" and "world" gives the items the test expects |
| Circletasker.ReadLines | cmd/circletasker/circletasker.go:229-242 | the read loop returns exactly the line sequence Pieces of the input |
| Circletasker.TrimLines | cmd/circletasker/circletasker.go:243-245 | the trim loop replaces each line by its TrimSpace, keeping the count |
| Circletasker.ReadItems | cmd/circletasker/circletasker.go:229-245 | the items are the trimmed lines of the input, one per line read |
| Circletasker.Serve | cmd/circletasker/circletasker.go:227-268 | the server holds the trimmed lines and starts in the initial state with its counter at nodeTotal, for a total below 2^31 |
| Circletasker.Next | cmd/circletasker/circletasker.go:214-224 | defines the worker's reading of a reply: 204 ends quietly, 200 writes the body, any other status is an error naming it (stated by NextReadsGetReply) |
| Circletasker.NextReadsGetReply | cmd/circletasker/circletasker.go:214-224 | a worker's GET produces output iff it was sent an item, and that output is the item; it ends quietly iff told done; anything else is a 400 error |
| Envsplit.Indexes | cmd/envsplit/envsplit.go:24-48 | the checks in order (missing index, missing total, bad index, bad total, zero total, index not below total); success iff both are valid decimal uint64 texts with index < total, returning their values |
| Envsplit.Selector.constructor | cmd/envsplit/envsplit.go:73-74 | the counter starts at zero |
| Envsplit.Selector.Call | cmd/envsplit/envsplit.go:75-86 | a call writes its argument and a newline iff the wrapped counter mod total is the index, and advances the counter mod 2^64 |
| Envsplit.JoinLines | cmd/envsplit/envsplit.go:77-82 | defines the output text: each written line followed by its newline, in order (stated by SplitInputs and Selector.Call) |
| Envsplit.SplitInputs | cmd/envsplit/envsplit.go:55-70 | calling the selector on each input in order writes the picked inputs, one per line |
| Envsplit.Execute | cmd/envsplit/envsplit.go:50-71 | main fails with the validation error, or outputs the selected inputs of the validated index and total |
| Envsplit.Picks | cmd/envsplit/envsplit.go:76 | defines the test of the k-th call: the counter wrapped at 2^64, modulo the total, equals the index (stated by PicksBeforeWrap) |
| Envsplit.Selected | cmd/envsplit/envsplit.go:73-87 | defines what an index outputs: the inputs at the picked positions, in input order (stated by SplitInputs, SelectedFromPickedPositions and OutputsPartitionInputs) |
| Envsplit.OutputsPartitionInputs | cmd/envsplit/envsplit.go:73-87 | the outputs of the indices 0 .. total-1 together are exactly the inputs, with multiplicity |
| Envsplit.PicksBeforeWrap | cmd/envsplit/envsplit.go:76 | before the counter wraps, position k is picked iff k mod total is the index |
| Envsplit.SelectedFromPickedPositions | cmd/envsplit/envsplit.go:76-83 | every line an index outputs is an input at a position it picks |
| Junitappend.NewCase | cmd/junitappend/main.go:84-97 | the new case carries the class, the name and the duration, and carries a failure iff there is a failure message |
| Junitappend.TestSuite.constructor | cmd/junitappend/main.go:108-110 | a new suite has the name, zero counters, no cases, and tallied counters |
| Junitappend.TestSuite.AddTest | cmd/junitappend/main.go:83-100 | one more test, one more failure iff a message is given, the duration added, the case appended; counters that agree with the cases still agree |
| Junitappend.TalliedFailuresAtMostTests | cmd/junitappend/main.go:89-97 | a suite built by addTest never counts more failures than tests |
| Junitappend.FirstIndex | cmd/junitappend/main.go:103-107 | the position of the first element equal to the name, or none iff there is none |
| Junitappend.TestSuites.CreateOrGetSuit | cmd/junitappend/main.go:102-113 | returns the first suite with the name and leaves the list alone, or appends and returns one fresh empty suite with that name |
| Junitappend.TimesFromKeys | cmd/junitappend/main.go:38-46 | the map's keys are exactly the names of tests from the given source |
| Junitappend.TimesFromLastWins | cmd/junitappend/main.go:38-46 | a name maps to the run time of the last entry from that source with that name |
| Junitappend.TimeByClass | cmd/junitappend/main.go:38-46 | the loop builds exactly the TimesFrom map |
| Junitappend.ArgMinIsFirstMin | cmd/junitappend/main.go:356-364 | the reference index is a minimum and comes before every other position holding the same minimum |
| Junitappend.MinIndex | cmd/junitappend/main.go:356-364 | the loop returns the first position of the minimum (0 for fewer than two buckets) |
| Junitappend.Weight | cmd/junitappend/main.go:342-345 | defines a part's weight: its previous run time when it has one, otherwise avgTime (stated by PlaceInLeastLoaded and AssignLoadsAreSums) |
| Junitappend.Place | cmd/junitappend/main.go:346-348 | defines one greedy step: the part and its weight go to the first bucket of least load, the number of buckets unchanged (stated by PlaceInLeastLoaded) |
| Junitappend.Assign | cmd/junitappend/main.go:341-349 | defines the greedy assignment: the parts placed in order into n empty buckets, n buckets in the result (stated by AssignLoadsAreSums, AssignPartitionsParts, AssignItemsAreParts and AssignKeepsOrder) |
| Junitappend.AssignLoadsAreSums | cmd/junitappend/main.go:341-349 | each bucket's load is the sum of the weights of its parts |
| Junitappend.AssignPartitionsParts | cmd/junitappend/main.go:341-349 | the buckets together hold exactly the parts, each once per occurrence |
| Junitappend.AssignItemsAreParts | cmd/junitappend/main.go:341-349 | every item in a bucket is one of the parts |
| Junitappend.AssignKeepsOrder | cmd/junitappend/main.go:337-349 | with sorted distinct parts, every bucket is sorted |
| Junitappend.DistinctParts | cmd/junitappend/main.go:324-337 | the set-then-sort step yields exactly SortedDistinct of the lines |
| Junitappend.PlaceInLeastLoaded | cmd/junitappend/main.go:342-348 | one loop step adds the part and its weight to the first least-loaded bucket, as Place |
| Junitappend.Split | cmd/junitappend/main.go:321-352 | this node prints its bucket of the greedy assignment of the sorted distinct lines, weighted by the previous run's times |

## Left out

- The HTTP transport, the listener and `start`'s wait on `doneWaitGroup` are out of scope. The counter is modelled; blocking is not.
- The mutex is not modelled: requests are serialised, as the mutex makes them.
- The retry loop of `ready` and the HTTP round trip of `next` are left out; the reply is an input of `Next`.
- `flagInit` (flag and environment plumbing), the `main` command dispatch and the results JSON file are left out.
- The XML encoding and decoding of the report, `loadFile` and `writeFile` are left out, and so is `addMsg`, which only chains them with `createOrGetSuit` and `addTest`.
- The CircleCI fetch `loadFromCirclePrevRun`, `loadPrevRun` and the JSON decoding of the previous run are left out. Their result enters `Junitappend.Split` as a sequence of entries.
- Logging and write errors are left out.
- `bufio.Scanner` line splitting (envsplit's `-stdin`, junitappend's standard input) is left out. Those inputs are sequences of lines.
- I/O errors of the reader in `serve` are left out; the input is a string.
- Junitappend.Split: durations, weights and bucket loads are integers rather than float64 seconds, so rounding and NaN are not modelled. `getAvgTime` is left out; its result is the parameter `avgTime`.
- Junitappend.Split: requires `0 <= nodeIndex < nodeTotal`. Otherwise Go panics: `make` with a negative length, or an index out of range.
- Junitappend.MinIndex: compares integers rather than float64 values.
- Junitappend.TestSuite.AddTest: the time is an integer sum of durations rather than float64 seconds.
- Circletasker.Serve: requires `0 <= nodeTotal < 2^31`. `sync.WaitGroup` keeps its counter in an int32, and `Add(nodeTotal)` panics for a negative total and for totals from 2^31 to 2^32 - 1; a total of 2^32 wraps to a zero counter. That int32 wrap-around is not modelled.
- Circletasker.Init: requires `0 <= nodeTotal < 2^31`, for the same WaitGroup reason.
- Circletasker.SplitServer.constructor: requires `0 <= nodeTotal < 2^31`, for the same WaitGroup reason.
- Circletasker.SplitServer.Step: the clock is the non-negative parameter `now`, and a ledger duration is an integer difference rather than a `time.Duration`.
- `TestSuite.name` is a constant, because nothing in the core changes it after creation.
- Strings are sequences of Unicode characters, so every input is taken to be valid UTF-8. Byte strings that are not valid UTF-8, which `sort.Strings` and `strings.TrimSpace` accept, are not modelled.
- cmd/dirfind/dirfind.go is not part of this model.

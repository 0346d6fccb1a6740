# Node mempool reader and batch-transaction endpoints, in Dafny

This project models two pieces of a network gateway's C# code and proves properties of the models.

**The per-node mempool reader** (`node_mempool_reader.dfy`, module `NodeMempoolReader`). A `NodeMempoolReaderWorker` keeps a dictionary from transaction id to transaction data. It also keeps three metric values: the mempool size gauge and the added and removed counters. Each run does the following:

- asks the node for the ids it holds as pending;
- removes the dictionary entries whose ids are no longer reported (the evidently intended diff; as written, the diff compares ids by reference and removes every entry, see "## Findings");
- fetches each new id one at a time, with up to 3 attempts per id, the first success winning;
- adds the successes to the dictionary;
- bumps the counters and registers the dictionary with the mempool tracker.

The class keeps the dictionary as a `map` field that its methods update in place. The removal loop, the insertion loop, the per-id fetch loop and the retry loop are all `while` loops. Each is proved against a specification function:

- `FirstSuccess` for one retried fetch;
- `Fetched` / `SucceededIds` for the batch of fetches;
- `Reconciled` for a whole run.

The two remote calls are inputs:

- The listing call is an `Option<seq<TransactionId>>`. `None` means the call threw.
- The single-transaction call is a `FetchOracle`: a function from (id, attempt number within the run) to `Option<TransactionData>`. `None` means the call threw; the source swallows that exception.

**The batch-transaction controller** (`batch_transactions.dfy`, module `BatchTransactionsController`). It covers two endpoints:

- `since-account-transactions`;
- `since-ledger-state`.

The controller itself makes only a few decisions:

- the page limit: 0 becomes 30, then the bound check [1, 100];
- a since-ledger-state request must carry a start state or a cursor;
- a decoded cursor takes precedence, and the start state is then not resolved;
- the validated account lists keep the request's length and order;
- the response flags come from the querier's next-page cursor;
- one ledger state is read per request and used throughout it.

Everything the controller calls is a function value in a `Collaborators` record:

- the validations;
- ledger-state resolution;
- cursor decoding and encoding;
- the two queriers.

A thrown exception is a `Failure`. Each endpoint is a method: its account-list `foreach` loop is `ValidateEach`, proved against `ValidateAll`. Each method is proved against a function giving exactly what the querier is called with (`SinceHashQuery`, `SinceStateQueryFor`).

`wrappers.dfy` holds `Option` and `Result`.

Three behaviours of the code that a reader might not expect:

- A limit of 0 is the C# default of the `Limit` field, so it resolves to 30, not 1 (`BatchTransactionsController.cs:113`, `:150`). A limit is not clamped before the bound check.
- The mempool size gauge is set from the raw length of the node's list, duplicates included, before the diff. It is not set from the dictionary's final size (`NodeMempoolReaderWorker.cs:150`). The model proves only that the gauge is at least the dictionary's size after a run.
- The code for the limit bound check (`ExtractValidIntInBoundInclusive`) is not part of this model. The model assumes only the contract `IntBoundContract`: an in-bound value is returned unchanged, and any value returned is in bounds. An out-of-bound limit may therefore fail or be replaced.

## Model

| member | source | states |
|---|---|---|
| `NodeMempoolReader.ReportedIdsSize` | src/DataAggregator/NodeScopedWorkers/NodeMempoolReaderWorker.cs:150-154 | Duplicate ids in the node's list collapse: the reported set has at most as many elements as the list the gauge counts, and at least one when the list is non-empty |
| `NodeMempoolReader.FetchTransaction` | src/DataAggregator/NodeScopedWorkers/NodeMempoolReaderWorker.cs:239-268 | A single call yields null exactly when the node call throws; otherwise the record carries the requested id and the data the node returned |
| `NodeMempoolReader.FirstSuccessIsFirst` | src/DataAggregator/NodeScopedWorkers/NodeMempoolReaderWorker.cs:226-236 | The retry result is null exactly when every attempt fails; otherwise it is the data of an attempt all of whose predecessors failed (first success wins) |
| `NodeMempoolReader.FetchTransactionWithRetry` | src/DataAggregator/NodeScopedWorkers/NodeMempoolReaderWorker.cs:219-237 | At most `retryCount` calls are made; they stop at the first non-null result, which is returned with the requested id; a null result means every one of the `retryCount` attempts failed |
| `NodeMempoolReader.ListToMapKeys` | src/DataAggregator/NodeScopedWorkers/NodeMempoolReaderWorker.cs:177-180 | Adding the fetched list entry by entry gives a dictionary whose keys are exactly the ids in the list |
| `NodeMempoolReader.DistinctListToMapSize` | src/DataAggregator/NodeScopedWorkers/NodeMempoolReaderWorker.cs:175-180 | When the list's ids are distinct, the dictionary built from it has one entry per list element |
| `NodeMempoolReader.FetchedInsert` | src/DataAggregator/NodeScopedWorkers/NodeMempoolReaderWorker.cs:207-213 | Processing one more id adds exactly that id with its fetched data when its retrying fetch succeeds, and nothing when it fails |
| `NodeMempoolReader.FetchTransactions` | src/DataAggregator/NodeScopedWorkers/NodeMempoolReaderWorker.cs:198-217 | The returned list has distinct ids, all drawn from the set to fetch; it holds exactly the ids whose retrying fetch succeeded, each with that fetch's data; every id is attempted 3 times when every attempt fails, and otherwise up to and including its first successful attempt |
| `NodeMempoolReader.Reconciled` | src/DataAggregator/NodeScopedWorkers/NodeMempoolReaderWorker.cs:152-180 | With the intended byte-wise diff: after a run the dictionary's keys are a subset of the reported ids and equal (old keys ∩ reported) ∪ {new ids whose fetch succeeded}; kept ids keep their old data; newly added ids hold their first successful fetch |
| `NodeMempoolReader.RepollIsNoOp` | src/DataAggregator/NodeScopedWorkers/NodeMempoolReaderWorker.cs:156-180 | With the intended diff, if the node reports exactly the ids already held, the dictionary is unchanged whatever the node would answer |
| `NodeMempoolReader.ReconciledMatchesReport` | src/DataAggregator/NodeScopedWorkers/NodeMempoolReaderWorker.cs:167-180 | With the intended diff, after a run the held ids equal the reported ids if and only if every new id was fetched within the 3 attempts |
| `NodeMempoolReader.SecondRunIsNoOp` | src/DataAggregator/NodeScopedWorkers/NodeMempoolReaderWorker.cs:156-180 | With the intended diff, once every new id has been fetched, a second run on the same report keeps the dictionary, whatever the node would answer |
| `NodeMempoolReader.SizeOfFetchedList` | src/DataAggregator/NodeScopedWorkers/NodeMempoolReaderWorker.cs:175 | The added counter's increment, the length of the fetched list, equals the number of ids whose fetch succeeded |
| `NodeMempoolReader.ReconciledSize` | src/DataAggregator/NodeScopedWorkers/NodeMempoolReaderWorker.cs:150-180 | After a run the dictionary has no more entries than the node's raw list, the value the size gauge is set to |
| `NodeMempoolReader.TwoRunScenarioFacts` | src/DataAggregator/NodeScopedWorkers/NodeMempoolReaderWorker.cs:152-180 | With the intended diff, reports {A,B} then {B,C}, on an empty dictionary, with a node that always answers: the keys become {A,B} (2 added), then {B,C} (1 removed, 1 added) |
| `NodeMempoolReader.NodeMempoolReaderWorker.constructor` | src/DataAggregator/NodeScopedWorkers/NodeMempoolReaderWorker.cs:111-132 | A new worker has an empty dictionary, zero metric values and nothing registered |
| `NodeMempoolReader.NodeMempoolReaderWorker.RemoveTransactions` | src/DataAggregator/NodeScopedWorkers/NodeMempoolReaderWorker.cs:156-163 | The removal loop deletes exactly the given ids and changes no other entry |
| `NodeMempoolReader.NodeMempoolReaderWorker.AddTransactions` | src/DataAggregator/NodeScopedWorkers/NodeMempoolReaderWorker.cs:177-180 | Each `Dictionary.Add` meets a key that is absent, so it never throws; the dictionary gains exactly the list's entries |
| `NodeMempoolReader.NodeMempoolReaderWorker.FetchAndShareMempoolTransactions` | src/DataAggregator/NodeScopedWorkers/NodeMempoolReaderWorker.cs:139-196 | A failed listing changes nothing. Otherwise: the dictionary becomes `Reconciled(old, reported, fetch)`; the gauge is the raw list length; the removed counter grows by exactly the count of old keys no longer reported; the added counter grows by exactly the number of successful fetches; exactly the new ids are attempted, each 3 times when every attempt fails and otherwise up to its first success; both counters never decrease; the current dictionary is registered |
| `NodeMempoolReader.RepollWorker` | src/DataAggregator/NodeScopedWorkers/NodeMempoolReaderWorker.cs:139-196 | With the intended diff, a worker whose node reports exactly the ids it holds keeps its dictionary and both counters, fetches no id, and sets the gauge to the list length |
| `NodeMempoolReader.RunAnswered` | src/DataAggregator/NodeScopedWorkers/NodeMempoolReaderWorker.cs:139-196 | With the intended diff and a node that answers every call, a run makes the held ids exactly the reported ones; the removed counter grows by the held ids no longer reported and the added counter by the new ids |
| `NodeMempoolReader.TwoRunScenario` | src/DataAggregator/NodeScopedWorkers/NodeMempoolReaderWorker.cs:139-196 | With the intended diff, a new worker polled with [A,B] then [B,C], against a node that always answers, holds {B,C} with 3 added, 1 removed, gauge 2, and has registered its dictionary |
| `NodeMempoolReader.RunAsWritten` | src/DataAggregator/NodeScopedWorkers/NodeMempoolReaderWorker.cs:152-180 | A run with the diff as written (reference-equality `Except` on new arrays) removes every held entry (removed counter grows by the dictionary's size), and the dictionary becomes exactly the successful fetches of all reported ids, the added counter growing by their number |
| `NodeMempoolReader.AsWrittenRepollRefetches` | src/DataAggregator/NodeScopedWorkers/NodeMempoolReaderWorker.cs:156-172 | As written, re-polling the held ids of a non-empty dictionary removes every entry and re-fetches every id, while the intended diff leaves the dictionary unchanged |
| `NodeMempoolReader.AsWrittenRepollCounterexample` | src/DataAggregator/NodeScopedWorkers/NodeMempoolReaderWorker.cs:156-180 | Held [1] fetched at time 0, node reports [1] and answers at time 1: as written the run removes 1, adds 1 and replaces the entry; the intended diff changes nothing |
| `NodeMempoolReader.TwoRunScenarioAsWritten` | src/DataAggregator/NodeScopedWorkers/NodeMempoolReaderWorker.cs:152-180 | As written, reports [A,B] then [B,C]: the second run removes 2 and adds 2 (the intended diff: 1 and 1); the keys still end as {B,C} |
| `BatchTransactionsController.ResolveLimit` | src/GatewayAPI/Controllers/BatchTransactionsController.cs:113-119 | A limit of 0 resolves to 30; any other limit reaches the bound check unchanged (no clamping first); a limit already in [1,100] passes unchanged; any limit produced lies in [1,100] |
| `BatchTransactionsController.ValidateAll` | src/GatewayAPI/Controllers/BatchTransactionsController.cs:101-111 | The validated list succeeds if and only if every element validates; it then has one entry per element, in order; otherwise it fails with the error of the first element that fails |
| `BatchTransactionsController.ValidateEach` | src/GatewayAPI/Controllers/BatchTransactionsController.cs:144-148 | The `foreach` loop that builds a validated list computes exactly `ValidateAll`, including which error stops it |
| `BatchTransactionsController.ValidatedAccountTransaction` | src/GatewayAPI/Controllers/BatchTransactionsController.cs:103-110 | An entry succeeds if and only if the address validates and the transaction identifier is absent or validates; a failing address gives its error, checked before the identifier; on success the entry carries the validated address, and its identifier is absent if and only if the request's is, and is otherwise the validated identifier |
| `BatchTransactionsController.SinceHashQuery` | src/GatewayAPI/Controllers/BatchTransactionsController.cs:95-122 | The query succeeds if and only if the ledger read, every account entry and the limit succeed; failures are reported in source order: the ledger read's error, then the first failing account entry's error, then the bound check's error; a limit in [1,100] after defaulting never fails. The querier gets the ledger state read once with no "at" identifier, an account list with one entry per request entry, in order, each the validated address and validated transaction identifier of that entry, and as limit exactly the bound check's result: in [1,100], 30 for 0, unchanged when already in range |
| `BatchTransactionsController.GetAccountTransactionsSinceHash` | src/GatewayAPI/Controllers/BatchTransactionsController.cs:92-129 | The response's ledger state is the one the querier was called with; its transactions are the querier's; `morePagesExist` is true if and only if the querier returned a next-page cursor; each failure is passed on unchanged |
| `BatchTransactionsController.SinceStateQueryFor` | src/GatewayAPI/Controllers/BatchTransactionsController.cs:134-162 | A cursor that fails to decode fails the request. With no since-identifier and no decoded cursor, the request fails as invalid with the fixed message. The request succeeds if and only if: the cursor decodes; a since-identifier or a decoded cursor is present; the "at" lookup succeeds; the since lookup succeeds, which is required only without a cursor; every account validates; and the limit passes the bound check. Failures are reported in source order: the cursor's error, the missing since/cursor error, the "at" lookup's error, the since lookup's error (only without a cursor), the first failing account's error, then the bound check's error. A decoded cursor leaves the since-ledger-state unresolved; otherwise it comes from the since-identifier. The read state comes from the "at" identifier. The page size is exactly the bound check's result and lies in [1,100]. The account list keeps the request's length and order |
| `BatchTransactionsController.GetAccountTransactionsSinceState` | src/GatewayAPI/Controllers/BatchTransactionsController.cs:131-171 | The response's ledger state is the one the querier was called with; its transactions are the querier's; a next cursor is present if and only if the querier returned one, and is then its string encoding; each failure is passed on unchanged |

## Left out

- `NodeTransactionLogWorker` (the ledger extension loop) is not part of this model. Its run is three calls to collaborators: read the ledger tip, fetch 1000 transactions, commit them. It makes no decision of its own.
- The scheduling base class (`LoopedWorkerBase`) is not part of this model. This covers its delays, timeouts, backoff and cancellation. The model covers one run at a time.
- The node's HTTP calls are not modelled. They are inputs: the listing answer and the `FetchOracle`.
- The oracle's answer depends only on the id and the attempt number. Answers that depend on the order in which ids are fetched are not modelled, for example a node that goes down halfway through a run. That order is a hash-set enumeration order and is left unspecified.
- `NodeMempoolReader.FetchTransactionWithRetry`: `retryCount` is a `nat`. The C# `int` parameter would make no attempt for a negative value. The only caller passes 3.
- `NodeMempoolReader.NodeMempoolReaderWorker.FetchAndShareMempoolTransactions`: the number of calls per id is recorded in a ghost map, which the source does not keep.
- Hex conversion is not modelled: ids are byte sequences. The dictionary, `ToHashSet` and the model's diff compare them byte-wise. The two `Except` calls compare them by reference; that is modelled only by `RunAsWritten` (see "## Findings").
- Parts of the transaction data are simplified. The parsed transaction object is represented by its payload bytes. The fetch time (`DateTime.UtcNow`) is whatever the oracle's data carries.
- Logging, timing, and the Prometheus gauge and counter objects are not modelled. Only their integer values are kept, as fields.
- `RegisterNodeMempool` hands the tracker the live dictionary. The model records the value at registration; the aliasing is not modelled.
- The cursor codec (`FromCursorString`, `ToCursorString`) and the validation service are function parameters. So are the ledger-state querier and the transaction querier. None of their code is part of this model, so no round-trip or error behaviour of theirs is claimed.
- `BatchTransactionsController.ResolveLimit`: this member requires `IntBoundContract` of the bound-check service. That is an assumed contract, not one read from its code.
- ASP.NET routing, attributes, request deserialisation, network identifiers beyond being passed on, and null request lists are not modelled.
- `NodeMempoolReader.Reconciled`: it is the evidently intended byte-wise diff, not the reference-equality diff the code as written computes; `RunAsWritten` models the latter.
- `NodeMempoolReader.NodeMempoolReaderWorker.FetchAndShareMempoolTransactions`: its new dictionary and removed counter are those of the intended diff. As written, every held id is removed (the removed counter grows by the dictionary's size) and every reported id is fetched again; see `RunAsWritten`.
- `NodeMempoolReader.RepollIsNoOp`: holds for the intended diff only. As written, a re-poll removes and re-fetches every held id (`AsWrittenRepollRefetches`).
- `NodeMempoolReader.ReconciledMatchesReport`: holds for the intended diff only. As written, the held ids equal the report exactly when every reported id, not just every new one, is fetched within 3 attempts.
- `NodeMempoolReader.SecondRunIsNoOp`: holds for the intended diff only. As written, a second run on the same report removes and re-fetches everything.
- `NodeMempoolReader.TwoRunScenarioFacts`: holds for the intended diff only. As written, the second run removes 2 and adds 2 (`TwoRunScenarioAsWritten`).
- `NodeMempoolReader.RepollWorker`: holds for the worker with the intended diff only, like `RepollIsNoOp`.
- `NodeMempoolReader.RunAnswered`: its counter increments are those of the intended diff.
- `NodeMempoolReader.TwoRunScenario`: holds for the worker with the intended diff only. As written, the counters end at 4 added and 2 removed.

## Findings

| source | as written | input that shows it | evidently intended | confidence | as-written member | corrected member |
|---|---|---|---|---|---|---|
| src/DataAggregator/NodeScopedWorkers/NodeMempoolReaderWorker.cs:156-169 | Both `Except` calls pass no comparer, so the `byte[]` ids are compared by reference. The node's ids are new arrays on every run, so every held entry is removed and every reported id is fetched again | Dictionary holds id [1] fetched at time 0; the node reports [1] and answers at time 1: removed +1, added +1, the entry is replaced | The byte-wise diff that `ToHashSet` and the dictionary use (`ByteArrayEqualityComparer`): nothing removed, nothing fetched | not executed; high | `NodeMempoolReader.RunAsWritten`, `NodeMempoolReader.AsWrittenRepollCounterexample` | `NodeMempoolReader.Reconciled`, `NodeMempoolReader.NodeMempoolReaderWorker.FetchAndShareMempoolTransactions` |

/** The per-node mempool reader: each run lists the transaction ids a node
    reports as pending, drops the ids it no longer reports, fetches the new
    ones one by one with a bounded retry, and inserts the successes into a
    dictionary the worker owns. The two calls to the node are oracles. */
module NodeMempoolReader {
  import opened Wrappers

  /** A transaction id: the bytes of the transaction hash, compared byte-wise. */
  type TransactionId = seq<bv8>

  /** What is kept for a pending transaction; the parsed transaction object
      the node returns is represented by its payload bytes only. */
  datatype TransactionData = TransactionData(fetchedAtUtc: int, payload: seq<bv8>)

  datatype TransactionDataWithId = TransactionDataWithId(id: TransactionId, transactionData: TransactionData)

  /** The node's single-transaction endpoint: `fetch(id, k)` is the outcome of
      the k-th call (counting from 0) for `id` within one run; `None` stands for
      any exception the call throws (transport, parse, ...). */
  type FetchOracle = (TransactionId, nat) -> Option<TransactionData>

  /** Number of attempts per transaction (NodeMempoolReaderWorker.cs:209). */
  const FetchRetryCount: nat := 3

  /** The set of ids in the node's list: duplicates collapse. */
  function ReportedIds(transactionIdentifiers: seq<TransactionId>): set<TransactionId>
  {
    set id | id in transactionIdentifiers
  }

  lemma {:induction false} ReportedIdsSize(transactionIdentifiers: seq<TransactionId>)
    ensures |ReportedIds(transactionIdentifiers)| <= |transactionIdentifiers|
    ensures transactionIdentifiers != [] ==> 1 <= |ReportedIds(transactionIdentifiers)|
  {
    if transactionIdentifiers != [] {
      var n := |transactionIdentifiers|;
      var prefix := transactionIdentifiers[..n - 1];
      ReportedIdsSize(prefix);
      assert ReportedIds(transactionIdentifiers) == ReportedIds(prefix) + {transactionIdentifiers[n - 1]} by {
        assert transactionIdentifiers == prefix + [transactionIdentifiers[n - 1]];
      }
    }
  }

  // ---------------------------------------------------------------------------
  // Fetching one transaction

  /** One call to the node for one transaction, with every exception turned
      into `None`. */
  function FetchTransaction(fetch: FetchOracle, transactionId: TransactionId, attempt: nat): (r: Option<TransactionDataWithId>)
    ensures r.None? <==> fetch(transactionId, attempt).None?
    ensures r.Some? ==> r.value.id == transactionId && fetch(transactionId, attempt) == Some(r.value.transactionData)
  {
    match fetch(transactionId, attempt)
    case Some(data) => Some(TransactionDataWithId(transactionId, data))
    case None => None
  }

  /** Specification of the retry: the data of the first successful attempt
      among attempts `from` .. `retryCount - 1`, if any. */
  function FirstSuccess(fetch: FetchOracle, transactionId: TransactionId, from: nat, retryCount: nat): Option<TransactionData>
    decreases retryCount - from
  {
    if from >= retryCount then None
    else if fetch(transactionId, from).Some? then fetch(transactionId, from)
    else FirstSuccess(fetch, transactionId, from + 1, retryCount)
  }

  /** `FirstSuccess` fails exactly when every attempt fails, and when it
      succeeds its value is that of an attempt all of whose predecessors failed. */
  lemma {:induction false} FirstSuccessIsFirst(fetch: FetchOracle, transactionId: TransactionId, from: nat, retryCount: nat)
    ensures FirstSuccess(fetch, transactionId, from, retryCount).None? <==>
            forall k :: from <= k < retryCount ==> fetch(transactionId, k).None?
    ensures FirstSuccess(fetch, transactionId, from, retryCount).Some? ==>
            exists k :: from <= k < retryCount && fetch(transactionId, k) == FirstSuccess(fetch, transactionId, from, retryCount) &&
                        forall j :: from <= j < k ==> fetch(transactionId, j).None?
    decreases retryCount - from
  {
    if from < retryCount {
      if fetch(transactionId, from).Some? {
        assert fetch(transactionId, from) == FirstSuccess(fetch, transactionId, from, retryCount);
      } else {
        FirstSuccessIsFirst(fetch, transactionId, from + 1, retryCount);
        if FirstSuccess(fetch, transactionId, from, retryCount).Some? {
          var k :| from + 1 <= k < retryCount && fetch(transactionId, k) == FirstSuccess(fetch, transactionId, from + 1, retryCount) &&
                   forall j :: from + 1 <= j < k ==> fetch(transactionId, j).None?;
          assert forall j :: from <= j < k ==> fetch(transactionId, j).None?;
        }
      }
    }
  }

  /** The retrying fetch: up to `retryCount` calls, stopping at the first one
      that returns something. The ghost `attempts` counts the calls made. */
  method FetchTransactionWithRetry(fetch: FetchOracle, transactionId: TransactionId, retryCount: nat)
    returns (r: Option<TransactionDataWithId>, ghost attempts: nat)
    ensures r.Some? <==> FirstSuccess(fetch, transactionId, 0, retryCount).Some?
    ensures r.Some? ==> r.value == TransactionDataWithId(transactionId, FirstSuccess(fetch, transactionId, 0, retryCount).value)
    ensures attempts <= retryCount
    ensures r.Some? ==> 1 <= attempts && fetch(transactionId, attempts - 1) == Some(r.value.transactionData)
    ensures r.Some? ==> forall k :: 0 <= k < attempts - 1 ==> fetch(transactionId, k).None?
    ensures r.None? ==> attempts == retryCount && forall k :: 0 <= k < retryCount ==> fetch(transactionId, k).None?
  {
    attempts := 0;
    var i: nat := 0;
    while i < retryCount
      invariant i <= retryCount
      invariant attempts == i
      invariant forall k :: 0 <= k < i ==> fetch(transactionId, k).None?
      invariant FirstSuccess(fetch, transactionId, i, retryCount) == FirstSuccess(fetch, transactionId, 0, retryCount)
    {
      var result := FetchTransaction(fetch, transactionId, i);
      attempts := attempts + 1;
      if result.Some? {
        r := result;
        return;
      }
      i := i + 1;
    }
    r := None;
  }

  // ---------------------------------------------------------------------------
  // Fetching all new transactions

  /** Specification of a batch fetch: the ids of `ids` whose retrying fetch
      succeeds, with the data it returns. */
  function Fetched(fetch: FetchOracle, ids: set<TransactionId>): map<TransactionId, TransactionData>
  {
    map id | id in ids && FirstSuccess(fetch, id, 0, FetchRetryCount).Some? :: FirstSuccess(fetch, id, 0, FetchRetryCount).value
  }

  /** The ids whose retrying fetch succeeds. */
  function SucceededIds(fetch: FetchOracle, ids: set<TransactionId>): set<TransactionId>
  {
    set id | id in ids && FirstSuccess(fetch, id, 0, FetchRetryCount).Some?
  }

  /** The dictionary obtained by adding the entries of `list` in order. */
  function ListToMap(list: seq<TransactionDataWithId>): map<TransactionId, TransactionData>
  {
    if list == [] then map[]
    else ListToMap(list[..|list| - 1])[list[|list| - 1].id := list[|list| - 1].transactionData]
  }

  ghost predicate DistinctIds(list: seq<TransactionDataWithId>)
  {
    forall i, j :: 0 <= i < j < |list| ==> list[i].id != list[j].id
  }

  lemma {:induction false} ListToMapKeys(list: seq<TransactionDataWithId>)
    ensures forall id :: id in ListToMap(list) <==> exists k :: 0 <= k < |list| && list[k].id == id
  {
    if list != [] {
      var prefix := list[..|list| - 1];
      ListToMapKeys(prefix);
      forall id | id in ListToMap(list)
        ensures exists k :: 0 <= k < |list| && list[k].id == id
      {
        if id != list[|list| - 1].id {
          assert id in ListToMap(prefix);
          var k :| 0 <= k < |prefix| && prefix[k].id == id;
          assert list[k].id == id;
        }
      }
      forall id | exists k :: 0 <= k < |list| && list[k].id == id
        ensures id in ListToMap(list)
      {
        var k :| 0 <= k < |list| && list[k].id == id;
        if k < |list| - 1 {
          assert prefix[k].id == id;
        }
      }
    }
  }

  /** With distinct ids, every element of the list becomes its own entry. */
  lemma {:induction false} DistinctListToMapSize(list: seq<TransactionDataWithId>)
    requires DistinctIds(list)
    ensures |ListToMap(list)| == |list|
  {
    if list != [] {
      var prefix := list[..|list| - 1];
      DistinctListToMapSize(prefix);
      ListToMapKeys(prefix);
      assert list[|list| - 1].id !in ListToMap(prefix);
    }
  }

  lemma FetchedInsert(fetch: FetchOracle, done: set<TransactionId>, id: TransactionId)
    requires id !in done
    ensures FirstSuccess(fetch, id, 0, FetchRetryCount).None? ==> Fetched(fetch, done + {id}) == Fetched(fetch, done)
    ensures FirstSuccess(fetch, id, 0, FetchRetryCount).Some? ==>
            Fetched(fetch, done + {id}) == Fetched(fetch, done)[id := FirstSuccess(fetch, id, 0, FetchRetryCount).value]
  {
  }

  /** `attempts` is the number of calls the retrying fetch makes for `id`:
      all of them when every one fails, otherwise up to the first success. */
  ghost predicate AttemptsOfRetry(fetch: FetchOracle, id: TransactionId, attempts: nat)
  {
    && 1 <= attempts <= FetchRetryCount
    && (FirstSuccess(fetch, id, 0, FetchRetryCount).None? ==> attempts == FetchRetryCount)
    && (FirstSuccess(fetch, id, 0, FetchRetryCount).Some? ==>
          && fetch(id, attempts - 1) == FirstSuccess(fetch, id, 0, FetchRetryCount)
          && forall k :: 0 <= k < attempts - 1 ==> fetch(id, k).None?)
  }

  /** Fetches every id of `transactionsToFetch` sequentially, keeping the ones
      whose retrying fetch succeeds. The list's order follows the set's
      enumeration order, which is left unspecified. */
  method FetchTransactions(fetch: FetchOracle, transactionsToFetch: set<TransactionId>)
    returns (list: seq<TransactionDataWithId>, ghost attempts: map<TransactionId, nat>)
    ensures DistinctIds(list)
    ensures forall k :: 0 <= k < |list| ==> list[k].id in transactionsToFetch
    ensures ListToMap(list) == Fetched(fetch, transactionsToFetch)
    ensures attempts.Keys == transactionsToFetch
    ensures forall id :: id in attempts ==> 1 <= attempts[id] <= FetchRetryCount
    ensures (forall id :: id in attempts ==> AttemptsOfRetry(fetch, id, attempts[id]))
  {
    list := [];
    attempts := map[];
    var remaining := transactionsToFetch;
    while remaining != {}
      invariant remaining <= transactionsToFetch
      invariant DistinctIds(list)
      invariant forall k :: 0 <= k < |list| ==> list[k].id in transactionsToFetch - remaining
      invariant ListToMap(list) == Fetched(fetch, transactionsToFetch - remaining)
      invariant attempts.Keys == transactionsToFetch - remaining
      invariant forall id :: id in attempts ==> 1 <= attempts[id] <= FetchRetryCount
      invariant (forall id :: id in attempts ==> AttemptsOfRetry(fetch, id, attempts[id]))
      decreases remaining
    {
      var transactionId :| transactionId in remaining;
      var transactionData;
      ghost var n;
      transactionData, n := FetchTransactionWithRetry(fetch, transactionId, FetchRetryCount);
      assert AttemptsOfRetry(fetch, transactionId, n);
      ghost var done := transactionsToFetch - remaining;
      FetchedInsert(fetch, done, transactionId);
      if transactionData.Some? {
        var last := transactionData.value;
        assert (list + [last])[..|list|] == list;
        list := list + [last];
      }
      attempts := attempts[transactionId := n];
      remaining := remaining - {transactionId};
      assert transactionsToFetch - remaining == done + {transactionId};
    }
  }

  // ---------------------------------------------------------------------------
  // One reconciliation run

  /** Specification of a successful run: drop the ids no longer reported, then
      add the new ids whose fetch succeeded. */
  function Reconciled(current: map<TransactionId, TransactionData>, reported: set<TransactionId>, fetch: FetchOracle)
    : (next: map<TransactionId, TransactionData>)
    ensures next.Keys <= reported
    ensures next.Keys == (current.Keys * reported) + SucceededIds(fetch, reported - current.Keys)
    ensures forall id :: id in current && id in reported ==> id in next && next[id] == current[id]
    ensures forall id :: id in next && id !in current ==> FirstSuccess(fetch, id, 0, FetchRetryCount) == Some(next[id])
  {
    (current - (current.Keys - reported)) + Fetched(fetch, reported - current.Keys)
  }

  /** Re-polling a node that reports exactly the ids already held changes
      nothing, whatever the node would answer. */
  lemma RepollIsNoOp(current: map<TransactionId, TransactionData>, fetch: FetchOracle)
    ensures Reconciled(current, current.Keys, fetch) == current
  {
    assert Fetched(fetch, {}) == map[];
  }

  /** The held ids equal the reported ones after a run exactly when every new
      id was fetched within the retry bound; otherwise the missing ones are
      left for a later run. */
  lemma ReconciledMatchesReport(current: map<TransactionId, TransactionData>, reported: set<TransactionId>, fetch: FetchOracle)
    ensures Reconciled(current, reported, fetch).Keys == reported <==>
            forall id :: id in reported && id !in current ==> FirstSuccess(fetch, id, 0, FetchRetryCount).Some?
  {
    var next := Reconciled(current, reported, fetch);
    if next.Keys == reported {
      forall id | id in reported && id !in current
        ensures FirstSuccess(fetch, id, 0, FetchRetryCount).Some?
      {
        assert id in next.Keys;
      }
    }
  }

  /** Once every new id has been fetched, a second run on the same report
      removes nothing, fetches nothing and keeps the dictionary. */
  lemma SecondRunIsNoOp(current: map<TransactionId, TransactionData>, reported: set<TransactionId>,
                        fetch: FetchOracle, fetchAgain: FetchOracle)
    requires forall id :: id in reported && id !in current ==> FirstSuccess(fetch, id, 0, FetchRetryCount).Some?
    ensures var next := Reconciled(current, reported, fetch);
            next.Keys - reported == {} && reported - next.Keys == {} &&
            Reconciled(next, reported, fetchAgain) == next
  {
    var next := Reconciled(current, reported, fetch);
    ReconciledMatchesReport(current, reported, fetch);
    RepollIsNoOp(next, fetchAgain);
  }

  /** The added counter grows by the number of successful fetches. */
  lemma SizeOfFetchedList(list: seq<TransactionDataWithId>, fetch: FetchOracle, ids: set<TransactionId>)
    requires DistinctIds(list)
    requires ListToMap(list) == Fetched(fetch, ids)
    ensures |list| == |SucceededIds(fetch, ids)|
  {
    DistinctListToMapSize(list);
    assert Fetched(fetch, ids).Keys == SucceededIds(fetch, ids);
  }

  /** After a run the dictionary holds no more entries than the node's raw
      list has elements, the value the size gauge is set to. */
  lemma ReconciledSize(current: map<TransactionId, TransactionData>, transactionIdentifiers: seq<TransactionId>, fetch: FetchOracle)
    ensures |Reconciled(current, ReportedIds(transactionIdentifiers), fetch)| <= |transactionIdentifiers|
  {
    var next := Reconciled(current, ReportedIds(transactionIdentifiers), fetch);
    ReportedIdsSize(transactionIdentifiers);
    SubsetSize(next.Keys, ReportedIds(transactionIdentifiers));
  }

  lemma {:induction false} SubsetSize<T>(a: set<T>, b: set<T>)
    requires a <= b
    ensures |a| <= |b|
  {
    if a != {} {
      var x :| x in a;
      SubsetSize(a - {x}, b - {x});
    }
  }

  /** The worker: the dictionary of pending transactions it keeps between runs,
      the three metric values, and what it last registered with the mempool
      tracker. */
  class NodeMempoolReaderWorker {
    var currentTransactions: map<TransactionId, TransactionData>
    /** Gauge `node_mempool_size_total`. */
    var mempoolSize: nat
    /** Counter `node_mempool_added_count`. */
    var mempoolItemsAdded: nat
    /** Counter `node_mempool_removed_count`. */
    var mempoolItemsRemoved: nat
    /** The contents last handed to the mempool tracker, if any. */
    var registeredMempool: Option<map<TransactionId, TransactionData>>

    constructor ()
      ensures currentTransactions == map[]
      ensures mempoolSize == 0 && mempoolItemsAdded == 0 && mempoolItemsRemoved == 0
      ensures registeredMempool == None
    {
      currentTransactions := map[];
      mempoolSize, mempoolItemsAdded, mempoolItemsRemoved := 0, 0, 0;
      registeredMempool := None;
    }

    /** The removal loop: deletes each id of `transactionsToRemove`. */
    method RemoveTransactions(transactionsToRemove: set<TransactionId>)
      modifies this`currentTransactions
      ensures currentTransactions == old(currentTransactions) - transactionsToRemove
    {
      var remaining := transactionsToRemove;
      while remaining != {}
        invariant remaining <= transactionsToRemove
        invariant currentTransactions == old(currentTransactions) - (transactionsToRemove - remaining)
        decreases remaining
      {
        var id :| id in remaining;
        currentTransactions := currentTransactions - {id};
        remaining := remaining - {id};
      }
    }

    /** The insertion loop: `Dictionary.Add` of each fetched transaction. The
        requires clauses are what keeps `Add` from throwing on a duplicate key. */
    method AddTransactions(transactionsToAdd: seq<TransactionDataWithId>)
      requires DistinctIds(transactionsToAdd)
      requires forall k :: 0 <= k < |transactionsToAdd| ==> transactionsToAdd[k].id !in currentTransactions
      modifies this`currentTransactions
      ensures currentTransactions == old(currentTransactions) + ListToMap(transactionsToAdd)
    {
      var i := 0;
      while i < |transactionsToAdd|
        invariant 0 <= i <= |transactionsToAdd|
        invariant currentTransactions == old(currentTransactions) + ListToMap(transactionsToAdd[..i])
      {
        var transaction := transactionsToAdd[i];
        ListToMapKeys(transactionsToAdd[..i]);
        assert transaction.id !in currentTransactions;
        assert transactionsToAdd[..i + 1][..i] == transactionsToAdd[..i];
        currentTransactions := currentTransactions[transaction.id := transaction.transactionData];
        i := i + 1;
      }
      assert transactionsToAdd[..i] == transactionsToAdd;
    }

    /** One run. `mempoolContents` is the node's answer to the listing call,
        `None` when that call throws; the run then fails before touching any
        state. `attempts` records, per fetched id, how many calls were made. */
    method FetchAndShareMempoolTransactions(mempoolContents: Option<seq<TransactionId>>, fetch: FetchOracle)
      returns (ok: bool, ghost attempts: map<TransactionId, nat>)
      modifies this
      ensures ok <==> mempoolContents.Some?
      ensures !ok ==> unchanged(this) && attempts == map[]
      ensures ok ==>
        var reported := ReportedIds(mempoolContents.value);
        && currentTransactions == Reconciled(old(currentTransactions), reported, fetch)
        && mempoolSize == |mempoolContents.value|
        && mempoolItemsRemoved == old(mempoolItemsRemoved) + |old(currentTransactions).Keys - reported|
        && mempoolItemsAdded == old(mempoolItemsAdded) + |SucceededIds(fetch, reported - old(currentTransactions).Keys)|
        && attempts.Keys == reported - old(currentTransactions).Keys
        && (forall id :: id in attempts ==> 1 <= attempts[id] <= FetchRetryCount)
        && (forall id :: id in attempts ==> AttemptsOfRetry(fetch, id, attempts[id]))
        && registeredMempool == Some(currentTransactions)
      ensures mempoolItemsAdded >= old(mempoolItemsAdded) && mempoolItemsRemoved >= old(mempoolItemsRemoved)
      ensures ok ==> |currentTransactions| <= mempoolSize
    {
      if mempoolContents.None? {
        ok, attempts := false, map[];
        return;
      }
      ok := true;
      var transactionIdentifiers := mempoolContents.value;
      mempoolSize := |transactionIdentifiers|;

      var idsInMempool := ReportedIds(transactionIdentifiers);

      var transactionsToRemove := currentTransactions.Keys - idsInMempool;
      RemoveTransactions(transactionsToRemove);
      mempoolItemsRemoved := mempoolItemsRemoved + |transactionsToRemove|;

      var transactionIdsToAdd := idsInMempool - currentTransactions.Keys;
      assert transactionIdsToAdd == idsInMempool - old(currentTransactions).Keys;

      var transactionsToAdd;
      transactionsToAdd, attempts := FetchTransactions(fetch, transactionIdsToAdd);
      SizeOfFetchedList(transactionsToAdd, fetch, transactionIdsToAdd);
      mempoolItemsAdded := mempoolItemsAdded + |transactionsToAdd|;

      AddTransactions(transactionsToAdd);
      ReconciledSize(old(currentTransactions), transactionIdentifiers, fetch);
      registeredMempool := Some(currentTransactions);
    }
  }

  /** A node that answers every call, with data derived from the id. */
  function AlwaysAnswers(): FetchOracle
  {
    (id, k) => Some(TransactionData(0, id))
  }

  /** Two runs on the specification: the node reports {A, B} to an empty
      dictionary, then {B, C}, and answers every call. */
  lemma TwoRunScenarioFacts(a: TransactionId, b: TransactionId, c: TransactionId)
    requires a != b && b != c && a != c
    ensures var m1 := Reconciled(map[], {a, b}, AlwaysAnswers());
            && m1.Keys == {a, b}
            && |SucceededIds(AlwaysAnswers(), {a, b})| == 2
            && Reconciled(m1, {b, c}, AlwaysAnswers()).Keys == {b, c}
            && |m1.Keys - {b, c}| == 1
            && |SucceededIds(AlwaysAnswers(), {b, c} - m1.Keys)| == 1
  {
    var fetch := AlwaysAnswers();
    assert FirstSuccess(fetch, a, 0, FetchRetryCount).Some? && FirstSuccess(fetch, b, 0, FetchRetryCount).Some?;
    assert FirstSuccess(fetch, c, 0, FetchRetryCount).Some?;
    assert SucceededIds(fetch, {a, b}) == {a, b};
    var m1 := Reconciled(map[], {a, b}, fetch);
    assert {b, c} - m1.Keys == {c};
    assert SucceededIds(fetch, {c}) == {c};
    assert m1.Keys - {b, c} == {a};
  }

  /** Re-polling a worker whose node reports exactly the ids it holds: the
      dictionary and both counters stay as they are, and no id is fetched. */
  method RepollWorker(w: NodeMempoolReaderWorker, transactionIdentifiers: seq<TransactionId>, fetch: FetchOracle)
    returns (ghost attempts: map<TransactionId, nat>)
    requires ReportedIds(transactionIdentifiers) == w.currentTransactions.Keys
    modifies w
    ensures w.currentTransactions == old(w.currentTransactions)
    ensures w.mempoolItemsAdded == old(w.mempoolItemsAdded) && w.mempoolItemsRemoved == old(w.mempoolItemsRemoved)
    ensures w.mempoolSize == |transactionIdentifiers|
    ensures attempts == map[]
  {
    var ok;
    ok, attempts := w.FetchAndShareMempoolTransactions(Some(transactionIdentifiers), fetch);
    RepollIsNoOp(old(w.currentTransactions), fetch);
  }

  /** Two runs of a new worker: the node reports [A, B], then [B, C], and
      answers every call. */
  method TwoRunScenario(a: TransactionId, b: TransactionId, c: TransactionId) returns (w: NodeMempoolReaderWorker)
    requires a != b && b != c && a != c
    ensures w.currentTransactions.Keys == {b, c}
    ensures w.mempoolItemsAdded == 3 && w.mempoolItemsRemoved == 1
    ensures w.mempoolSize == 2
    ensures w.registeredMempool == Some(w.currentTransactions)
  {
    ReportedPair(a, b);
    ReportedPair(b, c);
    w := new NodeMempoolReaderWorker();
    RunAnswered(w, [a, b]);
    RunAnswered(w, [b, c]);
    assert {a, b} - {b, c} == {a} && {b, c} - {a, b} == {c};
  }

  /** One run against a node that answers every call: the held ids become
      exactly the reported ones, the removed counter grows by the number of
      held ids no longer reported and the added counter by the number of new
      ids. */
  method RunAnswered(w: NodeMempoolReaderWorker, transactionIdentifiers: seq<TransactionId>)
    modifies w
    ensures w.currentTransactions.Keys == ReportedIds(transactionIdentifiers)
    ensures w.mempoolItemsRemoved == old(w.mempoolItemsRemoved) + |old(w.currentTransactions).Keys - ReportedIds(transactionIdentifiers)|
    ensures w.mempoolItemsAdded == old(w.mempoolItemsAdded) + |ReportedIds(transactionIdentifiers) - old(w.currentTransactions).Keys|
    ensures w.mempoolSize == |transactionIdentifiers|
    ensures w.registeredMempool == Some(w.currentTransactions)
  {
    var reported := ReportedIds(transactionIdentifiers);
    AlwaysAnswersSucceeds(reported - w.currentTransactions.Keys);
    ReconciledMatchesReport(w.currentTransactions, reported, AlwaysAnswers());
    var ok;
    ghost var attempts;
    ok, attempts := w.FetchAndShareMempoolTransactions(Some(transactionIdentifiers), AlwaysAnswers());
  }

  lemma AlwaysAnswersSucceeds(ids: set<TransactionId>)
    ensures SucceededIds(AlwaysAnswers(), ids) == ids
  {
    forall id | id in ids
      ensures FirstSuccess(AlwaysAnswers(), id, 0, FetchRetryCount).Some?
    {
    }
  }

  lemma ReportedPair(a: TransactionId, b: TransactionId)
    requires a != b
    ensures ReportedIds([a, b]) == {a, b} && |[a, b]| == 2
  {
  }

  // ---------------------------------------------------------------------------
  // The diff as written
  //
  // Both `Except` calls of a run (NodeMempoolReaderWorker.cs:157 and :168)
  // pass no comparer, so their `byte[]` elements are compared with the
  // default comparer of an array type: by reference. Only `ToHashSet`, the
  // dictionary's `Remove` and `Add` compare byte-wise. The ids decoded from
  // the node's list are new arrays on every run, so none is one of the
  // dictionary's key objects: as written, every held entry is removed and
  // every reported id fetched again. The rest of this module models the
  // evidently intended byte-wise diff (`Reconciled`).

  /** A `byte[]` object: the identity of the array and its contents. */
  datatype ByteArray = ByteArray(identity: nat, bytes: TransactionId)

  function Contents(arrays: set<ByteArray>): set<TransactionId>
  {
    set a | a in arrays :: a.bytes
  }

  /** `first.Except(second)` with the default comparer: an element is left
      out only when the very same object is in `second`. */
  function ExceptByReference(first: set<ByteArray>, second: set<ByteArray>): set<ByteArray>
  {
    set a | a in first && forall b | b in second :: b.identity != a.identity
  }

  /** The arrays decoded in this run are other objects than the held keys. */
  predicate FreshArrays(heldKeys: set<ByteArray>, idsInMempool: set<ByteArray>)
  {
    forall a, b | a in heldKeys && b in idsInMempool :: a.identity != b.identity
  }

  /** The dictionary after a run, and the increments of the removed and the
      added counters. */
  datatype RunOutcome = RunOutcome(transactions: map<TransactionId, TransactionData>, removed: nat, added: nat)

  /** A successful run as written. `heldKeys` are the dictionary's key
      objects, `idsInMempool` the arrays decoded from the node's list. */
  function RunAsWritten(current: map<TransactionId, TransactionData>, heldKeys: set<ByteArray>,
                        idsInMempool: set<ByteArray>, fetch: FetchOracle): (r: RunOutcome)
    requires Contents(heldKeys) == current.Keys
    requires FreshArrays(heldKeys, idsInMempool)
    ensures r.removed == |current|
    ensures r.transactions == Fetched(fetch, Contents(idsInMempool))
    ensures r.added == |SucceededIds(fetch, Contents(idsInMempool))|
  {
    var transactionsToRemove := Contents(ExceptByReference(heldKeys, idsInMempool));
    var kept := current - transactionsToRemove;
    var keptKeys := set a | a in heldKeys && a.bytes in kept;
    var transactionIdsToAdd := Contents(ExceptByReference(idsInMempool, keptKeys));
    assert ExceptByReference(heldKeys, idsInMempool) == heldKeys;
    assert keptKeys == {};
    assert ExceptByReference(idsInMempool, keptKeys) == idsInMempool;
    RunOutcome(kept + Fetched(fetch, transactionIdsToAdd), |transactionsToRemove|, |SucceededIds(fetch, transactionIdsToAdd)|)
  }

  /** As written, re-polling a node that reports exactly the held ids
      removes every entry and fetches every id again; the intended diff
      keeps the dictionary as it is. */
  lemma AsWrittenRepollRefetches(current: map<TransactionId, TransactionData>, heldKeys: set<ByteArray>,
                                 idsInMempool: set<ByteArray>, fetch: FetchOracle)
    requires Contents(heldKeys) == current.Keys && Contents(idsInMempool) == current.Keys
    requires FreshArrays(heldKeys, idsInMempool)
    requires current != map[]
    ensures RunAsWritten(current, heldKeys, idsInMempool, fetch).removed == |current| > 0
    ensures RunAsWritten(current, heldKeys, idsInMempool, fetch).transactions == Fetched(fetch, current.Keys)
    ensures Reconciled(current, Contents(idsInMempool), fetch) == current
  {
    RepollIsNoOp(current, fetch);
  }

  /** A node that answers every call with data fetched at time 1. */
  function AnswersAtTimeOne(): FetchOracle
  {
    (id, k) => Some(TransactionData(1, []))
  }

  /** A concrete input showing the discrepancy: the dictionary holds [1],
      fetched at time 0; the node reports [1] again and now answers with time
      1. As written, one entry is removed, one is added and the entry is
      replaced; the intended diff leaves the dictionary unchanged. */
  lemma AsWrittenRepollCounterexample()
    ensures var id: TransactionId := [1];
            var current := map[id := TransactionData(0, [])];
            var r := RunAsWritten(current, {ByteArray(0, id)}, {ByteArray(1, id)}, AnswersAtTimeOne());
            && r.removed == 1 && r.added == 1
            && r.transactions == map[id := TransactionData(1, [])]
            && r.transactions != current
            && Reconciled(current, {id}, AnswersAtTimeOne()) == current
  {
    var id: TransactionId := [1];
    var current := map[id := TransactionData(0, [])];
    var fetch := AnswersAtTimeOne();
    var heldKeys, idsInMempool := {ByteArray(0, id)}, {ByteArray(1, id)};
    assert Contents(heldKeys) == {id} by {
      assert ByteArray(0, id) in heldKeys;
    }
    assert Contents(idsInMempool) == {id} by {
      assert ByteArray(1, id) in idsInMempool;
    }
    assert FreshArrays(heldKeys, idsInMempool);
    assert FirstSuccess(fetch, id, 0, FetchRetryCount) == Some(TransactionData(1, []));
    assert SucceededIds(fetch, {id}) == {id};
    assert Fetched(fetch, {id}) == map[id := TransactionData(1, [])];
    AsWrittenRepollRefetches(current, heldKeys, idsInMempool, fetch);
  }

  /** The two runs as written: the second run, reporting {B, C} to a
      dictionary holding {A, B}, removes 2 and adds 2 where the intended
      diff removes 1 and adds 1. */
  lemma TwoRunScenarioAsWritten(a: TransactionId, b: TransactionId, c: TransactionId)
    requires a != b && b != c && a != c
    ensures var r1 := RunAsWritten(map[], {}, {ByteArray(0, a), ByteArray(1, b)}, AlwaysAnswers());
            && r1.transactions.Keys == {a, b} && r1.removed == 0 && r1.added == 2
            && var r2 := RunAsWritten(r1.transactions, {ByteArray(0, a), ByteArray(1, b)},
                                      {ByteArray(2, b), ByteArray(3, c)}, AlwaysAnswers());
               r2.transactions.Keys == {b, c} && r2.removed == 2 && r2.added == 2
  {
    var fetch := AlwaysAnswers();
    assert Contents({ByteArray(0, a), ByteArray(1, b)}) == {a, b};
    assert Contents({ByteArray(2, b), ByteArray(3, c)}) == {b, c};
    assert FirstSuccess(fetch, a, 0, FetchRetryCount).Some? && FirstSuccess(fetch, b, 0, FetchRetryCount).Some?;
    assert FirstSuccess(fetch, c, 0, FetchRetryCount).Some?;
    assert SucceededIds(fetch, {a, b}) == {a, b};
    assert SucceededIds(fetch, {b, c}) == {b, c};
  }
}

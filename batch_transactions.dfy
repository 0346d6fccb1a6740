/** The two batch-transaction endpoints of the gateway. The controller itself
    only decides: the page limit (default and bound check), the rule that a
    since-ledger-state request needs a start state or a cursor, that a cursor
    takes precedence over the start state, the shape of the account list
    handed to the querier, and how the response flags come from the querier's
    next-page cursor. Validation, ledger-state resolution, cursor decoding and
    encoding, and the transaction queries are collaborators, passed in as
    functions. */
module BatchTransactionsController {
  import opened Wrappers

  const DefaultLimit: int := 30
  const MinLimit: int := 1
  const MaxLimit: int := 100
  const SinceOrCursorRequiredMessage: string := "Either 'since_state_identifier' or 'cursor' is required"

  // ---------------------------------------------------------------------------
  // Values exchanged with the caller and the collaborators. The controller
  // never looks inside them.

  datatype ApiError = InvalidRequest(message: string) | CollaboratorError(message: string)

  type NetworkIdentifier = string
  datatype AccountIdentifier = AccountIdentifier(address: string)
  datatype TransactionIdentifier = TransactionIdentifier(hash: string)
  datatype PartialLedgerStateIdentifier = PartialLedgerStateIdentifier(stateVersion: int)

  datatype ValidatedAccountAddress = ValidatedAccountAddress(address: string)
  datatype ValidatedTransactionIdentifier = ValidatedTransactionIdentifier(hash: seq<bv8>)
  /** The ledger state a read is performed at. */
  datatype LedgerState = LedgerState(stateVersion: int, timestamp: int)
  datatype PaginationCursor = PaginationCursor(stateVersionBoundary: int)
  datatype GatewayTransaction = GatewayTransaction(hash: seq<bv8>)

  datatype AccountTransactionPair = AccountTransactionPair(
    accountIdentifier: AccountIdentifier,
    transactionIdentifier: Option<TransactionIdentifier>)

  /** One entry of the list handed to the since-account querier. */
  datatype AccountTransactionFilter = AccountTransactionFilter(
    accountAddress: ValidatedAccountAddress,
    transactionIdentifier: Option<ValidatedTransactionIdentifier>)

  datatype TransactionsSinceHashBatchRequest = TransactionsSinceHashBatchRequest(
    networkIdentifier: NetworkIdentifier,
    sinceAccountTransactions: seq<AccountTransactionPair>,
    limit: int)

  datatype TransactionsSinceHashBatchResponse = TransactionsSinceHashBatchResponse(
    ledgerState: LedgerState,
    transactions: seq<GatewayTransaction>,
    morePagesExist: bool)

  datatype TransactionsSinceStateBatchRequest = TransactionsSinceStateBatchRequest(
    networkIdentifier: NetworkIdentifier,
    atStateIdentifier: Option<PartialLedgerStateIdentifier>,
    sinceStateIdentifier: Option<PartialLedgerStateIdentifier>,
    cursor: Option<string>,
    accountIdentifiers: seq<AccountIdentifier>,
    limit: int)

  datatype TransactionsSinceStateBatchResponse = TransactionsSinceStateBatchResponse(
    ledgerState: LedgerState,
    nextCursor: Option<string>,
    transactions: seq<GatewayTransaction>)

  /** The page request handed to the since-ledger-state querier. */
  datatype TransactionsBatchPageRequest = TransactionsBatchPageRequest(
    accounts: seq<ValidatedAccountAddress>,
    cursor: Option<PaginationCursor>,
    sinceLedgerState: Option<LedgerState>,
    pageSize: int)

  /** What both queriers return. */
  datatype TransactionsPage = TransactionsPage(
    transactions: seq<GatewayTransaction>,
    nextPageCursor: Option<PaginationCursor>)

  /** The validation service; a failure is the exception it throws. */
  datatype Validations = Validations(
    extractValidAccountAddress: AccountIdentifier -> Result<ValidatedAccountAddress, ApiError>,
    extractValidTransactionIdentifier: TransactionIdentifier -> Result<ValidatedTransactionIdentifier, ApiError>,
    extractValidIntInBoundInclusive: (string, int, int, int) -> Result<int, ApiError>)

  /** Everything the controller calls. */
  datatype Collaborators = Collaborators(
    validations: Validations,
    getValidLedgerStateForReadRequest: (NetworkIdentifier, Option<PartialLedgerStateIdentifier>) -> Result<LedgerState, ApiError>,
    fromCursorString: Option<string> -> Result<Option<PaginationCursor>, ApiError>,
    toCursorString: PaginationCursor -> string,
    getAccountTransactionsBatchSinceHash: (seq<AccountTransactionFilter>, LedgerState, int) -> Result<TransactionsPage, ApiError>,
    getAccountTransactionsBatchPage: (TransactionsBatchPageRequest, LedgerState) -> Result<TransactionsPage, ApiError>)

  /** What is assumed of the bound check, whose code is not part of this
      model: a value inside the bounds comes back unchanged, and whatever it
      does return lies inside the bounds. Out of bounds it may fail or return
      some in-bound value. */
  ghost predicate IntBoundContract(extract: (string, int, int, int) -> Result<int, ApiError>)
  {
    && (forall name, value, lo, hi :: lo <= value <= hi ==> extract(name, value, lo, hi) == Success(value))
    && (forall name, value, lo, hi :: extract(name, value, lo, hi).Success? ==>
          lo <= extract(name, value, lo, hi).value <= hi)
  }

  // ---------------------------------------------------------------------------
  // Limit

  /** A limit of 0 (the default of an unset `int`) becomes 30; the result is
      then bound-checked against [1, 100]. */
  function ResolveLimit(validations: Validations, name: string, limit: int): (r: Result<int, ApiError>)
    requires IntBoundContract(validations.extractValidIntInBoundInclusive)
    ensures r.Success? ==> MinLimit <= r.value <= MaxLimit
    ensures limit == 0 ==> r == Success(DefaultLimit)
    ensures MinLimit <= limit <= MaxLimit ==> r == Success(limit)
    ensures limit != 0 ==> r == validations.extractValidIntInBoundInclusive(name, limit, MinLimit, MaxLimit)
  {
    var unvalidatedLimit := if limit == 0 then DefaultLimit else limit;
    validations.extractValidIntInBoundInclusive(name, unvalidatedLimit, MinLimit, MaxLimit)
  }

  // ---------------------------------------------------------------------------
  // Account lists

  /** Validates every element in order, failing with the error of the first
      element that fails. */
  function ValidateAll<A, B>(extract: A -> Result<B, ApiError>, items: seq<A>): (r: Result<seq<B>, ApiError>)
    ensures r.Success? <==> forall i :: 0 <= i < |items| ==> extract(items[i]).Success?
    ensures r.Success? ==> |r.value| == |items| && forall i :: 0 <= i < |items| ==> extract(items[i]) == Success(r.value[i])
    ensures r.Failure? ==> exists i :: 0 <= i < |items| && extract(items[i]) == Failure(r.error) &&
                                      forall j :: 0 <= j < i ==> extract(items[j]).Success?
  {
    if items == [] then Success([])
    else
      var head :- extract(items[0]);
      var tail :- ValidateAll(extract, items[1..]);
      assert forall i :: 1 <= i < |items| ==> items[i] == items[1..][i - 1];
      Success([head] + tail)
  }

  function PrependValidated<B>(prefix: seq<B>, rest: Result<seq<B>, ApiError>): Result<seq<B>, ApiError>
  {
    match rest
    case Success(items) => Success(prefix + items)
    case Failure(e) => Failure(e)
  }

  /** The `foreach` loops that build the validated lists. */
  method ValidateEach<A, B>(extract: A -> Result<B, ApiError>, items: seq<A>) returns (r: Result<seq<B>, ApiError>)
    ensures r == ValidateAll(extract, items)
  {
    var validated: seq<B> := [];
    var i := 0;
    assert items[0..] == items;
    assert PrependValidated(validated, ValidateAll(extract, items)) == ValidateAll(extract, items) by {
      if ValidateAll(extract, items).Success? {
        assert [] + ValidateAll(extract, items).value == ValidateAll(extract, items).value;
      }
    }
    while i < |items|
      invariant 0 <= i <= |items|
      invariant ValidateAll(extract, items) == PrependValidated(validated, ValidateAll(extract, items[i..]))
    {
      assert items[i..][0] == items[i] && items[i..][1..] == items[i + 1..];
      var item :- extract(items[i]);
      ghost var rest := ValidateAll(extract, items[i + 1..]);
      assert rest.Success? ==> validated + ([item] + rest.value) == (validated + [item]) + rest.value;
      validated := validated + [item];
      i := i + 1;
    }
    assert items[i..] == [];
    assert validated + [] == validated;
    r := Success(validated);
  }

  /** One entry of the since-account list: the address is validated first,
      then the transaction identifier if one was given. */
  function ValidatedAccountTransaction(validations: Validations, pair: AccountTransactionPair): (r: Result<AccountTransactionFilter, ApiError>)
    ensures r.Success? <==>
            && validations.extractValidAccountAddress(pair.accountIdentifier).Success?
            && (pair.transactionIdentifier.Some? ==> validations.extractValidTransactionIdentifier(pair.transactionIdentifier.value).Success?)
    ensures validations.extractValidAccountAddress(pair.accountIdentifier).Failure? ==>
            r == Failure(validations.extractValidAccountAddress(pair.accountIdentifier).error)
    ensures validations.extractValidAccountAddress(pair.accountIdentifier).Success? && pair.transactionIdentifier.Some? &&
            validations.extractValidTransactionIdentifier(pair.transactionIdentifier.value).Failure? ==>
            r == Failure(validations.extractValidTransactionIdentifier(pair.transactionIdentifier.value).error)
    ensures r.Success? ==> validations.extractValidAccountAddress(pair.accountIdentifier) == Success(r.value.accountAddress)
    ensures r.Success? ==> (r.value.transactionIdentifier.None? <==> pair.transactionIdentifier.None?)
    ensures r.Success? && pair.transactionIdentifier.Some? ==>
            validations.extractValidTransactionIdentifier(pair.transactionIdentifier.value) == Success(r.value.transactionIdentifier.value)
  {
    var accountAddress :- validations.extractValidAccountAddress(pair.accountIdentifier);
    match pair.transactionIdentifier
    case None => Success(AccountTransactionFilter(accountAddress, None))
    case Some(identifier) =>
      var transactionIdentifier :- validations.extractValidTransactionIdentifier(identifier);
      Success(AccountTransactionFilter(accountAddress, Some(transactionIdentifier)))
  }

  function AccountTransactionValidator(validations: Validations): AccountTransactionPair -> Result<AccountTransactionFilter, ApiError>
  {
    pair => ValidatedAccountTransaction(validations, pair)
  }

  // ---------------------------------------------------------------------------
  // since-account-transactions

  /** What the since-account querier is called with. */
  datatype AccountTransactionsQuery = AccountTransactionsQuery(
    requestedAccountTransactions: seq<AccountTransactionFilter>,
    ledgerState: LedgerState,
    limit: int)

  /** The controller's decisions for since-account-transactions: the ledger
      state read once, the validated account list and the limit. */
  function SinceHashQuery(c: Collaborators, request: TransactionsSinceHashBatchRequest): (r: Result<AccountTransactionsQuery, ApiError>)
    requires IntBoundContract(c.validations.extractValidIntInBoundInclusive)
    ensures r.Success? <==>
            && c.getValidLedgerStateForReadRequest(request.networkIdentifier, None).Success?
            && (forall i :: 0 <= i < |request.sinceAccountTransactions| ==>
                  ValidatedAccountTransaction(c.validations, request.sinceAccountTransactions[i]).Success?)
            && ResolveLimit(c.validations, "Limit", request.limit).Success?
    ensures c.getValidLedgerStateForReadRequest(request.networkIdentifier, None).Failure? ==>
            r == Failure(c.getValidLedgerStateForReadRequest(request.networkIdentifier, None).error)
    ensures c.getValidLedgerStateForReadRequest(request.networkIdentifier, None).Success? &&
            (forall i :: 0 <= i < |request.sinceAccountTransactions| ==>
               ValidatedAccountTransaction(c.validations, request.sinceAccountTransactions[i]).Success?) &&
            MinLimit <= (if request.limit == 0 then DefaultLimit else request.limit) <= MaxLimit ==>
            r.Success?
    ensures c.getValidLedgerStateForReadRequest(request.networkIdentifier, None).Success? &&
            ValidateAll(AccountTransactionValidator(c.validations), request.sinceAccountTransactions).Failure? ==>
            r == Failure(ValidateAll(AccountTransactionValidator(c.validations), request.sinceAccountTransactions).error)
    ensures c.getValidLedgerStateForReadRequest(request.networkIdentifier, None).Success? &&
            ValidateAll(AccountTransactionValidator(c.validations), request.sinceAccountTransactions).Success? &&
            ResolveLimit(c.validations, "Limit", request.limit).Failure? ==>
            r == Failure(ResolveLimit(c.validations, "Limit", request.limit).error)
    ensures r.Success? ==> c.getValidLedgerStateForReadRequest(request.networkIdentifier, None) == Success(r.value.ledgerState)
    ensures r.Success? ==> ResolveLimit(c.validations, "Limit", request.limit) == Success(r.value.limit)
    ensures r.Success? ==>
              && |r.value.requestedAccountTransactions| == |request.sinceAccountTransactions|
              && forall i :: 0 <= i < |request.sinceAccountTransactions| ==>
                   ValidatedAccountTransaction(c.validations, request.sinceAccountTransactions[i]) == Success(r.value.requestedAccountTransactions[i])
    ensures r.Success? ==> MinLimit <= r.value.limit <= MaxLimit
    ensures r.Success? && request.limit == 0 ==> r.value.limit == DefaultLimit
    ensures r.Success? && MinLimit <= request.limit <= MaxLimit ==> r.value.limit == request.limit
    ensures r.Success? ==> |r.value.requestedAccountTransactions| == |request.sinceAccountTransactions|
    ensures r.Success? ==> forall i :: 0 <= i < |request.sinceAccountTransactions| ==>
              && c.validations.extractValidAccountAddress(request.sinceAccountTransactions[i].accountIdentifier)
                 == Success(r.value.requestedAccountTransactions[i].accountAddress)
              && (r.value.requestedAccountTransactions[i].transactionIdentifier.None? <==>
                  request.sinceAccountTransactions[i].transactionIdentifier.None?)
  {
    var ledgerState :- c.getValidLedgerStateForReadRequest(request.networkIdentifier, None);
    var requested :- ValidateAll(AccountTransactionValidator(c.validations), request.sinceAccountTransactions);
    var limit :- ResolveLimit(c.validations, "Limit", request.limit);
    Success(AccountTransactionsQuery(requested, ledgerState, limit))
  }

  /** The since-account-transactions endpoint. The response carries the
      ledger state the querier was called with, and says more pages exist
      exactly when the querier returned a next-page cursor. */
  method GetAccountTransactionsSinceHash(c: Collaborators, request: TransactionsSinceHashBatchRequest)
    returns (r: Result<TransactionsSinceHashBatchResponse, ApiError>)
    requires IntBoundContract(c.validations.extractValidIntInBoundInclusive)
    ensures match SinceHashQuery(c, request)
            case Failure(e) => r == Failure(e)
            case Success(q) =>
              match c.getAccountTransactionsBatchSinceHash(q.requestedAccountTransactions, q.ledgerState, q.limit)
              case Failure(e) => r == Failure(e)
              case Success(page) =>
                && r.Success?
                && r.value.ledgerState == q.ledgerState
                && r.value.transactions == page.transactions
                && (r.value.morePagesExist <==> page.nextPageCursor.Some?)
  {
    var ledgerState :- c.getValidLedgerStateForReadRequest(request.networkIdentifier, None);
    var requestedAccountTransactions :- ValidateEach(AccountTransactionValidator(c.validations), request.sinceAccountTransactions);
    var limit :- ResolveLimit(c.validations, "Limit", request.limit);
    var results :- c.getAccountTransactionsBatchSinceHash(requestedAccountTransactions, ledgerState, limit);
    r := Success(TransactionsSinceHashBatchResponse(ledgerState, results.transactions, results.nextPageCursor.Some?));
  }

  // ---------------------------------------------------------------------------
  // since-ledger-state

  /** What the since-ledger-state querier is called with. */
  datatype SinceStateQuery = SinceStateQuery(pageRequest: TransactionsBatchPageRequest, ledgerState: LedgerState)

  function SinceLedgerStateFor(c: Collaborators, request: TransactionsSinceStateBatchRequest, cursor: Option<PaginationCursor>)
    : Result<Option<LedgerState>, ApiError>
  {
    if cursor.Some? then Success(None)
    else
      var sinceLedgerState :- c.getValidLedgerStateForReadRequest(request.networkIdentifier, request.sinceStateIdentifier);
      Success(Some(sinceLedgerState))
  }

  /** The controller's decisions for since-ledger-state: the cursor is decoded
      first; without a cursor and without a start state the request is
      malformed; the read state comes from the "at" identifier; a cursor
      takes precedence over the start state, which is then not resolved. */
  function SinceStateQueryFor(c: Collaborators, request: TransactionsSinceStateBatchRequest): (r: Result<SinceStateQuery, ApiError>)
    requires IntBoundContract(c.validations.extractValidIntInBoundInclusive)
    ensures c.fromCursorString(request.cursor).Failure? ==> r == Failure(c.fromCursorString(request.cursor).error)
    ensures r.Success? <==>
            && c.fromCursorString(request.cursor).Success?
            && (request.sinceStateIdentifier.Some? || c.fromCursorString(request.cursor).value.Some?)
            && c.getValidLedgerStateForReadRequest(request.networkIdentifier, request.atStateIdentifier).Success?
            && (c.fromCursorString(request.cursor).value.None? ==>
                  c.getValidLedgerStateForReadRequest(request.networkIdentifier, request.sinceStateIdentifier).Success?)
            && (forall i :: 0 <= i < |request.accountIdentifiers| ==>
                  c.validations.extractValidAccountAddress(request.accountIdentifiers[i]).Success?)
            && ResolveLimit(c.validations, "Page size", request.limit).Success?
    ensures && c.fromCursorString(request.cursor).Success?
            && (request.sinceStateIdentifier.Some? || c.fromCursorString(request.cursor).value.Some?)
            && c.getValidLedgerStateForReadRequest(request.networkIdentifier, request.atStateIdentifier).Success?
            && (c.fromCursorString(request.cursor).value.None? ==>
                  c.getValidLedgerStateForReadRequest(request.networkIdentifier, request.sinceStateIdentifier).Success?)
            && (forall i :: 0 <= i < |request.accountIdentifiers| ==>
                  c.validations.extractValidAccountAddress(request.accountIdentifiers[i]).Success?)
            && MinLimit <= (if request.limit == 0 then DefaultLimit else request.limit) <= MaxLimit
            ==> r.Success?
    ensures c.fromCursorString(request.cursor) == Success(None) && request.sinceStateIdentifier.None? ==>
            r == Failure(InvalidRequest(SinceOrCursorRequiredMessage))
    ensures c.fromCursorString(request.cursor).Success? &&
            (request.sinceStateIdentifier.Some? || c.fromCursorString(request.cursor).value.Some?) &&
            c.getValidLedgerStateForReadRequest(request.networkIdentifier, request.atStateIdentifier).Failure? ==>
            r == Failure(c.getValidLedgerStateForReadRequest(request.networkIdentifier, request.atStateIdentifier).error)
    ensures c.fromCursorString(request.cursor) == Success(None) && request.sinceStateIdentifier.Some? &&
            c.getValidLedgerStateForReadRequest(request.networkIdentifier, request.atStateIdentifier).Success? &&
            c.getValidLedgerStateForReadRequest(request.networkIdentifier, request.sinceStateIdentifier).Failure? ==>
            r == Failure(c.getValidLedgerStateForReadRequest(request.networkIdentifier, request.sinceStateIdentifier).error)
    ensures c.fromCursorString(request.cursor).Success? &&
            (request.sinceStateIdentifier.Some? || c.fromCursorString(request.cursor).value.Some?) &&
            c.getValidLedgerStateForReadRequest(request.networkIdentifier, request.atStateIdentifier).Success? &&
            (c.fromCursorString(request.cursor).value.None? ==>
               c.getValidLedgerStateForReadRequest(request.networkIdentifier, request.sinceStateIdentifier).Success?) &&
            ValidateAll(c.validations.extractValidAccountAddress, request.accountIdentifiers).Failure? ==>
            r == Failure(ValidateAll(c.validations.extractValidAccountAddress, request.accountIdentifiers).error)
    ensures c.fromCursorString(request.cursor).Success? &&
            (request.sinceStateIdentifier.Some? || c.fromCursorString(request.cursor).value.Some?) &&
            c.getValidLedgerStateForReadRequest(request.networkIdentifier, request.atStateIdentifier).Success? &&
            (c.fromCursorString(request.cursor).value.None? ==>
               c.getValidLedgerStateForReadRequest(request.networkIdentifier, request.sinceStateIdentifier).Success?) &&
            ValidateAll(c.validations.extractValidAccountAddress, request.accountIdentifiers).Success? &&
            ResolveLimit(c.validations, "Page size", request.limit).Failure? ==>
            r == Failure(ResolveLimit(c.validations, "Page size", request.limit).error)
    ensures r.Success? ==> c.fromCursorString(request.cursor) == Success(r.value.pageRequest.cursor)
    ensures r.Success? ==> ResolveLimit(c.validations, "Page size", request.limit) == Success(r.value.pageRequest.pageSize)
    ensures r.Success? ==> request.sinceStateIdentifier.Some? || r.value.pageRequest.cursor.Some?
    ensures r.Success? ==> c.getValidLedgerStateForReadRequest(request.networkIdentifier, request.atStateIdentifier) == Success(r.value.ledgerState)
    ensures r.Success? && r.value.pageRequest.cursor.Some? ==> r.value.pageRequest.sinceLedgerState.None?
    ensures r.Success? && r.value.pageRequest.cursor.None? ==>
            && r.value.pageRequest.sinceLedgerState.Some?
            && c.getValidLedgerStateForReadRequest(request.networkIdentifier, request.sinceStateIdentifier)
               == Success(r.value.pageRequest.sinceLedgerState.value)
    ensures r.Success? ==> MinLimit <= r.value.pageRequest.pageSize <= MaxLimit
    ensures r.Success? && request.limit == 0 ==> r.value.pageRequest.pageSize == DefaultLimit
    ensures r.Success? && MinLimit <= request.limit <= MaxLimit ==> r.value.pageRequest.pageSize == request.limit
    ensures r.Success? ==> |r.value.pageRequest.accounts| == |request.accountIdentifiers|
    ensures r.Success? ==> forall i :: 0 <= i < |request.accountIdentifiers| ==>
              c.validations.extractValidAccountAddress(request.accountIdentifiers[i]) == Success(r.value.pageRequest.accounts[i])
  {
    var cursor :- c.fromCursorString(request.cursor);
    if request.sinceStateIdentifier.None? && cursor.None? then
      Failure(InvalidRequest(SinceOrCursorRequiredMessage))
    else
      var ledgerState :- c.getValidLedgerStateForReadRequest(request.networkIdentifier, request.atStateIdentifier);
      var sinceLedgerState :- SinceLedgerStateFor(c, request, cursor);
      var requestedAccounts :- ValidateAll(c.validations.extractValidAccountAddress, request.accountIdentifiers);
      var pageSize :- ResolveLimit(c.validations, "Page size", request.limit);
      Success(SinceStateQuery(TransactionsBatchPageRequest(requestedAccounts, cursor, sinceLedgerState, pageSize), ledgerState))
  }

  /** The since-ledger-state endpoint. The response carries the ledger state
      the querier was called with, and a next cursor exactly when the querier
      returned one, encoded as a string. */
  method GetAccountTransactionsSinceState(c: Collaborators, request: TransactionsSinceStateBatchRequest)
    returns (r: Result<TransactionsSinceStateBatchResponse, ApiError>)
    requires IntBoundContract(c.validations.extractValidIntInBoundInclusive)
    ensures match SinceStateQueryFor(c, request)
            case Failure(e) => r == Failure(e)
            case Success(q) =>
              match c.getAccountTransactionsBatchPage(q.pageRequest, q.ledgerState)
              case Failure(e) => r == Failure(e)
              case Success(page) =>
                && r.Success?
                && r.value.ledgerState == q.ledgerState
                && r.value.transactions == page.transactions
                && (r.value.nextCursor.Some? <==> page.nextPageCursor.Some?)
                && (page.nextPageCursor.Some? ==> r.value.nextCursor.value == c.toCursorString(page.nextPageCursor.value))
  {
    var cursor :- c.fromCursorString(request.cursor);
    if request.sinceStateIdentifier.None? && cursor.None? {
      return Failure(InvalidRequest(SinceOrCursorRequiredMessage));
    }
    var ledgerState :- c.getValidLedgerStateForReadRequest(request.networkIdentifier, request.atStateIdentifier);
    var sinceLedgerState: Option<LedgerState> := None;
    if cursor.None? {
      var resolved :- c.getValidLedgerStateForReadRequest(request.networkIdentifier, request.sinceStateIdentifier);
      sinceLedgerState := Some(resolved);
    }
    var requestedAccounts :- ValidateEach(c.validations.extractValidAccountAddress, request.accountIdentifiers);
    var pageSize :- ResolveLimit(c.validations, "Page size", request.limit);
    var transactionsPageRequest := TransactionsBatchPageRequest(requestedAccounts, cursor, sinceLedgerState, pageSize);
    var results :- c.getAccountTransactionsBatchPage(transactionsPageRequest, ledgerState);
    var nextCursor := match results.nextPageCursor
                      case Some(next) => Some(c.toCursorString(next))
                      case None => None;
    r := Success(TransactionsSinceStateBatchResponse(ledgerState, nextCursor, results.transactions));
  }
}

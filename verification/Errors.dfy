/** The client's error types: which of them carry a transaction error, and what conversions lose. */
module Errors {
  import opened Wrappers

  // A transaction error of the Solana runtime; only its identity matters here.
  datatype TransactionError = TransactionError(id: nat)

  datatype Hash = Hash(id: nat)

  datatype RpcRequest =
    | SendTransaction
    | GetLatestBlockhash
    | GetSignatureStatuses
    | IsBlockhashValid
    | GetBalance
    | GetVoteAccounts
    | GetProgramAccounts

  datatype IoError = InvalidInput | OsError(errno: nat)

  datatype RpcSimulateTransactionResult = RpcSimulateTransactionResult(err: Option<TransactionError>)

  datatype RpcResponseErrorData =
    | Empty
    | SendTransactionPreflightFailure(simulation: RpcSimulateTransactionResult)
    | NodeUnhealthy(numSlotsBehind: Option<nat>)

  // What a ForUser message reports; the wording is not modelled.
  datatype Notice =
    | UnableToConfirm
    | SignatureNotFound
    | NoNewBlockhash(retries: nat, stuckAt: Hash)

  datatype RpcError =
    | RpcRequestError(message: string)
    | RpcResponseError(code: int, message: string, data: RpcResponseErrorData)
    | ParseError(expected: string)
    | ForUser(notice: Notice)

  datatype ErrorKind =
    | Io(io: IoError)
    | Rpc(rpc: RpcError)
    | SerdeJson
    | SigningError
    | Transaction(transaction: TransactionError)
    | Custom(message: string)
  {
    function GetTransactionError(): Option<TransactionError> {
      match this
      case Rpc(RpcResponseError(_, _, SendTransactionPreflightFailure(v))) => v.err
      case Transaction(e) => Some(e)
      case _ => None
    }
  }

  datatype Error = Error(request: Option<RpcRequest>, kind: ErrorKind) {
    static function NewWithRequest(kind: ErrorKind, request: RpcRequest): Error {
      Error(Some(request), kind)
    }

    function IntoWithRequest(request: RpcRequest): Error {
      this.(request := Some(request))
    }

    function GetTransactionError(): Option<TransactionError> {
      kind.GetTransactionError()
    }
  }

  // `From<...> for Error`: no request attached.
  function FromKind(kind: ErrorKind): Error {
    Error(None, kind)
  }

  datatype TransportError =
    | IoTransport(io: IoError)
    | TransactionTransport(transaction: TransactionError)
    | CustomTransport(message: string)

  function KindFromTransport(err: TransportError): ErrorKind {
    match err
    case IoTransport(io) => Io(io)
    case TransactionTransport(e) => Transaction(e)
    case CustomTransport(m) => Custom(m)
  }

  // `debug` is Rust's `{:?}` rendering of a kind's payload.
  function TransportFromKind(kind: ErrorKind, debug: ErrorKind -> string): TransportError {
    match kind
    case Io(io) => IoTransport(io)
    case Transaction(e) => TransactionTransport(e)
    case _ => CustomTransport(debug(kind))
  }

  function TransportFromError(e: Error, debug: ErrorKind -> string): TransportError {
    TransportFromKind(e.kind, debug)
  }

  function FromTransport(err: TransportError): Error {
    FromKind(KindFromTransport(err))
  }

  // A failed preflight simulation that names the transaction's error.
  predicate PreflightFailure(kind: ErrorKind) {
    && kind.Rpc? && kind.rpc.RpcResponseError? && kind.rpc.data.SendTransactionPreflightFailure?
    && kind.rpc.data.simulation.err.Some?
  }

  // Exactly which errors carry a transaction error, with or without a request.
  lemma CarriesExactly(e: Error, t: TransactionError)
    ensures e.GetTransactionError() == Some(t)
            <==> || e.kind == Transaction(t)
                 || (PreflightFailure(e.kind) && e.kind.rpc.data.simulation.err == Some(t))
  {
  }

  // An error that is given its request and goes through a transport error keeps
  // its transaction error unless that came from a preflight simulation, which
  // is flattened to text; the request is always lost.
  lemma TransportKeepsTransactionError(e: Error, request: RpcRequest, debug: ErrorKind -> string)
    ensures e.IntoWithRequest(request) == Error(Some(request), e.kind) == Error.NewWithRequest(e.kind, request)
    ensures var back := FromTransport(TransportFromError(e.IntoWithRequest(request), debug));
            && back.request == None
            && (back.GetTransactionError() == e.GetTransactionError() <==> !PreflightFailure(e.kind))
  {
  }

  // A transport error survives the trip through the client's error exactly
  // when it is not a custom message: `{:?}` quotes the text and so lengthens it.
  // On the way in the message is kept; on the way out all but input-output and
  // transaction errors become text.
  lemma TransportRoundTrip(err: TransportError, e: Error, debug: ErrorKind -> string)
    requires forall m :: |debug(Custom(m))| >= |m| + 2
    ensures TransportFromError(FromTransport(err), debug) == err <==> !err.CustomTransport?
    ensures err.CustomTransport? ==> FromTransport(err) == Error(None, Custom(err.message))
    ensures TransportFromError(e, debug) == CustomTransport(debug(e.kind)) <==> !e.kind.Io? && !e.kind.Transaction?
  {
    if err.CustomTransport? {
      assert |debug(Custom(err.message))| != |err.message|;
    }
  }
}

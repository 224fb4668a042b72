/**
 The wasm boundary: `Guest::run` decodes the parameters of a custom procedure,
 drives its future and encodes what it returns; `call_rpc` is the other side.
 JSON codecs and the host are parameters.
 */
module Boundary {
  import opened Wrappers
  import opened Radix
  import opened Errors

  type Bytes = seq<byte>

  datatype ProcedureError<+E> = ProcedureError(code: int, message: string, data: Option<E>)

  // What crosses the boundary: data is JSON text.
  type WireResult = Result<Bytes, ProcedureError<Bytes>>

  // The host's answer: a result, or a WASI errno for a failure outside JSON-RPC.
  type HostReply = Result<WireResult, nat>

  // serde for one type: `encode` is to_vec, `decode` is from_slice.
  datatype Codec<!T> = Codec(encode: T -> Option<Bytes>, decode: Bytes -> Option<T>)

  ghost predicate Faithful<T(!new)>(c: Codec<T>) {
    forall v :: c.encode(v).Some? ==> c.decode(c.encode(v).value) == Some(v)
  }

  // ---------------------------------------------------------------- futures

  datatype Poll<+T> = Pending | Ready(value: T)

  // A pinned future that is ready after finitely many more polls.
  class PinnedFuture<T> {
    var pendingPolls: nat
    const output: T

    constructor (pendingPolls: nat, output: T)
      ensures this.pendingPolls == pendingPolls && this.output == output
    {
      this.pendingPolls := pendingPolls;
      this.output := output;
    }

    method PollOnce() returns (p: Poll<T>)
      modifies this
      ensures p == if old(pendingPolls) == 0 then Ready(output) else Pending
      ensures pendingPolls == if old(pendingPolls) == 0 then 0 else old(pendingPolls) - 1
    {
      if pendingPolls == 0 {
        p := Ready(output);
      } else {
        pendingPolls := pendingPolls - 1;
        p := Pending;
      }
    }
  }

  // Polls until the future is ready; pending polls are skipped.
  method PollAwait<T>(f: PinnedFuture<T>) returns (r: T)
    modifies f
    ensures r == f.output && f.pendingPolls == 0
  {
    while true
      decreases f.pendingPolls
    {
      var p := f.PollOnce();
      match p {
        case Pending =>
        case Ready(v) => return v;
      }
    }
  }

  // ------------------------------------------------------------- the guest

  function BadParams(): ProcedureError<Bytes> {
    ProcedureError(400, "Failed to deserialize params", None)
  }

  function BadSuccessData(): ProcedureError<Bytes> {
    ProcedureError(500, "Failed to serialize success data", None)
  }

  function BadErrorData(): ProcedureError<Bytes> {
    ProcedureError(500, "Failed to serialize error data", None)
  }

  function EncodeOutcome<S, E>(outcome: Result<S, ProcedureError<E>>, success: Codec<S>, failure: Codec<E>)
    : WireResult
  {
    match outcome
    case Ok(v) =>
      (match success.encode(v)
       case Some(bytes) => Ok(bytes)
       case None => Err(BadSuccessData()))
    case Err(ProcedureError(code, message, None)) => Err(ProcedureError(code, message, None))
    case Err(ProcedureError(code, message, Some(v))) =>
      match failure.encode(v)
      case Some(bytes) => Err(ProcedureError(code, message, Some(bytes)))
      case None => Err(BadErrorData())
  }

  // `Guest::run` as a function of the parameters' bytes.
  function GuestRun<P, S, E>(procedure: P -> Result<S, ProcedureError<E>>, params: Codec<P>,
                             success: Codec<S>, failure: Codec<E>, bytes: Bytes): WireResult
  {
    match params.decode(bytes)
    case None => Err(BadParams())
    case Some(p) => EncodeOutcome(procedure(p), success, failure)
  }

  // Exactly what crosses the boundary, for arbitrary bytes: bytes that are no
  // parameters are the caller's mistake (400), a result that cannot be encoded is
  // the procedure's (500), and neither carries data.
  lemma GuestRunExactly<P, S, E>(procedure: P -> Result<S, ProcedureError<E>>, params: Codec<P>,
                                 success: Codec<S>, failure: Codec<E>, bytes: Bytes)
    ensures var r := GuestRun(procedure, params, success, failure, bytes);
            if params.decode(bytes).None? then
              r == Err(ProcedureError(400, "Failed to deserialize params", None))
            else
              var outcome := procedure(params.decode(bytes).value);
              if outcome.Ok? then
                r == if success.encode(outcome.value).Some? then Ok(success.encode(outcome.value).value)
                     else Err(ProcedureError(500, "Failed to serialize success data", None))
              else if outcome.error.data.Some? && failure.encode(outcome.error.data.value).None? then
                r == Err(ProcedureError(500, "Failed to serialize error data", None))
              else
                && r.Err? && r.error.code == outcome.error.code && r.error.message == outcome.error.message
                && (r.error.data.Some? <==> outcome.error.data.Some?)
                && (r.error.data.Some? ==> failure.encode(outcome.error.data.value) == r.error.data)
  {
  }

  // The code path: decode, await the procedure's future, encode.
  // `delay` is how often the future is pending on given parameters.
  method Run<P, S, E>(procedure: P -> Result<S, ProcedureError<E>>, delay: P -> nat, params: Codec<P>,
                      success: Codec<S>, failure: Codec<E>, bytes: Bytes) returns (r: WireResult)
    ensures r == GuestRun(procedure, params, success, failure, bytes)
    ensures params.decode(bytes).None? ==> r.Err? && r.error.code == 400 && r.error.data.None?
  {
    var p;
    match params.decode(bytes) {
      case None => return Err(BadParams());
      case Some(v) => p := v;
    }
    var future := new PinnedFuture(delay(p), procedure(p));
    var outcome := PollAwait(future);
    match outcome {
      case Ok(v) =>
        match success.encode(v) {
          case Some(b) => r := Ok(b);
          case None => r := Err(BadSuccessData());
        }
      case Err(ProcedureError(code, message, data)) =>
        var encoded: Option<Bytes> := None;
        match data {
          case None =>
          case Some(v) =>
            match failure.encode(v) {
              case Some(b) => encoded := Some(b);
              case None => return Err(BadErrorData());
            }
        }
        r := Err(ProcedureError(code, message, encoded));
    }
  }

  // ------------------------------------------------------------- the caller

  function DecodeReply<S, E>(reply: HostReply, success: Bytes -> Option<S>, failure: Bytes -> Option<E>)
    : Result<Result<S, ProcedureError<E>>, IoError>
  {
    match reply
    case Err(errno) => Err(OsError(errno))
    case Ok(Ok(v)) =>
      (match success(v)
       case Some(s) => Ok(Ok(s))
       case None => Err(InvalidInput))
    case Ok(Err(ProcedureError(code, message, None))) => Ok(Err(ProcedureError(code, message, None)))
    case Ok(Err(ProcedureError(code, message, Some(v)))) =>
      match failure(v)
      case Some(e) => Ok(Err(ProcedureError(code, message, Some(e))))
      case None => Err(InvalidInput)
  }

  function CallRpc<P, S, E>(host: (string, Bytes) -> HostReply, rpcMethod: string, arg: P,
                            params: Codec<P>, success: Codec<S>, failure: Codec<E>)
    : Result<Result<S, ProcedureError<E>>, IoError>
  {
    match params.encode(arg)
    case None => Err(InvalidInput)
    case Some(bytes) => DecodeReply(host(rpcMethod, bytes), success.decode, failure.decode)
  }

  // Whatever the host answers: a reply the caller cannot read is InvalidInput, a
  // failure of the host its errno, and everything else arrives as it was sent.
  lemma CallReadsExactly<P, S, E>(
      host: (string, Bytes) -> HostReply, rpcMethod: string, arg: P, bytes: Bytes,
      params: Codec<P>, success: Codec<S>, failure: Codec<E>)
    requires params.encode(arg) == Some(bytes)
    ensures var r, reply := CallRpc(host, rpcMethod, arg, params, success, failure), host(rpcMethod, bytes);
            match reply
            case Err(errno) => r == Err(OsError(errno))
            case Ok(Ok(v)) => if success.decode(v).None? then r == Err(InvalidInput)
                              else r == Ok(Ok(success.decode(v).value))
            case Ok(Err(e)) =>
              if e.data.Some? && failure.decode(e.data.value).None? then r == Err(InvalidInput)
              else
                && r.Ok? && r.value.Err? && r.value.error.code == e.code && r.value.error.message == e.message
                && (r.value.error.data.Some? <==> e.data.Some?)
                && (e.data.Some? ==> failure.decode(e.data.value) == r.value.error.data)
  {
  }

  // ----------------------------------------------------------- the composite

  // What a caller gets from a host that dispatches `rpcMethod` to a procedure:
  // the procedure's own result, unless some value on the way has no encoding.
  function Delivered<S, E>(outcome: Result<S, ProcedureError<E>>, success: Codec<S>, failure: Codec<E>)
    : Result<S, ProcedureError<E>>
  {
    if outcome.Ok? && success.encode(outcome.value).None? then
      Err(ProcedureError(500, "Failed to serialize success data", None))
    else if outcome.Err? && outcome.error.data.Some? && failure.encode(outcome.error.data.value).None? then
      Err(ProcedureError(500, "Failed to serialize error data", None))
    else outcome
  }

  lemma CallUndoesRun<P(!new), S(!new), E(!new)>(
      procedure: P -> Result<S, ProcedureError<E>>, host: (string, Bytes) -> HostReply, rpcMethod: string, arg: P,
      params: Codec<P>, success: Codec<S>, failure: Codec<E>)
    requires Faithful(params) && Faithful(success) && Faithful(failure)
    requires forall bytes :: host(rpcMethod, bytes) == Ok(GuestRun(procedure, params, success, failure, bytes))
    ensures CallRpc(host, rpcMethod, arg, params, success, failure)
            == if params.encode(arg).None? then Err(InvalidInput)
               else Ok(Delivered(procedure(arg), success, failure))
  {
    if params.encode(arg).Some? {
      var bytes := params.encode(arg).value;
      assert params.decode(bytes) == Some(arg);
      assert host(rpcMethod, bytes) == Ok(EncodeOutcome(procedure(arg), success, failure));
    }
  }

  // Encodable values are delivered as they are: success value, or code, message and data.
  lemma CallDeliversOutcome<P(!new), S(!new), E(!new)>(
      procedure: P -> Result<S, ProcedureError<E>>, host: (string, Bytes) -> HostReply, rpcMethod: string, arg: P,
      params: Codec<P>, success: Codec<S>, failure: Codec<E>)
    requires Faithful(params) && Faithful(success) && Faithful(failure)
    requires forall bytes :: host(rpcMethod, bytes) == Ok(GuestRun(procedure, params, success, failure, bytes))
    requires params.encode(arg).Some?
    requires procedure(arg).Ok? ==> success.encode(procedure(arg).value).Some?
    requires procedure(arg).Err? && procedure(arg).error.data.Some? ==>
               failure.encode(procedure(arg).error.data.value).Some?
    ensures CallRpc(host, rpcMethod, arg, params, success, failure) == Ok(procedure(arg))
  {
    CallUndoesRun(procedure, host, rpcMethod, arg, params, success, failure);
  }
}

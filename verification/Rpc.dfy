/**
 The client's requests: `send` on top of `call_rpc`, the readers of the answers
 the loops look at, and the script of a node. A node is any sequence of host
 replies together with any amounts of time that pass, so a statement about all
 scripts is a statement about every run.
 */
module Rpc {
  import opened Wrappers
  import opened Errors
  import opened Boundary

  datatype Json =
    | Null
    | Bool(b: bool)
    | Number(n: int)
    | Text(s: string)
    | List(items: seq<Json>)
    | Dict(fields: seq<(string, Json)>)

  datatype Signature = Signature(id: nat)

  datatype CommitmentLevel = Processed | Confirmed | Finalized

  datatype TransactionStatus = TransactionStatus(
    slot: nat,
    confirmations: Option<nat>,
    status: Result<(), TransactionError>,
    confirmationStatus: Option<CommitmentLevel>)

  // The status list of a response: the code indexes entry 0, so there is one.
  datatype Statuses = Statuses(first: Option<TransactionStatus>, rest: seq<Option<TransactionStatus>>)

  datatype VoteAccounts = VoteAccounts(current: seq<nat>, delinquent: seq<nat>)

  // serde and the Solana parsers, as partial functions.
  datatype Readers = Readers(
    json: Bytes -> Option<Json>,
    text: Json -> Option<string>,
    statuses: Json -> Option<Statuses>,
    balance: Json -> Option<nat>,
    blockhash: Json -> Option<string>,
    validity: Json -> Option<bool>,
    votes: Json -> Option<VoteAccounts>,
    signature: string -> Option<Signature>,
    hash: string -> Option<Hash>,
    satisfies: (TransactionStatus, CommitmentLevel) -> bool)

  // ------------------------------------------------------------------ send

  function Send<T>(readers: Readers, fromValue: Json -> Option<T>, request: RpcRequest, reply: HostReply)
    : Result<T, Error>
  {
    match DecodeReply(reply, readers.json, readers.json)
    case Ok(Err(e)) => Err(Error(Some(request), Rpc(RpcResponseError(e.code, e.message, Empty))))
    case Err(_) => Err(Error(Some(request), Custom("RPC call failed")))
    case Ok(Ok(v)) =>
      match fromValue(v)
      case Some(t) => Ok(t)
      case None => Err(Error.NewWithRequest(SerdeJson, request))
  }

  // Whatever the host answers, an error of `send` names its request and never
  // carries a transaction error, although the server may have sent one as data.
  lemma SendErrorsCarryNoTransactionError<T>(
      readers: Readers, fromValue: Json -> Option<T>, request: RpcRequest, reply: HostReply)
    requires Send(readers, fromValue, request, reply).Err?
    ensures var e := Send(readers, fromValue, request, reply).error;
            e.request == Some(request) && e.GetTransactionError() == None
  {
  }

  // The reply is a JSON value of the kind that was asked for.
  ghost predicate Reports<T>(readers: Readers, fromValue: Json -> Option<T>, reply: HostReply, t: T) {
    && reply.Ok? && reply.value.Ok?
    && readers.json(reply.value.value).Some?
    && fromValue(readers.json(reply.value.value).value) == Some(t)
  }

  // `send` accepts exactly those, and returns what they hold.
  lemma SendSucceedsExactly<T>(
      readers: Readers, fromValue: Json -> Option<T>, request: RpcRequest, reply: HostReply, t: T)
    ensures Send(readers, fromValue, request, reply) == Ok(t) <==> Reports(readers, fromValue, reply, t)
  {
  }

  // The server answered with an error object.
  ghost predicate Refuses(readers: Readers, reply: HostReply, code: int, message: string) {
    && reply.Ok? && reply.value.Err? && reply.value.error.code == code && reply.value.error.message == message
    && (reply.value.error.data.Some? ==> readers.json(reply.value.error.data.value).Some?)
  }

  // The host failed, or some part of the reply is not JSON.
  ghost predicate Unreadable(readers: Readers, reply: HostReply) {
    || reply.Err?
    || (reply.value.Ok? && readers.json(reply.value.value).None?)
    || (reply.value.Err? && reply.value.error.data.Some? && readers.json(reply.value.error.data.value).None?)
  }

  // Every other reply is an error that names the request. The server's code and
  // message are kept, its data is dropped.
  lemma SendFailsExactly<T>(
      readers: Readers, fromValue: Json -> Option<T>, request: RpcRequest, reply: HostReply, code: int, message: string)
    ensures Send(readers, fromValue, request, reply)
            == Err(Error(Some(request), Rpc(RpcResponseError(code, message, Empty))))
            <==> Refuses(readers, reply, code, message)
    ensures Send(readers, fromValue, request, reply) == Err(Error(Some(request), Custom("RPC call failed")))
            <==> Unreadable(readers, reply)
    ensures Send(readers, fromValue, request, reply) == Err(Error(Some(request), SerdeJson))
            <==> && reply.Ok? && reply.value.Ok? && readers.json(reply.value.value).Some?
                 && fromValue(readers.json(reply.value.value).value).None?
  {
  }

  // ------------------------------------------------------- reading an answer

  // get_signature_status_with_commitment
  function SignatureStatus(readers: Readers, commitment: CommitmentLevel, reply: HostReply)
    : Result<Option<Result<(), TransactionError>>, Error>
  {
    match Send(readers, readers.statuses, GetSignatureStatuses, reply)
    case Err(e) => Err(e)
    case Ok(list) =>
      if list.first.Some? && readers.satisfies(list.first.value, commitment)
      then Ok(Some(list.first.value.status))
      else Ok(None)
  }

  // The reply lists the signature, at the commitment, with that status.
  ghost predicate ReportsStatus(
      readers: Readers, commitment: CommitmentLevel, reply: HostReply, r: Result<(), TransactionError>)
  {
    exists list :: && Reports(readers, readers.statuses, reply, list) && list.first.Some?
                   && readers.satisfies(list.first.value, commitment) && list.first.value.status == r
  }

  ghost predicate ReportsSignature(readers: Readers, commitment: CommitmentLevel, reply: HostReply) {
    exists r :: ReportsStatus(readers, commitment, reply, r)
  }

  // The reply does not list the signature, or not at the commitment.
  ghost predicate ReportsNoStatus(readers: Readers, commitment: CommitmentLevel, reply: HostReply) {
    exists list :: && Reports(readers, readers.statuses, reply, list)
                   && (list.first.Some? ==> !readers.satisfies(list.first.value, commitment))
  }

  // A status, be it success or failure, and its absence are read exactly where
  // they are reported; a failed request gives its own error.
  lemma StatusReadExactly(
      readers: Readers, commitment: CommitmentLevel, reply: HostReply, r: Result<(), TransactionError>)
    ensures SignatureStatus(readers, commitment, reply) == Ok(Some(r)) <==> ReportsStatus(readers, commitment, reply, r)
    ensures SignatureStatus(readers, commitment, reply) == Ok(None) <==> ReportsNoStatus(readers, commitment, reply)
    ensures match Send(readers, readers.statuses, GetSignatureStatuses, reply)
            case Ok(_) => SignatureStatus(readers, commitment, reply).Ok?
            case Err(e) => SignatureStatus(readers, commitment, reply) == Err(e)
  {
    var sent := Send(readers, readers.statuses, GetSignatureStatuses, reply);
    if sent.Ok? {
      assert Reports(readers, readers.statuses, reply, sent.value);
    }
  }

  const MAX_LOCKOUT_HISTORY: nat := 31

  // get_num_blocks_since_signature_confirmation
  function BlocksSinceConfirmation(readers: Readers, reply: HostReply): Result<nat, Error> {
    match Send(readers, readers.statuses, GetSignatureStatuses, reply)
    case Err(e) => Err(e)
    case Ok(list) =>
      match list.first
      case None => Err(Error.NewWithRequest(Custom("signature not found"), GetSignatureStatuses))
      case Some(status) =>
        match status.confirmations
        case Some(n) => Ok(n)
        case None => Ok(MAX_LOCKOUT_HISTORY + 1)
  }

  // A status without confirmations is rooted and counts as 32 blocks.
  function CountOf(status: TransactionStatus): nat {
    if status.confirmations.Some? then status.confirmations.value else 32
  }

  // The reply lists the signature, with that count.
  ghost predicate ReportsCount(readers: Readers, reply: HostReply, n: nat) {
    exists list :: && Reports(readers, readers.statuses, reply, list)
                   && list.first.Some? && CountOf(list.first.value) == n
  }

  // Every listed signature is counted, and nothing else is; a failed request
  // gives its own error.
  lemma CountReadExactly(readers: Readers, reply: HostReply, n: nat)
    ensures BlocksSinceConfirmation(readers, reply) == Ok(n) <==> ReportsCount(readers, reply, n)
    ensures BlocksSinceConfirmation(readers, reply)
            == Err(Error(Some(GetSignatureStatuses), Custom("signature not found")))
            <==> exists list :: Reports(readers, readers.statuses, reply, list) && list.first.None?
    ensures match Send(readers, readers.statuses, GetSignatureStatuses, reply)
            case Ok(list) => BlocksSinceConfirmation(readers, reply).Ok? <==> list.first.Some?
            case Err(e) => BlocksSinceConfirmation(readers, reply) == Err(e)
  {
    var sent := Send(readers, readers.statuses, GetSignatureStatuses, reply);
    if sent.Ok? {
      assert Reports(readers, readers.statuses, reply, sent.value);
    }
  }

  // get_latest_blockhash_with_commitment
  function LatestBlockhash(readers: Readers, reply: HostReply): Result<Hash, Error> {
    match Send(readers, readers.blockhash, GetLatestBlockhash, reply)
    case Err(e) => Err(e)
    case Ok(text) =>
      match readers.hash(text)
      case Some(h) => Ok(h)
      case None => Err(Error.NewWithRequest(Rpc(ParseError("Hash")), GetLatestBlockhash))
  }

  // The reply is text that parses to the hash.
  ghost predicate ReportsBlockhash(readers: Readers, reply: HostReply, h: Hash) {
    exists text :: Reports(readers, readers.blockhash, reply, text) && readers.hash(text) == Some(h)
  }

  // A blockhash is what the host's text parses to; text that does not parse is
  // an error that names the request, and a failed request gives its own error.
  lemma BlockhashReadExactly(readers: Readers, reply: HostReply, h: Hash)
    ensures LatestBlockhash(readers, reply) == Ok(h) <==> ReportsBlockhash(readers, reply, h)
    ensures LatestBlockhash(readers, reply) == Err(Error(Some(GetLatestBlockhash), Rpc(ParseError("Hash"))))
            <==> exists text :: Reports(readers, readers.blockhash, reply, text) && readers.hash(text).None?
    ensures match Send(readers, readers.blockhash, GetLatestBlockhash, reply)
            case Ok(text) => LatestBlockhash(readers, reply).Ok? <==> readers.hash(text).Some?
            case Err(e) => LatestBlockhash(readers, reply) == Err(e)
  {
    var sent := Send(readers, readers.blockhash, GetLatestBlockhash, reply);
    if sent.Ok? {
      assert Reports(readers, readers.blockhash, reply, sent.value);
    }
  }

  // ------------------------------------------------------------------- time

  // One answer per request, or the error the client made of it.
  type Stream<T> = nat -> Result<T, Error>

  type Node = nat -> HostReply

  function Counts(readers: Readers, node: Node): Stream<nat> {
    (i: nat) => BlocksSinceConfirmation(readers, node(i))
  }

  function SignatureStatuses(readers: Readers, commitment: CommitmentLevel, node: Node)
    : Stream<Option<Result<(), TransactionError>>>
  {
    (i: nat) => SignatureStatus(readers, commitment, node(i))
  }

  function Balances(readers: Readers, node: Node): Stream<nat> {
    (i: nat) => Send(readers, readers.balance, GetBalance, node(i))
  }

  function LatestBlockhashes(readers: Readers, node: Node): Stream<Hash> {
    (i: nat) => LatestBlockhash(readers, node(i))
  }

  function VoteAccountReplies(readers: Readers, node: Node): Stream<VoteAccounts> {
    (i: nat) => Send(readers, readers.votes, GetVoteAccounts, node(i))
  }

  // Nanoseconds that pass in the i-th request, before the i-th reading of the
  // clock, and in the i-th sleep beyond what was asked for.
  datatype Timing = Timing(request: nat -> nat, pause: nat -> nat, oversleep: nat -> nat)

  const SECOND: nat := 1_000_000_000

  // When the i-th answer arrives and when the clock is next read, in a loop that
  // asks, checks the time and sleeps; counted from the start of the loop.
  function Arrival(t: Timing, sleep: nat, i: nat): nat
    decreases i, 0
  {
    if i == 0 then t.request(0)
    else CheckAt(t, sleep, i - 1) + sleep + t.oversleep(i - 1) + t.request(i)
  }

  function CheckAt(t: Timing, sleep: nat, i: nat): nat
    decreases i, 1
  {
    Arrival(t, sleep, i) + t.pause(i)
  }

  // `as_secs` truncates, so "more than k seconds" means k + 1 full seconds.
  lemma WholeSeconds(elapsed: nat, k: nat)
    ensures elapsed / SECOND > k <==> elapsed >= (k + 1) * SECOND
  {
  }

  // What f adds up to from the i-th to before the n-th.
  function Total(f: nat -> nat, i: nat, n: nat): nat {
    if n <= i then 0 else Total(f, i, n - 1) + f(n - 1)
  }

  // The time from the arrival of the j-th answer to the i-th reading of the
  // clock, all that passes in requests, pauses and sleeps included.
  function Since(t: Timing, sleep: nat, j: nat, i: nat): int {
    sleep * (i - j) + Total(t.request, j + 1, i + 1) + Total(t.pause, j, i + 1) + Total(t.oversleep, j, i)
  }

  // And from the start of the loop, with its first request.
  function Elapsed(t: Timing, sleep: nat, i: nat): nat {
    sleep * i + Total(t.request, 0, i + 1) + Total(t.pause, 0, i + 1) + Total(t.oversleep, 0, i)
  }

  lemma TotalStep(f: nat -> nat, i: nat, n: nat)
    requires i <= n
    ensures Total(f, i, n + 1) == Total(f, i, n) + f(n)
  {
  }

  lemma {:induction false} ClockReads(t: Timing, sleep: nat, i: nat)
    ensures CheckAt(t, sleep, i) == Elapsed(t, sleep, i)
  {
    TotalStep(t.request, 0, i);
    TotalStep(t.pause, 0, i);
    if i > 0 {
      ClockReads(t, sleep, i - 1);
      TotalStep(t.oversleep, 0, i - 1);
      assert Arrival(t, sleep, i) == CheckAt(t, sleep, i - 1) + sleep + t.oversleep(i - 1) + t.request(i);
      assert sleep * i == sleep * (i - 1) + sleep;
    }
  }

  lemma {:induction false} ClockReadsSince(t: Timing, sleep: nat, j: nat, i: nat)
    requires j <= i
    ensures CheckAt(t, sleep, i) == Arrival(t, sleep, j) + Since(t, sleep, j, i)
  {
    TotalStep(t.pause, j, i);
    if j < i {
      ClockReadsSince(t, sleep, j, i - 1);
      TotalStep(t.request, j + 1, i);
      TotalStep(t.oversleep, j, i - 1);
      assert Arrival(t, sleep, i) == CheckAt(t, sleep, i - 1) + sleep + t.oversleep(i - 1) + t.request(i);
      assert sleep * (i - j) == sleep * (i - 1 - j) + sleep;
    }
  }

  // Later polls are at least that many sleeps later.
  lemma {:induction false} Spacing(t: Timing, sleep: nat, i: nat, j: nat)
    requires i <= j
    ensures Arrival(t, sleep, j) >= Arrival(t, sleep, i) + sleep * (j - i)
  {
    if i < j {
      Spacing(t, sleep, i, j - 1);
      assert sleep * (j - i) == sleep * (j - 1 - i) + sleep;
    }
  }

  // No request or clock reading takes time and every sleep is as short as it may be.
  const INSTANT := Timing(i => 0, i => 0, i => 0)

  lemma {:induction false} InstantArrival(sleep: nat, i: nat)
    ensures Arrival(INSTANT, sleep, i) == CheckAt(INSTANT, sleep, i) == sleep * i
  {
    if i > 0 {
      InstantArrival(sleep, i - 1);
      assert sleep * i == sleep * (i - 1) + sleep;
    }
  }

  // ------------------------------------------------------------ no answer

  const NO_ANSWER: HostReply := Err(1)

  // A node that never answers.
  const DEAD: Node := i => NO_ANSWER

  // Whatever the readers, a host failure is an error of the request.
  lemma NoAnswerFails<T>(readers: Readers, fromValue: Json -> Option<T>, request: RpcRequest)
    ensures Send(readers, fromValue, request, NO_ANSWER) == Err(Error(Some(request), Custom("RPC call failed")))
  {
  }
}

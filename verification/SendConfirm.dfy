/**
 `send_and_confirm_transaction` and the pieces it is made of. The k-th request
 of a run gets the k-th reply of the node; the run records its requests.
 */
module SendConfirm {
  import opened Wrappers
  import opened Errors
  import opened Boundary
  import opened Rpc
  import B58 = Base58
  import B64 = Base64

  // ---------------------------------------------------- serialize_and_encode

  datatype UiTransactionEncoding = Binary | Base64 | Base58 | JsonText | JsonParsed

  // `serialized` is what bincode makes of the input, None if it fails.
  function EncodeAs(serialized: Option<Bytes>, encoding: UiTransactionEncoding): Result<Bytes, Error> {
    match (serialized, encoding)
    case (None, _) => Err(FromKind(Custom("Serialization failed")))
    case (Some(bs), Base58) => Ok(B58.Encode(bs))
    case (Some(bs), Base64) => Ok(B64.Encode(bs))
    case _ => Err(FromKind(Custom("unsupported encoding")))
  }

  method SerializeAndEncode(serialized: Option<Bytes>, encoding: UiTransactionEncoding)
    returns (r: Result<Bytes, Error>)
    ensures r == EncodeAs(serialized, encoding)
  {
    if serialized.None? {
      return Err(FromKind(Custom("Serialization failed")));
    }
    match encoding {
      case Base58 =>
        var text := B58.EncodeLoop(serialized.value);
        r := Ok(text);
      case Base64 =>
        var text := B64.EncodeLoop(serialized.value);
        r := Ok(text);
      case _ => r := Err(FromKind(Custom("unsupported encoding")));
    }
  }

  // What a node makes of a text in one of the two binary encodings.
  function DecodeAs(text: Bytes, encoding: UiTransactionEncoding): Option<Bytes>
    requires encoding == Base58 || encoding == Base64
  {
    if encoding == Base58 then B58.Decode(text).ToOption() else B64.Decode(text).ToOption()
  }

  lemma Base58IsLossless(bs: Bytes)
    ensures DecodeAs(B58.Encode(bs), Base58) == Some(bs)
  {
    B58.DecodeEncode(bs);
  }

  lemma Base64IsLossless(bs: Bytes)
    ensures DecodeAs(B64.Encode(bs), Base64) == Some(bs)
  {
    B64.DecodeEncode(bs);
  }

  // Decoding the text recovers the serialized bytes, and nothing else has that
  // text; the call succeeds for exactly the two binary encodings.
  lemma EncodingIsLossless(serialized: Option<Bytes>, encoding: UiTransactionEncoding)
    ensures EncodeAs(serialized, encoding).Ok? <==> serialized.Some? && (encoding == Base58 || encoding == Base64)
    ensures EncodeAs(serialized, encoding).Ok? ==>
              DecodeAs(EncodeAs(serialized, encoding).value, encoding) == serialized
  {
    if serialized.Some? {
      match encoding
      case Base58 => Base58IsLossless(serialized.value);
      case Base64 => Base64IsLossless(serialized.value);
      case _ =>
    }
  }

  // --------------------------------------------------------- send_transaction

  datatype SignedTransaction = SignedTransaction(
    serialized: Option<Bytes>,
    signature: Signature,
    recentBlockhash: Hash,
    usesDurableNonce: bool)

  function SentSignature(readers: Readers, tx: SignedTransaction, reply: HostReply): Result<Signature, Error> {
    match Send(readers, readers.text, RpcRequest.SendTransaction, reply)
    case Err(e) => Err(e)
    case Ok(text) =>
      match readers.signature(text)
      case None => Err(FromKind(Rpc(ParseError("signature"))))
      case Some(signature) =>
        if signature != tx.signature then Err(FromKind(Rpc(RpcRequestError("RPC node returned mismatched signature"))))
        else Ok(tx.signature)
  }

  // A submission succeeds exactly if the node answers with the transaction's own
  // signature; any other signature is an error of the request, not a result.
  lemma SubmissionSucceedsExactly(readers: Readers, tx: SignedTransaction, reply: HostReply)
    ensures SentSignature(readers, tx, reply).Ok?
            <==> exists text :: Reports(readers, readers.text, reply, text)
                                && readers.signature(text) == Some(tx.signature)
    ensures match SentSignature(readers, tx, reply)
            case Ok(signature) => signature == tx.signature
            case Err(e) => e.GetTransactionError() == None
    ensures SentSignature(readers, tx, reply)
            == Err(Error(None, Rpc(RpcRequestError("RPC node returned mismatched signature"))))
            <==> exists text :: && Reports(readers, readers.text, reply, text) && readers.signature(text).Some?
                                && readers.signature(text) != Some(tx.signature)
    ensures SentSignature(readers, tx, reply) == Err(Error(None, Rpc(ParseError("signature"))))
            <==> exists text :: Reports(readers, readers.text, reply, text) && readers.signature(text).None?
    ensures match Send(readers, readers.text, RpcRequest.SendTransaction, reply)
            case Ok(_) => true
            case Err(e) => SentSignature(readers, tx, reply) == Err(e)
  {
    var sent := Send(readers, readers.text, RpcRequest.SendTransaction, reply);
    if sent.Ok? {
      assert Reports(readers, readers.text, reply, sent.value);
    }
  }

  datatype SendConfig = SendConfig(
    skipPreflight: bool,
    preflight: Option<CommitmentLevel>,
    encoding: Option<UiTransactionEncoding>,
    maxRetries: Option<nat>,
    minContextSlot: Option<nat>)
  {
    // The configuration as it is sent: encoding and preflight commitment are filled in.
    function Completed(): SendConfig {
      this.(preflight := Some(preflight.GetOr(Finalized)), encoding := Some(encoding.GetOr(Base64)))
    }

    function TextOf(tx: SignedTransaction): Result<Bytes, Error> {
      EncodeAs(tx.serialized, encoding.GetOr(Base64))
    }
  }

  // What the node needs to read the text travels with it: the text decodes, by
  // the encoding that the sent configuration names, to the serialized bytes. The
  // caller's own choices are kept, so completing again changes nothing.
  lemma SubmissionIsSelfDescribing(config: SendConfig, tx: SignedTransaction)
    ensures var sent := config.Completed();
            && sent.preflight == (if config.preflight.Some? then config.preflight else Some(Finalized))
            && sent.encoding == (if config.encoding.Some? then config.encoding else Some(Base64))
            && sent.skipPreflight == config.skipPreflight && sent.maxRetries == config.maxRetries
            && sent.minContextSlot == config.minContextSlot
    ensures config.Completed().Completed() == config.Completed()
    ensures config.Completed().TextOf(tx) == config.TextOf(tx)
    ensures config == config.Completed() <==> config.encoding.Some? && config.preflight.Some?
    ensures config.TextOf(tx).Ok? <==>
              tx.serialized.Some? && config.Completed().encoding in {Some(Base58), Some(Base64)}
    ensures config.TextOf(tx).Ok? ==>
              DecodeAs(config.TextOf(tx).value, config.Completed().encoding.value) == tx.serialized
  {
    EncodingIsLossless(tx.serialized, config.encoding.GetOr(Base64));
  }

  // --------------------------------------------------------------- the trace

  datatype Request =
    | Submit(text: Bytes, config: SendConfig)
    | AskLatestBlockhash(commitment: CommitmentLevel)
    | AskStatus(signature: Signature)
    | AskValidity(blockhash: Hash, commitment: CommitmentLevel)

  // One call: the client's parsers and commitment, the transaction, the node,
  // and how often the status is asked for (usize::MAX in the source).
  datatype Call = Call(
    readers: Readers,
    commitment: CommitmentLevel,
    tx: SignedTransaction,
    node: Node,
    retries: nat)
  {
    // The configuration that send_transaction chooses.
    function Config(): SendConfig {
      SendConfig(false, Some(commitment), None, None, None)
    }

    function Text(): Result<Bytes, Error> {
      Config().TextOf(tx)
    }

    function Sent(): Result<Signature, Error> {
      SentSignature(readers, tx, node(0))
    }

    // The blockhash whose validity is watched.
    function Blockhash(): Result<Hash, Error> {
      if tx.usesDurableNonce then LatestBlockhash(readers, node(1)) else Ok(tx.recentBlockhash)
    }

    function StatusAt(k: nat): Result<Option<Result<(), TransactionError>>, Error> {
      SignatureStatus(readers, commitment, node(k))
    }

    function ValidityAt(k: nat): Result<bool, Error> {
      Send(readers, readers.validity, IsBlockhashValid, node(k))
    }

    function Opening(): (trace: seq<Request>)
      requires Text().Ok?
      ensures |trace| == if tx.usesDurableNonce then 2 else 1
    {
      [Submit(Text().value, Config().Completed())] + if tx.usesDurableNonce then [AskLatestBlockhash(Processed)] else []
    }

    // n rounds of a status request and a validity request.
    function Rounds(h: Hash, n: nat): (trace: seq<Request>)
      ensures |trace| == 2 * n
    {
      if n == 0 then [] else Rounds(h, n - 1) + [AskStatus(tx.signature), AskValidity(h, Processed)]
    }

    // The request with which the n-th round begins.
    function RoundStart(n: nat): nat {
      (if tx.usesDurableNonce then 2 else 1) + 2 * n
    }

    predicate StillValid(k: nat) {
      ValidityAt(k).Ok? && ValidityAt(k).value
    }

    predicate Expired(k: nat) {
      ValidityAt(k).Ok? && !ValidityAt(k).value
    }

    // The n-th round found no status and a blockhash that is still valid.
    predicate Continues(n: nat) {
      StatusAt(RoundStart(n)) == Ok(None) && StillValid(RoundStart(n) + 1)
    }

    ghost predicate Continued(n: nat) {
      forall j :: 0 <= j < n ==> Continues(j)
    }

    static function Unconfirmed(): Error {
      FromKind(Rpc(ForUser(UnableToConfirm)))
    }

    // What the call makes of a status that is not "none" and of a validity that is not "valid".
    function StatusVerdict(k: nat): Result<Signature, Error> {
      match StatusAt(k)
      case Err(e) => Err(e)
      case Ok(Some(Err(e))) => Err(FromKind(Transaction(e)))
      case Ok(_) => Ok(tx.signature)
    }

    function ValidityVerdict(k: nat): Result<Signature, Error> {
      match ValidityAt(k)
      case Err(e) => Err(e)
      case Ok(_) => Err(Unconfirmed())
    }

    // The rounds end in the n-th: by its status, by its validity, or because none is left.
    ghost predicate EndsInRound(h: Hash, n: nat, r: Result<Signature, Error>, trace: seq<Request>)
      requires Text().Ok?
    {
      var k := RoundStart(n);
      if n == retries then
        trace == Opening() + Rounds(h, n) && r == Err(Unconfirmed())
      else if StatusAt(k) != Ok(None) then
        trace == Opening() + Rounds(h, n) + [AskStatus(tx.signature)] && r == StatusVerdict(k)
      else
        !StillValid(k + 1) && trace == Opening() + Rounds(h, n + 1) && r == ValidityVerdict(k + 1)
    }

    // What a call that returned r after the requests in trace has been through.
    ghost predicate Returned(r: Result<Signature, Error>, trace: seq<Request>) {
      if Text().Err? then trace == [] && r == Err(Text().error)
      else if Sent().Err? then trace == Opening()[..1] && r == Err(Sent().error)
      else if Blockhash().Err? then trace == Opening() && r == Err(Blockhash().error)
      else exists n :: 0 <= n <= retries && Continued(n) && EndsInRound(Blockhash().value, n, r, trace)
    }
  }

  method SendTransactionWithConfig(readers: Readers, tx: SignedTransaction, config: SendConfig, reply: HostReply)
    returns (r: Result<Signature, Error>, trace: seq<Request>)
    ensures config.TextOf(tx).Err? ==> r == Err(config.TextOf(tx).error) && trace == []
    ensures config.TextOf(tx).Ok? ==>
              && r == SentSignature(readers, tx, reply)
              && trace == [Submit(config.TextOf(tx).value, config.Completed())]
  {
    var encoding := config.encoding.GetOr(Base64);
    var preflight := config.preflight.GetOr(Finalized);
    var completed := config.(encoding := Some(encoding), preflight := Some(preflight));
    var text := SerializeAndEncode(tx.serialized, encoding);
    if text.Err? {
      return Err(text.error), [];
    }
    trace := [Submit(text.value, completed)];
    r := SentSignature(readers, tx, reply);
  }

  method SendTransaction(call: Call) returns (r: Result<Signature, Error>, trace: seq<Request>)
    ensures call.Text().Err? ==> r == Err(call.Text().error) && trace == []
    ensures call.Text().Ok? ==>
              && r == call.Sent()
              && trace == [Submit(B64.Encode(call.tx.serialized.value),
                                  SendConfig(false, Some(call.commitment), Some(Base64), None, None))]
  {
    r, trace := SendTransactionWithConfig(call.readers, call.tx, call.Config(), call.node(0));
  }

  lemma EndsByStatus(call: Call, h: Hash, n: nat, trace: seq<Request>)
    requires call.Text().Ok? && n < call.retries && trace == call.Opening() + call.Rounds(h, n)
    requires call.StatusAt(call.RoundStart(n)) != Ok(None)
    ensures |trace| == call.RoundStart(n)
    ensures call.EndsInRound(h, n, call.StatusVerdict(|trace|), trace + [AskStatus(call.tx.signature)])
  {
  }

  // One round more, if the status is unknown.
  lemma AfterRound(call: Call, h: Hash, n: nat, trace: seq<Request>)
    requires call.Text().Ok? && n < call.retries && call.Continued(n)
    requires trace == call.Opening() + call.Rounds(h, n) + [AskStatus(call.tx.signature), AskValidity(h, Processed)]
    requires call.StatusAt(call.RoundStart(n)) == Ok(None)
    ensures |trace| == call.RoundStart(n) + 2 && trace == call.Opening() + call.Rounds(h, n + 1)
    ensures if call.StillValid(|trace| - 1) then call.Continued(n + 1)
            else call.EndsInRound(h, n, call.ValidityVerdict(|trace| - 1), trace)
  {
    assert trace == call.Opening() + (call.Rounds(h, n) + [AskStatus(call.tx.signature), AskValidity(h, Processed)]);
  }

  // The status loop, entered with the requests made so far.
  method ConfirmSent(call: Call, signature: Signature, recentBlockhash: Hash)
    returns (r: Result<Signature, Error>, trace: seq<Request>)
    requires call.Text().Ok? && signature == call.tx.signature
    ensures exists n :: 0 <= n <= call.retries && call.Continued(n) && call.EndsInRound(recentBlockhash, n, r, trace)
  {
    trace := call.Opening();
    var statusRetry: nat := 0;
    while statusRetry < call.retries
      invariant statusRetry <= call.retries && call.Continued(statusRetry)
      invariant trace == call.Opening() + call.Rounds(recentBlockhash, statusRetry)
    {
      ghost var before := trace;
      trace := trace + [AskStatus(signature)];
      var status := SignatureStatus(call.readers, call.commitment, call.node(|trace| - 1));
      if status != Ok(None) {
        EndsByStatus(call, recentBlockhash, statusRetry, before);
        match status {
          case Err(e) => r := Err(e);
          case Ok(Some(Ok(_))) => r := Ok(signature);
          case Ok(Some(Err(e))) => r := Err(FromKind(Transaction(e)));
        }
        return;
      }
      trace := trace + [AskValidity(recentBlockhash, Processed)];
      AfterRound(call, recentBlockhash, statusRetry, trace);
      var valid := Send(call.readers, call.readers.validity, IsBlockhashValid, call.node(|trace| - 1));
      if valid.Err? || !valid.value {
        r := if valid.Err? then Err(valid.error) else Err(Call.Unconfirmed());
        return;
      }
      statusRetry := statusRetry + 1;
    }
    r := Err(Call.Unconfirmed());
    assert call.EndsInRound(recentBlockhash, statusRetry, r, trace);
  }

  // The outer loop of the source runs once (SEND_RETRIES is 1).
  method SendAndConfirmTransaction(call: Call) returns (r: Result<Signature, Error>, trace: seq<Request>)
    ensures call.Returned(r, trace)
  {
    var sent;
    sent, trace := SendTransaction(call);
    if sent.Err? {
      return Err(sent.error), trace;
    }
    var recentBlockhash := call.tx.recentBlockhash;
    if call.tx.usesDurableNonce {
      trace := trace + [AskLatestBlockhash(Processed)];
      var latest := LatestBlockhash(call.readers, call.node(|trace| - 1));
      if latest.Err? {
        return Err(latest.error), trace;
      }
      recentBlockhash := latest.value;
    }
    r, trace := ConfirmSent(call, sent.value, recentBlockhash);
  }

  // ------------------------------------------------------ what a run certifies

  lemma {:induction false} RoundsAt(call: Call, h: Hash, n: nat, i: nat)
    requires i < 2 * n
    ensures call.Rounds(h, n)[i] == if i % 2 == 0 then AskStatus(call.tx.signature) else AskValidity(h, Processed)
  {
    if i < 2 * (n - 1) {
      RoundsAt(call, h, n - 1, i);
    }
  }

  // The status loop was reached.
  ghost predicate Confirming(call: Call) {
    call.Text().Ok? && call.Sent().Ok? && call.Blockhash().Ok?
  }

  // The node confirmed the submission with the transaction's own signature.
  ghost predicate Accepted(call: Call) {
    exists text :: && Reports(call.readers, call.readers.text, call.node(0), text)
                   && call.readers.signature(text) == Some(call.tx.signature)
  }

  // The blockhash to watch: the latest one of the node for durable-nonce
  // transactions and the transaction's own otherwise.
  ghost predicate Watches(call: Call, h: Hash) {
    if call.tx.usesDurableNonce then ReportsBlockhash(call.readers, call.node(1), h) else h == call.tx.recentBlockhash
  }

  lemma AcceptedExactly(call: Call)
    ensures call.Sent().Ok? <==> Accepted(call)
  {
    SubmissionSucceedsExactly(call.readers, call.tx, call.node(0));
  }

  lemma WatchesExactly(call: Call, h: Hash)
    ensures call.Blockhash() == Ok(h) <==> Watches(call, h)
  {
    BlockhashReadExactly(call.readers, call.node(1), h);
  }

  // In terms of the node: the transaction serializes, the node accepts it, and
  // there is a blockhash to watch.
  lemma ConfirmingExactly(call: Call)
    ensures Confirming(call) <==> call.tx.serialized.Some? && Accepted(call) && exists h :: Watches(call, h)
    ensures Confirming(call) ==> Watches(call, call.Blockhash().value)
  {
    EncodingIsLossless(call.tx.serialized, Base64);
    AcceptedExactly(call);
    if call.Blockhash().Ok? {
      WatchesExactly(call, call.Blockhash().value);
    }
    if exists h :: Watches(call, h) {
      var h :| Watches(call, h);
      WatchesExactly(call, h);
    }
  }

  // In terms of the node, what the answers to a status request and to a validity
  // request are taken for.
  lemma AnswersExactly(call: Call, k: nat, e: TransactionError)
    ensures call.StatusAt(k) == Ok(None) <==> ReportsNoStatus(call.readers, call.commitment, call.node(k))
    ensures call.StatusAt(k) == Ok(Some(Ok(()))) <==> ReportsStatus(call.readers, call.commitment, call.node(k), Ok(()))
    ensures call.StatusAt(k) == Ok(Some(Err(e))) <==> ReportsStatus(call.readers, call.commitment, call.node(k), Err(e))
    ensures call.StillValid(k) <==> Reports(call.readers, call.readers.validity, call.node(k), true)
    ensures call.Expired(k) <==> Reports(call.readers, call.readers.validity, call.node(k), false)
  {
    StatusReadExactly(call.readers, call.commitment, call.node(k), Ok(()));
    StatusReadExactly(call.readers, call.commitment, call.node(k), Err(e));
    SendSucceedsExactly(call.readers, call.readers.validity, IsBlockhashValid, call.node(k), true);
    SendSucceedsExactly(call.readers, call.readers.validity, IsBlockhashValid, call.node(k), false);
  }

  // Every request of a run: one submission, then for durable-nonce transactions
  // one query for the latest blockhash, then alternately the transaction's own
  // signature and one fixed blockhash, while the node's replies list no status
  // and report the blockhash as valid. A run without any request is one whose
  // transaction does not serialize.
  lemma TraceShape(call: Call, r: Result<Signature, Error>, trace: seq<Request>, k: nat)
    requires call.Returned(r, trace)
    ensures trace == [] <==> call.tx.serialized.None?
    ensures k == 0 && k < |trace| ==>
              trace[0] == Submit(B64.Encode(call.tx.serialized.value),
                                 SendConfig(false, Some(call.commitment), Some(Base64), None, None))
    ensures call.tx.serialized.Some? && Accepted(call) && call.tx.usesDurableNonce ==> |trace| >= 2
    ensures k < |trace| ==> (trace[k].Submit? <==> k == 0)
    ensures k < |trace| ==> (trace[k] == AskLatestBlockhash(Processed) <==> k == 1 && call.tx.usesDurableNonce)
    ensures k < |trace| && k >= call.RoundStart(0) ==>
              && Accepted(call) && call.Blockhash().Ok? && Watches(call, call.Blockhash().value)
              && trace[k] == if (k - call.RoundStart(0)) % 2 == 0 then AskStatus(call.tx.signature)
                             else AskValidity(call.Blockhash().value, Processed)
    ensures k + 1 < |trace| && k >= call.RoundStart(0) ==>
              if trace[k].AskStatus? then ReportsNoStatus(call.readers, call.commitment, call.node(k))
              else Reports(call.readers, call.readers.validity, call.node(k), true)
  {
    ConfirmingExactly(call);
    AcceptedExactly(call);
    EncodingIsLossless(call.tx.serialized, Base64);
    AnswersExactly(call, k, TransactionError(0));
    RequestAt(call, r, trace, k);
  }

  lemma RequestAt(call: Call, r: Result<Signature, Error>, trace: seq<Request>, k: nat)
    requires call.Returned(r, trace)
    ensures trace == [] <==> call.Text().Err?
    ensures call.Text().Ok? && call.Sent().Ok? && call.tx.usesDurableNonce ==> |trace| >= 2
    ensures k < |trace| && k < call.RoundStart(0) ==> trace[k] == call.Opening()[k]
    ensures k < |trace| && k >= call.RoundStart(0) ==>
              && Confirming(call)
              && trace[k] == if (k - call.RoundStart(0)) % 2 == 0 then AskStatus(call.tx.signature)
                             else AskValidity(call.Blockhash().value, Processed)
    ensures k + 1 < |trace| && k >= call.RoundStart(0) ==>
              if trace[k].AskStatus? then call.StatusAt(k) == Ok(None) else call.StillValid(k)
  {
    if Confirming(call) {
      if call.RoundStart(0) <= k < |trace| {
        RoundRequest(call, call.Blockhash().value, RoundOf(call, r, trace), r, trace, k);
      }
    }
  }

  lemma RoundRequest(call: Call, h: Hash, n: nat, r: Result<Signature, Error>, trace: seq<Request>, k: nat)
    requires call.Text().Ok? && n <= call.retries && call.Continued(n) && call.EndsInRound(h, n, r, trace)
    requires call.RoundStart(0) <= k < |trace|
    ensures trace[k] == if (k - call.RoundStart(0)) % 2 == 0 then AskStatus(call.tx.signature)
                        else AskValidity(h, Processed)
    ensures k + 1 < |trace| ==> if trace[k].AskStatus? then call.StatusAt(k) == Ok(None) else call.StillValid(k)
  {
    var i := k - call.RoundStart(0);
    if i < 2 * n {
      RoundsAt(call, h, n, i);
      assert call.Continues(i / 2);
    } else if i < 2 * (n + 1) && |trace| == call.RoundStart(n + 1) {
      RoundsAt(call, h, n + 1, i);
    }
  }

  // The round in which a confirming run ended is unique, and so is its outcome.
  lemma RoundIsUnique(call: Call, h: Hash, n: nat, m: nat, r: Result<Signature, Error>, trace: seq<Request>)
    requires call.Text().Ok? && n < m <= call.retries && call.Continued(m)
    ensures !call.EndsInRound(h, n, r, trace)
  {
    assert call.Continues(n);
  }

  lemma RoundsAgree(call: Call, h: Hash, n: nat, r: Result<Signature, Error>, trace: seq<Request>,
                    m: nat, r': Result<Signature, Error>, trace': seq<Request>)
    requires call.Text().Ok?
    requires n <= call.retries && call.Continued(n) && call.EndsInRound(h, n, r, trace)
    requires m <= call.retries && call.Continued(m) && call.EndsInRound(h, m, r', trace')
    ensures r == r' && trace == trace'
  {
    if n < m {
      RoundIsUnique(call, h, n, m, r, trace);
    } else if m < n {
      RoundIsUnique(call, h, m, n, r', trace');
    } else {
      SameRound(call, h, n, r, trace, r', trace');
    }
  }

  lemma EarlyReturnIsUnique(call: Call, r: Result<Signature, Error>, trace: seq<Request>,
                            r': Result<Signature, Error>, trace': seq<Request>)
    requires call.Returned(r, trace) && call.Returned(r', trace') && !Confirming(call)
    ensures r == r' && trace == trace'
  {
  }

  lemma ReturnIsUnique(call: Call, r: Result<Signature, Error>, trace: seq<Request>,
                       r': Result<Signature, Error>, trace': seq<Request>)
    requires call.Returned(r, trace) && call.Returned(r', trace')
    ensures r == r' && trace == trace'
  {
    if Confirming(call) {
      var n, m := RoundOf(call, r, trace), RoundOf(call, r', trace');
      RoundsAgree(call, call.Blockhash().value, n, r, trace, m, r', trace');
    } else {
      EarlyReturnIsUnique(call, r, trace, r', trace');
    }
  }

  ghost function RoundOf(call: Call, r: Result<Signature, Error>, trace: seq<Request>): (n: nat)
    requires call.Returned(r, trace) && Confirming(call)
    ensures n <= call.retries && call.Continued(n) && call.EndsInRound(call.Blockhash().value, n, r, trace)
  {
    var n :| 0 <= n <= call.retries && call.Continued(n) && call.EndsInRound(call.Blockhash().value, n, r, trace);
    n
  }

  lemma SameRound(call: Call, h: Hash, n: nat, r: Result<Signature, Error>, trace: seq<Request>,
                  r': Result<Signature, Error>, trace': seq<Request>)
    requires call.Text().Ok? && call.EndsInRound(h, n, r, trace) && call.EndsInRound(h, n, r', trace')
    ensures r == r' && trace == trace'
  {
  }

  // How rounds end, by the last request.
  ghost predicate EndsBy(call: Call, n: nat, r: Result<Signature, Error>, trace: seq<Request>) {
    && |trace| > 0
    && var last := |trace| - 1;
       if n == call.retries then
         |trace| == call.RoundStart(n) && !trace[last].AskStatus? && r == Err(Call.Unconfirmed())
       else if last == call.RoundStart(n) then
         trace[last] == AskStatus(call.tx.signature) && call.StatusAt(last) != Ok(None) && r == call.StatusVerdict(last)
       else
         && last == call.RoundStart(n) + 1 && trace[last].AskValidity?
         && call.StatusAt(last - 1) == Ok(None) && !call.StillValid(last) && r == call.ValidityVerdict(last)
  }

  lemma RoundEndsBy(call: Call, h: Hash, n: nat, r: Result<Signature, Error>, trace: seq<Request>)
    requires call.Text().Ok? && n <= call.retries && call.EndsInRound(h, n, r, trace)
    ensures EndsBy(call, n, r, trace)
  {
    if n == call.retries && n > 0 {
      assert trace[|trace| - 1] == call.Rounds(h, n)[2 * n - 1];
      RoundsAt(call, h, n, 2 * n - 1);
    }
  }

  lemma Ending(call: Call, r: Result<Signature, Error>, trace: seq<Request>) returns (n: nat)
    requires call.Returned(r, trace) && Confirming(call)
    ensures n <= call.retries && call.Continued(n) && EndsBy(call, n, r, trace)
  {
    n := RoundOf(call, r, trace);
    RoundEndsBy(call, call.Blockhash().value, n, r, trace);
  }

  lemma SucceededStatus(call: Call, k: nat)
    requires call.StatusAt(k) != Ok(None)
    ensures call.StatusVerdict(k).Ok? <==> call.StatusAt(k) == Ok(Some(Ok(())))
    ensures call.StatusVerdict(k).Ok? ==> call.StatusVerdict(k).value == call.tx.signature
  {
    if call.StatusVerdict(k).Ok? {
      assert call.StatusAt(k).value.value.value == ();
    }
  }

  lemma SuccessEnding(call: Call, n: nat, r: Result<Signature, Error>, trace: seq<Request>)
    requires n <= call.retries && EndsBy(call, n, r, trace)
    ensures r.Ok? <==> trace[|trace| - 1].AskStatus? && call.StatusAt(|trace| - 1) == Ok(Some(Ok(())))
    ensures r.Ok? ==> r.value == call.tx.signature
  {
    var last := |trace| - 1;
    if trace[last].AskStatus? {
      SucceededStatus(call, last);
    } else if n < call.retries {
      ValidityErrors(call, last);
    }
  }

  // A run succeeds exactly if the node's last reply lists the transaction's own
  // signature as succeeded, at the client's commitment.
  lemma SucceedsExactly(call: Call, r: Result<Signature, Error>, trace: seq<Request>)
    requires call.Returned(r, trace)
    ensures r.Ok? <==> && |trace| > 0 && trace[|trace| - 1] == AskStatus(call.tx.signature)
                       && ReportsStatus(call.readers, call.commitment, call.node(|trace| - 1), Ok(()))
    ensures r.Ok? ==> r.value == call.tx.signature
  {
    if !Confirming(call) {
      EarlyErrors(call, r, trace);
    } else {
      var n := Ending(call, r, trace);
      SuccessEnding(call, n, r, trace);
      AnswersExactly(call, |trace| - 1, TransactionError(0));
    }
  }

  // No error made before the status loop carries a transaction error or says "unable to confirm".
  lemma EarlyErrors(call: Call, r: Result<Signature, Error>, trace: seq<Request>)
    requires call.Returned(r, trace) && !Confirming(call)
    ensures r.Err? && r.error.GetTransactionError() == None && r.error != Call.Unconfirmed()
    ensures |trace| > 0 ==> !trace[|trace| - 1].AskStatus?
  {
  }

  lemma StatusErrors(call: Call, k: nat, e: TransactionError)
    requires call.StatusAt(k) != Ok(None)
    ensures call.StatusVerdict(k) != Err(Call.Unconfirmed())
    ensures call.StatusVerdict(k).Err? && call.StatusVerdict(k).error.GetTransactionError() == Some(e)
            <==> call.StatusAt(k) == Ok(Some(Err(e)))
  {
  }

  lemma ValidityErrors(call: Call, k: nat)
    requires !call.StillValid(k)
    ensures call.ValidityVerdict(k).Err? && call.ValidityVerdict(k).error.GetTransactionError() == None
    ensures call.ValidityVerdict(k) == Err(Call.Unconfirmed()) <==> call.Expired(k)
  {
  }

  lemma TransactionErrorEnding(call: Call, n: nat, r: Result<Signature, Error>, trace: seq<Request>,
                               e: TransactionError)
    requires n <= call.retries && EndsBy(call, n, r, trace)
    ensures r.Err? && r.error.GetTransactionError() == Some(e)
            <==> trace[|trace| - 1].AskStatus? && call.StatusAt(|trace| - 1) == Ok(Some(Err(e)))
  {
    var last := |trace| - 1;
    if trace[last].AskStatus? {
      StatusErrors(call, last, e);
    } else if n < call.retries {
      ValidityErrors(call, last);
    }
  }

  // The error of a run carries a transaction error exactly when the run ended on
  // a status that reports that error at the client's commitment.
  lemma TransactionErrorExactly(call: Call, r: Result<Signature, Error>, trace: seq<Request>, e: TransactionError)
    requires call.Returned(r, trace)
    ensures (r.Err? && r.error.GetTransactionError() == Some(e))
            <==> && |trace| > 0 && trace[|trace| - 1] == AskStatus(call.tx.signature)
                 && ReportsStatus(call.readers, call.commitment, call.node(|trace| - 1), Err(e))
  {
    if !Confirming(call) {
      EarlyErrors(call, r, trace);
    } else {
      var n := Ending(call, r, trace);
      TransactionErrorEnding(call, n, r, trace, e);
      AnswersExactly(call, |trace| - 1, e);
    }
  }

  lemma UsedUp(call: Call, n: nat, r: Result<Signature, Error>, trace: seq<Request>)
    requires n <= call.retries && EndsBy(call, n, r, trace)
    ensures |trace| == call.RoundStart(call.retries) && call.Continued(call.retries) ==> n == call.retries
  {
    if call.Continued(call.retries) && n < call.retries {
      assert call.Continues(n);
    }
  }

  lemma UnconfirmedEnding(call: Call, n: nat, r: Result<Signature, Error>, trace: seq<Request>)
    requires n < call.retries && EndsBy(call, n, r, trace)
    ensures r == Err(Call.Unconfirmed()) <==> trace[|trace| - 1].AskValidity? && call.Expired(|trace| - 1)
  {
    var last := |trace| - 1;
    if trace[last].AskStatus? {
      StatusErrors(call, last, TransactionError(0));
    } else {
      ValidityErrors(call, last);
    }
  }

  lemma UnconfirmedInside(call: Call, r: Result<Signature, Error>, trace: seq<Request>)
    requires call.Returned(r, trace)
    ensures r == Err(Call.Unconfirmed())
            <==> && Confirming(call)
                 && (|| (call.RoundStart(0) < |trace| && trace[|trace| - 1].AskValidity? && call.Expired(|trace| - 1))
                     || (|trace| == call.RoundStart(call.retries) && call.Continued(call.retries)))
  {
    if !Confirming(call) {
      EarlyErrors(call, r, trace);
    } else {
      var n := Ending(call, r, trace);
      UsedUp(call, n, r, trace);
      if n < call.retries {
        UnconfirmedEnding(call, n, r, trace);
      }
    }
  }

  // The replies of the n-th round list no status and report the blockhash as valid.
  ghost predicate Uneventful(call: Call, n: nat) {
    && ReportsNoStatus(call.readers, call.commitment, call.node(call.RoundStart(n)))
    && Reports(call.readers, call.readers.validity, call.node(call.RoundStart(n) + 1), true)
  }

  lemma ContinuedExactly(call: Call, n: nat)
    ensures call.Continued(n) <==> forall j :: 0 <= j < n ==> Uneventful(call, j)
  {
    forall j | 0 <= j < n ensures call.Continues(j) <==> Uneventful(call, j) {
      AnswersExactly(call, call.RoundStart(j), TransactionError(0));
      AnswersExactly(call, call.RoundStart(j) + 1, TransactionError(0));
    }
  }

  // "Unable to confirm" means that the node's last reply reports the blockhash as
  // expired, or that every status request was used up on an uneventful round.
  lemma UnconfirmedExactly(call: Call, r: Result<Signature, Error>, trace: seq<Request>)
    requires call.Returned(r, trace)
    ensures r == Err(Error(None, Rpc(ForUser(UnableToConfirm))))
            <==> && call.tx.serialized.Some? && Accepted(call) && (exists h :: Watches(call, h))
                 && (|| (&& call.RoundStart(0) < |trace| && trace[|trace| - 1].AskValidity?
                         && Reports(call.readers, call.readers.validity, call.node(|trace| - 1), false))
                     || (&& |trace| == call.RoundStart(call.retries)
                         && forall j :: 0 <= j < call.retries ==> Uneventful(call, j)))
  {
    UnconfirmedInside(call, r, trace);
    ConfirmingExactly(call);
    ContinuedExactly(call, call.retries);
    if |trace| > 0 {
      AnswersExactly(call, |trace| - 1, TransactionError(0));
    }
  }

  // The request that ended a run failed with e.
  ghost predicate LastFailed(call: Call, trace: seq<Request>, e: Error)
    requires trace != []
  {
    var reply := call.node(|trace| - 1);
    match trace[|trace| - 1]
    case Submit(_, _) => Send(call.readers, call.readers.text, RpcRequest.SendTransaction, reply) == Err(e)
    case AskLatestBlockhash(_) => Send(call.readers, call.readers.blockhash, GetLatestBlockhash, reply) == Err(e)
    case AskStatus(_) => Send(call.readers, call.readers.statuses, GetSignatureStatuses, reply) == Err(e)
    case AskValidity(_, _) => Send(call.readers, call.readers.validity, IsBlockhashValid, reply) == Err(e)
  }

  lemma FailedEarly(call: Call, r: Result<Signature, Error>, trace: seq<Request>, e: Error)
    requires call.Returned(r, trace) && !Confirming(call) && trace != [] && LastFailed(call, trace, e)
    ensures r == Err(e)
  {
    SubmissionSucceedsExactly(call.readers, call.tx, call.node(0));
    BlockhashReadExactly(call.readers, call.node(1), Hash(0));
  }

  lemma FailedEnding(call: Call, n: nat, r: Result<Signature, Error>, trace: seq<Request>, e: Error)
    requires n < call.retries && EndsBy(call, n, r, trace) && LastFailed(call, trace, e)
    ensures r == Err(e)
  {
    StatusReadExactly(call.readers, call.commitment, call.node(|trace| - 1), Ok(()));
  }

  // With no status request left, no request has failed.
  lemma NoneFailed(call: Call, h: Hash, n: nat, r: Result<Signature, Error>, trace: seq<Request>, e: Error)
    requires Confirming(call) && n == call.retries && call.Continued(n) && call.EndsInRound(h, n, r, trace)
    ensures trace != [] && !LastFailed(call, trace, e)
  {
    if n > 0 {
      RoundsAt(call, h, n, 2 * n - 1);
      assert trace[|trace| - 1] == call.Rounds(h, n)[2 * n - 1];
      assert call.Continues(n - 1);
    } else {
      FirstRequestsSucceeded(call, e);
    }
  }

  lemma FirstRequestsSucceeded(call: Call, e: Error)
    requires Confirming(call)
    ensures !LastFailed(call, call.Opening(), e)
  {
  }

  // A failed request ends the run with its own error, which names the request.
  lemma FailureIsReturned(call: Call, r: Result<Signature, Error>, trace: seq<Request>, e: Error)
    requires call.Returned(r, trace) && trace != [] && LastFailed(call, trace, e)
    ensures r == Err(e) && e.request.Some?
  {
    if !Confirming(call) {
      FailedEarly(call, r, trace, e);
    } else {
      var n := RoundOf(call, r, trace);
      RoundEndsBy(call, call.Blockhash().value, n, r, trace);
      if n < call.retries {
        FailedEnding(call, n, r, trace, e);
      } else {
        NoneFailed(call, call.Blockhash().value, n, r, trace, e);
      }
    }
  }
}

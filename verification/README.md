# zela-std: the memcmp filter, the polling loops and the wasm boundary

This project models the parts of `zela-std` (a standard library for custom procedures and a clone of the Solana
RPC client) that decide something, and proves what they decide.

* **Filters.** A memcmp filter stores its pattern as a base58 string, a base64 string or raw bytes. `verify` applies a
  cheap limit to the string (175 or 172 octets) and a real one to the decoded bytes (128). The main result is that the
  cheap limit is exact: for strings that decode it never decides anything. It follows from one fact about powers,
  58^174 < 256^128 <= 58^175, carried over to every number of leading zeros, and from the round trip of radix conversion.
* **Polling loops.** A node is an arbitrary sequence of replies, and the time spent in each request, before each clock
  reading and in each sleep beyond the requested length is arbitrary too (`Rpc.Timing`, in nanoseconds). Each loop is a
  method. Its contract says in terms of the replies which poll ended the call and what it returned; lemmas then say what
  a result certifies, how many requests a call can make, that the bound is reached, and exactly when a call returns.
  The nodes that reach a bound of confirmations or balances, or keep a call waiting, are sequences of host replies, read by
  any readers that find the needed numbers in them; a dead node works with all readers. The bounds of the other loops are
  reached on every sequence of answers with the stated property.
* **Replies.** What a reply reports is defined by its parts alone (`Rpc.Reports` and the predicates built on it). Each
  reader of a reply gives a value if and only if the reply reports it, and the results about whole calls are stated over
  the replies of the node.
* **Boundary.** `call_rpc` is a left inverse of `Guest::run`; `send` turns every answer of the host into a value or into
  an error that carries no transaction error.

| file | models |
|---|---|
| Wrappers.dfy | option and result types |
| Radix.dfy | positional arithmetic, radix conversion as a specification and as loops |
| Base58.dfy, Base64.dfy | the two codecs as specifications and loops |
| Filter.dfy | src/rpc_client/filter.rs |
| Errors.dfy | src/rpc_client/error.rs and the error types of request.rs |
| Boundary.dfy | src/lib.rs |
| Rpc.dfy | `send`, the readers of answers, streams and time |
| Confirmation.dfy, Balance.dfy, Waiting.dfy, Stake.dfy, SendConfirm.dfy, Accounts.dfy | the loops of src/rpc_client/client.rs |

## Results that contradict a plausible reading

* `verify` and `convert_to_raw_bytes` report different errors for a string that is too long and does not decode; that is
  the only effect of the string limit (`Filter.LengthTestChangesOnlyErrors`, `Filter.ConversionErrorVersusVerify`).
* `poll_for_signature_confirmation` restarts its 21 seconds whenever the count changes, down as well as up. It returns
  however time passes if and only if some answer reaches the target or the count stays the same over 84 further answers
  (`Confirmation.ReturnsExactly`), and in the worst case only then (`Confirmation.PollsExactly`). Counts that never
  decrease do one or the other. A node that flips between two counts below the target does neither and is polled forever
  (`Confirmation.FlippingNeverReturns`).
* `wait_for_balance_with_commitment` compares its run counter for equality. It returns if and only if the 31st inner call
  fails or some inner call sees the expected balance (`Balance.ReturnsExactly`). A node that answers 31 times with another
  balance and then never again is waited on forever (`Balance.MissedDeadlineNeverReturns`).
* `poll_balance_with_timeout_and_commitment` ends for every node if and only if the polling frequency is positive: at
  frequency zero a dead node is asked forever (`Balance.EndsIffFrequencyPositive`).
* `send_and_confirm_transaction` makes no request at all if the transaction does not serialize, and it can also end by
  using up its status requests.
* The u64 sum of stakes can wrap in a release build. That can only make the largest share look larger
  (`Stake.WrapIsConservative`), and a round judges the true sum at every threshold if and only if the sum fits 64 bits
  (`Stake.TrueSumIsJudgedExactly`; `Stake.OverflowHidesBalance` is an input).
* A custom transport error does not survive the trip through the client's error type, and a transaction error found by a
  preflight simulation does not survive the trip to a transport error.

## Assumptions

* `bs58` and `BASE64_STANDARD` follow Base58.dfy and Base64.dfy: the Bitcoin alphabet with one '1' per leading zero
  byte; sections 4 and 3.5 of RFC 4648 with canonical padding and zero trailing bits.
* serde, bincode, the Solana parsers and `satisfies_commitment` are partial functions given as parameters. `CallUndoesRun`
  assumes that decoding undoes encoding for the three types of a procedure.
* The default commitment level is Finalized.
* A status response lists at least one status; the code indexes entry 0 and would panic otherwise.
* Time passes only forward. The time between two readings of the clock counts towards the pause before the second.

## Model

| member | source | states |
|---|---|---|
| `Radix.TranscodeRoundTrip` | src/rpc_client/filter.rs:161-176 | Converting any digit sequence to another radix and back gives the same sequence, leading zeros included |
| `Radix.Convert` | src/rpc_client/filter.rs:175-185 | The digit-by-digit carry loop computes the numeric specification of the conversion |
| `Base58.SymbolsSpellTheAlphabet` | src/rpc_client/filter.rs:341-342 | The digit symbols are those of the Bitcoin alphabet, in its order |
| `Base58.DecodeFailsExactly` | src/rpc_client/filter.rs:301-308 | Decoding fails if and only if some octet is outside the alphabet, and the error names the first such octet |
| `Base58.DecodeEncode` | src/rpc_client/filter.rs:161-175 | Decoding the base58 form of any bytes gives the bytes |
| `Base58.EncodeDecode` | src/rpc_client/filter.rs:174-175 | Every base58 string that decodes is the encoding of what it decodes to |
| `Base58.EncodeDenotes` | src/rpc_client/filter.rs:161-166 | The string denotes in radix 58 the number of the bytes, and has exactly as many leading '1's as there are leading zero bytes |
| `Base58.EncodedSize` | src/rpc_client/filter.rs:11-12 | At most 128 bytes, with any number of leading zeros, take at most 47 more symbols than bytes, so at most 175 |
| `Base58.LongestEncoding` | src/rpc_client/filter.rs:234-241 | 128 bytes of 0xff take exactly 175 symbols |
| `Base58.DecodedSize` | src/rpc_client/filter.rs:30-38 | A string of more than 175 octets that decodes means more than 128 bytes |
| `Base58.OnesDecode` | src/rpc_client/filter.rs:311-339 | A string of '1's decodes to as many zero bytes |
| `Base58.EncodeLoop` | src/rpc_client/filter.rs:161-166 | The encoding loop yields the specified string |
| `Base58.DecodeLoop` | src/rpc_client/filter.rs:175 | The decoding loop yields the specified bytes, or the error at the first octet outside the alphabet |
| `Base64.SymbolsSpellTheAlphabet` | src/rpc_client/filter.rs:343 | The digit symbols are those of the RFC 4648 alphabet, in its order |
| `Base64.DecodeEncode` | src/rpc_client/client.rs:1604 | Decoding the base64 form of any bytes gives the bytes |
| `Base64.EncodeDecode` | src/rpc_client/filter.rs:176 | Only canonical base64 decodes: re-encoding gives the same string |
| `Base64.EncodeDenotes` | src/rpc_client/client.rs:1604 | The string denotes in radix 64 the number the zero-completed bytes denote in radix 256 |
| `Base64.PaddingExactly` | src/rpc_client/client.rs:1604 | The string ends in as many '=' as bytes are missing from its last group, and has no others |
| `Base64.DecodedLength` | src/rpc_client/filter.rs:41-49 | A string that decodes has four octets per three bytes, rounded up |
| `Base64.EncodeLoop` | src/rpc_client/client.rs:1604 | The loop over groups yields the specified string |
| `Base64.DecodeLoop` | src/rpc_client/filter.rs:176 | The loop over groups yields the specified bytes or error |
| `Filter.VerifyIsDecodedSize` | src/rpc_client/filter.rs:24-62 | The verdict on a pattern, in all three forms, is that on its decoded size: at most 128 bytes |
| `Filter.VerifyExactly` | src/rpc_client/filter.rs:24-62 | `verify` accepts a filter if and only if it is no memcmp filter or its pattern decodes to at most 128 bytes; when it reports too much data and when the decoder's error |
| `Filter.DecodedExactly` | src/rpc_client/filter.rs:170-178 | A string stands for what its decoder makes of it, and keeps the decoder's error; raw bytes stand for themselves |
| `Filter.LengthTestChangesOnlyErrors` | src/rpc_client/filter.rs:30-51 | Dropping the string limit would change the result exactly for over-long strings that do not decode |
| `Filter.LongBase64` | src/rpc_client/filter.rs:41-46 | Base64 longer than 172 octets that decodes means at least 130 bytes |
| `Filter.EncodersPassVerify` | src/rpc_client/filter.rs:161-166 | An encoded pattern passes `verify` if and only if it has at most 128 bytes, and then it keeps to both limits |
| `Filter.LimitsAreReached` | src/rpc_client/filter.rs:234-241 | 128 bytes of 0xff reach both string limits |
| `Filter.DecodedTestIsNeeded` | src/rpc_client/filter.rs:35-46 | Strings within both limits can decode to 129 bytes, and are refused |
| `Filter.ConversionKeepsMeaning` | src/rpc_client/filter.rs:181-196 | Conversion is possible exactly when the bytes are known; it changes neither the verdict nor any comparison and is idempotent |
| `Filter.ConversionErrorVersusVerify` | src/rpc_client/filter.rs:181-196 | A failing conversion reports the error of `verify` if and only if the string is within the limit |
| `Filter.MatchMeaning` | src/rpc_client/filter.rs:198-211 | The comparison holds if and only if data is prefix, pattern, suffix with a prefix of the offset's length; whenever the code forms the sum of offset and pattern length, it is within the data |
| `Filter.MatchesMeaning` | src/rpc_client/filter.rs:198-211 | The same for a stored pattern, which must decode |
| `Filter.SerializeRoundTrip` | src/rpc_client/filter.rs:87-135 | Reading undoes writing; writing undoes reading exactly when the encoding names the form of the data |
| `Filter.ReadsExactly` | src/rpc_client/filter.rs:94-135 | Text is read as base64 if and only if it is tagged so, as base58 otherwise; raw data is raw whatever the tag |
| `Filter.Memcmp.NewBase58Encoded` | src/rpc_client/filter.rs:161-166 | `bytes()` of the new filter is the given bytes, and it verifies if and only if they are at most 128 |
| `Filter.Memcmp.NewRawBytes` | src/rpc_client/filter.rs:154-159 | `bytes()` of the new filter is the given bytes |
| `Filter.Memcmp.ConvertToRawBytes` | src/rpc_client/filter.rs:181-196 | In place: success exactly when the bytes are known, meaning unchanged; failure leaves the filter unchanged |
| `Filter.Memcmp.RawBytesAsRef` | src/rpc_client/filter.rs:216-223 | Some exactly for the raw form, and then equal to `bytes()` |
| `Filter.AllowsExactly` | src/rpc_client/filter.rs:64-74 | A filter allows exactly data of its size, data that holds its decoded pattern at the offset, or what the token test admits |
| `Filter.AllowedByVerifiedFilter` | src/rpc_client/filter.rs:68-74 | A verified memcmp filter allows an account exactly when the data holds its pattern, of at most 128 bytes, at the offset |
| `Errors.CarriesExactly` | src/rpc_client/error.rs:23-39 | An error carries a transaction error if and only if it is one or is a preflight failure whose simulation has it |
| `Errors.TransportKeepsTransactionError` | src/rpc_client/error.rs:23-98 | An error that is given a request has it, keeps its kind, loses the request again through a transport error, and keeps its transaction error unless it is a preflight failure whose simulation has one |
| `Errors.TransportRoundTrip` | src/rpc_client/error.rs:41-62 | A transport error survives the client's error exactly when it is not a custom message |
| `Boundary.PollAwait` | src/lib.rs:16-28 | The output of the future is returned after any finite number of pending polls |
| `Boundary.Run` | src/lib.rs:99-150 | Decoding, awaiting and encoding yield the specified wire result; undecodable parameters yield code 400 without data |
| `Boundary.GuestRunExactly` | src/lib.rs:99-150 | For arbitrary bytes: 400 exactly for undecodable parameters, the two 500 errors exactly for results that cannot be encoded, otherwise the encoded outcome with its code and message |
| `Boundary.CallReadsExactly` | src/lib.rs:153-183 | For an arbitrary answer of the host: unreadable parts are InvalidInput, a host failure is its errno, everything else arrives as sent |
| `Boundary.CallUndoesRun` | src/lib.rs:99-183 | Complete result of a call to a dispatching host: InvalidInput without call, a 500 error, or the procedure's own outcome |
| `Boundary.CallDeliversOutcome` | src/lib.rs:99-183 | If the values on the way can be encoded, the caller receives exactly what the procedure returned |
| `Rpc.SendErrorsCarryNoTransactionError` | src/rpc_client/client.rs:1571-1592 | Every error of `send` names its request and carries no transaction error |
| `Rpc.SendFailsExactly` | src/rpc_client/client.rs:1571-1592 | Which replies are which error: the server's code and message are kept, failures of the host and unreadable replies are custom errors, values of the wrong type are serde errors |
| `Rpc.StatusReadExactly` | src/rpc_client/client.rs:308-323 | A status is read if and only if the reply lists the signature at the commitment with that status, none if and only if it does not list it so; a failed request gives its own error |
| `Rpc.CountReadExactly` | src/rpc_client/client.rs:1458-1480 | A count n is read if and only if the reply lists the signature with n confirmations, or as rooted and n is 32 |
| `Rpc.BlockhashReadExactly` | src/rpc_client/client.rs:1489-1507 | A blockhash is read if and only if the reply is text that parses to it; text that does not parse is an error that names the request |
| `Confirmation.PollForSignatureConfirmation` | src/rpc_client/client.rs:1403-1456 | The call returns at the first poll that reaches the target or finds 21 seconds since the last change, with the last observed count |
| `Confirmation.OkMeans` | src/rpc_client/client.rs:1415-1455 | A returned count was the last answered and is enough, or is nonzero and stood for at least 21 seconds |
| `Confirmation.ErrMeans` | src/rpc_client/client.rs:1435-1451 | An error means that the last count, if any, was zero and stood for at least 21 seconds |
| `Confirmation.EnoughWasReported` | src/rpc_client/client.rs:1427-1479 | A sufficient count is what the last reply reported, and no earlier reply reported a sufficient one |
| `Confirmation.ReachedExactly` | src/rpc_client/client.rs:1427-1479 | A poll reaches the target if and only if the node's reply lists the signature with a sufficient count |
| `Confirmation.RootedEndsAtOnce` | src/rpc_client/client.rs:1427-1479 | A node that lists the signature as rooted ends the call with 32 at the first poll, for every target up to 32 |
| `Confirmation.GivesUpExactly` | src/rpc_client/client.rs:1416-1435 | A poll gives up if and only if one count stood, or nothing but zero was answered since the start, for 21 s of requests, pauses and sleeps of 250 ms or more |
| `Confirmation.FailuresAreIgnored` | src/rpc_client/client.rs:1431-1433 | Failed requests change neither the tracked count nor its window |
| `Confirmation.ReturnIsUnique` | src/rpc_client/client.rs:1403-1456 | The replies and times determine result and number of polls |
| `Confirmation.ReturnsExactly` | src/rpc_client/client.rs:1410-1454 | The call returns however time passes if and only if some answer reaches the target or the count stays the same over 84 further answers |
| `Confirmation.PollsExactly` | src/rpc_client/client.rs:1410-1454 | The call returns within n polls however time passes if and only if one of the first n answers reaches the target or is the last of 84 that left the count as it was |
| `Confirmation.PollsBoundedByChanges` | src/rpc_client/client.rs:1410-1454 | On every run, whatever the times and whether it ends or not, n unfinished polls need at least n/84 - 1 changes of the count |
| `Confirmation.EndlessChanges` | src/rpc_client/client.rs:1410-1454 | A call that never returns sees unboundedly many changes |
| `Confirmation.Terminates` | src/rpc_client/client.rs:1410-1454 | A call that sees no count decrease returns within 84 * max(min, 1) + 1 polls, whatever the node would say later |
| `Confirmation.BoundIsReached` | src/rpc_client/client.rs:1410-1454 | Under any readers, a node whose replies count up slowly enough makes it use exactly 84 * min + 1 polls, for every positive target |
| `Confirmation.DeadReturns` | src/rpc_client/client.rs:1410-1454 | A dead node is polled exactly 85 times before the error, whatever the target |
| `Confirmation.FlippingNeverReturns` | src/rpc_client/client.rs:1416-1426 | Under any readers, a node that alternates between two replies reporting different counts below the target is polled without end: the condition of `ReturnsExactly` fails |
| `Balance.PollBalance` | src/rpc_client/client.rs:1305-1329 | The call returns the first answer that is a balance or comes after the timeout |
| `Balance.PolledMeans` | src/rpc_client/client.rs:1305-1329 | It is the first balance; an error means all requests failed and the timeout passed; at most timeout/f + 1 requests |
| `Balance.InnerCallStopsExactly` | src/rpc_client/client.rs:1305-1342 | A call with the default 100 ms and 1 s stops if and only if the answer is a balance or all time passed exceeds 1 s, time in requests included |
| `Balance.PollBoundIsReached` | src/rpc_client/client.rs:1305-1329 | For every positive frequency and every timeout a dead node is asked exactly timeout/f + 1 times |
| `Balance.EndsIffFrequencyPositive` | src/rpc_client/client.rs:1312-1328 | For any readers of replies, the loop ends for every node and timing if and only if the frequency is positive; otherwise a dead node is asked forever |
| `Balance.WaitForBalance` | src/rpc_client/client.rs:1345-1371 | The call returns the result of the first inner call that exits, having made the requests of all inner calls |
| `Balance.WaitedMeans` | src/rpc_client/client.rs:1351-1370 | Ok is the expected balance; Err comes from the 31st inner call, after at most 341 requests; later only the expected balance exits |
| `Balance.WaitedForAny` | src/rpc_client/client.rs:1354-1359 | Without an expected balance the first inner call decides, after at most 11 requests |
| `Balance.ReturnsExactly` | src/rpc_client/client.rs:1345-1371 | With an expected balance the call returns if and only if the 31st inner call fails or some inner call sees that balance |
| `Balance.ReturnsWhenReported` | src/rpc_client/client.rs:1345-1371 | Over a node: it returns if and only if the 31st inner call fails or the last reply to some inner call reports the expected balance |
| `Balance.FailsExactly` | src/rpc_client/client.rs:1357-1369 | It fails if and only if the 31st inner call fails and none before saw the expected balance |
| `Balance.RequestBoundIsReached` | src/rpc_client/client.rs:1357-1369 | A dead node is asked exactly 341 times before the call fails |
| `Balance.BalanceErrors` | src/rpc_client/client.rs:1345-1371 | Its errors name the balance request and carry no transaction error |
| `Balance.MissedDeadlineNeverReturns` | src/rpc_client/client.rs:1357-1369 | Under any readers, a node that answers 31 times with a balance other than the expected one and then never again is waited on forever, however time passes |
| `Waiting.PollForSignature` | src/rpc_client/client.rs:1378-1401 | The call returns at the first poll that finds the signature or ends after 16 seconds; at most 65 polls |
| `Waiting.PolledMeans` | src/rpc_client/client.rs:1383-1400 | Ok exactly if the last answer knows the signature; all earlier answers were failures or none, and the polls before the last were less than 16 s, an error at least 16 s after the start, requests included |
| `Waiting.PolledIsUnique` | src/rpc_client/client.rs:1378-1401 | The answers and times determine the outcome and the number of polls |
| `Waiting.FoundWasReported` | src/rpc_client/client.rs:1385-1390 | Over a node: Ok if and only if the last reply lists the signature at the commitment, succeeded or failed, and no earlier reply did |
| `Waiting.PollBoundIsReached` | src/rpc_client/client.rs:1383-1400 | An answerless node is polled exactly 65 times |
| `Waiting.GetNewLatestBlockhash` | src/rpc_client/client.rs:1539-1561 | The call returns the first new hash asked for within 5 seconds, or the error that counts the queries; at most 25 queries |
| `Waiting.RenewedMeans` | src/rpc_client/client.rs:1539-1561 | Ok is a hash other than the given one after errors and the given one only; Err means 5 s passed, nothing differed, and it names the given hash and the number of queries; every query was made within 5 s, requests included |
| `Waiting.RenewedIsUnique` | src/rpc_client/client.rs:1539-1561 | The answers and times determine result and number of queries |
| `Waiting.NewHashWasReported` | src/rpc_client/client.rs:1539-1561 | Over a node: a new hash is what the last reply's text parses to, and no other reply held another hash than the given one |
| `Waiting.QueryBoundIsReached` | src/rpc_client/client.rs:1539-1561 | A stuck node is queried exactly 25 times |
| `SendConfirm.SerializeAndEncode` | src/rpc_client/client.rs:1596-1613 | The method yields the specified text or error |
| `SendConfirm.EncodingIsLossless` | src/rpc_client/client.rs:1596-1613 | It succeeds exactly for the two binary encodings, and decoding the text recovers the serialized bytes |
| `SendConfirm.SubmissionIsSelfDescribing` | src/rpc_client/client.rs:151-166 | A submission names its encoding, and the text decodes by it to the serialized transaction; the caller's choices are kept, missing ones become base64 and Finalized, and unsupported encodings submit nothing |
| `SendConfirm.SubmissionSucceedsExactly` | src/rpc_client/client.rs:195-211 | A submission succeeds if and only if the node's reply is text that parses to the transaction's own signature; another signature, unreadable text and a failed request are told apart |
| `SendConfirm.SendTransactionWithConfig` | src/rpc_client/client.rs:151-212 | For any configuration: one request, with the completed configuration, if the transaction serializes in the chosen encoding, none otherwise; the result is that of the reply |
| `SendConfirm.SendTransaction` | src/rpc_client/client.rs:137-149 | The submission is base64 text with preflight at the client's commitment and nothing else configured |
| `SendConfirm.SendAndConfirmTransaction` | src/rpc_client/client.rs:85-135 | The call ends as described by its rounds of status and validity requests, for any number of status requests |
| `SendConfirm.TraceShape` | src/rpc_client/client.rs:92-125 | Every request of every run, in order and with its contents; the replies before the last list no status and report one fixed blockhash as valid |
| `SendConfirm.ReturnIsUnique` | src/rpc_client/client.rs:85-135 | The replies determine result and trace |
| `SendConfirm.SucceedsExactly` | src/rpc_client/client.rs:104-106 | A run succeeds if and only if the last reply lists the transaction's own signature as succeeded at the client's commitment |
| `SendConfirm.TransactionErrorExactly` | src/rpc_client/client.rs:104-107 | The error carries a transaction error e if and only if the last reply lists the signature as failed with e at the client's commitment |
| `SendConfirm.UnconfirmedExactly` | src/rpc_client/client.rs:108-134 | "Unable to confirm" if and only if the last reply reports the blockhash as expired, or all status requests were used up while nothing was listed and the blockhash was valid |
| `SendConfirm.ConfirmingExactly` | src/rpc_client/client.rs:92-101 | The status loop is reached if and only if the transaction serializes, the node accepts it, and the transaction or, for durable nonces, the node's second reply gives a blockhash |
| `SendConfirm.FailureIsReturned` | src/rpc_client/client.rs:92-125 | A run whose last request failed returns that request's error |
| `Stake.FoldStakes` | src/rpc_client/client.rs:489-498 | The fold over both account lists computes the maximum and the wrapped sum |
| `Stake.MaxIsMaximum` | src/rpc_client/client.rs:489-497 | The fold's maximum is one of the stakes and bounds them all |
| `Stake.FoldBounds` | src/rpc_client/client.rs:489-498 | max <= total <= n * max |
| `Stake.BelowMeansEveryShare` | src/rpc_client/client.rs:489-501 | If the sum fits 64 bits, a round is below if and only if there is stake and every account's share, current or delinquent, is below the threshold |
| `Stake.RoundIgnoresGrouping` | src/rpc_client/client.rs:490-500 | A round depends only on the multiset of stakes, not on order or on the split into current and delinquent |
| `Stake.WrapIsConservative` | src/rpc_client/client.rs:498-500 | A wrapped sum is below the threshold only if the true sum is |
| `Stake.TrueSumIsJudgedExactly` | src/rpc_client/client.rs:489-501 | A round's verdict is that on the true sum, for every threshold, if and only if the sum is below 2^64 |
| `Stake.OverflowHidesBalance` | src/rpc_client/client.rs:498-500 | For example, two stakes of 2^63 sum to zero and are not below 60 percent, although their true share is |
| `Stake.NeverBelowAverage` | src/rpc_client/client.rs:489-501 | n accounts are never below a threshold of at most 100/n percent, nor is a total of zero below any, even when the sum wraps |
| `Stake.ThresholdIsReachable` | src/rpc_client/client.rs:489-501 | Some stakes of n accounts are below a threshold if and only if it exceeds 100/n percent |
| `Stake.WaitForMaxStake` | src/rpc_client/client.rs:478-517 | The call returns the verdict of the first round that has one |
| `Stake.RoundsBounded` | src/rpc_client/client.rs:502-514 | With a timeout at most timeout / 5 s + 1 rounds stay undecided |
| `Stake.RoundBoundIsReached` | src/rpc_client/client.rs:486-514 | Stakes that cannot be below the threshold make the call time out after exactly timeout / 5 s + 2 rounds if no time is lost |
| `Stake.NeverSucceeds` | src/rpc_client/client.rs:486-515 | A whole run that is shown only such stakes ends, if it ends, with the error of its last request or, after the timeout, with the timeout error |
| `Stake.HopelessForever` | src/rpc_client/client.rs:486-515 | Without a timeout such a run never returns while requests succeed |
| `Stake.BelowWasReported` | src/rpc_client/client.rs:486-501 | Success means that the node's last reply reported stakes below the threshold, and enough accounts for it |
| `Stake.WaitErrors` | src/rpc_client/client.rs:486-515 | An error names the request for vote accounts or is the timeout, and carries no transaction error |
| `Accounts.ParseKeyedAccounts` | src/rpc_client/client.rs:1615-1638 | The loop refines the recursive traversal |
| `Accounts.ParseMeans` | src/rpc_client/client.rs:1615-1638 | Ok if and only if every key and account parses, with what they parse to in order; an error if and only if it is that of the first bad element, key before account |

## Left out

- Confirmation.PollForSignatureConfirmation: the source loop has no bound; the method observes at most `rounds` polls and says "still polling" otherwise, for every `rounds`.
- Balance.PollBalance: observes at most `rounds` requests in the same way, because the source does not end for frequency zero.
- Balance.WaitForBalance: observes at most `rounds` inner calls; the wrap-around of the usize run counter after 2^32 or 2^64 inner calls is not modelled, here and in what is proved about the call.
- Stake.WaitForMaxStake: observes at most `rounds` rounds; percentages are exact rationals, so the rounding of f32 is not modelled, and a debug build, which panics on overflow of the sum, is not either.
- SendConfirm.SendAndConfirmTransaction: the half second of sleep between rounds is not modelled because nothing reads the clock; the number of status requests, usize::MAX in the source, is a parameter.
- Base58.DecodeLoop: works on sequences and returns new ones; the in-place buffers of the library are not part of this model.
- Base64.DecodeLoop: reports that a string is malformed, not which kind of base64 error it is.
- Boundary.Run: the logger set-up and the text that serde adds to messages are left out; a procedure is its outcome and a finite number of pending polls.
- The SPL token test behind the token-account filter is an arbitrary predicate.
- Message wording and log output; an error keeps its kind, its request and the retry count.
- The one-line RPC getters, the other records of config.rs, response.rs and the method-name table: parameter packing and plain data.
- pubsub.rs and `Subscription`: wrappers over a host resource; the conversion of a client error to a procedure error, which is code 500 with its text.

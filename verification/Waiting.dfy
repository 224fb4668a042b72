/**
 Two loops with a deadline: `poll_for_signature_with_commitment`, which checks
 the time after each poll, and `get_new_latest_blockhash`, which checks it before.
 */
module Waiting {
  import opened Wrappers
  import opened Errors
  import opened Rpc

  type Status = Option<Result<(), TransactionError>>

  // ------------------------------------------------------ waiting for a signature

  const POLL_SLEEP: nat := 250_000_000

  // A failed transaction is found as well as a successful one.
  predicate Found(statuses: Stream<Status>, i: nat) {
    statuses(i).Ok? && statuses(i).value.Some?
  }

  predicate Late(t: Timing, i: nat) {
    CheckAt(t, POLL_SLEEP, i) >= 16 * SECOND
  }

  ghost predicate StillPolling(statuses: Stream<Status>, t: Timing, n: nat) {
    forall i :: 0 <= i < n ==> !Found(statuses, i) && !Late(t, i)
  }

  ghost predicate Polled(statuses: Stream<Status>, t: Timing, r: Result<(), Error>, polls: nat) {
    && 0 < polls && StillPolling(statuses, t, polls - 1)
    && match r
       case Ok(_) => Found(statuses, polls - 1)
       case Err(e) =>
         && !Found(statuses, polls - 1) && Late(t, polls - 1)
         && e == FromKind(Rpc(ForUser(SignatureNotFound)))
  }

  // The 65th poll finds 16 seconds gone.
  lemma AfterPoll(statuses: Stream<Status>, t: Timing, i: nat)
    requires StillPolling(statuses, t, i) && i <= 64
    ensures Found(statuses, i) ==> Polled(statuses, t, Ok(()), i + 1)
    ensures !Found(statuses, i) ==>
              if Late(t, i) then Polled(statuses, t, Err(FromKind(Rpc(ForUser(SignatureNotFound)))), i + 1)
              else StillPolling(statuses, t, i + 1) && i < 64
  {
    Spacing(t, POLL_SLEEP, 0, i);
  }

  method PollForSignature(statuses: Stream<Status>, t: Timing) returns (r: Result<(), Error>, polls: nat)
    ensures Polled(statuses, t, r, polls) && polls <= 65
  {
    var clock: nat := 0;
    polls := 0;
    while true
      invariant polls <= 64 && StillPolling(statuses, t, polls)
      invariant clock + t.request(polls) == Arrival(t, POLL_SLEEP, polls)
      decreases 64 - polls
    {
      AfterPoll(statuses, t, polls);
      clock := clock + t.request(polls);
      var status := statuses(polls);
      if status.Ok? && status.value.Some? {
        return Ok(()), polls + 1;
      }
      clock := clock + t.pause(polls);
      WholeSeconds(clock, 15);
      if clock / SECOND > 15 {
        return Err(FromKind(Rpc(ForUser(SignatureNotFound)))), polls + 1;
      }
      clock := clock + POLL_SLEEP + t.oversleep(polls);
      polls := polls + 1;
    }
  }

  // The result in terms of the answers: success shows a known signature in the
  // last answer and in none before; failure shows none at all in 16 seconds.
  lemma PolledMeans(statuses: Stream<Status>, t: Timing, r: Result<(), Error>, polls: nat)
    requires Polled(statuses, t, r, polls)
    ensures polls <= 65
    ensures forall i :: 0 <= i < polls - 1 ==> statuses(i).Err? || statuses(i) == Ok(None)
    ensures r.Ok? <==> statuses(polls - 1).Ok? && statuses(polls - 1).value.Some?
    ensures r.Err? ==> Elapsed(t, 250_000_000, polls - 1) >= 16_000_000_000
    ensures forall i :: 0 <= i < polls - 1 ==> Elapsed(t, 250_000_000, i) < 16_000_000_000
  {
    forall i | 0 <= i < polls - 1
      ensures (statuses(i).Err? || statuses(i) == Ok(None)) && Elapsed(t, 250_000_000, i) < 16_000_000_000
    {
      assert !Found(statuses, i) && !Late(t, i);
      ClockReads(t, POLL_SLEEP, i);
    }
    ClockReads(t, POLL_SLEEP, polls - 1);
    if polls > 1 {
      assert !Late(t, polls - 2);
      Spacing(t, POLL_SLEEP, 0, polls - 2);
    }
  }

  // Over a node, exactly when a poll finds the signature: its reply lists it at
  // the commitment, as succeeded or as failed.
  lemma FoundExactly(readers: Readers, commitment: CommitmentLevel, node: Node, i: nat)
    ensures Found(SignatureStatuses(readers, commitment, node), i)
            <==> ReportsSignature(readers, commitment, node(i))
  {
    var status := SignatureStatus(readers, commitment, node(i));
    assert SignatureStatuses(readers, commitment, node)(i) == status;
    forall r ensures status == Ok(Some(r)) <==> ReportsStatus(readers, commitment, node(i), r) {
      StatusReadExactly(readers, commitment, node(i), r);
    }
    if status.Ok? && status.value.Some? {
      assert ReportsStatus(readers, commitment, node(i), status.value.value);
    }
  }

  // So the call succeeds exactly if the last reply lists the signature, and no
  // reply before did.
  lemma FoundWasReported(
      readers: Readers, commitment: CommitmentLevel, node: Node, t: Timing, r: Result<(), Error>, polls: nat)
    requires Polled(SignatureStatuses(readers, commitment, node), t, r, polls)
    ensures r.Ok? <==> ReportsSignature(readers, commitment, node(polls - 1))
    ensures forall i :: 0 <= i < polls - 1 ==> !ReportsSignature(readers, commitment, node(i))
  {
    FoundExactly(readers, commitment, node, polls - 1);
    forall i | 0 <= i < polls - 1 ensures !ReportsSignature(readers, commitment, node(i)) {
      FoundExactly(readers, commitment, node, i);
    }
  }

  lemma PolledIsUnique(statuses: Stream<Status>, t: Timing, r: Result<(), Error>, polls: nat,
                       r': Result<(), Error>, polls': nat)
    requires Polled(statuses, t, r, polls) && Polled(statuses, t, r', polls')
    ensures polls == polls' && (r.Ok? <==> r'.Ok?) && (r.Err? ==> r == r')
  {
  }

  // An answerless node makes the call use all 65 polls.
  lemma PollBoundIsReached(statuses: Stream<Status>)
    requires forall i: nat :: !Found(statuses, i)
    ensures Polled(statuses, INSTANT, Err(FromKind(Rpc(ForUser(SignatureNotFound)))), 65)
  {
    forall i | 0 <= i < 64 ensures !Late(INSTANT, i) {
      InstantArrival(POLL_SLEEP, i);
    }
    InstantArrival(POLL_SLEEP, 64);
  }

  // ------------------------------------------------------ waiting for a blockhash

  // Half of DEFAULT_MS_PER_SLOT, which is 400.
  const RETRY_SLEEP: nat := 200_000_000

  // When the time is checked before query i, counted from the start of the call.
  function CheckBefore(t: Timing, i: nat): nat {
    if i == 0 then t.pause(0)
    else CheckBefore(t, i - 1) + t.request(i - 1) + RETRY_SLEEP + t.oversleep(i - 1) + t.pause(i)
  }

  predicate Fresh(hashes: Stream<Hash>, given: Hash, i: nat) {
    hashes(i).Ok? && hashes(i).value != given
  }

  predicate InTime(t: Timing, i: nat) {
    CheckBefore(t, i) < 5 * SECOND
  }

  // The first n queries were made in time and brought nothing new.
  ghost predicate Stale(hashes: Stream<Hash>, t: Timing, given: Hash, n: nat) {
    forall i :: 0 <= i < n ==> InTime(t, i) && !Fresh(hashes, given, i)
  }

  ghost predicate Renewed(hashes: Stream<Hash>, t: Timing, given: Hash, r: Result<Hash, Error>, queries: nat) {
    match r
    case Ok(h) =>
      && 0 < queries && Stale(hashes, t, given, queries - 1)
      && InTime(t, queries - 1) && Fresh(hashes, given, queries - 1) && hashes(queries - 1) == Ok(h)
    case Err(e) =>
      && Stale(hashes, t, given, queries) && !InTime(t, queries)
      && e == FromKind(Rpc(ForUser(NoNewBlockhash(queries, given))))
  }

  lemma {:induction false} QueriesTakeTime(t: Timing, i: nat)
    ensures CheckBefore(t, i) >= RETRY_SLEEP * i
  {
    if i > 0 {
      QueriesTakeTime(t, i - 1);
    }
  }

  // The time that n queries and the sleeps after them take, with all pauses.
  function Queried(t: Timing, n: nat): nat {
    200_000_000 * n + Total(t.request, 0, n) + Total(t.oversleep, 0, n) + Total(t.pause, 0, n + 1)
  }

  lemma {:induction false} QueriedExactly(t: Timing, n: nat)
    ensures CheckBefore(t, n) == Queried(t, n)
  {
    TotalStep(t.pause, 0, n);
    if n > 0 {
      QueriedExactly(t, n - 1);
      TotalStep(t.request, 0, n - 1);
      TotalStep(t.oversleep, 0, n - 1);
    }
  }

  lemma AfterQuery(hashes: Stream<Hash>, t: Timing, given: Hash, i: nat)
    requires Stale(hashes, t, given, i)
    ensures !InTime(t, i) ==> Renewed(hashes, t, given, Err(FromKind(Rpc(ForUser(NoNewBlockhash(i, given))))), i)
    ensures InTime(t, i) ==>
              && i < 25
              && if Fresh(hashes, given, i) then Renewed(hashes, t, given, hashes(i), i + 1)
                 else Stale(hashes, t, given, i + 1)
  {
    QueriesTakeTime(t, i);
  }

  method GetNewLatestBlockhash(hashes: Stream<Hash>, t: Timing, given: Hash)
    returns (r: Result<Hash, Error>, queries: nat)
    ensures Renewed(hashes, t, given, r, queries) && queries <= 25
  {
    var numRetries: nat := 0;
    var clock: nat := t.pause(0);
    while clock / SECOND < 5
      invariant numRetries <= 25 && Stale(hashes, t, given, numRetries)
      invariant clock == CheckBefore(t, numRetries)
      decreases 25 - numRetries
    {
      AfterQuery(hashes, t, given, numRetries);
      match hashes(numRetries) {
        case Ok(newBlockhash) =>
          if newBlockhash != given {
            return Ok(newBlockhash), numRetries + 1;
          }
        case Err(_) =>
      }
      clock := clock + t.request(numRetries) + RETRY_SLEEP + t.oversleep(numRetries) + t.pause(numRetries + 1);
      numRetries := numRetries + 1;
    }
    AfterQuery(hashes, t, given, numRetries);
    r, queries := Err(FromKind(Rpc(ForUser(NoNewBlockhash(numRetries, given))))), numRetries;
  }

  // At most 25 queries. Ok is a hash other than the given one, and every
  // earlier answer was an error or the given one; Err means that no answer
  // differed in 5 seconds, and it counts every query made.
  lemma RenewedMeans(hashes: Stream<Hash>, t: Timing, given: Hash, r: Result<Hash, Error>, queries: nat)
    requires Renewed(hashes, t, given, r, queries)
    ensures queries <= 25
    ensures r.Ok? ==>
              && 0 < queries && r.value != given && hashes(queries - 1) == r
              && forall i :: 0 <= i < queries - 1 ==> hashes(i).Err? || hashes(i) == Ok(given)
    ensures r.Err? ==>
              && Queried(t, queries) >= 5_000_000_000
              && (forall i :: 0 <= i < queries ==> hashes(i).Err? || hashes(i) == Ok(given))
              && r.error == Error(None, Rpc(ForUser(NoNewBlockhash(queries, given))))
    ensures forall i :: 0 <= i < queries ==> Queried(t, i) < 5_000_000_000
  {
    var stale := if r.Ok? then queries - 1 else queries;
    forall i | 0 <= i < stale ensures hashes(i).Err? || hashes(i) == Ok(given) {
      assert !Fresh(hashes, given, i);
    }
    forall i | 0 <= i < queries ensures Queried(t, i) < 5_000_000_000 {
      assert InTime(t, i);
      QueriedExactly(t, i);
    }
    QueriedExactly(t, queries);
    if queries > 0 {
      assert InTime(t, queries - 1);
      QueriesTakeTime(t, queries - 1);
    }
  }

  // Over a node, exactly which replies bring something new.
  lemma FreshExactly(readers: Readers, node: Node, given: Hash, i: nat)
    ensures Fresh(LatestBlockhashes(readers, node), given, i)
            <==> exists h :: h != given && ReportsBlockhash(readers, node(i), h)
  {
    var latest := LatestBlockhash(readers, node(i));
    assert LatestBlockhashes(readers, node)(i) == latest;
    forall h ensures latest == Ok(h) <==> ReportsBlockhash(readers, node(i), h) {
      BlockhashReadExactly(readers, node(i), h);
    }
    if latest.Ok? {
      assert ReportsBlockhash(readers, node(i), latest.value);
    }
  }

  // The new hash is what the text of the last reply parses to, and no earlier
  // reply held another hash than the given one.
  lemma NewHashWasReported(readers: Readers, node: Node, t: Timing, given: Hash, r: Result<Hash, Error>, queries: nat)
    requires Renewed(LatestBlockhashes(readers, node), t, given, r, queries)
    ensures r.Ok? ==> queries > 0 && r.value != given && ReportsBlockhash(readers, node(queries - 1), r.value)
    ensures var stale := if r.Ok? then queries - 1 else queries;
            forall i, h :: 0 <= i < stale && ReportsBlockhash(readers, node(i), h) ==> h == given
  {
    var hashes := LatestBlockhashes(readers, node);
    if r.Ok? {
      assert hashes(queries - 1) == LatestBlockhash(readers, node(queries - 1));
      BlockhashReadExactly(readers, node(queries - 1), r.value);
    }
    var stale := if r.Ok? then queries - 1 else queries;
    forall i, h | 0 <= i < stale && ReportsBlockhash(readers, node(i), h) ensures h == given {
      assert !Fresh(hashes, given, i);
      FreshExactly(readers, node, given, i);
    }
  }

  lemma RenewedIsUnique(hashes: Stream<Hash>, t: Timing, given: Hash, r: Result<Hash, Error>, n: nat,
                        r': Result<Hash, Error>, m: nat)
    requires Renewed(hashes, t, given, r, n) && Renewed(hashes, t, given, r', m)
    ensures r == r' && n == m
  {
  }

  lemma {:induction false} InstantQueries(i: nat)
    ensures CheckBefore(INSTANT, i) == RETRY_SLEEP * i
  {
    if i > 0 {
      InstantQueries(i - 1);
    }
  }

  // A node stuck at the given hash is asked 25 times.
  lemma QueryBoundIsReached(hashes: Stream<Hash>, given: Hash)
    requires forall i: nat :: hashes(i) == Ok(given)
    ensures Renewed(hashes, INSTANT, given, Err(FromKind(Rpc(ForUser(NoNewBlockhash(25, given))))), 25)
  {
    forall i | 0 <= i < 25 ensures InTime(INSTANT, i) && !Fresh(hashes, given, i) {
      InstantQueries(i);
    }
    assert Stale(hashes, INSTANT, given, 25);
    assert !InTime(INSTANT, 25) by { InstantQueries(25); }
  }
}

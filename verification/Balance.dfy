/**
 `poll_balance_with_timeout_and_commitment` and the loop around it,
 `wait_for_balance_with_commitment`. A call of the inner loop that starts with
 the q-th request of the run looks at the answers q, q+1, ... only.
 */
module Balance {
  import opened Wrappers
  import opened Errors
  import opened Boundary
  import opened Radix
  import opened Rpc

  // ------------------------------------------------------------ inner loop

  // Time since the call began, read after n requests, each followed by a sleep.
  function Slept(t: Timing, frequency: nat, q: nat, n: nat): nat {
    if n == 0 then 0
    else Slept(t, frequency, q, n - 1) + t.request(q + n - 1) + frequency + t.oversleep(q + n - 1) + t.pause(q + n - 1)
  }

  // All time that passes counts, whether in requests, sleeps or pauses.
  lemma {:induction false} SleptIsTotal(t: Timing, frequency: nat, q: nat, n: nat)
    ensures Slept(t, frequency, q, n)
            == frequency * n + Total(t.request, q, q + n) + Total(t.oversleep, q, q + n) + Total(t.pause, q, q + n)
  {
    if n > 0 {
      SleptIsTotal(t, frequency, q, n - 1);
      assert frequency * n == frequency * (n - 1) + frequency;
    }
  }

  predicate Stops(balances: Stream<nat>, t: Timing, frequency: nat, timeout: nat, q: nat, i: nat) {
    balances(q + i).Ok? || Slept(t, frequency, q, i + 1) > timeout
  }

  ghost predicate StillPolling(balances: Stream<nat>, t: Timing, frequency: nat, timeout: nat, q: nat, n: nat) {
    forall i :: 0 <= i < n ==> !Stops(balances, t, frequency, timeout, q, i)
  }

  // The call returns the answer to its last request, after that many of them.
  ghost predicate Polled(balances: Stream<nat>, t: Timing, frequency: nat, timeout: nat, q: nat,
                         r: Result<nat, Error>, requests: nat) {
    && 0 < requests && r == balances(q + requests - 1)
    && StillPolling(balances, t, frequency, timeout, q, requests - 1)
    && Stops(balances, t, frequency, timeout, q, requests - 1)
  }

  // What observing at most `rounds` requests shows.
  ghost predicate PollOutcome(balances: Stream<nat>, t: Timing, frequency: nat, timeout: nat, q: nat, rounds: nat,
                              r: Option<Result<nat, Error>>, requests: nat) {
    match r
    case None => requests == rounds && StillPolling(balances, t, frequency, timeout, q, requests)
    case Some(result) => requests <= rounds && Polled(balances, t, frequency, timeout, q, result, requests)
  }

  lemma AfterRequest(balances: Stream<nat>, t: Timing, frequency: nat, timeout: nat, q: nat, rounds: nat, i: nat)
    requires i < rounds && StillPolling(balances, t, frequency, timeout, q, i)
    ensures if balances(q + i).Ok? || Slept(t, frequency, q, i + 1) > timeout
            then PollOutcome(balances, t, frequency, timeout, q, rounds, Some(balances(q + i)), i + 1)
            else StillPolling(balances, t, frequency, timeout, q, i + 1)
  {
  }

  // At most `rounds` requests of the loop; None if it is then still polling.
  method PollBalance(balances: Stream<nat>, t: Timing, frequency: nat, timeout: nat, q: nat, rounds: nat)
    returns (r: Option<Result<nat, Error>>, requests: nat)
    ensures PollOutcome(balances, t, frequency, timeout, q, rounds, r, requests)
  {
    var clock: nat := 0;
    requests := 0;
    while requests < rounds
      invariant 0 <= requests <= rounds && StillPolling(balances, t, frequency, timeout, q, requests)
      invariant clock == Slept(t, frequency, q, requests)
    {
      AfterRequest(balances, t, frequency, timeout, q, rounds, requests);
      clock := clock + t.request(q + requests);
      match balances(q + requests) {
        case Ok(balance) =>
          return Some(Ok(balance)), requests + 1;
        case Err(e) =>
          clock := clock + frequency + t.oversleep(q + requests) + t.pause(q + requests);
          if clock > timeout {
            return Some(Err(e)), requests + 1;
          }
      }
      requests := requests + 1;
    }
    r := None;
  }

  lemma {:induction false} SleepsAddUp(t: Timing, frequency: nat, q: nat, n: nat)
    ensures Slept(t, frequency, q, n) >= frequency * n
  {
    if n > 0 {
      SleepsAddUp(t, frequency, q, n - 1);
      assert frequency * n == frequency * (n - 1) + frequency;
    }
  }

  lemma QuotientReached(i: nat, d: nat, m: nat)
    requires d > 0
    ensures d * (i + 1) > m <==> i >= m / d
  {
    DivMod(m, d);
    if i >= m / d {
      MulMonotone(m / d + 1, i + 1, d, d);
    } else {
      MulMonotone(i + 1, m / d, d, d);
    }
  }

  // For a positive frequency at most timeout / frequency + 1 requests are made.
  lemma RequestsBounded(balances: Stream<nat>, t: Timing, frequency: nat, timeout: nat, q: nat, n: nat)
    requires frequency > 0 && StillPolling(balances, t, frequency, timeout, q, n)
    ensures n <= timeout / frequency
  {
    if n > 0 {
      assert !Stops(balances, t, frequency, timeout, q, n - 1);
      SleepsAddUp(t, frequency, q, n);
      QuotientReached(n - 1, frequency, timeout);
    }
  }

  // What a returned balance and a returned error certify.
  lemma PolledMeans(balances: Stream<nat>, t: Timing, frequency: nat, timeout: nat, q: nat,
                    r: Result<nat, Error>, requests: nat)
    requires Polled(balances, t, frequency, timeout, q, r, requests)
    ensures forall i :: q <= i < q + requests - 1 ==> balances(i).Err?
    ensures r.Ok? ==> balances(q + requests - 1) == r
    ensures r.Err? ==>
              && (forall i :: q <= i < q + requests ==> balances(i).Err?)
              && Slept(t, frequency, q, requests) > timeout
    ensures frequency > 0 ==> requests <= timeout / frequency + 1
  {
    forall i | q <= i < q + requests - 1 ensures balances(i).Err? {
      assert !Stops(balances, t, frequency, timeout, q, i - q);
    }
    if frequency > 0 {
      RequestsBounded(balances, t, frequency, timeout, q, requests - 1);
    }
  }

  ghost predicate Ends(balances: Stream<nat>, t: Timing, frequency: nat, timeout: nat) {
    exists i: nat :: Stops(balances, t, frequency, timeout, 0, i)
  }

  const NO_BALANCE := Error(Some(GetBalance), Custom("RPC call failed"))

  lemma DeadNodeFails(readers: Readers, i: nat)
    ensures Balances(readers, DEAD)(i) == Err(NO_BALANCE)
  {
    NoAnswerFails(readers, readers.balance, GetBalance);
    assert Balances(readers, DEAD)(i) == Send(readers, readers.balance, GetBalance, DEAD(i));
  }

  lemma {:induction false} InstantSleeps(frequency: nat, q: nat, n: nat)
    ensures Slept(INSTANT, frequency, q, n) == frequency * n
  {
    if n > 0 {
      InstantSleeps(frequency, q, n - 1);
      assert frequency * n == frequency * (n - 1) + frequency;
    }
  }

  lemma DeadStops(readers: Readers, frequency: nat, timeout: nat, q: nat, i: nat)
    requires frequency > 0
    ensures Stops(Balances(readers, DEAD), INSTANT, frequency, timeout, q, i) <==> i >= timeout / frequency
  {
    DeadNodeFails(readers, q + i);
    InstantSleeps(frequency, q, i + 1);
    QuotientReached(i, frequency, timeout);
  }

  // The bound on the requests is exact: a dead node uses it up.
  lemma PollBoundIsReached(readers: Readers, frequency: nat, timeout: nat, q: nat)
    requires frequency > 0
    ensures Polled(Balances(readers, DEAD), INSTANT, frequency, timeout, q, Err(NO_BALANCE), timeout / frequency + 1)
  {
    var balances, last := Balances(readers, DEAD), timeout / frequency;
    forall i: nat ensures Stops(balances, INSTANT, frequency, timeout, q, i) <==> i >= last {
      DeadStops(readers, frequency, timeout, q, i);
    }
    DeadNodeFails(readers, q + last);
  }

  // With any readers, the loop ends whatever the node does exactly when the
  // frequency is positive: a dead node is otherwise asked forever.
  lemma EndsIffFrequencyPositive(readers: Readers, frequency: nat, timeout: nat)
    ensures (forall node: Node, t: Timing :: Ends(Balances(readers, node), t, frequency, timeout)) <==> frequency > 0
  {
    if frequency > 0 {
      forall node: Node, t: Timing ensures Ends(Balances(readers, node), t, frequency, timeout) {
        var balances, n := Balances(readers, node), timeout / frequency + 1;
        if !Ends(balances, t, frequency, timeout) {
          assert StillPolling(balances, t, frequency, timeout, 0, n);
          RequestsBounded(balances, t, frequency, timeout, 0, n);
        }
      }
    } else {
      forall i: nat ensures !Stops(Balances(readers, DEAD), INSTANT, frequency, timeout, 0, i) {
        DeadNodeFails(readers, i);
        InstantSleeps(frequency, 0, i + 1);
      }
      assert !Ends(Balances(readers, DEAD), INSTANT, frequency, timeout);
    }
  }

  // ------------------------------------------------------------ outer loop

  const FREQUENCY: nat := 100_000_000
  const TIMEOUT: nat := 1_000_000_000
  const MAX_REQUESTS := 11
  const LAST := 30

  // The number of requests of an inner call that starts at q, of which i went on.
  function CallLength(balances: Stream<nat>, t: Timing, q: nat, i: nat): (n: nat)
    ensures n > i
    decreases if Slept(t, FREQUENCY, q, i + 1) > TIMEOUT then 0 else TIMEOUT - Slept(t, FREQUENCY, q, i + 1) + 1
  {
    if Stops(balances, t, FREQUENCY, TIMEOUT, q, i) then i + 1 else CallLength(balances, t, q, i + 1)
  }

  lemma {:induction false} CallLengthIsPolled(balances: Stream<nat>, t: Timing, q: nat, i: nat)
    requires StillPolling(balances, t, FREQUENCY, TIMEOUT, q, i)
    ensures var n := CallLength(balances, t, q, i);
            Polled(balances, t, FREQUENCY, TIMEOUT, q, balances(q + n - 1), n) && n <= MAX_REQUESTS
    decreases if Slept(t, FREQUENCY, q, i + 1) > TIMEOUT then 0 else TIMEOUT - Slept(t, FREQUENCY, q, i + 1) + 1
  {
    if Stops(balances, t, FREQUENCY, TIMEOUT, q, i) {
      RequestsBounded(balances, t, FREQUENCY, TIMEOUT, q, i);
    } else {
      CallLengthIsPolled(balances, t, q, i + 1);
    }
  }

  lemma PolledIsUnique(balances: Stream<nat>, t: Timing, frequency: nat, timeout: nat, q: nat,
                       r: Result<nat, Error>, n: nat, r': Result<nat, Error>, m: nat)
    requires Polled(balances, t, frequency, timeout, q, r, n)
    requires Polled(balances, t, frequency, timeout, q, r', m)
    ensures r == r' && n == m
  {
  }

  // The request with which the run-th inner call begins, the one after its
  // last, and what that call returns.
  function RunStart(balances: Stream<nat>, t: Timing, run: nat): (q: nat)
    ensures q >= run
    decreases run, 0
  {
    if run == 0 then 0 else RunEnd(balances, t, run - 1)
  }

  function RunEnd(balances: Stream<nat>, t: Timing, run: nat): (q: nat)
    ensures q > run
    decreases run, 1
  {
    RunStart(balances, t, run) + CallLength(balances, t, RunStart(balances, t, run), 0)
  }

  function RunResult(balances: Stream<nat>, t: Timing, run: nat): Result<nat, Error> {
    balances(RunEnd(balances, t, run) - 1)
  }

  lemma FewerThanMax(balances: Stream<nat>, t: Timing, q: nat, n: nat)
    requires StillPolling(balances, t, FREQUENCY, TIMEOUT, q, n)
    ensures n < MAX_REQUESTS
  {
    RequestsBounded(balances, t, FREQUENCY, TIMEOUT, q, n);
  }

  // An inner call always returns, within as many requests as it is observed for.
  lemma InnerReturns(balances: Stream<nat>, t: Timing, q: nat, r: Option<Result<nat, Error>>, requests: nat)
    requires PollOutcome(balances, t, FREQUENCY, TIMEOUT, q, MAX_REQUESTS, r, requests)
    ensures requests == CallLength(balances, t, q, 0) && r == Some(balances(q + requests - 1))
  {
    CallLengthIsPolled(balances, t, q, 0);
    var n := CallLength(balances, t, q, 0);
    if r.None? {
      FewerThanMax(balances, t, q, requests);
    } else {
      PolledIsUnique(balances, t, FREQUENCY, TIMEOUT, q, r.value, requests, balances(q + n - 1), n);
    }
  }

  predicate Exits(balances: Stream<nat>, t: Timing, expected: Option<nat>, run: nat) {
    || expected.None?
    || (RunResult(balances, t, run).Err? && run == LAST)
    || RunResult(balances, t, run) == Ok(expected.value)
  }

  ghost predicate StillWaiting(balances: Stream<nat>, t: Timing, expected: Option<nat>, runs: nat) {
    forall k :: 0 <= k < runs ==> !Exits(balances, t, expected, k)
  }

  ghost predicate Waited(balances: Stream<nat>, t: Timing, expected: Option<nat>, r: Result<nat, Error>, runs: nat) {
    && 0 < runs && r == RunResult(balances, t, runs - 1)
    && StillWaiting(balances, t, expected, runs - 1) && Exits(balances, t, expected, runs - 1)
  }

  // What observing at most `rounds` inner calls shows.
  ghost predicate Outcome(balances: Stream<nat>, t: Timing, expected: Option<nat>, rounds: nat,
                          r: Option<Result<nat, Error>>, runs: nat, requests: nat) {
    && requests == RunStart(balances, t, runs)
    && match r
       case None => runs == rounds && StillWaiting(balances, t, expected, runs)
       case Some(result) => runs <= rounds && Waited(balances, t, expected, result, runs)
  }

  // The run-th inner call, made where it begins.
  lemma AfterRun(balances: Stream<nat>, t: Timing, expected: Option<nat>, rounds: nat, run: nat, requests: nat,
                 polled: Option<Result<nat, Error>>, made: nat)
    requires run < rounds && StillWaiting(balances, t, expected, run) && requests == RunStart(balances, t, run)
    requires PollOutcome(balances, t, FREQUENCY, TIMEOUT, requests, MAX_REQUESTS, polled, made)
    ensures polled.Some? && requests + made == RunStart(balances, t, run + 1)
    ensures if expected.None? || (polled.value.Err? && run == LAST) || polled.value == Ok(expected.value)
            then Outcome(balances, t, expected, rounds, polled, run + 1, requests + made)
            else StillWaiting(balances, t, expected, run + 1)
  {
    InnerReturns(balances, t, requests, polled, made);
    assert RunEnd(balances, t, run) == requests + made;
    assert polled == Some(RunResult(balances, t, run));
  }

  // At most `rounds` inner calls; None if the loop is then still waiting.
  method WaitForBalance(balances: Stream<nat>, t: Timing, expected: Option<nat>, rounds: nat)
    returns (r: Option<Result<nat, Error>>, runs: nat, requests: nat)
    ensures Outcome(balances, t, expected, rounds, r, runs, requests)
  {
    var run: nat := 0;
    requests := 0;
    while run < rounds
      invariant 0 <= run <= rounds && StillWaiting(balances, t, expected, run)
      invariant requests == RunStart(balances, t, run)
    {
      var polled, made := PollBalance(balances, t, FREQUENCY, TIMEOUT, requests, MAX_REQUESTS);
      AfterRun(balances, t, expected, rounds, run, requests, polled, made);
      requests := requests + made;
      var balanceResult := polled.value;
      if expected.None? || (balanceResult.Err? && run == LAST) {
        return Some(balanceResult), run + 1, requests;
      }
      if expected.Some? && balanceResult.Ok? {
        if expected.value == balanceResult.value {
          return Some(balanceResult), run + 1, requests;
        }
      }
      run := run + 1;
    }
    r, runs := None, run;
  }

  // What is observed of a call is determined by the answers and the times.
  lemma OutcomeIsUnique(balances: Stream<nat>, t: Timing, expected: Option<nat>, rounds: nat,
                        r: Option<Result<nat, Error>>, runs: nat, requests: nat,
                        r': Option<Result<nat, Error>>, runs': nat, requests': nat)
    requires Outcome(balances, t, expected, rounds, r, runs, requests)
    requires Outcome(balances, t, expected, rounds, r', runs', requests')
    ensures r == r' && runs == runs' && requests == requests'
  {
  }

  lemma {:induction false} RequestsPerRun(balances: Stream<nat>, t: Timing, runs: nat)
    ensures RunStart(balances, t, runs) <= MAX_REQUESTS * runs
  {
    if runs > 0 {
      RequestsPerRun(balances, t, runs - 1);
      CallLengthIsPolled(balances, t, RunStart(balances, t, runs - 1), 0);
    }
  }

  // With an expected balance: Ok is that balance; Err comes from exactly the
  // 31st inner call, so after at most 341 requests.
  lemma WaitedMeans(balances: Stream<nat>, t: Timing, expected: nat, r: Result<nat, Error>, runs: nat)
    requires Waited(balances, t, Some(expected), r, runs)
    ensures r.Ok? ==> r.value == expected && balances(RunStart(balances, t, runs) - 1) == Ok(expected)
    ensures r.Err? ==> runs == 31 && RunStart(balances, t, runs) <= 341
    ensures runs > 31 ==> r == Ok(expected)
  {
    RequestsPerRun(balances, t, runs);
    ExitMeans(balances, t, expected, runs - 1);
  }

  lemma ExitMeans(balances: Stream<nat>, t: Timing, expected: nat, run: nat)
    requires Exits(balances, t, Some(expected), run)
    ensures RunResult(balances, t, run) == Ok(expected) || (RunResult(balances, t, run).Err? && run == LAST)
  {
  }

  // Without one the first inner call decides.
  lemma WaitedForAny(balances: Stream<nat>, t: Timing, r: Result<nat, Error>, runs: nat)
    requires Waited(balances, t, None, r, runs)
    ensures runs == 1 && r == RunResult(balances, t, 0) && RunStart(balances, t, runs) <= 11
  {
    assert runs > 1 ==> !Exits(balances, t, None, 0);
    RequestsPerRun(balances, t, runs);
  }

  // Exactly when the call fails: the expected balance was not seen by the first
  // 31 inner calls and the 31st of them failed. How the others ended is irrelevant.
  lemma FailsExactly(balances: Stream<nat>, t: Timing, expected: nat)
    ensures (exists r, runs: nat :: Waited(balances, t, Some(expected), r, runs) && r.Err?)
            <==> && RunResult(balances, t, LAST).Err?
                 && forall k :: 0 <= k < LAST ==> RunResult(balances, t, k) != Ok(expected)
  {
    if exists r, runs: nat :: Waited(balances, t, Some(expected), r, runs) && r.Err? {
      var r, runs: nat :| Waited(balances, t, Some(expected), r, runs) && r.Err?;
      forall k | 0 <= k < LAST ensures RunResult(balances, t, k) != Ok(expected) {
        assert !Exits(balances, t, Some(expected), k);
      }
    }
    if RunResult(balances, t, LAST).Err? && forall k :: 0 <= k < LAST ==> RunResult(balances, t, k) != Ok(expected) {
      assert Waited(balances, t, Some(expected), RunResult(balances, t, LAST), LAST + 1);
    }
  }

  // A balance error is one of the request: it names it and carries no transaction error.
  lemma BalanceErrors(readers: Readers, node: Node, t: Timing, expected: Option<nat>, r: Result<nat, Error>, runs: nat)
    requires Waited(Balances(readers, node), t, expected, r, runs) && r.Err?
    ensures r.error.request == Some(GetBalance) && r.error.GetTransactionError() == None
  {
    var k := RunEnd(Balances(readers, node), t, runs - 1) - 1;
    SendErrorsCarryNoTransactionError(readers, readers.balance, GetBalance, node(k));
  }

  lemma ReplyAt(readers: Readers, node: Node, i: nat, balance: nat)
    ensures Balances(readers, node)(i) == Ok(balance) <==> Reports(readers, readers.balance, node(i), balance)
  {
    SendSucceedsExactly(readers, readers.balance, GetBalance, node(i), balance);
    assert Balances(readers, node)(i) == Send(readers, readers.balance, GetBalance, node(i));
  }

  // The reply to the last request of an inner call reports the balance.
  ghost predicate Seen(readers: Readers, node: Node, t: Timing, run: nat, balance: nat) {
    Reports(readers, readers.balance, node(RunEnd(Balances(readers, node), t, run) - 1), balance)
  }

  lemma SeenExactly(readers: Readers, node: Node, t: Timing, run: nat, balance: nat)
    ensures RunResult(Balances(readers, node), t, run) == Ok(balance) <==> Seen(readers, node, t, run, balance)
  {
    ReplyAt(readers, node, RunEnd(Balances(readers, node), t, run) - 1, balance);
  }

  ghost predicate Returns(balances: Stream<nat>, t: Timing, expected: nat) {
    exists r, runs: nat :: Waited(balances, t, Some(expected), r, runs)
  }

  lemma {:induction false} FirstExit(balances: Stream<nat>, t: Timing, expected: nat, run: nat)
    requires Exits(balances, t, Some(expected), run)
    ensures Returns(balances, t, expected)
  {
    if StillWaiting(balances, t, Some(expected), run) {
      assert Waited(balances, t, Some(expected), RunResult(balances, t, run), run + 1);
    } else {
      var k :| 0 <= k < run && Exits(balances, t, Some(expected), k);
      FirstExit(balances, t, expected, k);
    }
  }

  // Exactly when the call returns: the 31st inner call fails, or some inner call
  // sees the expected balance. The counter is compared for equality, so later
  // failures do not end the loop.
  lemma ReturnsExactly(balances: Stream<nat>, t: Timing, expected: nat)
    ensures Returns(balances, t, expected)
            <==> RunResult(balances, t, LAST).Err? || exists k: nat :: RunResult(balances, t, k) == Ok(expected)
  {
    if Returns(balances, t, expected) {
      var r, runs: nat :| Waited(balances, t, Some(expected), r, runs);
      ExitMeans(balances, t, expected, runs - 1);
    }
    if RunResult(balances, t, LAST).Err? {
      FirstExit(balances, t, expected, LAST);
    }
    if exists k: nat :: RunResult(balances, t, k) == Ok(expected) {
      var k: nat :| RunResult(balances, t, k) == Ok(expected);
      FirstExit(balances, t, expected, k);
    }
  }

  // Over a node: the call returns exactly if the 31st inner call fails or some
  // inner call is told the expected balance.
  lemma ReturnsWhenReported(readers: Readers, node: Node, t: Timing, expected: nat, last: nat)
    requires last == LAST
    ensures Returns(Balances(readers, node), t, expected)
            <==> || RunResult(Balances(readers, node), t, last).Err?
                 || exists k: nat :: Seen(readers, node, t, k, expected)
  {
    var balances := Balances(readers, node);
    ReturnsExactly(balances, t, expected);
    if exists k: nat :: RunResult(balances, t, k) == Ok(expected) {
      var k: nat :| RunResult(balances, t, k) == Ok(expected);
      SeenExactly(readers, node, t, k, expected);
    }
    if exists k: nat :: Seen(readers, node, t, k, expected) {
      var k: nat :| Seen(readers, node, t, k, expected);
      SeenExactly(readers, node, t, k, expected);
    }
  }

  // The two durations are 100 ms and 1 s: exactly when an inner call gives up.
  lemma InnerCallStopsExactly(balances: Stream<nat>, t: Timing, q: nat, i: nat)
    ensures Stops(balances, t, FREQUENCY, TIMEOUT, q, i)
            <==> || balances(q + i).Ok?
                 || 100_000_000 * (i + 1) + Total(t.request, q, q + i + 1) + Total(t.oversleep, q, q + i + 1)
                    + Total(t.pause, q, q + i + 1) > 1_000_000_000
  {
    SleptIsTotal(t, FREQUENCY, q, i + 1);
  }

  // A node that answers 31 times and then never again.
  function Silenced(reply: HostReply): Node {
    (i: nat) => if i <= LAST then reply else NO_ANSWER
  }

  lemma SilencedAnswer(readers: Readers, reply: HostReply, balance: nat, i: nat)
    requires Reports(readers, readers.balance, reply, balance)
    ensures Balances(readers, Silenced(reply))(i) == if i <= LAST then Ok(balance) else Err(NO_BALANCE)
  {
    NoAnswerFails(readers, readers.balance, GetBalance);
    SendSucceedsExactly(readers, readers.balance, GetBalance, reply, balance);
    assert Balances(readers, Silenced(reply))(i) == Send(readers, readers.balance, GetBalance, Silenced(reply)(i));
  }

  // Each of its answers makes one inner call, so the 31st succeeds.
  lemma {:induction false} RunsOfOneRequest(balances: Stream<nat>, t: Timing, run: nat)
    requires forall i: nat :: i < run ==> balances(i).Ok?
    ensures RunStart(balances, t, run) == run
  {
    if run > 0 {
      RunsOfOneRequest(balances, t, run - 1);
    }
  }

  // If they report another balance than the expected one, whatever the readers,
  // the caller waits forever, however time passes.
  lemma MissedDeadlineNeverReturns(readers: Readers, reply: HostReply, balance: nat, t: Timing, expected: nat)
    requires Reports(readers, readers.balance, reply, balance) && balance != expected
    ensures !Returns(Balances(readers, Silenced(reply)), t, expected)
  {
    var balances := Balances(readers, Silenced(reply));
    forall i: nat ensures balances(i) == if i <= LAST then Ok(balance) else Err(NO_BALANCE) {
      SilencedAnswer(readers, reply, balance, i);
    }
    RunsOfOneRequest(balances, t, LAST);
    RunsOfOneRequest(balances, t, LAST + 1);
    ReturnsExactly(balances, t, expected);
  }

  // --------------------------------------------------- the bound is reached

  // A dead node is asked 11 times in each inner call.
  lemma DeadCallLength(readers: Readers, q: nat)
    ensures CallLength(Balances(readers, DEAD), INSTANT, q, 0) == MAX_REQUESTS
  {
    var balances := Balances(readers, DEAD);
    CallLengthIsPolled(balances, INSTANT, q, 0);
    var n := CallLength(balances, INSTANT, q, 0);
    PollBoundIsReached(readers, FREQUENCY, TIMEOUT, q);
    PolledIsUnique(balances, INSTANT, FREQUENCY, TIMEOUT, q,
                   balances(q + n - 1), n, Err(NO_BALANCE), TIMEOUT / FREQUENCY + 1);
  }

  lemma {:induction false} DeadRunStart(readers: Readers, runs: nat)
    ensures RunStart(Balances(readers, DEAD), INSTANT, runs) == MAX_REQUESTS * runs
  {
    if runs > 0 {
      DeadRunStart(readers, runs - 1);
      DeadCallLength(readers, MAX_REQUESTS * (runs - 1));
    }
  }

  lemma DeadRunFails(readers: Readers, run: nat)
    ensures RunResult(Balances(readers, DEAD), INSTANT, run) == Err(NO_BALANCE)
  {
    DeadNodeFails(readers, RunEnd(Balances(readers, DEAD), INSTANT, run) - 1);
  }

  lemma DeadKeepsWaiting(readers: Readers, expected: nat, runs: nat)
    requires runs <= LAST
    ensures StillWaiting(Balances(readers, DEAD), INSTANT, Some(expected), runs)
  {
    forall k | 0 <= k < runs ensures !Exits(Balances(readers, DEAD), INSTANT, Some(expected), k) {
      DeadRunFails(readers, k);
    }
  }

  lemma WaitedForDead(readers: Readers, expected: nat, run: nat)
    requires run == LAST
    ensures Waited(Balances(readers, DEAD), INSTANT, Some(expected), Err(NO_BALANCE), run + 1)
  {
    DeadKeepsWaiting(readers, expected, run);
    DeadRunFails(readers, run);
  }

  // So 341 requests are made before the call fails, in its 31st inner call.
  lemma RequestBoundIsReached(readers: Readers, expected: nat, runs: nat)
    requires runs == LAST + 1
    ensures Waited(Balances(readers, DEAD), INSTANT, Some(expected), Err(NO_BALANCE), runs)
    ensures RunStart(Balances(readers, DEAD), INSTANT, runs) == 341
  {
    WaitedForDead(readers, expected, runs - 1);
    DeadRunStart(readers, runs);
  }
}

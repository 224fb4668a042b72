/**
 `poll_for_signature_confirmation`: wait until a signature has enough
 confirmations, giving up 21 seconds after the count last changed. The window
 restarts on every change, so termination is not a matter of a deadline.
 */
module Confirmation {
  import opened Wrappers
  import opened Errors
  import opened Boundary
  import opened Rpc

  const POLL_SLEEP: nat := 250_000_000

  // ------------------------------------------------- the run, read as a trace

  // The count in the last of the first n answers that has one.
  function Observed(counts: Stream<nat>, n: nat): nat {
    if n == 0 then 0
    else match counts(n - 1)
      case Ok(count) => count
      case Err(_) => Observed(counts, n - 1)
  }

  predicate Changed(counts: Stream<nat>, i: nat) {
    Observed(counts, i + 1) != Observed(counts, i)
  }

  // When the count last changed in the first n answers.
  function WindowStart(counts: Stream<nat>, t: Timing, n: nat): nat {
    if n == 0 then 0
    else if Changed(counts, n - 1) then Arrival(t, POLL_SLEEP, n - 1)
    else WindowStart(counts, t, n - 1)
  }

  predicate Reached(counts: Stream<nat>, min: nat, i: nat) {
    counts(i).Ok? && counts(i).value >= min
  }

  predicate TimedOut(counts: Stream<nat>, t: Timing, i: nat) {
    CheckAt(t, POLL_SLEEP, i) >= WindowStart(counts, t, i + 1) + 21 * SECOND
  }

  predicate Stops(counts: Stream<nat>, t: Timing, min: nat, i: nat) {
    Reached(counts, min, i) || TimedOut(counts, t, i)
  }

  // The polls before the n-th all went on.
  ghost predicate StillPolling(counts: Stream<nat>, t: Timing, min: nat, n: nat) {
    forall i :: 0 <= i < n ==> !Stops(counts, t, min, i)
  }

  function Changes(counts: Stream<nat>, n: nat): nat {
    if n == 0 then 0
    else Changes(counts, n - 1) + if Changed(counts, n - 1) then 1 else 0
  }

  lemma {:induction false} WindowStartBound(counts: Stream<nat>, t: Timing, n: nat)
    ensures n > 0 ==> WindowStart(counts, t, n) <= Arrival(t, POLL_SLEEP, n - 1)
    ensures n == 0 ==> WindowStart(counts, t, n) == 0
  {
    if n > 1 {
      WindowStartBound(counts, t, n - 1);
      Spacing(t, POLL_SLEEP, n - 2, n - 1);
    }
  }

  // The call has returned r after that many polls.
  ghost predicate Returned(counts: Stream<nat>, t: Timing, min: nat, r: Result<nat, Error>, polls: nat) {
    && 0 < polls && StillPolling(counts, t, min, polls - 1) && Stops(counts, t, min, polls - 1)
    && r == if Reached(counts, min, polls - 1) || Observed(counts, polls) > 0
            then Ok(Observed(counts, polls))
            else Err(FromKind(Rpc(ForUser(SignatureNotFound))))
  }

  // What observing at most `rounds` polls of a call shows.
  ghost predicate Outcome(counts: Stream<nat>, t: Timing, min: nat, rounds: nat,
                          r: Option<Result<nat, Error>>, polls: nat) {
    match r
    case None => polls == rounds && StillPolling(counts, t, min, polls)
    case Some(result) => polls <= rounds && Returned(counts, t, min, result, polls)
  }

  // --------------------------------------------------------------- the loop

  lemma AfterAnswer(counts: Stream<nat>, t: Timing, i: nat)
    ensures Observed(counts, i + 1) == if counts(i).Ok? then counts(i).value else Observed(counts, i)
    ensures WindowStart(counts, t, i + 1)
            == if Observed(counts, i + 1) != Observed(counts, i) then Arrival(t, POLL_SLEEP, i)
               else WindowStart(counts, t, i)
    ensures WindowStart(counts, t, i + 1) <= Arrival(t, POLL_SLEEP, i)
  {
    WindowStartBound(counts, t, i + 1);
  }

  lemma AfterPoll(counts: Stream<nat>, t: Timing, min: nat, rounds: nat, i: nat)
    requires i < rounds && StillPolling(counts, t, min, i)
    ensures var count := Observed(counts, i + 1);
            if Reached(counts, min, i) || (TimedOut(counts, t, i) && count > 0)
            then Outcome(counts, t, min, rounds, Some(Ok(count)), i + 1)
            else if TimedOut(counts, t, i)
            then Outcome(counts, t, min, rounds, Some(Err(FromKind(Rpc(ForUser(SignatureNotFound))))), i + 1)
            else StillPolling(counts, t, min, i + 1)
  {
  }

  // At most `rounds` polls of the loop; None if it is then still polling.
  method PollForSignatureConfirmation(counts: Stream<nat>, t: Timing, min: nat, rounds: nat)
    returns (r: Option<Result<nat, Error>>, polls: nat)
    ensures Outcome(counts, t, min, rounds, r, polls)
  {
    var clock: nat, now: nat, confirmedBlocks: nat := 0, 0, 0;
    polls := 0;
    while polls < rounds
      invariant 0 <= polls <= rounds && StillPolling(counts, t, min, polls)
      invariant confirmedBlocks == Observed(counts, polls) && now == WindowStart(counts, t, polls)
      invariant clock + t.request(polls) == Arrival(t, POLL_SLEEP, polls)
    {
      AfterAnswer(counts, t, polls);
      AfterPoll(counts, t, min, rounds, polls);
      clock := clock + t.request(polls);
      match counts(polls) {
        case Ok(count) =>
          if confirmedBlocks != count {
            now := clock;
            confirmedBlocks := count;
          }
          if count >= min {
            return Some(Ok(confirmedBlocks)), polls + 1;
          }
        case Err(_) =>
      }
      clock := clock + t.pause(polls);
      WholeSeconds(clock - now, 20);
      if (clock - now) / SECOND > 20 {
        if confirmedBlocks > 0 {
          return Some(Ok(confirmedBlocks)), polls + 1;
        } else {
          return Some(Err(FromKind(Rpc(ForUser(SignatureNotFound))))), polls + 1;
        }
      }
      clock := clock + POLL_SLEEP + t.oversleep(polls);
      polls := polls + 1;
    }
    r := None;
  }

  // -------------------------------------------------------- what it certifies

  // The last change among the first n answers; j is 0 if there is none.
  lemma {:induction false} LastChange(counts: Stream<nat>, t: Timing, n: nat) returns (j: nat)
    ensures j <= n && Changes(counts, j) == Changes(counts, n)
    ensures forall c :: j <= c < n ==> !Changed(counts, c)
    ensures forall i :: j <= i < n && counts(i).Ok? ==> counts(i).value == Observed(counts, n)
    ensures j == 0 ==> WindowStart(counts, t, n) == 0 && Observed(counts, n) == 0
    ensures j > 0 ==> Changed(counts, j - 1) && counts(j - 1) == Ok(Observed(counts, n))
    ensures j > 0 ==> WindowStart(counts, t, n) == Arrival(t, POLL_SLEEP, j - 1)
  {
    if n == 0 {
      j := 0;
    } else if Changed(counts, n - 1) {
      j := n;
    } else {
      j := LastChange(counts, t, n - 1);
    }
  }

  // The count stands from the j-th answer on until 21 seconds have gone by.
  ghost predicate Stood(counts: Stream<nat>, t: Timing, count: nat, j: nat, polls: nat) {
    && j < polls && counts(j) == Ok(count)
    && (forall i :: j <= i < polls && counts(i).Ok? ==> counts(i).value == count)
    && Since(t, 250_000_000, j, polls - 1) >= 21_000_000_000
  }

  lemma {:induction false} QuietWindow(counts: Stream<nat>, t: Timing, j: nat, i: nat)
    requires j <= i && forall c :: j < c <= i ==> !Changed(counts, c)
    ensures WindowStart(counts, t, i + 1) <= Arrival(t, POLL_SLEEP, j)
  {
    if i == j {
      WindowStartBound(counts, t, j + 1);
    } else {
      QuietWindow(counts, t, j, i - 1);
    }
  }

  ghost predicate HasStood(counts: Stream<nat>, t: Timing, count: nat, polls: nat) {
    exists j :: Stood(counts, t, count, j, polls)
  }

  // No count but zero was answered, for 21 seconds from the start.
  ghost predicate NothingSeen(counts: Stream<nat>, t: Timing, polls: nat) {
    && (forall i :: 0 <= i < polls && counts(i).Ok? ==> counts(i).value == 0)
    && polls > 0 && Elapsed(t, 250_000_000, polls - 1) >= 21_000_000_000
  }

  lemma {:induction false} StandingIsObserved(counts: Stream<nat>, count: nat, j: nat, n: nat)
    requires j < n && counts(j) == Ok(count)
    requires forall i :: j <= i < n && counts(i).Ok? ==> counts(i).value == count
    ensures Observed(counts, n) == count
  {
    if j + 1 < n {
      StandingIsObserved(counts, count, j, n - 1);
    }
  }

  lemma StoodTimesOut(counts: Stream<nat>, t: Timing, count: nat, j: nat, last: nat)
    requires Stood(counts, t, count, j, last + 1)
    ensures TimedOut(counts, t, last)
  {
    forall c | j < c <= last ensures !Changed(counts, c) {
      StandingIsObserved(counts, count, j, c);
      StandingIsObserved(counts, count, j, c + 1);
    }
    QuietWindow(counts, t, j, last);
    ClockReadsSince(t, POLL_SLEEP, j, last);
  }

  lemma {:induction false} NoWindow(counts: Stream<nat>, t: Timing, n: nat)
    requires forall i :: 0 <= i < n && counts(i).Ok? ==> counts(i).value == 0
    ensures Observed(counts, n) == 0 && WindowStart(counts, t, n) == 0
  {
    if n > 0 {
      NoWindow(counts, t, n - 1);
    }
  }

  lemma GivingUp(counts: Stream<nat>, t: Timing, last: nat) returns (j: nat)
    requires TimedOut(counts, t, last)
    ensures Stood(counts, t, Observed(counts, last + 1), j, last + 1) || NothingSeen(counts, t, last + 1)
  {
    j := LastChange(counts, t, last + 1);
    if j > 0 {
      j := j - 1;
      ClockReadsSince(t, POLL_SLEEP, j, last);
    } else {
      ClockReads(t, POLL_SLEEP, last);
    }
  }

  lemma NothingSeenTimesOut(counts: Stream<nat>, t: Timing, last: nat)
    requires NothingSeen(counts, t, last + 1)
    ensures TimedOut(counts, t, last)
  {
    NoWindow(counts, t, last + 1);
    ClockReads(t, POLL_SLEEP, last);
  }

  // Exactly when the call gives up: one count stood for 21 seconds of requests,
  // pauses and sleeps, or nothing was seen since the start.
  lemma GivesUpExactly(counts: Stream<nat>, t: Timing, last: nat)
    ensures TimedOut(counts, t, last)
            <==> HasStood(counts, t, Observed(counts, last + 1), last + 1) || NothingSeen(counts, t, last + 1)
  {
    var count, polls := Observed(counts, last + 1), last + 1;
    if TimedOut(counts, t, last) {
      var j := GivingUp(counts, t, last);
      assert Stood(counts, t, count, j, polls) || NothingSeen(counts, t, polls);
    } else if HasStood(counts, t, count, polls) {
      var j :| Stood(counts, t, count, j, polls);
      StoodTimesOut(counts, t, count, j, last);
    } else if NothingSeen(counts, t, polls) {
      NothingSeenTimesOut(counts, t, last);
    }
  }

  // What a returned count certifies: it was the last one answered, and either
  // it is enough or it stood unchanged for at least 21 seconds.
  lemma OkMeans(counts: Stream<nat>, t: Timing, min: nat, count: nat, polls: nat)
    requires Returned(counts, t, min, Ok(count), polls)
    ensures || (count >= min && counts(polls - 1) == Ok(count))
            || (count > 0 && HasStood(counts, t, count, polls))
  {
    if !Reached(counts, min, polls - 1) {
      var j := GivingUp(counts, t, polls - 1);
      if NothingSeen(counts, t, polls) {
        NoWindow(counts, t, polls);
      }
    }
  }

  // A count that is enough can only come from the last answer: an earlier one
  // would have ended the call.
  lemma EnoughIsReached(counts: Stream<nat>, t: Timing, min: nat, count: nat, polls: nat)
    requires Returned(counts, t, min, Ok(count), polls) && count >= min
    ensures Reached(counts, min, polls - 1) && counts(polls - 1) == Ok(count)
  {
    var j := LastChange(counts, t, polls);
    assert 0 < j < polls ==> !Stops(counts, t, min, j - 1);
  }

  // Over a node, exactly when a poll reaches the target: its reply lists the
  // signature with enough confirmations, or as rooted if the target is at most 32.
  lemma ReachedExactly(readers: Readers, node: Node, min: nat, i: nat)
    ensures Reached(Counts(readers, node), min, i) <==> exists n: nat :: n >= min && ReportsCount(readers, node(i), n)
  {
    var count := BlocksSinceConfirmation(readers, node(i));
    assert Counts(readers, node)(i) == count;
    forall n: nat ensures count == Ok(n) <==> ReportsCount(readers, node(i), n) {
      CountReadExactly(readers, node(i), n);
    }
    if count.Ok? {
      assert ReportsCount(readers, node(i), count.value);
    }
  }

  // A sufficient count is one that the node's last reply reported, and the first
  // such reply ends the call.
  lemma EnoughWasReported(readers: Readers, node: Node, t: Timing, min: nat, count: nat, polls: nat)
    requires Returned(Counts(readers, node), t, min, Ok(count), polls) && count >= min
    ensures ReportsCount(readers, node(polls - 1), count)
    ensures forall i, n: nat :: 0 <= i < polls - 1 && n >= min ==> !ReportsCount(readers, node(i), n)
  {
    var counts := Counts(readers, node);
    EnoughIsReached(counts, t, min, count, polls);
    assert counts(polls - 1) == BlocksSinceConfirmation(readers, node(polls - 1));
    CountReadExactly(readers, node(polls - 1), count);
    forall i, n: nat | 0 <= i < polls - 1 && n >= min ensures !ReportsCount(readers, node(i), n) {
      assert !Stops(counts, t, min, i);
      ReachedExactly(readers, node, min, i);
    }
  }

  // A node that lists the signature with enough confirmations ends the call at once.
  lemma EnoughEndsAtOnce(readers: Readers, node: Node, t: Timing, min: nat, count: nat)
    requires ReportsCount(readers, node(0), count) && count >= min
    ensures Returned(Counts(readers, node), t, min, Ok(count), 1)
  {
    CountReadExactly(readers, node(0), count);
    assert Counts(readers, node)(0) == BlocksSinceConfirmation(readers, node(0));
  }

  // In particular a rooted transaction, for every target up to 32.
  lemma RootedEndsAtOnce(readers: Readers, node: Node, t: Timing, min: nat, list: Statuses)
    requires Reports(readers, readers.statuses, node(0), list)
    requires list.first.Some? && list.first.value.confirmations.None? && min <= 32
    ensures Returned(Counts(readers, node), t, min, Ok(32), 1)
  {
    assert ReportsCount(readers, node(0), 32);
    EnoughEndsAtOnce(readers, node, t, min, 32);
  }

  // What the error certifies: the last count answered, if any, was zero, and it
  // was so for 21 seconds, counted from the start if no other count was answered.
  lemma ErrMeans(counts: Stream<nat>, t: Timing, min: nat, e: Error, polls: nat)
    requires Returned(counts, t, min, Err(e), polls)
    ensures HasStood(counts, t, 0, polls) || NothingSeen(counts, t, polls)
  {
    var j := GivingUp(counts, t, polls - 1);
  }

  // An answer without a count is ignored: the observed count is the one before.
  lemma FailuresAreIgnored(counts: Stream<nat>, t: Timing, i: nat, k: nat)
    requires i <= k && forall m :: i <= m < k ==> counts(m).Err?
    ensures Observed(counts, k) == Observed(counts, i) && WindowStart(counts, t, k) == WindowStart(counts, t, i)
  {
    if i < k {
      FailuresAreIgnored(counts, t, i, k - 1);
    }
  }

  // The run determines result and number of polls.
  lemma ReturnIsUnique(counts: Stream<nat>, t: Timing, min: nat, r: Result<nat, Error>, polls: nat,
                       r': Result<nat, Error>, polls': nat)
    requires Returned(counts, t, min, r, polls) && Returned(counts, t, min, r', polls')
    ensures r == r' && polls == polls'
  {
  }

  // ------------------------------------------------------------- termination

  // The count has not changed in the last 84 answers up to the i-th.
  ghost predicate Quiet(counts: Stream<nat>, i: nat) {
    i >= 84 && forall c :: i - 84 < c <= i ==> !Changed(counts, c)
  }

  ghost predicate Settled(counts: Stream<nat>, min: nat, i: nat) {
    Reached(counts, min, i) || Quiet(counts, i)
  }

  ghost predicate Unsettled(counts: Stream<nat>, min: nat, n: nat) {
    forall i :: 0 <= i < n ==> !Settled(counts, min, i)
  }

  // 84 sleeps of 250 ms fill the 21 seconds, however time passes otherwise.
  lemma SettledStops(counts: Stream<nat>, t: Timing, min: nat, i: nat)
    requires Settled(counts, min, i)
    ensures Stops(counts, t, min, i)
  {
    if Quiet(counts, i) {
      QuietWindow(counts, t, i - 84, i);
      Spacing(t, POLL_SLEEP, i - 84, i);
    }
  }

  // If no time is lost, nothing else ends the call.
  lemma InstantStopsSettled(counts: Stream<nat>, min: nat, i: nat)
    requires Stops(counts, INSTANT, min, i)
    ensures Settled(counts, min, i)
  {
    InstantArrival(POLL_SLEEP, i);
    var j := LastChange(counts, INSTANT, i + 1);
    if j > 0 {
      InstantArrival(POLL_SLEEP, j - 1);
    }
  }

  lemma StillPollingIsUnsettled(counts: Stream<nat>, t: Timing, min: nat, n: nat)
    requires StillPolling(counts, t, min, n)
    ensures Unsettled(counts, min, n)
  {
    forall i | 0 <= i < n ensures !Settled(counts, min, i) {
      if Settled(counts, min, i) {
        SettledStops(counts, t, min, i);
      }
    }
  }

  lemma UnsettledKeepsPolling(counts: Stream<nat>, min: nat, n: nat)
    requires Unsettled(counts, min, n)
    ensures StillPolling(counts, INSTANT, min, n)
  {
    forall i | 0 <= i < n ensures !Stops(counts, INSTANT, min, i) {
      if Stops(counts, INSTANT, min, i) {
        InstantStopsSettled(counts, min, i);
      }
    }
  }

  ghost predicate Returns(counts: Stream<nat>, t: Timing, min: nat) {
    exists n: nat :: ReturnsWithin(counts, t, min, n)
  }

  ghost predicate ReturnsWithin(counts: Stream<nat>, t: Timing, min: nat, n: nat) {
    exists r, polls: nat :: polls <= n && Returned(counts, t, min, r, polls)
  }

  lemma {:induction false} FirstStop(counts: Stream<nat>, t: Timing, min: nat, i: nat)
    requires Stops(counts, t, min, i)
    ensures ReturnsWithin(counts, t, min, i + 1)
  {
    if StillPolling(counts, t, min, i) {
      AfterPoll(counts, t, min, i + 1, i);
    } else {
      var k :| 0 <= k < i && Stops(counts, t, min, k);
      FirstStop(counts, t, min, k);
    }
  }

  // If no time is lost, the call returns at the first settled answer.
  lemma InstantReturns(counts: Stream<nat>, min: nat, i: nat)
    requires Unsettled(counts, min, i) && Settled(counts, min, i)
    ensures var r := if Reached(counts, min, i) || Observed(counts, i + 1) > 0 then Ok(Observed(counts, i + 1))
                     else Err(FromKind(Rpc(ForUser(SignatureNotFound))));
            Returned(counts, INSTANT, min, r, i + 1)
  {
    SettledStops(counts, INSTANT, min, i);
    UnsettledKeepsPolling(counts, min, i);
  }

  // Exactly how many polls the call needs in the worst case: it returns within n
  // polls however time passes if and only if one of the first n answers settles it.
  lemma PollsExactly(counts: Stream<nat>, min: nat, n: nat)
    ensures (forall t: Timing :: ReturnsWithin(counts, t, min, n)) <==> !Unsettled(counts, min, n)
  {
    if !Unsettled(counts, min, n) {
      var i :| 0 <= i < n && Settled(counts, min, i);
      forall t: Timing ensures ReturnsWithin(counts, t, min, n) {
        SettledStops(counts, t, min, i);
        FirstStop(counts, t, min, i);
      }
    }
    if forall t: Timing :: ReturnsWithin(counts, t, min, n) {
      assert ReturnsWithin(counts, INSTANT, min, n);
      var r, polls: nat :| polls <= n && Returned(counts, INSTANT, min, r, polls);
      InstantStopsSettled(counts, min, polls - 1);
    }
  }

  // Exactly when the call returns however time passes: some answer reaches the
  // target, or the count stays the same over 84 further answers.
  lemma ReturnsExactly(counts: Stream<nat>, min: nat)
    ensures (forall t: Timing :: Returns(counts, t, min)) <==> exists i: nat :: Settled(counts, min, i)
  {
    if exists i: nat :: Settled(counts, min, i) {
      var i: nat :| Settled(counts, min, i);
      PollsExactly(counts, min, i + 1);
      forall t: Timing ensures Returns(counts, t, min) {
        assert ReturnsWithin(counts, t, min, i + 1);
      }
    }
    if forall t: Timing :: Returns(counts, t, min) {
      assert Returns(counts, INSTANT, min);
      var n: nat :| ReturnsWithin(counts, INSTANT, min, n);
      var r, polls: nat :| polls <= n && Returned(counts, INSTANT, min, r, polls);
      InstantStopsSettled(counts, min, polls - 1);
    }
  }

  // Each change of the count buys at most 84 unsettled answers.
  lemma {:induction false} UnsettledBoundedByChanges(counts: Stream<nat>, min: nat, n: nat)
    requires Unsettled(counts, min, n)
    ensures n <= 84 * (Changes(counts, n) + 1)
  {
    var j := LastChange(counts, INSTANT, n);
    if j > 0 {
      UnsettledBoundedByChanges(counts, min, j - 1);
    }
    if n > 84 && n - 1 >= 84 + (if j > 0 then j - 1 else 0) {
      assert Quiet(counts, n - 1);
      assert Settled(counts, min, n - 1);
    }
  }

  // So, on every run, terminating or not, n unfinished polls need n/84 - 1 changes.
  lemma PollsBoundedByChanges(counts: Stream<nat>, t: Timing, min: nat, n: nat)
    requires StillPolling(counts, t, min, n)
    ensures n <= 84 * (Changes(counts, n) + 1)
  {
    StillPollingIsUnsettled(counts, t, min, n);
    UnsettledBoundedByChanges(counts, min, n);
  }

  // A run that never returns has unboundedly many changes.
  lemma EndlessChanges(counts: Stream<nat>, t: Timing, min: nat, c: nat)
    requires forall n: nat :: StillPolling(counts, t, min, n)
    ensures exists n: nat :: Changes(counts, n) > c
  {
    var n := 84 * (c + 1) + 1;
    assert StillPolling(counts, t, min, n);
    PollsBoundedByChanges(counts, t, min, n);
    assert Changes(counts, n) > c;
  }

  // The counts among the first n answers never decrease.
  ghost predicate NonDecreasing(counts: Stream<nat>, n: nat) {
    forall i: nat, k: nat :: i <= k < n && counts(i).Ok? && counts(k).Ok? ==> counts(i).value <= counts(k).value
  }

  // Counts that never decrease change less than `min` times below `min`.
  lemma {:induction false} ChangesBelow(counts: Stream<nat>, min: nat, n: nat)
    requires NonDecreasing(counts, n) && Unsettled(counts, min, n)
    ensures Changes(counts, n) <= Observed(counts, n) < if min == 0 then 1 else min
  {
    if n > 0 {
      ChangesBelow(counts, min, n - 1);
      assert !Settled(counts, min, n - 1);
      var j := LastChange(counts, INSTANT, n - 1);
    }
  }

  // So they settle within 84 * min answers.
  lemma NonDecreasingSettles(counts: Stream<nat>, min: nat, n: nat)
    requires NonDecreasing(counts, n) && Unsettled(counts, min, n)
    ensures n <= 84 * (if min == 0 then 1 else min)
  {
    UnsettledBoundedByChanges(counts, min, n);
    ChangesBelow(counts, min, n);
  }

  // Hence a call that sees no count decrease returns, after at most 84 * min + 1 polls.
  lemma Terminates(counts: Stream<nat>, t: Timing, min: nat, rounds: nat, r: Option<Result<nat, Error>>, polls: nat)
    requires Outcome(counts, t, min, rounds, r, polls)
    requires NonDecreasing(counts, polls) && rounds > 84 * (if min == 0 then 1 else min)
    ensures r.Some? && polls <= 84 * (if min == 0 then 1 else min) + 1
  {
    var n := if r.None? then polls else polls - 1;
    StillPollingIsUnsettled(counts, t, min, n);
    NonDecreasingSettles(counts, min, n);
  }

  // ------------------------------------------------------- the bound is exact

  // A node whose count, read from replies(0), replies(1), ..., rises just before
  // each window closes.
  function Slow(replies: nat -> HostReply): Node {
    (i: nat) => replies(i / 84)
  }

  // The count in each of those replies is its number, up to the target.
  ghost predicate CountUp(readers: Readers, replies: nat -> HostReply, min: nat) {
    forall k: nat :: k <= min ==> ReportsCount(readers, replies(k), k)
  }

  lemma SlowReply(readers: Readers, replies: nat -> HostReply, i: nat, k: nat)
    requires k == i / 84
    ensures Counts(readers, Slow(replies))(i) == BlocksSinceConfirmation(readers, replies(k))
  {
    assert Slow(replies)(i) == replies(k);
  }

  lemma SlowCount(readers: Readers, replies: nat -> HostReply, min: nat, i: nat)
    requires CountUp(readers, replies, min) && i / 84 <= min
    ensures Counts(readers, Slow(replies))(i) == Ok(i / 84)
  {
    SlowReply(readers, replies, i, i / 84);
    CountReadExactly(readers, replies(i / 84), i / 84);
  }

  lemma SlowAnswer(readers: Readers, replies: nat -> HostReply, min: nat, i: nat)
    requires CountUp(readers, replies, min) && i / 84 <= min
    ensures Counts(readers, Slow(replies))(i) == Ok(i / 84)
    ensures Observed(Counts(readers, Slow(replies)), i + 1) == i / 84
  {
    SlowCount(readers, replies, min, i);
    AfterAnswer(Counts(readers, Slow(replies)), INSTANT, i);
  }

  lemma SlowIsNonDecreasing(readers: Readers, replies: nat -> HostReply, min: nat)
    requires CountUp(readers, replies, min)
    ensures NonDecreasing(Counts(readers, Slow(replies)), 84 * min + 1)
  {
    forall i: nat | i <= 84 * min ensures Counts(readers, Slow(replies))(i) == Ok(i / 84) {
      SlowCount(readers, replies, min, i);
    }
  }

  lemma SlowChanges(readers: Readers, replies: nat -> HostReply, min: nat, c: nat)
    requires CountUp(readers, replies, min) && 0 < c && c / 84 <= min && (c - 1) / 84 < c / 84
    ensures Changed(Counts(readers, Slow(replies)), c)
  {
    SlowAnswer(readers, replies, min, c - 1);
    SlowAnswer(readers, replies, min, c);
  }

  // One of 84 numbers in a row is the first with its quotient.
  lemma Step84(i: nat) returns (c: nat)
    requires i >= 84
    ensures i - 84 < c <= i && c / 84 == i / 84 && (c - 1) / 84 < c / 84
  {
    c := i - i % 84;
  }

  // So one of 84 answers in a row brings a change, and no count is enough before the end.
  lemma SlowIsUnsettled(readers: Readers, replies: nat -> HostReply, min: nat, n: nat)
    requires CountUp(readers, replies, min) && forall i :: 0 <= i < n ==> i / 84 < min
    ensures Unsettled(Counts(readers, Slow(replies)), min, n)
  {
    var counts := Counts(readers, Slow(replies));
    forall i | 0 <= i < n ensures !Settled(counts, min, i) {
      SlowAnswer(readers, replies, min, i);
      if i >= 84 {
        var c := Step84(i);
        SlowChanges(readers, replies, min, c);
      }
    }
  }

  lemma SlowReturns(readers: Readers, replies: nat -> HostReply, min: nat, last: nat)
    requires CountUp(readers, replies, min) && last / 84 == min && forall i :: 0 <= i < last ==> i / 84 < min
    ensures Returned(Counts(readers, Slow(replies)), INSTANT, min, Ok(min), last + 1)
  {
    SlowIsUnsettled(readers, replies, min, last);
    SlowAnswer(readers, replies, min, last);
    InstantReturns(Counts(readers, Slow(replies)), min, last);
  }

  // Whatever the readers and the form of the replies.
  lemma BoundIsReached(readers: Readers, replies: nat -> HostReply, min: nat)
    requires min >= 1 && CountUp(readers, replies, min)
    ensures NonDecreasing(Counts(readers, Slow(replies)), 84 * min + 1)
    ensures Returned(Counts(readers, Slow(replies)), INSTANT, min, Ok(min), 84 * min + 1)
  {
    SlowIsNonDecreasing(readers, replies, min);
    SlowReturns(readers, replies, min, 84 * min);
  }

  lemma DeadNodeFails(readers: Readers, i: nat)
    ensures Counts(readers, DEAD)(i).Err?
  {
    NoAnswerFails(readers, readers.statuses, GetSignatureStatuses);
    assert Counts(readers, DEAD)(i) == BlocksSinceConfirmation(readers, DEAD(i));
  }

  lemma {:induction false} NoneObserved(readers: Readers, n: nat)
    ensures Observed(Counts(readers, DEAD), n) == 0
  {
    if n > 0 {
      NoneObserved(readers, n - 1);
      DeadNodeFails(readers, n - 1);
    }
  }

  // For targets 0 and 1 a dead node uses up the bound as well.
  lemma DeadReturns(readers: Readers, min: nat)
    ensures Returned(Counts(readers, DEAD), INSTANT, min, Err(FromKind(Rpc(ForUser(SignatureNotFound)))), 85)
  {
    var counts := Counts(readers, DEAD);
    forall i: nat ensures counts(i).Err? && Observed(counts, i) == 0 {
      DeadNodeFails(readers, i);
      NoneObserved(readers, i);
    }
    InstantReturns(counts, min, 84);
  }

  // ------------------------------------------- without the hypothesis: no end

  // A node that alternates between two replies.
  function Flipping(one: HostReply, other: HostReply): Node {
    (i: nat) => if i % 2 == 0 then one else other
  }

  // If they report different counts below the target, whatever the readers, the
  // call polls forever: the condition for returning is not met.
  lemma FlippingNeverReturns(readers: Readers, one: HostReply, other: HostReply, a: nat, b: nat, min: nat, n: nat)
    requires ReportsCount(readers, one, a) && ReportsCount(readers, other, b)
    requires a != b && a < min && b < min
    ensures StillPolling(Counts(readers, Flipping(one, other)), INSTANT, min, n)
    ensures !forall t: Timing :: Returns(Counts(readers, Flipping(one, other)), t, min)
  {
    var counts := Counts(readers, Flipping(one, other));
    CountReadExactly(readers, one, a);
    CountReadExactly(readers, other, b);
    forall i: nat ensures counts(i) == Ok(if i % 2 == 0 then a else b) {
      assert counts(i) == BlocksSinceConfirmation(readers, Flipping(one, other)(i));
    }
    forall i: nat ensures !Settled(counts, min, i) {
      if i > 0 {
        assert counts(i - 1) != counts(i);
        assert Changed(counts, i);
      }
    }
    UnsettledKeepsPolling(counts, min, n);
    ReturnsExactly(counts, min);
  }
}

/**
 `wait_for_max_stake_below_threshold_with_timeout_helper`: ask for the vote
 accounts until the largest stake is below a percentage of the total. Percentages
 are exact here; the u64 sum wraps as it does in a release build.
 */
module Stake {
  import opened Wrappers
  import opened Errors
  import opened Radix
  import opened Rpc

  const TWO_TO_64: nat := 0x1_0000_0000_0000_0000

  // ---------------------------------------------------------------- one round

  function Sum(stakes: seq<nat>): nat {
    if |stakes| == 0 then 0 else Sum(stakes[..|stakes| - 1]) + stakes[|stakes| - 1]
  }

  function Max(stakes: seq<nat>): nat {
    if |stakes| == 0 then 0
    else
      var front, last := Max(stakes[..|stakes| - 1]), stakes[|stakes| - 1];
      if front < last then last else front
  }

  // Both kinds of accounts, in the order they are visited.
  function Stakes(accounts: VoteAccounts): seq<nat> {
    accounts.current + accounts.delinquent
  }

  // 0/0 is not a number, and no number is above it.
  predicate Below(max: nat, total: nat, threshold: real) {
    total > 0 && 100.0 * max as real / total as real < threshold
  }

  predicate RoundBelow(accounts: VoteAccounts, threshold: real) {
    Below(Max(Stakes(accounts)), Sum(Stakes(accounts)) % TWO_TO_64, threshold)
  }

  method FoldStakes(accounts: VoteAccounts) returns (max: nat, total: nat)
    ensures max == Max(Stakes(accounts)) && total == Sum(Stakes(accounts)) % TWO_TO_64
  {
    var stakes := Stakes(accounts);
    max, total := 0, 0;
    for i := 0 to |stakes|
      invariant max == Max(stakes[..i]) && total == Sum(stakes[..i]) % TWO_TO_64
    {
      assert stakes[..i + 1][..i] == stakes[..i];
      WrapStep(Sum(stakes[..i]), stakes[i]);
      max := if max < stakes[i] then stakes[i] else max;
      total := (total + stakes[i]) % TWO_TO_64;
    }
    assert stakes[..|stakes|] == stakes;
  }

  lemma WrapStep(sum: nat, x: nat)
    ensures (sum % TWO_TO_64 + x) % TWO_TO_64 == (sum + x) % TWO_TO_64
  {
  }

  // The maximum is one of the stakes and bounds them all.
  lemma {:induction false} MaxIsMaximum(stakes: seq<nat>)
    ensures forall i :: 0 <= i < |stakes| ==> stakes[i] <= Max(stakes)
    ensures |stakes| > 0 ==> exists i :: 0 <= i < |stakes| && stakes[i] == Max(stakes)
  {
    if |stakes| > 0 {
      var front := stakes[..|stakes| - 1];
      MaxIsMaximum(front);
      if |front| > 0 && Max(stakes) == Max(front) {
        var i :| 0 <= i < |front| && front[i] == Max(front);
        assert stakes[i] == Max(stakes);
      } else {
        assert stakes[|stakes| - 1] == Max(stakes);
      }
    }
  }

  lemma TimesSuccessor(k: nat, m: nat)
    ensures (k + 1) * m == k * m + m
  {
  }

  // One more stake, at most m like the others, raises the sum by at most m.
  lemma SumStep(sum: nat, last: nat, k: nat, m: nat, m': nat)
    requires sum <= k * m && m <= m' && last <= m'
    ensures sum + last <= (k + 1) * m'
  {
    MulMonotone(k, k, m, m');
    TimesSuccessor(k, m');
  }

  // The average is never above the maximum, and the maximum never above the sum.
  lemma {:induction false} FoldBounds(stakes: seq<nat>)
    ensures Max(stakes) <= Sum(stakes) <= |stakes| * Max(stakes)
  {
    if |stakes| > 0 {
      var front, last := stakes[..|stakes| - 1], stakes[|stakes| - 1];
      FoldBounds(front);
      SumStep(Sum(front), last, |front|, Max(front), Max(stakes));
    }
  }

  // ----------------------------------- order and grouping do not matter

  lemma {:induction false} SumWithout(stakes: seq<nat>, i: nat)
    requires i < |stakes|
    ensures Sum(stakes) == Sum(stakes[..i] + stakes[i + 1..]) + stakes[i]
  {
    var n := |stakes| - 1;
    if i == n {
      assert stakes[..i] + stakes[i + 1..] == stakes[..n];
    } else {
      var front := stakes[..n];
      var rest := stakes[..i] + stakes[i + 1..];
      SumWithout(front, i);
      assert rest[..n - 1] == front[..i] + front[i + 1..];
      assert rest[n - 1] == stakes[n];
    }
  }

  lemma {:induction false} SumIgnoresOrder(a: seq<nat>, b: seq<nat>)
    requires multiset(a) == multiset(b)
    ensures Sum(a) == Sum(b)
  {
    if |a| == 0 {
      assert |multiset(b)| == 0;
    } else {
      var n := |a| - 1;
      assert a[n] in multiset(b);
      var i :| 0 <= i < |b| && b[i] == a[n];
      SumWithout(b, i);
      assert a == a[..n] + [a[n]];
      assert b == b[..i] + [b[i]] + b[i + 1..];
      assert multiset(a[..n]) == multiset(a) - multiset{a[n]};
      assert multiset(b[..i] + b[i + 1..]) == multiset(b) - multiset{b[i]};
      SumIgnoresOrder(a[..n], b[..i] + b[i + 1..]);
    }
  }

  lemma MaxOfContained(a: seq<nat>, b: seq<nat>)
    requires forall x :: x in a ==> x in b
    ensures Max(a) <= Max(b)
  {
    MaxIsMaximum(a);
    MaxIsMaximum(b);
    if |a| > 0 {
      var i :| 0 <= i < |a| && a[i] == Max(a);
      assert a[i] in b;
    }
  }

  lemma MaxIgnoresOrder(a: seq<nat>, b: seq<nat>)
    requires multiset(a) == multiset(b)
    ensures Max(a) == Max(b)
  {
    assert forall x :: x in a <==> x in multiset(a);
    assert forall x :: x in b <==> x in multiset(b);
    MaxOfContained(a, b);
    MaxOfContained(b, a);
  }

  // A round depends on the stakes only: not on their order, nor on which
  // accounts are current and which are delinquent.
  lemma RoundIgnoresGrouping(x: VoteAccounts, y: VoteAccounts, threshold: real)
    requires multiset(Stakes(x)) == multiset(Stakes(y))
    ensures RoundBelow(x, threshold) == RoundBelow(y, threshold)
  {
    SumIgnoresOrder(Stakes(x), Stakes(y));
    MaxIgnoresOrder(Stakes(x), Stakes(y));
  }

  // ------------------------------------------------- which thresholds can hold

  lemma QuotientBelow(x: real, y: real, t: real)
    requires y > 0.0
    ensures x / y < t <==> x < t * y
  {
    assert x / y * y == x;
    if x / y < t {
      assert x / y * y < t * y;
    }
    if x / y >= t {
      assert x / y * y >= t * y;
    }
  }

  lemma ProductAtLeast(a: real, b: real, t: real)
    requires a <= b && t >= 0.0
    ensures t * a <= t * b
  {
  }

  lemma PositiveFactor(t: real, w: real)
    requires t * w > 0.0 && w > 0.0
    ensures t > 0.0
  {
  }

  // If s is at most k times m, then at most 100/k percent of s is at most m.
  lemma ShareBound(m: real, s: real, k: real, t: real)
    requires m >= 0.0 && s > 0.0 && k > 0.0 && s <= k * m && t <= 100.0 / k
    ensures t * s <= 100.0 * m
  {
    if t > 0.0 {
      ProductAtLeast(s, k * m, t);
      ProductAtLeast(t, 100.0 / k, k);
      assert k * (100.0 / k) == 100.0;
      ProductAtLeast(k * t, 100.0, m);
      assert t * (k * m) == m * (k * t);
    } else {
      ProductAtLeast(0.0, -t, s);
    }
  }

  // A maximum that is at least the average is at least 100/n percent of the total.
  lemma AverageShare(max: nat, total: nat, n: nat, threshold: real)
    requires n > 0 && total <= n * max && threshold <= 100.0 / n as real
    ensures !Below(max, total, threshold)
  {
    if total > 0 {
      var m, s, k := max as real, total as real, n as real;
      assert s <= k * m by { assert (n * max) as real == k * m; }
      ShareBound(m, s, k, threshold);
      QuotientBelow(100.0 * m, s, threshold);
    }
  }

  // The wrapped sum can only make the share look larger.
  lemma WrapIsConservative(max: nat, total: nat, threshold: real)
    requires Below(max, total % TWO_TO_64, threshold)
    ensures Below(max, total, threshold)
  {
    var m, w, s := max as real, (total % TWO_TO_64) as real, total as real;
    assert w <= s;
    QuotientBelow(100.0 * m, w, threshold);
    QuotientBelow(100.0 * m, s, threshold);
    PositiveFactor(threshold, w);
    ProductAtLeast(w, s, threshold);
  }

  // Stakes that cannot be below the threshold: none at all, or too few accounts.
  ghost predicate Hopeless(accounts: VoteAccounts, threshold: real) {
    var n := |Stakes(accounts)|;
    Sum(Stakes(accounts)) == 0 || (n > 0 && threshold <= 100.0 / n as real)
  }

  // No distribution of stakes over n accounts is below 100/n percent or less,
  // not even when the sum overflows, and a total of zero is below nothing.
  lemma NeverBelowAverage(accounts: VoteAccounts, threshold: real)
    requires Hopeless(accounts, threshold)
    ensures !RoundBelow(accounts, threshold)
  {
    var stakes := Stakes(accounts);
    FoldBounds(stakes);
    if RoundBelow(accounts, threshold) {
      WrapIsConservative(Max(stakes), Sum(stakes), threshold);
      if Sum(stakes) > 0 {
        AverageShare(Max(stakes), Sum(stakes), |stakes|, threshold);
      }
    }
  }

  function Ones(n: nat): (s: seq<nat>)
    ensures |s| == n && forall i :: 0 <= i < n ==> s[i] == 1
  {
    seq(n, _ => 1)
  }

  lemma {:induction false} FoldOnes(n: nat)
    ensures Sum(Ones(n)) == n && (n > 0 ==> Max(Ones(n)) == 1)
  {
    if n > 0 {
      FoldOnes(n - 1);
      assert Ones(n)[..n - 1] == Ones(n - 1);
    }
  }

  lemma EqualSplitIsBelow(n: nat, threshold: real)
    requires 0 < n < TWO_TO_64 && threshold > 100.0 / n as real
    ensures RoundBelow(VoteAccounts(Ones(n), []), threshold)
  {
    assert Stakes(VoteAccounts(Ones(n), [])) == Ones(n);
    FoldOnes(n);
  }

  // A hundred times every account's stake is below the bound.
  ghost predicate SharesBelow(stakes: seq<nat>, bound: real) {
    forall i :: 0 <= i < |stakes| ==> 100.0 * stakes[i] as real < bound
  }

  lemma MaxBelow(stakes: seq<nat>, bound: real)
    requires |stakes| > 0
    ensures 100.0 * Max(stakes) as real < bound <==> SharesBelow(stakes, bound)
  {
    MaxIsMaximum(stakes);
    var i :| 0 <= i < |stakes| && stakes[i] == Max(stakes);
  }

  // A hundred times what an account may have at most.
  function Bound(threshold: real, total: nat): real {
    threshold * total as real
  }

  lemma BelowProduct(max: nat, total: nat, threshold: real)
    ensures Below(max, total, threshold) <==> total > 0 && 100.0 * max as real < Bound(threshold, total)
  {
    if total > 0 {
      QuotientBelow(100.0 * max as real, total as real, threshold);
    }
  }

  lemma BelowShares(stakes: seq<nat>, threshold: real)
    ensures Below(Max(stakes), Sum(stakes), threshold)
            <==> Sum(stakes) > 0 && SharesBelow(stakes, Bound(threshold, Sum(stakes)))
  {
    BelowProduct(Max(stakes), Sum(stakes), threshold);
    if Sum(stakes) > 0 {
      MaxBelow(stakes, Bound(threshold, Sum(stakes)));
    }
  }

  lemma FittingSum(accounts: VoteAccounts, threshold: real)
    requires Sum(accounts.current + accounts.delinquent) < TWO_TO_64
    ensures var stakes := accounts.current + accounts.delinquent;
            RoundBelow(accounts, threshold) == Below(Max(stakes), Sum(stakes), threshold)
  {
  }

  // A round whose sum fits 64 bits is below exactly if there is stake and every
  // account's share of it, current or delinquent, is below the threshold.
  lemma BelowMeansEveryShare(accounts: VoteAccounts, threshold: real)
    requires Sum(accounts.current + accounts.delinquent) < TWO_TO_64
    ensures var stakes := accounts.current + accounts.delinquent;
            RoundBelow(accounts, threshold) <==> Sum(stakes) > 0 && SharesBelow(stakes, Bound(threshold, Sum(stakes)))
  {
    FittingSum(accounts, threshold);
    BelowShares(accounts.current + accounts.delinquent, threshold);
  }

  // A threshold can be met by n accounts exactly when it exceeds 100/n percent.
  lemma ThresholdIsReachable(n: nat, threshold: real)
    requires 0 < n < TWO_TO_64
    ensures (exists accounts :: |Stakes(accounts)| == n && RoundBelow(accounts, threshold))
            <==> threshold > 100.0 / n as real
  {
    if threshold > 100.0 / n as real {
      EqualSplitIsBelow(n, threshold);
      assert |Stakes(VoteAccounts(Ones(n), []))| == n;
    }
    forall accounts | |Stakes(accounts)| == n && threshold <= 100.0 / n as real
      ensures !RoundBelow(accounts, threshold)
    {
      NeverBelowAverage(accounts, threshold);
    }
  }

  lemma StrictlyIncreasing(q: real, w: real, s: real)
    requires q > 0.0 && w < s
    ensures q * w < q * s
  {
  }

  lemma PositiveQuotient(m: real, w: real)
    requires m > 0.0 && w > 0.0
    ensures m / w > 0.0
  {
    assert m / w * w == m;
    PositiveFactor(m / w, w);
  }

  lemma LargerDivisor(m: real, w: real, s: real)
    requires m > 0.0 && 0.0 < w < s
    ensures m < m / w * s
  {
    assert m / w * w == m;
    PositiveQuotient(m, w);
    StrictlyIncreasing(m / w, w, s);
  }

  // Against a wrapped sum w below the true sum s there is a threshold that only
  // the true share is below.
  lemma WrapTellsApart(max: nat, w: nat, s: nat) returns (threshold: real)
    requires 0 < max && w < s
    ensures Below(max, s, threshold) && !Below(max, w, threshold)
  {
    var m := 100.0 * max as real;
    if w == 0 {
      threshold := m / s as real + 1.0;
    } else {
      threshold := m / w as real;
      QuotientBelow(m, s as real, threshold);
      LargerDivisor(m, w as real, s as real);
    }
  }

  lemma PositiveMax(stakes: seq<nat>)
    requires Sum(stakes) > 0
    ensures Max(stakes) > 0
  {
    FoldBounds(stakes);
  }

  lemma OverflowMisjudges(accounts: VoteAccounts) returns (threshold: real)
    requires Sum(Stakes(accounts)) >= TWO_TO_64
    ensures Below(Max(Stakes(accounts)), Sum(Stakes(accounts)), threshold)
    ensures !RoundBelow(accounts, threshold)
  {
    var stakes := Stakes(accounts);
    PositiveMax(stakes);
    threshold := WrapTellsApart(Max(stakes), Sum(stakes) % TWO_TO_64, Sum(stakes));
  }

  // Exactly when a round judges the true sum, whatever the threshold: the sum
  // fits 64 bits.
  lemma TrueSumIsJudgedExactly(accounts: VoteAccounts)
    ensures var stakes := Stakes(accounts);
            (forall threshold :: RoundBelow(accounts, threshold) == Below(Max(stakes), Sum(stakes), threshold))
            <==> Sum(stakes) < TWO_TO_64
  {
    if Sum(Stakes(accounts)) >= TWO_TO_64 {
      var threshold := OverflowMisjudges(accounts);
      assert !RoundBelow(accounts, threshold);
    }
  }

  // For example, an even split of 2^64 sums to zero and is not below 60 percent.
  lemma OverflowHidesBalance()
    ensures var x: nat := 0x8000_0000_0000_0000;
            Below(Max([x, x]), Sum([x, x]), 60.0) && !RoundBelow(VoteAccounts([x], [x]), 60.0)
  {
    var x: nat := 0x8000_0000_0000_0000;
    assert [x, x][..1] == [x] && [x][..0] == [] && [x] + [x] == [x, x];
    assert Sum([x]) == x && Max([x]) == x;
    assert Sum([x, x]) == TWO_TO_64 && Max([x, x]) == x;
    QuotientBelow(100.0 * x as real, TWO_TO_64 as real, 60.0);
  }

  // ----------------------------------------------------------------- the loop

  const ROUND_SLEEP: nat := 5_000_000_000

  function TimedOutError(): Error {
    FromKind(Custom("timed out waiting for max stake to drop"))
  }

  predicate TimedOut(t: Timing, timeout: Option<nat>, i: nat) {
    timeout.Some? && CheckAt(t, ROUND_SLEEP, i) > timeout.value
  }

  // What round i makes the call return, if anything.
  function RoundVerdict(votes: Stream<VoteAccounts>, t: Timing, threshold: real, timeout: Option<nat>, i: nat)
    : Option<Result<(), Error>>
  {
    match votes(i)
    case Err(e) => Some(Err(e))
    case Ok(accounts) =>
      if RoundBelow(accounts, threshold) then Some(Ok(()))
      else if TimedOut(t, timeout, i) then Some(Err(TimedOutError()))
      else None
  }

  ghost predicate Undecided(votes: Stream<VoteAccounts>, t: Timing, threshold: real, timeout: Option<nat>, n: nat) {
    forall i :: 0 <= i < n ==> RoundVerdict(votes, t, threshold, timeout, i).None?
  }

  // The call has returned r after that many rounds.
  ghost predicate Waited(votes: Stream<VoteAccounts>, t: Timing, threshold: real, timeout: Option<nat>,
                         r: Result<(), Error>, made: nat) {
    && 0 < made && Undecided(votes, t, threshold, timeout, made - 1)
    && RoundVerdict(votes, t, threshold, timeout, made - 1) == Some(r)
  }

  method IsBelow(accounts: VoteAccounts, threshold: real) returns (below: bool)
    ensures below == RoundBelow(accounts, threshold)
  {
    var max, total := FoldStakes(accounts);
    below := Below(max, total, threshold);
  }

  lemma AfterRound(votes: Stream<VoteAccounts>, t: Timing, threshold: real, timeout: Option<nat>, i: nat)
    requires Undecided(votes, t, threshold, timeout, i)
    ensures match votes(i)
            case Err(e) => Waited(votes, t, threshold, timeout, Err(e), i + 1)
            case Ok(accounts) =>
              if RoundBelow(accounts, threshold) then Waited(votes, t, threshold, timeout, Ok(()), i + 1)
              else if TimedOut(t, timeout, i) then Waited(votes, t, threshold, timeout, Err(TimedOutError()), i + 1)
              else Undecided(votes, t, threshold, timeout, i + 1)
  {
  }

  // At most `rounds` rounds of the loop; None if it is then still waiting.
  method WaitForMaxStake(votes: Stream<VoteAccounts>, t: Timing, threshold: real, timeout: Option<nat>, rounds: nat)
    returns (r: Option<Result<(), Error>>, made: nat)
    ensures r.None? ==> made == rounds && Undecided(votes, t, threshold, timeout, made)
    ensures r.Some? ==> made <= rounds && Waited(votes, t, threshold, timeout, r.value, made)
  {
    var clock: nat := 0;
    made := 0;
    while made < rounds
      invariant made <= rounds && Undecided(votes, t, threshold, timeout, made)
      invariant clock + t.request(made) == Arrival(t, ROUND_SLEEP, made)
    {
      AfterRound(votes, t, threshold, timeout, made);
      clock := clock + t.request(made);
      match votes(made) {
        case Err(e) => return Some(Err(e)), made + 1;
        case Ok(accounts) =>
          var below := IsBelow(accounts, threshold);
          if below {
            return Some(Ok(())), made + 1;
          }
      }
      clock := clock + t.pause(made);
      if timeout.Some? && clock > timeout.value {
        return Some(Err(TimedOutError())), made + 1;
      }
      clock := clock + ROUND_SLEEP + t.oversleep(made);
      made := made + 1;
    }
    r := None;
  }

  // With a timeout the call returns within timeout / 5 s + 2 rounds.
  lemma RoundsBounded(votes: Stream<VoteAccounts>, t: Timing, threshold: real, timeout: nat, n: nat)
    requires Undecided(votes, t, threshold, Some(timeout), n)
    ensures n <= timeout / 5_000_000_000 + 1
  {
    if n > 0 {
      assert RoundVerdict(votes, t, threshold, Some(timeout), n - 1).None?;
      Spacing(t, ROUND_SLEEP, 0, n - 1);
    }
  }

  // Hopeless stakes make it use that many rounds, if no time is lost.
  lemma RoundBoundIsReached(votes: Stream<VoteAccounts>, threshold: real, timeout: nat)
    requires forall i: nat :: i <= timeout / 5_000_000_000 + 1 ==> votes(i).Ok? && Hopeless(votes(i).value, threshold)
    ensures Waited(votes, INSTANT, threshold, Some(timeout), Err(TimedOutError()), timeout / 5_000_000_000 + 2)
  {
    var last := timeout / ROUND_SLEEP + 1;
    forall i | 0 <= i <= last
      ensures RoundVerdict(votes, INSTANT, threshold, Some(timeout), i)
              == if i < last then None else Some(Err(TimedOutError()))
    {
      NeverBelowAverage(votes(i).value, threshold);
      InstantArrival(ROUND_SLEEP, i);
    }
  }

  // A run that is shown only hopeless stakes does not succeed, however long it
  // takes: it ends with the error of a request or with the timeout.
  lemma NeverSucceeds(votes: Stream<VoteAccounts>, t: Timing, threshold: real, timeout: Option<nat>,
                      r: Result<(), Error>, made: nat)
    requires Waited(votes, t, threshold, timeout, r, made)
    requires forall i :: 0 <= i < made && votes(i).Ok? ==> Hopeless(votes(i).value, threshold)
    ensures r.Err?
    ensures if votes(made - 1).Err? then r.error == votes(made - 1).error
            else && timeout.Some? && Elapsed(t, 5_000_000_000, made - 1) > timeout.value
                 && r.error == Error(None, Custom("timed out waiting for max stake to drop"))
  {
    ClockReads(t, ROUND_SLEEP, made - 1);
    if votes(made - 1).Ok? {
      NeverBelowAverage(votes(made - 1).value, threshold);
    }
  }

  // Without a timeout and without failing requests it goes on forever.
  lemma HopelessForever(votes: Stream<VoteAccounts>, t: Timing, threshold: real, n: nat)
    requires forall i :: 0 <= i < n ==> votes(i).Ok? && Hopeless(votes(i).value, threshold)
    ensures Undecided(votes, t, threshold, None, n)
  {
    forall i | 0 <= i < n ensures RoundVerdict(votes, t, threshold, None, i).None? {
      NeverBelowAverage(votes(i).value, threshold);
    }
  }

  // Over a node: success means that its last reply reported stakes that are below.
  lemma BelowWasReported(readers: Readers, node: Node, t: Timing, threshold: real, timeout: Option<nat>, made: nat)
    returns (accounts: VoteAccounts)
    requires Waited(VoteAccountReplies(readers, node), t, threshold, timeout, Ok(()), made)
    ensures Reports(readers, readers.votes, node(made - 1), accounts)
    ensures RoundBelow(accounts, threshold) && !Hopeless(accounts, threshold)
  {
    var sent := Send(readers, readers.votes, GetVoteAccounts, node(made - 1));
    assert VoteAccountReplies(readers, node)(made - 1) == sent;
    accounts := sent.value;
    SendSucceedsExactly(readers, readers.votes, GetVoteAccounts, node(made - 1), accounts);
    if Hopeless(accounts, threshold) {
      NeverBelowAverage(accounts, threshold);
    }
  }

  // An error is that of the last request, which names it, or the timeout; it
  // never carries a transaction error.
  lemma WaitErrors(readers: Readers, node: Node, t: Timing, threshold: real, timeout: Option<nat>, e: Error, made: nat)
    requires Waited(VoteAccountReplies(readers, node), t, threshold, timeout, Err(e), made)
    ensures e.GetTransactionError() == None
    ensures || e.request == Some(GetVoteAccounts)
            || (&& e == Error(None, Custom("timed out waiting for max stake to drop"))
                && timeout.Some? && Elapsed(t, 5_000_000_000, made - 1) > timeout.value)
  {
    ClockReads(t, ROUND_SLEEP, made - 1);
    var sent := Send(readers, readers.votes, GetVoteAccounts, node(made - 1));
    assert VoteAccountReplies(readers, node)(made - 1) == sent;
    if sent.Err? {
      SendErrorsCarryNoTransactionError(readers, readers.votes, GetVoteAccounts, node(made - 1));
    }
  }
}

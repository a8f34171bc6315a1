/**
 * The usage log of the on-demand service and the adaptive idle timeout
 * derived from it (`calculate_adaptive_timeout`). Timestamps are whole
 * seconds.
 */
module Usage {

  /** usage_window: 24 hours. */
  const UsageWindow: int := 24 * 60 * 60
  /** MIN_TIMEOUT_MINUTES */
  const MinTimeoutMinutes: int := 5
  /** MAX_TIMEOUT_MINUTES */
  const MaxTimeoutMinutes: int := 20

  /** The log entries still inside the window at `now` (`now - ts < window`),
      kept in their order. */
  function Prune(log: seq<int>, now: int): seq<int>
  {
    if log == [] then []
    else (if now - log[0] < UsageWindow then [log[0]] else []) + Prune(log[1..], now)
  }

  /** The three-bucket step function on the number of uses in the window. */
  function TimeoutBucket(count: nat, defaultMinutes: int): int
  {
    if count < 5 then MinTimeoutMinutes
    else if count > 20 then MaxTimeoutMinutes
    else defaultMinutes
  }

  /** Pruning keeps exactly the timestamps younger than the window. */
  lemma {:induction false} PruneMembers(log: seq<int>, now: int)
    ensures forall x :: x in Prune(log, now) <==> x in log && now - x < UsageWindow
    ensures |Prune(log, now)| <= |log|
  {
    if log != [] {
      PruneMembers(log[1..], now);
      assert log == [log[0]] + log[1..];
    }
  }

  /** Pruning works piece by piece, so the survivors keep their order. */
  lemma {:induction false} PruneAppend(a: seq<int>, b: seq<int>, now: int)
    ensures Prune(a + b, now) == Prune(a, now) + Prune(b, now)
  {
    if a != [] {
      assert (a + b)[1..] == a[1..] + b;
      PruneAppend(a[1..], b, now);
    } else {
      assert a + b == b;
    }
  }

  /** A second pruning at the same time removes nothing more, so
      `calculate_adaptive_timeout` called twice at the same `now` leaves the
      same log and returns the same bucket. */
  lemma {:induction false} PruneIdempotent(log: seq<int>, now: int)
    ensures Prune(Prune(log, now), now) == Prune(log, now)
  {
    if log != [] {
      PruneIdempotent(log[1..], now);
      var head := if now - log[0] < UsageWindow then [log[0]] else [];
      PruneAppend(head, Prune(log[1..], now), now);
    }
  }

  /** The window only slides forward: pruning at a later time after pruning
      at an earlier one is the same as pruning at the later time. */
  lemma {:induction false} PruneLater(log: seq<int>, earlier: int, later: int)
    requires earlier <= later
    ensures Prune(Prune(log, earlier), later) == Prune(log, later)
  {
    if log != [] {
      PruneLater(log[1..], earlier, later);
      var head := if earlier - log[0] < UsageWindow then [log[0]] else [];
      PruneAppend(head, Prune(log[1..], earlier), later);
    }
  }

  /** Adaptive bucketing: 3 uses give the minimum, 10 the default,
      25 the maximum; and with a default between the two bounds more use
      never gives a shorter timeout. */
  lemma BucketsAreMonotone(defaultMinutes: int, c1: nat, c2: nat)
    requires MinTimeoutMinutes <= defaultMinutes <= MaxTimeoutMinutes
    requires c1 <= c2
    ensures TimeoutBucket(c1, defaultMinutes) <= TimeoutBucket(c2, defaultMinutes)
    ensures TimeoutBucket(3, defaultMinutes) == MinTimeoutMinutes
    ensures TimeoutBucket(10, defaultMinutes) == defaultMinutes
    ensures TimeoutBucket(25, defaultMinutes) == MaxTimeoutMinutes
  {
  }
}

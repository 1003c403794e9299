/**
 Properties of the selection functions of src/lib.rs, stated against the
 ascending list of free registered ports (`FreeRegisteredPorts`).
 */
module DynaportProperties {
  import opened Wrappers
  import opened Ports
  import opened Dynaport

  // ---------------------------------------------------------------------------
  // Single-port queries against the reference list
  // ---------------------------------------------------------------------------

  /** `lowest_registered_port` answers the head of the free list. */
  lemma LowestIsFirstFree(avail: Snapshot)
    ensures var free := FreeRegisteredPorts(avail);
            LowestRegisteredPort(avail) == if |free| == 0 then None else Some(free[0])
  {
    var free := FreeRegisteredPorts(avail);
    var r := LowestRegisteredPort(avail);
    if r.Some? {
      assert r.value in free;
    }
  }

  /** `highest_registered_port` answers the last element of the free list. */
  lemma HighestIsLastFree(avail: Snapshot)
    ensures var free := FreeRegisteredPorts(avail);
            HighestRegisteredPort(avail) == if |free| == 0 then None else Some(free[|free| - 1])
  {
    var free := FreeRegisteredPorts(avail);
    var r := HighestRegisteredPort(avail);
    if r.Some? {
      assert r.value in free;
      var k :| 0 <= k < |free| && free[k] == r.value;
      var last := free[|free| - 1];
      assert IsRegistered(last) && avail(last);
      assert r.value <= last;
    }
  }

  /**
   Whatever the shuffle, `random_registered_port` picks a free registered port,
   and it finds none exactly when the deterministic queries find none.
   */
  lemma RandomPicksFromFree(avail: Snapshot, shuffled: seq<int>)
    requires IsRegisteredShuffle(shuffled)
    ensures RandomRegisteredPort(avail, shuffled).Some? ==>
              RandomRegisteredPort(avail, shuffled).value in FreeRegisteredPorts(avail)
    ensures RandomRegisteredPort(avail, shuffled).None? <==> |FreeRegisteredPorts(avail)| == 0
    ensures RandomRegisteredPort(avail, shuffled).None? <==> LowestRegisteredPort(avail).None?
    ensures RandomRegisteredPort(avail, shuffled).None? <==> HighestRegisteredPort(avail).None?
  {
    var free := FreeRegisteredPorts(avail);
    if |free| > 0 {
      assert IsRegistered(free[0]) && avail(free[0]);
    }
  }

  /** The scan of the ascending range by position is the scan of the ports from `LowestRegistered + from` upwards. */
  lemma {:induction false} AscendingScanIsLowestScan(avail: Snapshot, from: nat)
    requires from <= RegisteredCount
    decreases RegisteredCount - from
    ensures var r := FirstAvailableFrom(avail, RegisteredAscending(), from);
            LowestFrom(avail, LowestRegistered + from) == if r.None? then None else Some(RegisteredAscending()[r.value])
  {
    if from < RegisteredCount {
      assert RegisteredAscending()[from] == LowestRegistered + from;
      AscendingScanIsLowestScan(avail, from + 1);
    }
  }

  /** The identity shuffle is a shuffle, and with it the random choice is the lowest free port. */
  lemma AscendingShuffleIsLowest(avail: Snapshot)
    ensures IsRegisteredShuffle(RegisteredAscending())
    ensures RandomRegisteredPort(avail, RegisteredAscending()) == LowestRegisteredPort(avail)
  {
    AscendingScanIsLowestScan(avail, 0);
  }

  // ---------------------------------------------------------------------------
  // lowest_n_registered_ports
  // ---------------------------------------------------------------------------

  /** A request for no ports succeeds with no ports whatever the snapshot: the check precedes every probe. */
  lemma LowestNZero(avail: Snapshot)
    ensures LowestNRegisteredPorts(avail, 0) == Ok([])
  {
  }

  /**
   A successful answer holds `n` free registered ports in ascending order, and
   they are the lowest: every free registered port left out lies above all of
   them. The last registered port is never part of a successful answer.
   */
  lemma {:induction false} LowestNOkIsLowestFree(avail: Snapshot, n: nat)
    ensures var r := LowestNRegisteredPorts(avail, n);
            r.Ok? ==>
              && |r.value| == n
              && StrictlyAscending(r.value)
              && (forall i :: 0 <= i < |r.value| ==> IsRegistered(r.value[i]) && avail(r.value[i]))
              && (forall q, i :: IsRegistered(q) && avail(q) && q !in r.value && 0 <= i < |r.value| ==> r.value[i] < q)
              && LastRegistered !in r.value
  {
    LowestPrefixOfFreeList(avail, FreeRegisteredPorts(avail), n, LowestNRegisteredPorts(avail, n));
  }

  /**
   An answer that, when `Ok`, is the first `n` elements of the free list and
   stops short of the last registered port.
   */
  lemma LowestPrefixOfFreeList(avail: Snapshot, free: seq<int>, n: nat, r: Result<seq<int>, DynaportError>)
    requires StrictlyAscending(free)
    requires forall i :: 0 <= i < |free| ==> IsRegistered(free[i]) && avail(free[i])
    requires forall q {:trigger q in free} :: IsRegistered(q) && avail(q) ==> q in free
    requires r.Ok? ==> n <= |free| && (n == 0 || free[n - 1] != LastRegistered) && r.value == free[..n]
    ensures r.Ok? ==>
              && |r.value| == n
              && StrictlyAscending(r.value)
              && (forall i :: 0 <= i < |r.value| ==> IsRegistered(r.value[i]) && avail(r.value[i]))
              && (forall q, i :: IsRegistered(q) && avail(q) && q !in r.value && 0 <= i < |r.value| ==> r.value[i] < q)
              && LastRegistered !in r.value
  {
    if r.Ok? {
      var v := r.value;
      forall q, i | IsRegistered(q) && avail(q) && q !in v && 0 <= i < |v|
        ensures v[i] < q
      {
        assert q in free;
        var k :| 0 <= k < |free| && free[k] == q;
        assert v[i] == free[i];
      }
    }
  }

  /** The first port of a successful non-empty answer is what `lowest_registered_port` answers. */
  lemma LowestNStartsAtLowest(avail: Snapshot, n: nat)
    ensures var r := LowestNRegisteredPorts(avail, n);
            n >= 1 && r.Ok? ==> LowestRegisteredPort(avail) == Some(r.value[0])
  {
    LowestIsFirstFree(avail);
  }

  /**
   A failure reports the request and the number of free registered ports, and
   that number never exceeds the request.
   */
  lemma LowestNErrReportsFreeCount(avail: Snapshot, n: nat)
    requires LowestNRegisteredPorts(avail, n).Err?
    ensures var e := LowestNRegisteredPorts(avail, n).error;
            && n >= 1
            && e.wanted == n
            && e.got == |FreeSet(avail, LowestRegistered, LastRegistered + 1)|
            && e.got <= n
  {
    var free := FreeRegisteredPorts(avail);
    assert LowestNRegisteredPorts(avail, n).error == NotEnoughPorts(n, |free|);
    assert n != 0 && !NthFreeBelowLast(free, n);
    AvailableCountsFreePorts(avail, LowestRegistered, LastRegistered + 1);
    if 1 <= n <= |free| {
      LastRegisteredEndsList(free, n);
    }
  }

  /**
   The boundary of the source's loop: when the `n`-th free port is the last
   registered port, the quota is met by the final probe but never checked, and
   the answer is an error reporting as many ports as were wanted.
   */
  lemma LowestNLastPortIsError(avail: Snapshot, n: nat)
    requires var free := FreeRegisteredPorts(avail);
             1 <= n <= |free| && free[n - 1] == LastRegistered
    ensures LowestNRegisteredPorts(avail, n) == Err(NotEnoughPorts(n, n))
  {
    var free := FreeRegisteredPorts(avail);
    LastRegisteredEndsList(free, n);
  }

  /** A request larger than the registered range always fails. */
  lemma LowestNMoreThanRange(avail: Snapshot, n: nat)
    requires n > RegisteredCount
    ensures LowestNRegisteredPorts(avail, n).Err?
  {
  }

  // ---------------------------------------------------------------------------
  // The scenarios of the source's tests, on snapshots instead of live listeners
  // ---------------------------------------------------------------------------

  lemma {:induction false} AllFreePrefix(avail: Snapshot)
    requires forall p :: avail(p)
    ensures |FreeRegisteredPorts(avail)| >= 3
    ensures FreeRegisteredPorts(avail)[..3] == [1024, 1025, 1026]
  {
    var hi := LastRegistered + 1;
    assert Available(avail, 1024, hi) == [1024] + Available(avail, 1025, hi);
    assert Available(avail, 1025, hi) == [1025] + Available(avail, 1026, hi);
    assert Available(avail, 1026, hi) == [1026] + Available(avail, 1027, hi);
  }

  /** Nothing occupied: lowest is 1024, highest is 49151, and the three lowest are 1024, 1025, 1026. */
  lemma AllFreeAnswers()
    ensures LowestRegisteredPort(p => true) == Some(1024)
    ensures HighestRegisteredPort(p => true) == Some(49151)
    ensures LowestNRegisteredPorts(p => true, 3) == Ok([1024, 1025, 1026])
  {
    var avail: Snapshot := p => true;
    assert avail(1024) && avail(49151);
    AllFreePrefix(avail);
  }

  /**
   One step of the lowest-port test: the ports from 1024 up to `1024 + k` are
   held by the test's listeners and `1024 + k` itself is free, so the lowest
   query answers `1024 + k`. The test takes the steps k = 0, 1, 2.
   */
  lemma LowestAfterHoldingFirst(avail: Snapshot, k: nat)
    requires k < RegisteredCount
    requires forall p :: LowestRegistered <= p < LowestRegistered + k ==> !avail(p)
    requires avail(LowestRegistered + k)
    ensures LowestRegisteredPort(avail) == Some(LowestRegistered + k)
  {
    var r := LowestRegisteredPort(avail);
    assert IsRegistered(LowestRegistered + k);
    assert r.Some?;
    assert r.value > LowestRegistered + k ==> !avail(LowestRegistered + k);
    assert r.value == LowestRegistered + k;
  }

  /**
   One step of the highest-port test: the ports above `49151 - k` are held and
   `49151 - k` itself is free, so the highest query answers `49151 - k`. The
   test takes the steps k = 0, 1, 2.
   */
  lemma HighestAfterHoldingLast(avail: Snapshot, k: nat)
    requires k < RegisteredCount
    requires forall p :: LastRegistered - k < p <= LastRegistered ==> !avail(p)
    requires avail(LastRegistered - k)
    ensures HighestRegisteredPort(avail) == Some(LastRegistered - k)
  {
    var r := HighestRegisteredPort(avail);
    assert IsRegistered(LastRegistered - k);
    assert r.Some?;
    assert r.value < LastRegistered - k ==> !avail(LastRegistered - k);
    assert r.value == LastRegistered - k;
  }
}

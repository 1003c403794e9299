/**
 The `lowest_n_registered_ports` boundary, as a finding.

 The loop of src/lib.rs checks whether enough ports are collected at the top
 of each iteration, before probing. The probe of the last registered port can
 complete the request, but no iteration follows to see it, so the function
 reports `NotEnoughPorts { wanted: n, got: n }`. The documented intent, an error only
 when too few ports are free, is met by checking the count once more after
 the loop; `LowestNIntendedFrom` is that loop.
 */
module LowestNFinding {
  import opened Wrappers
  import opened Ports
  import opened Dynaport

  /** What the corrected scan answers, given the free ports `remaining` from `port` on. */
  ghost predicate IntendedOutcome(n: nat, found: seq<int>, remaining: seq<int>, r: Result<seq<int>, DynaportError>)
    requires |found| <= n
  {
    && (r.Ok? <==> n - |found| <= |remaining|)
    && (r.Ok? ==> r.value == found + remaining[..n - |found|])
    && (r.Err? ==> r.error == NotEnoughPorts(n, |found| + |remaining|))
  }

  /** The corrected loop: the count is checked before the loop looks at the end of the range. */
  function LowestNIntendedFrom(avail: Snapshot, n: nat, port: int, found: seq<int>): (r: Result<seq<int>, DynaportError>)
    requires LowestRegistered <= port <= LastRegistered + 1
    requires |found| <= n
    decreases LastRegistered + 1 - port
    ensures IntendedOutcome(n, found, Available(avail, port, LastRegistered + 1), r)
  {
    if |found| == n then
      Ok(found)
    else if port > LastRegistered then
      Err(NotEnoughPorts(n, |found|))
    else
      var found' := if avail(port) then found + [port] else found;
      var r := LowestNIntendedFrom(avail, n, port + 1, found');
      IntendedStep(n, port, avail(port), found, Available(avail, port + 1, LastRegistered + 1), r);
      r
  }

  lemma IntendedStep(n: nat, port: int, free: bool, found: seq<int>, rest: seq<int>, r: Result<seq<int>, DynaportError>)
    requires |found| < n
    requires IntendedOutcome(n, if free then found + [port] else found, rest, r)
    ensures IntendedOutcome(n, found, (if free then [port] else []) + rest, r)
  {
  }

  lemma IntendedStart(n: nat, free: seq<int>, r: Result<seq<int>, DynaportError>)
    requires IntendedOutcome(n, [], free, r)
    ensures r.Ok? <==> n <= |free|
    ensures r.Ok? ==> n <= |free| && r.value == free[..n]
    ensures r.Err? ==> r.error == NotEnoughPorts(n, |free|)
  {
  }

  /** The corrected `lowest_n_registered_ports`: it fails exactly when fewer than `n` registered ports are free. */
  function LowestNRegisteredPortsIntended(avail: Snapshot, n: nat): (r: Result<seq<int>, DynaportError>)
    ensures r.Ok? <==> n <= |FreeRegisteredPorts(avail)|
    ensures r.Ok? ==> r.value == FreeRegisteredPorts(avail)[..n]
    ensures r.Err? ==> r.error == NotEnoughPorts(n, |FreeRegisteredPorts(avail)|) && |FreeRegisteredPorts(avail)| < n
  {
    var r := LowestNIntendedFrom(avail, n, LowestRegistered, []);
    IntendedStart(n, FreeRegisteredPorts(avail), r);
    r
  }

  /**
   The code as written and the corrected code disagree exactly when the `n`-th
   free registered port is the last registered port.
   */
  lemma AsWrittenDiffersOnlyAtLastPort(avail: Snapshot, n: nat)
    ensures var free := FreeRegisteredPorts(avail);
            (LowestNRegisteredPorts(avail, n) != LowestNRegisteredPortsIntended(avail, n)) <==>
              (1 <= n <= |free| && free[n - 1] == LastRegistered)
  {
  }

  /**
   Where they disagree, the code as written fails claiming `n` of `n` ports,
   while the corrected code returns exactly those `n` ports.
   */
  lemma AsWrittenFailsWhereIntendedSucceeds(avail: Snapshot, n: nat)
    ensures var free := FreeRegisteredPorts(avail);
            1 <= n <= |free| && free[n - 1] == LastRegistered ==>
              && LowestNRegisteredPorts(avail, n) == Err(NotEnoughPorts(n, n))
              && LowestNRegisteredPortsIntended(avail, n) == Ok(free)
  {
    var free := FreeRegisteredPorts(avail);
    if 1 <= n <= |free| && free[n - 1] == LastRegistered {
      LastRegisteredEndsList(free, n);
      assert !NthFreeBelowLast(free, n);
      assert LowestNRegisteredPorts(avail, n).Err?;
      assert LowestNRegisteredPortsIntended(avail, n).Ok?;
      assert free[..n] == free;
    }
  }

  /**
   The input that shows it: only port 49151 free. `lowest_registered_port`
   finds it, yet asking for one port fails with "wanted 1, got 1".
   */
  lemma OnlyLastPortFree(avail: Snapshot)
    requires forall p :: avail(p) <==> p == LastRegistered
    ensures LowestRegisteredPort(avail) == Some(LastRegistered)
    ensures LowestNRegisteredPorts(avail, 1) == Err(NotEnoughPorts(1, 1))
    ensures LowestNRegisteredPortsIntended(avail, 1) == Ok([LastRegistered])
  {
    var free := FreeRegisteredPorts(avail);
    assert LastRegistered in free;
    AscendingRoom(free, 0);
    assert free == [LastRegistered];
    assert free[..1] == [LastRegistered];
  }
}

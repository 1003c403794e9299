/**
 The four port-selection functions of src/lib.rs.

 Each `for` loop of the source is a tail-recursive scan here: one call is one
 iteration, and the scan's parameters are the loop's state. The probe
 `is_available(port)` (a loopback `TcpListener::bind`) is `avail(port)` of the
 snapshot passed in; the shuffle of `random_registered_port` is the sequence
 `shuffled` passed in.
 */
module Dynaport {
  import opened Wrappers
  import opened Ports

  /** `DynaportError::NotEnoughPorts { wanted, got }` (both `usize`, never negative). */
  datatype DynaportError = NotEnoughPorts(wanted: nat, got: nat)

  // ---------------------------------------------------------------------------
  // lowest_registered_port
  // ---------------------------------------------------------------------------

  /** The loop `for port in LOWEST..=LAST`, resumed at `port`. */
  function LowestFrom(avail: Snapshot, port: int): (r: Option<int>)
    requires LowestRegistered <= port <= LastRegistered + 1
    decreases LastRegistered + 1 - port
    ensures r.Some? ==> port <= r.value <= LastRegistered && avail(r.value)
    ensures r.Some? ==> forall q :: port <= q < r.value ==> !avail(q)
    ensures r.None? <==> forall q :: port <= q <= LastRegistered ==> !avail(q)
  {
    if port > LastRegistered then None
    else if avail(port) then Some(port)
    else LowestFrom(avail, port + 1)
  }

  /** The lowest free registered port, or `None` when every registered port is taken. */
  function LowestRegisteredPort(avail: Snapshot): (r: Option<int>)
    ensures r.Some? ==> IsRegistered(r.value) && avail(r.value)
    ensures r.Some? ==> forall q :: LowestRegistered <= q < r.value ==> !avail(q)
    ensures r.None? <==> forall q :: IsRegistered(q) ==> !avail(q)
  {
    LowestFrom(avail, LowestRegistered)
  }

  // ---------------------------------------------------------------------------
  // highest_registered_port
  // ---------------------------------------------------------------------------

  /** The loop `for port in (LOWEST..=LAST).rev()`, resumed at `port`. */
  function HighestFrom(avail: Snapshot, port: int): (r: Option<int>)
    requires LowestRegistered - 1 <= port <= LastRegistered
    decreases port - LowestRegistered + 1
    ensures r.Some? ==> LowestRegistered <= r.value <= port && avail(r.value)
    ensures r.Some? ==> forall q :: r.value < q <= port ==> !avail(q)
    ensures r.None? <==> forall q :: LowestRegistered <= q <= port ==> !avail(q)
  {
    if port < LowestRegistered then None
    else if avail(port) then Some(port)
    else HighestFrom(avail, port - 1)
  }

  /** The highest free registered port, or `None` when every registered port is taken. */
  function HighestRegisteredPort(avail: Snapshot): (r: Option<int>)
    ensures r.Some? ==> IsRegistered(r.value) && avail(r.value)
    ensures r.Some? ==> forall q :: r.value < q <= LastRegistered ==> !avail(q)
    ensures r.None? <==> forall q :: IsRegistered(q) ==> !avail(q)
  {
    HighestFrom(avail, LastRegistered)
  }

  // ---------------------------------------------------------------------------
  // random_registered_port
  // ---------------------------------------------------------------------------

  /** `shuffled` is a permutation of the registered range, as `ports.shuffle(..)` produces. */
  predicate IsRegisteredShuffle(shuffled: seq<int>) {
    multiset(shuffled) == multiset(RegisteredAscending())
  }

  /** Position `k` holds the first port of `order` that `avail` reports free. */
  predicate IsFirstAvailable(avail: Snapshot, order: seq<int>, k: int) {
    && 0 <= k < |order|
    && avail(order[k])
    && forall j :: 0 <= j < k ==> !avail(order[j])
  }

  lemma ShuffleMembers(shuffled: seq<int>)
    requires IsRegisteredShuffle(shuffled)
    ensures forall q :: q in shuffled <==> IsRegistered(q)
  {
    forall q
      ensures q in shuffled <==> IsRegistered(q)
    {
      calc {
        q in shuffled;
        q in multiset(shuffled);
        q in multiset(RegisteredAscending());
        q in RegisteredAscending();
      }
    }
  }

  /** The loop `for port in ports`, resumed at position `from`; answers the position found. */
  function FirstAvailableFrom(avail: Snapshot, order: seq<int>, from: nat): (r: Option<nat>)
    requires from <= |order|
    decreases |order| - from
    ensures r.Some? ==> from <= r.value < |order| && avail(order[r.value])
    ensures r.Some? ==> forall j :: from <= j < r.value ==> !avail(order[j])
    ensures r.None? <==> forall j :: from <= j < |order| ==> !avail(order[j])
  {
    if from == |order| then None
    else if avail(order[from]) then Some(from)
    else FirstAvailableFrom(avail, order, from + 1)
  }

  /**
   The first free port of the shuffled range, or `None` when every registered
   port is taken. The randomness is the choice of `shuffled`.
   */
  function RandomRegisteredPort(avail: Snapshot, shuffled: seq<int>): (r: Option<int>)
    requires IsRegisteredShuffle(shuffled)
    ensures r.Some? ==> IsRegistered(r.value) && avail(r.value)
    ensures r.Some? ==> exists k :: IsFirstAvailable(avail, shuffled, k) && shuffled[k] == r.value
    ensures r.None? <==> forall q :: IsRegistered(q) ==> !avail(q)
  {
    ShuffleMembers(shuffled);
    var first := FirstAvailableFrom(avail, shuffled, 0);
    if first.None? then None
    else
      assert IsFirstAvailable(avail, shuffled, first.value);
      Some(shuffled[first.value])
  }

  // ---------------------------------------------------------------------------
  // lowest_n_registered_ports
  // ---------------------------------------------------------------------------

  /**
   The `k`-th element (counting from 1) of the ascending free list exists and is
   below the last registered port, so the loop of `lowest_n_registered_ports`
   collects it with an iteration still to come that sees the quota met.
   */
  predicate NthFreeBelowLast(free: seq<int>, k: nat) {
    0 < k <= |free| && free[k - 1] != LastRegistered
  }

  /**
   The loop of `lowest_n_registered_ports` at the top of the iteration for
   `port`, having collected `found`. The length check runs before the probe, so
   a quota met by the probe of the last port is never seen: the loop ends and
   the error is returned.
   */
  function LowestNFrom(avail: Snapshot, n: nat, port: int, found: seq<int>): (r: Result<seq<int>, DynaportError>)
    requires LowestRegistered <= port <= LastRegistered + 1
    requires |found| <= n
    decreases LastRegistered + 1 - port
    ensures LowestNOutcome(n, port, found, Available(avail, port, LastRegistered + 1), r)
  {
    if port > LastRegistered then
      Err(NotEnoughPorts(n, |found|))
    else if |found| == n then
      Ok(found)
    else
      var found' := if avail(port) then found + [port] else found;
      var r := LowestNFrom(avail, n, port + 1, found');
      LowestNStep(n, port, avail(port), found, Available(avail, port + 1, LastRegistered + 1), r);
      r
  }

  /** What the scan answers, given the free ports `remaining` from `port` on. */
  ghost predicate LowestNOutcome(n: nat, port: int, found: seq<int>, remaining: seq<int>, r: Result<seq<int>, DynaportError>)
    requires |found| <= n
  {
    && (r.Ok? <==> port <= LastRegistered && (|found| == n || NthFreeBelowLast(remaining, n - |found|)))
    && (r.Ok? ==> n - |found| <= |remaining| && r.value == found + remaining[..n - |found|])
    && (r.Err? ==> r.error == NotEnoughPorts(n, |found| + |remaining|))
  }

  /** The scan started at the first registered port with nothing found. */
  lemma LowestNStart(n: nat, free: seq<int>, r: Result<seq<int>, DynaportError>)
    requires LowestNOutcome(n, LowestRegistered, [], free, r)
    ensures r.Ok? <==> n == 0 || NthFreeBelowLast(free, n)
    ensures r.Ok? ==> n <= |free| && r.value == free[..n]
    ensures r.Err? ==> r.error == NotEnoughPorts(n, |free|)
  {
  }

  /** One iteration of the scan: when `port` is free, the probe moves it into `found`; `rest` is the free ports above it. */
  lemma LowestNStep(n: nat, port: int, free: bool, found: seq<int>, rest: seq<int>, r: Result<seq<int>, DynaportError>)
    requires port <= LastRegistered && |found| < n
    requires port == LastRegistered ==> rest == []
    requires LowestNOutcome(n, port + 1, if free then found + [port] else found, rest, r)
    ensures LowestNOutcome(n, port, found, (if free then [port] else []) + rest, r)
  {
  }

  /**
   The `n` lowest free registered ports, ascending, or `NotEnoughPorts` carrying
   `n` and the number of free registered ports. With `free` the ascending list
   of free registered ports, the answer is `Ok` exactly when `n == 0` or the
   `n`-th free port exists and is not the last registered port.
   */
  function LowestNRegisteredPorts(avail: Snapshot, n: nat): (r: Result<seq<int>, DynaportError>)
    ensures r.Ok? <==> n == 0 || NthFreeBelowLast(FreeRegisteredPorts(avail), n)
    ensures r.Ok? ==> r.value == FreeRegisteredPorts(avail)[..n]
    ensures r.Err? ==> r.error == NotEnoughPorts(n, |FreeRegisteredPorts(avail)|)
  {
    var r := LowestNFrom(avail, n, LowestRegistered, []);
    LowestNStart(n, FreeRegisteredPorts(avail), r);
    r
  }
}

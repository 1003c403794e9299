/**
 The registered port range and a reference enumeration of its free ports.

 The library probes ports by binding a loopback listener. The model replaces the
 probe with a snapshot `avail`: `avail(p)` is what the probe of `p` reports.
 Every selection rule is stated against `Available`, the ascending list of the
 ports in a range that the snapshot reports free.
 */
module Ports {

  /** First port of the registered range (src/lib.rs LOWEST_REGISTERED_PORT). */
  const LowestRegistered: int := 1024
  /** Last port of the registered range (src/lib.rs LAST_REGISTERED_PORT). */
  const LastRegistered: int := 49151
  /** Number of ports in [LowestRegistered, LastRegistered]. */
  const RegisteredCount: int := LastRegistered - LowestRegistered + 1

  /** The availability test, one answer per port, fixed for the duration of one query. */
  type Snapshot = int -> bool

  predicate IsRegistered(p: int) {
    LowestRegistered <= p <= LastRegistered
  }

  predicate StrictlyAscending(s: seq<int>) {
    forall i, j :: 0 <= i < j < |s| ==> s[i] < s[j]
  }

  /** The ports of [lo, hi) that `avail` reports free, in ascending order. */
  function Available(avail: Snapshot, lo: int, hi: int): (s: seq<int>)
    decreases hi - lo
    ensures |s| <= if lo < hi then hi - lo else 0
    ensures forall i :: 0 <= i < |s| ==> lo <= s[i] < hi && avail(s[i])
    ensures forall q {:trigger q in s} :: lo <= q < hi && avail(q) ==> q in s
    ensures StrictlyAscending(s)
  {
    if hi <= lo then []
    else (if avail(lo) then [lo] else []) + Available(avail, lo + 1, hi)
  }

  /** Every free registered port, lowest first. */
  function FreeRegisteredPorts(avail: Snapshot): (s: seq<int>)
    ensures |s| <= RegisteredCount
    ensures forall i :: 0 <= i < |s| ==> IsRegistered(s[i]) && avail(s[i])
    ensures forall q {:trigger q in s} :: IsRegistered(q) && avail(q) ==> q in s
    ensures StrictlyAscending(s)
  {
    Available(avail, LowestRegistered, LastRegistered + 1)
  }

  /** The set of ports in [lo, hi) that `avail` reports free. */
  ghost function FreeSet(avail: Snapshot, lo: int, hi: int): set<int> {
    set q | lo <= q < hi && avail(q)
  }

  lemma FreeSetUnfold(avail: Snapshot, lo: int, hi: int)
    requires lo < hi
    ensures lo !in FreeSet(avail, lo + 1, hi)
    ensures FreeSet(avail, lo, hi) == (if avail(lo) then {lo} else {}) + FreeSet(avail, lo + 1, hi)
  {
  }

  /** The enumeration lists each free port exactly once: its length is the number of free ports. */
  lemma {:induction false} AvailableCountsFreePorts(avail: Snapshot, lo: int, hi: int)
    ensures |Available(avail, lo, hi)| == |FreeSet(avail, lo, hi)|
    decreases hi - lo
  {
    if hi <= lo {
      assert FreeSet(avail, lo, hi) == {};
    } else {
      AvailableCountsFreePorts(avail, lo + 1, hi);
      FreeSetUnfold(avail, lo, hi);
    }
  }

  /** The registered range materialised in ascending order: the `Vec` that `random_registered_port` collects. */
  function RegisteredAscending(): (s: seq<int>)
    ensures |s| == RegisteredCount
    ensures StrictlyAscending(s)
    ensures forall q :: q in s <==> IsRegistered(q)
  {
    var s := seq(RegisteredCount, i => LowestRegistered + i);
    assert forall q | IsRegistered(q) :: s[q - LowestRegistered] == q;
    s
  }

  /** In an ascending list of registered ports, the last registered port can only come last. */
  lemma LastRegisteredEndsList(free: seq<int>, n: nat)
    requires StrictlyAscending(free)
    requires forall i :: 0 <= i < |free| ==> IsRegistered(free[i])
    requires 1 <= n <= |free| && free[n - 1] == LastRegistered
    ensures n == |free|
  {
    AscendingRoom(free, n - 1);
  }

  /** Above position `i` of an ascending list of registered ports there is room for all later elements. */
  lemma {:induction false} AscendingRoom(s: seq<int>, i: nat)
    requires StrictlyAscending(s)
    requires forall j :: 0 <= j < |s| ==> IsRegistered(s[j])
    requires i < |s|
    decreases |s| - i
    ensures s[i] + (|s| - 1 - i) <= LastRegistered
  {
    if i + 1 < |s| {
      AscendingRoom(s, i + 1);
      assert s[i] < s[i + 1];
    }
  }
}

# dynaport: free-port selection, modelled in Dafny

dynaport finds TCP ports on the local host that nothing is listening on. It works
within the registered range [1024, 49151], the "User Ports" of section 6 of
RFC 6335. Each port is probed by binding a loopback listener and dropping it at once.
Four public functions each apply one selection policy over the range:

- `lowest_registered_port`: the first free port, counting up.
- `highest_registered_port`: the first free port, counting down.
- `random_registered_port`: the first free port in a shuffled order.
- `lowest_n_registered_ports(n)`: the first `n` free ports counting up, or
  `NotEnoughPorts { wanted, got }`.

The model keeps the selection rules exactly and abstracts the two foreign parts:

- The probe becomes a snapshot `avail: int -> bool`. This is `Ports.Snapshot`, one answer per port.
- The shuffle becomes an input sequence `shuffled`. The only requirement is that it is a
  permutation of the range (`Dynaport.IsRegisteredShuffle`, a multiset equality).

Each `for` loop of the source is a tail-recursive function in which one call is one
iteration: `LowestFrom`, `HighestFrom`, `FirstAvailableFrom` and `LowestNFrom`.
Every result is stated against an independent reference: `Ports.Available(avail, lo, hi)`.
This is the ascending list of the free ports in `[lo, hi)`, and its contract says it is
strictly ascending and holds exactly the free ports. `FreeRegisteredPorts` is that list
for the whole registered range.

Files:

- `wrappers.dfy`: the Rust `Option` and `Result`.
- `ports.dfy`: range constants, snapshots, the reference list, and ordering facts.
- `dynaport.dfy`: the four functions of src/lib.rs and the error type.
- `properties.dfy`: lemmas relating the functions to the reference list and to
  each other, including the source's test scenarios.
- `finding.dfy`: the `lowest_n_registered_ports` boundary and a corrected variant.

The `lowest_n_registered_ports` loop checks `ports.len() == number_of_ports` at the
top of each iteration, before the probe. So when the `n`-th free port is 49151,
the quota is met by the last probe, but no further iteration checks it, and the function
answers `Err(NotEnoughPorts { wanted: n, got: n })`. The model reproduces this.
`Dynaport.LowestNRegisteredPorts` answers `Ok` exactly when `n == 0` or the `n`-th free port
exists and is below 49151.

## Model

| member | source | states |
|---|---|---|
| Ports.RegisteredAscending | src/lib.rs:27 | the collected range `LOWEST..=LAST`: 48128 ports, strictly ascending, holding exactly the registered ports |
| Ports.FreeRegisteredPorts | src/lib.rs:10-21 | the ports of [1024, 49151] the probe reports free: strictly ascending, each registered and free, every free registered port present, at most 48128 of them |
| Ports.AvailableCountsFreePorts | src/lib.rs:67-70 | the length of the free list is the number of free ports in the range (the cardinality of the set), so `got` counts ports and not probes |
| Dynaport.LowestFrom | src/lib.rs:42-46 | the ascending loop resumed at `port` answers a free port at or above `port` with none free between; `None` exactly when nothing from `port` to 49151 is free |
| Dynaport.LowestRegisteredPort | src/lib.rs:41-49 | `Some(p)` means p is registered, free, and no port in [1024, p) is free; `None` exactly when no registered port is free |
| Dynaport.HighestFrom | src/lib.rs:75-79 | the descending loop resumed at `port` answers a free port at or below `port` with none free above it; `None` exactly when nothing from 1024 to `port` is free |
| Dynaport.HighestRegisteredPort | src/lib.rs:74-82 | `Some(p)` means p is registered, free, and no port in (p, 49151] is free; `None` exactly when no registered port is free |
| Dynaport.FirstAvailableFrom | src/lib.rs:31-35 | the loop over the shuffled vector resumed at position `from` answers the first position holding a free port; `None` exactly when no later position does |
| Dynaport.RandomRegisteredPort | src/lib.rs:26-38 | for any permutation of the range: the answer is the first free port in permutation order, so it is registered and free; `None` exactly when no registered port is free |
| Dynaport.LowestNFrom | src/lib.rs:57-65 | the loop at the top of the iteration for `port`, with `found` collected: answers `found` plus the next free ports when the quota is met before the range's last probe, otherwise `NotEnoughPorts(n, found + free ports remaining)` |
| Dynaport.LowestNRegisteredPorts | src/lib.rs:54-71 | `Ok` exactly when n = 0 or the n-th free port exists and is not 49151; `Ok` holds the n lowest free ports; `Err` is `NotEnoughPorts { wanted: n, got: number of free ports }` |
| DynaportProperties.LowestIsFirstFree | src/lib.rs:41-49 | the lowest query answers the head of the free list, or `None` when the list is empty |
| DynaportProperties.HighestIsLastFree | src/lib.rs:74-82 | the highest query answers the last element of the free list, or `None` when the list is empty |
| DynaportProperties.RandomPicksFromFree | src/lib.rs:26-38 | whatever the shuffle, the random choice is a member of the free list, and it is `None` exactly when the lowest and highest queries are `None` |
| DynaportProperties.AscendingScanIsLowestScan | src/lib.rs:31-46 | scanning the unshuffled vector from position i answers the same port as the ascending loop resumed at 1024 + i |
| DynaportProperties.AscendingShuffleIsLowest | src/lib.rs:27-33 | the unshuffled vector is a permutation of the range, and scanning it gives exactly the lowest query's answer |
| DynaportProperties.LowestNZero | src/lib.rs:57-60 | asking for zero ports gives `Ok([])` for every snapshot, because the length check comes before any probe |
| DynaportProperties.LowestNOkIsLowestFree | src/lib.rs:54-65 | an `Ok` answer has length n, is strictly ascending, holds only free registered ports, and lies below every free port it leaves out; it never holds 49151 |
| DynaportProperties.LowestNStartsAtLowest | src/lib.rs:57-63 | the first port of a non-empty `Ok` answer is what the lowest query answers on the same snapshot |
| DynaportProperties.LowestNErrReportsFreeCount | src/lib.rs:67-70 | an `Err` answer has n >= 1, `wanted == n`, `got` equal to the number of free registered ports, and `got <= n` |
| DynaportProperties.LowestNLastPortIsError | src/lib.rs:57-70 | when the n-th free port is 49151, the answer is `Err(NotEnoughPorts { wanted: n, got: n })` |
| DynaportProperties.LowestNMoreThanRange | src/lib.rs:57-70 | a request for more than 48128 ports always fails |
| DynaportProperties.AllFreeAnswers | src/lib.rs:93-118 | with every port free: lowest is 1024, highest is 49151, and the three lowest are [1024, 1025, 1026] |
| DynaportProperties.LowestAfterHoldingFirst | src/lib.rs:93-102 | each step of the lowest-port test: with 1024 up to 1024 + k held and 1024 + k free, the lowest query answers 1024 + k (the test's steps are k = 0, 1, 2; the lemma holds for every k in the range) |
| DynaportProperties.HighestAfterHoldingLast | src/lib.rs:109-118 | each step of the highest-port test: with the ports above 49151 - k held and 49151 - k free, the highest query answers 49151 - k (the test's steps are k = 0, 1, 2; the lemma holds for every k in the range) |
| LowestNFinding.LowestNRegisteredPortsIntended | src/lib.rs:51-71 | the corrected loop, which also checks the count after the last probe: `Ok` exactly when at least n registered ports are free, holding the n lowest; otherwise `NotEnoughPorts` with `got < n` |
| LowestNFinding.AsWrittenDiffersOnlyAtLastPort | src/lib.rs:57-70 | the code as written and the corrected loop give different answers exactly when the n-th free port is 49151 |
| LowestNFinding.AsWrittenFailsWhereIntendedSucceeds | src/lib.rs:57-70 | at that boundary the code as written answers `NotEnoughPorts { wanted: n, got: n }` while the corrected loop returns all n free ports |
| LowestNFinding.OnlyLastPortFree | src/lib.rs:57-70 | with only 49151 free, the lowest query finds 49151, yet a request for one port fails with wanted 1, got 1 |

## Left out

- The probe itself is not modelled: `TcpListener::bind` on `127.0.0.1` (src/lib.rs:19-21, 62).
  It is operating-system I/O, so it becomes the snapshot `avail`.
- One snapshot covers a whole call. The real probes run one after another, and a port can
  change state during a scan. The model does not cover that.
- The race is not modelled: another process can bind a port between the probe and the
  caller's later bind. It concerns other processes and cannot be stated for one sequential call.
- `rand::thread_rng` and `SliceRandom::shuffle` (src/lib.rs:29) are not modelled. They are a
  foreign random source. The permutation is an input, and its uniformity is not modelled.
- The `thiserror` display message (src/lib.rs:15) is not modelled. It is formatting only.
- The tests that hold live listeners (src/lib.rs:84-119) depend on operating-system state.
  Their assertions appear as snapshot lemmas instead: `AllFreeAnswers` for the all-free start
  and `lowest_n_registered_ports(3)`, and `LowestAfterHoldingFirst` and `HighestAfterHoldingLast`
  for each step that holds one more port. The tests bind their listeners on the address text
  "127.0.1", which a resolver accepting the short dotted form reads as 127.0.0.1. The lemmas
  assume that reading and take the held ports as not free.
- The dynamic range [49152, 65535] is not modelled. The code names it in a comment (src/lib.rs:3)
  but never uses it.
- `usize` is modelled as unbounded. Ports are at most 49151, and the length of the
  collected vector never exceeds the 48128 ports of the range, so no arithmetic wraps. The
  requested count `number_of_ports` can be any `usize`; see the next two lines.
- Dynaport.LowestNRegisteredPorts: the source first calls `Vec::with_capacity(number_of_ports)`
  (src/lib.rs:55). That call panics with a capacity overflow when the request times 8 bytes exceeds
  `isize::MAX`, and it aborts when the allocation fails. The model has no allocation, so it answers
  `Err(NotEnoughPorts(n, free count))` for such an `n` where the source never returns.
- DynaportProperties.LowestNMoreThanRange: "a request above 48128 always fails" means an `Err` in
  the model. In the source, a request too large to allocate panics or aborts instead of returning.
- DynaportProperties.LowestNZero: "no port is probed when n is 0" is stated as "the answer is
  `Ok([])` whatever the snapshot says". The model does not count probes.
- Repeated calls on an unchanged snapshot give the same answer. This follows from the functions
  being pure, so no lemma states it.

## Findings

| source | as written | input that shows it | evidently intended | confidence | as-written member | corrected member |
|---|---|---|---|---|---|---|
| src/lib.rs:57-70 | the count is checked only at the top of each iteration, so a quota completed by the probe of 49151 is never seen and the loop falls through to `NotEnoughPorts { wanted: n, got: n }` | only port 49151 free, `n = 1`: `lowest_registered_port` gives `Some(49151)` but `lowest_n_registered_ports(1)` gives `Err(NotEnoughPorts { wanted: 1, got: 1 })` (LowestNFinding.OnlyLastPortFree) | return `Ok` whenever at least `n` registered ports are free, as its doc comment promises, e.g. by repeating the length check after the loop | high; not executed | Dynaport.LowestNRegisteredPorts | LowestNFinding.LowestNRegisteredPortsIntended |

The rest of the model keeps the as-written `Dynaport.LowestNRegisteredPorts`, because
reproducing the library's observable behaviour is the point of the model.
`LowestNFinding.AsWrittenDiffersOnlyAtLastPort` shows that the two versions agree on every
other input.

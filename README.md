# go-writemux in Dafny

A model of `WriteMux`, the write multiplexer of cognusion/go-writemux, and proofs about it.

`WriteMux` is a registry that maps opaque string handles to destinations (Go `io.WriteCloser`s).
- `Add` registers a destination under a fresh handle.
- `Remove` unregisters a handle. An absent handle is a no-op.
- `Write` hands the same bytes to every member. What it does depends on an error policy fixed at construction:
  - `NewWriteMux` makes a multiplexer that ignores member errors.
  - `NewWriteMuxWithErrors` makes one that surfaces them. Under that policy an empty registry is an error (`ErrorNoWriters`), and the first failing member stops the traversal.
- `Close` closes every member, discarding what each close reports, empties the registry and returns nil.

The model has three modules:

- `Handles` (handles.dfy): a handle is built from a counter value. `Handle` encodes the value in decimal, and the encoding can be decoded again. Distinct counter values give distinct handles, so every handle issued is fresh.
- `Fanout` (fanout.dfy): what one write promises, stated on values. It covers:
  - the error policy (`Ignore` or `Propagate`) and the behaviour of a destination (`Accept`, `Partial(limit)` or `Fail(cause)`);
  - the errors of the multiplexer (`NoWriters`, and `MemberFailed(index, cause)` for a member failure);
  - the result of a write (`Outcome`) and how many members it reaches (`Reached`);
  - what a destination is handed (`Fed`).

  Go leaves map iteration order unspecified, so the traversal order is an input (`Enumerates(order, keys)`: every key exactly once). The lemmas hold for every such order.
- `Mux` (writemux.dfy): the imperative model.
  - Class `Sink` is an abstract destination: the bytes it holds, whether it is closed, and a fixed behaviour.
  - Class `WriteMux` has:
    - the `writers` map, reassigned by `Add`, `Remove` and `Close`;
    - the handle counter `next`;
    - a ghost set of every handle issued so far;
    - the policy, as a `const`.
  - `Write` walks the traversal order in a loop (`Deliver`, one `Visit` per handle) with an early return on a surfaced failure. It is proved against `Outcome`, `Reached` and `Fed`.
  - `Close` drains the map in a loop, closing and deleting one member at a time.
  - Two client methods replay the package's tests (writemux_test.go:39-60 and writemux_test.go:64-86). A third checks the `Ignore` policy with one failing member visited before a healthy one.

A member failure under `Propagate` still returns the full count. `n = len(p)` is set at writemux.go:70, only the empty-registry path resets it (writemux.go:77), and the failure path returns at writemux.go:86 without touching `n`. `Outcome` accordingly gives the full count for a member failure and 0 only for `NoWriters`.

## Model

| member | source | states |
|---|---|---|
| Handles.Handle | writemux.go:54 | a handle is a non-empty string of decimal digits drawn from a counter value |
| Handles.HandleIdOfHandle | writemux.go:54 | decoding the handle of a counter value gives that value back |
| Handles.HandleInjective | writemux.go:48-56 | two counter values give the same handle exactly when they are equal, so handles drawn from an increasing counter never collide |
| Fanout.Accepted | writemux_test.go:141-156 | a destination keeps a prefix of the bytes: all of them when it accepts, none when it fails |
| Fanout.EnumerationCovers | writemux.go:82 | a traversal order of the registry reaches every handle |
| Fanout.EnumerationDistinct | writemux.go:82 | a traversal order of the registry visits no handle twice |
| Fanout.EnumerationExists | writemux.go:82 | every registry has a traversal order |
| Fanout.FirstFailure | writemux.go:82-87 | the position of the first failing member in the order: every member before it succeeds, and the member there fails unless the position is the end |
| Fanout.NoFailureIffNoneFails | writemux.go:82-89 | the traversal finds no failure exactly when no member of the registry fails |
| Fanout.Outcome | writemux.go:69-90 | the count is 0 exactly for `NoWriters` and the full length otherwise; an error is only ever returned under `Propagate` |
| Fanout.IgnoreAlwaysSucceeds | writemux.go:70-71 | under `Ignore` a write returns the full count and no error, also on an empty registry and whatever the members do |
| Fanout.PropagateEmptyIsNoWriters | writemux.go:76-79 | under `Propagate` a write to an empty registry returns 0 and `NoWriters` |
| Fanout.PropagateSucceedsIffAllSucceed | writemux.go:76-89 | under `Propagate` a write succeeds exactly when the registry is non-empty and no member fails, and it then returns the full count |
| Fanout.PropagateNamesFirstFailure | writemux.go:82-86 | under `Propagate` a member failure names a registered handle whose destination failed with that cause, with every member before it in the order succeeding, and the count stays the full length |
| Fanout.OutcomeOrderIndependent | writemux.go:82 | the traversal order does not affect the count or whether the write fails |
| Fanout.FirstFailureIgnoresCounts | writemux.go:83 | a member that takes only part of the bytes without error does not move the first failure |
| Fanout.OutcomeIgnoresCounts | writemux.go:83 | a member that takes only part of the bytes without error leaves the result of the write unchanged |
| Fanout.Reached | writemux.go:82-89 | a write visits every handle under `Ignore`, and under `Propagate` the handles up to and including the first failing one |
| Fanout.FedPrefix | writemux.go:82-83 | with one destination per handle, a prefix of the traversal hands a member the bytes once if it reaches the member and not at all otherwise |
| Fanout.DeliveredOnceOrNever | writemux.go:82-87 | with one destination per handle, a write hands each member the bytes exactly once under `Ignore`; under `Propagate` members up to the first failure get them once and later members get nothing |
| Mux.Sink.Write | writemux_test.go:154-156 | a destination's write appends what its behaviour keeps and reports that count, with an error exactly when it fails |
| Mux.Sink.Close | writemux_test.go:146-148 | a destination's close marks it closed, keeps its bytes and reports its close error |
| Mux.TraversalOutcome | writemux.go:82-87 | the first failure read off the destinations themselves decides how many handles a write reaches and the result it returns |
| Mux.Visit | writemux.go:83 | one visit hands the bytes to the member under the current handle only, so every member then holds what one more handle of the traversal hands it; reports the member's error exactly when it fails |
| Mux.Deliver | writemux.go:82-89 | the loop of a write reaches every handle, or under `Propagate` stops just after the first failing one and names it; each member ends up with its old bytes plus what the visited handles hand it |
| Mux.WriteMux.New | writemux.go:30-35 | an empty multiplexer with the `Ignore` policy |
| Mux.WriteMux.NewWithErrors | writemux.go:40-46 | an empty multiplexer with the `Propagate` policy |
| Mux.WriteMux.Add | writemux.go:51-56 | the handle was never issued before, and the registry becomes the old one plus exactly that handle and the destination |
| Mux.WriteMux.Remove | writemux.go:60-64 | the registry loses the handle and nothing else; an absent or stale handle changes nothing |
| Mux.WriteMux.Write | writemux.go:69-90 | the result is `Outcome` for the current members and order; each member holds its old bytes plus what the reached handles hand it; membership, the counter and closed states stay unchanged |
| Mux.WriteMux.Close | writemux.go:93-101 | every former member is closed with its bytes kept, the registry is empty, and the result is nil |
| Mux.WriteThenClose | writemux_test.go:39-60 | a `Propagate` multiplexer with one healthy member takes a write whole and the member gets exactly the bytes; closing twice returns nil both times, and a following write returns 0 and `NoWriters` |
| Mux.WriteThenRemove | writemux_test.go:64-86 | removing the only member makes the next `Propagate` write return 0 and `NoWriters`, and the removed destination keeps what it had |
| Mux.IgnoreOneFailing | writemux.go:82-89 | under `Ignore`, a failing member visited first does not stop the traversal: the write returns the full count and no error, the healthy member gets the bytes and the failing one nothing |

## Left out

- The `sync.Mutex` that serialises every operation (writemux.go:22). Concurrency is not modelled, so each operation is one atomic sequential method.
- The `go-sequence` generator and its `NextHashID` encoding (writemux.go:9, writemux.go:24, writemux.go:54) belong to an external library. The model draws a handle as the decimal digits of a counter that starts at 1 and grows by one per `Add`. Only freshness is relied on.
- The text of the wrapped error built with `fmt.Errorf` and `%w` (writemux.go:85). The model's error is the value `MemberFailed(index, cause)`, which carries the failing handle and the member's cause.
- `ErrorNoWriters` is the constant `NoWriters` of `MuxError`. Its message text is not modelled.
- Concrete destinations (`io.Discard`, pooled buffers, files) are not modelled. A destination is a `Sink` with a fixed behaviour: it takes everything, it takes a prefix without error, or it fails and takes nothing. A destination that stores some bytes and then reports an error is not modelled.
- Go map iteration order is not modelled. `WriteMux.Write` takes the traversal order as a parameter that must enumerate the registry's keys. `WriteMux.Close` picks its next member nondeterministically.
- The benchmarks (writemux_test.go:101-139) are not modelled. They measure speed only.
- Removing a member or closing the multiplexer while a write is in progress is not modelled, because it is only possible under concurrency.

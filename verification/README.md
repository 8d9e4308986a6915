# ClockStamp expiry engine, in Dafny

ClockStamp is a Node.js addon (`clockstamp.cpp`) that tracks, per node id,
a set of entry ids that each live for `STAMP` = 10 ticks unless refreshed.

## How the engine works

Each node owns a `ClockKeeper` that holds the following:
- `clocks`: a stored remaining-ticks value for every entry;
- one `pivot` entry;
- a `clockstamp` countdown;
- the countdown's starting value at the last sweep (`duration_clockstamp`).

A ticker thread decrements the countdown once a second, and the keeper
sweeps (`refreshAll`) when it goes negative. `refresh` also forces a sweep
when it renews the pivot among other entries, and when it starts an empty
keeper (clockstamp.cpp:162, 174). A sweep visits every entry in ascending
key order and subtracts the elapsed interval. Entries that go negative are
erased, and the least survivor becomes the new pivot and countdown. Every insertion and erasure is reported to one
`MasterNodeKeeper`, which keeps a counter per id. The five exported calls are
`refresh`, `isActive`, `getActives`, `isActiveOnNode` and
`getActivesOnNode`. They dispatch over the global `keeper` map and `master`.

## What the model contains

It has six modules, each following the source's own structure:

- `ClockSpec` is a keeper's state as a value (`Keeper`) together with the
  functions `Sweep`, `Refresh`, `Tick` and `Ticks`. They say what each
  operation does to that value, and the lemmas about the engine are proved
  on them.
- `ClockKeeping.ClockKeeper` is the class with the source's fields.
  `Reset`, `RefreshAll`, `Tick` and `Refresh` are proved to change `State()`
  exactly as the matching `ClockSpec` function does. `SweepEntry` (one step
  of the sweep loop) is proved against the loop's pass invariant instead.
  The destructor, `Clear`, has no `ClockSpec` counterpart: its contract
  states the new fields directly. Every one of these methods is also proved
  to move each master counter by the change in that id's presence.
- `MasterNodes.MasterNodeKeeper` holds the counters.
- `Bindings.ClockStamp` holds the global `keeper` map and `master` and
  dispatches the five calls. Its invariant says the master's counter of an
  id equals the number of nodes whose keeper tracks that id.
- `Ordering` supplies "least element" for the ascending-order loops.
- `Wrappers` supplies `Option`.

`Remaining(s, k) = clocks[k] - Interval(s)` is an entry's reconciled number
of ticks left. The keeper invariant `ClockSpec.Inv` holds after the
constructor, `refresh` and every ticker pass. It does not hold after the
destructor, which empties `clocks` but leaves the pivot set; the keeper is
never used again after that. The invariant says the pivot holds the least stored value and the countdown
equals the pivot's reconciled ticks left.

Two consequences are proved:
- A non-pivot refresh can never store a value below the pivot's. The worry
  that the pivot goes stale after such a refresh therefore cannot arise
  (`PivotExpiresFirst`).
- Every stored value stays within 0..2*STAMP, so the source's 32-bit `int`
  cannot overflow (`InvBounds`).

In the sequential model, the facade invariant rules out negative counters.
Every counter equals a number of holders, so `notifyEroded` never drives a
counter below zero. This holds only when the master's calls are serialised;
see "Left out".

## Behaviour of the code worth knowing

- **Refreshing a tracked non-pivot entry does not renew it.** In the third
  branch of `refresh` (clockstamp.cpp:165), `std::map::emplace` only
  inserts a key that is missing, so an existing entry keeps its stored
  value. The entry therefore expires when it would have expired anyway
  (`ClockSpec.StaleRefreshLifetime`).
- **The master's counters are keyed by entry id.** The names
  `MasterNodeKeeper` and `activeNodes` suggest one counter per node, but
  `notifyAdded` and `notifyEroded` are passed the entry id
  (clockstamp.cpp:86, 166, 173). So `isActive(id)` and `getActives()` answer
  "which entry ids are tracked by some node".
- **Listings come out in ascending id order,** because `getActives` and
  `getActivesOnNode` iterate a `std::map`.

## Model

| member | source | states |
|---|---|---|
| ClockSpec.Reset | clockstamp.cpp:114-117 | the entries are kept, the pivot is cleared, both stamps are zero, so the interval since the last sweep is zero |
| ClockSpec.Decayed | clockstamp.cpp:81-97 | an entry survives losing `elapsed` ticks exactly when its value minus `elapsed` is non-negative, and is then stored at that value |
| ClockSpec.SweepSpec | clockstamp.cpp:73-108 | a sweep keeps exactly the entries with reconciled ticks left, each at its reconciled value; with no survivor it resets; otherwise the least-valued, smallest key becomes pivot with both stamps at its value, so the interval is zero |
| ClockSpec.SweepDetermined | clockstamp.cpp:73-108 | any state with the properties of SweepSpec is the sweep, so the ascending-order, strict-minimum loop has only one possible outcome |
| ClockSpec.PivotUnique | clockstamp.cpp:91-94 | at most one key is the least-valued, smallest key of a map |
| ClockSpec.PivotOf | clockstamp.cpp:91-94 | a non-empty map has a least-valued, smallest key |
| ClockSpec.SweepEstablishesInv | clockstamp.cpp:73-108 | sweeping entries with at most STAMP reconciled ticks left yields a state satisfying the keeper invariant |
| ClockSpec.InvBounds | clockstamp.cpp:47-49 | under the invariant every stored value lies in 0..2*STAMP and each entry's reconciled ticks are at least the countdown, which is non-negative |
| ClockSpec.RefreshPreservesInv | clockstamp.cpp:151-178 | every branch of `refresh` preserves the keeper invariant |
| ClockSpec.TickPreservesInv | clockstamp.cpp:124-145 | one ticker pass preserves the keeper invariant |
| ClockSpec.TicksPreserveInv | clockstamp.cpp:119-149 | any number of ticker passes preserves the keeper invariant |
| ClockSpec.PivotExpiresFirst | clockstamp.cpp:154-168 | the countdown is the pivot's reconciled ticks left, and no entry has fewer |
| ClockSpec.RefreshTracks | clockstamp.cpp:151-178 | after `refresh(id)` the id is tracked and a pivot exists, whichever branch ran |
| ClockSpec.RefreshRenewsPivot | clockstamp.cpp:156-163 | refreshing the pivot gives it exactly STAMP ticks; as the only entry, it also restarts both stamps at STAMP |
| ClockSpec.RefreshNonPivot | clockstamp.cpp:164-168 | refreshing a non-pivot id never sweeps and never changes the pivot or the stamps; a new id gets exactly STAMP ticks; a tracked id is left unchanged |
| ClockSpec.RefreshEmpty | clockstamp.cpp:170-175 | the first refresh of an empty keeper leaves only `id`, as pivot, with both stamps at STAMP |
| ClockSpec.RefreshKeys | clockstamp.cpp:151-178 | a refresh adds no key other than `id`, adds `id` exactly when it was untracked, and otherwise only removes keys |
| ClockSpec.TickAges | clockstamp.cpp:133-143 | one tick takes exactly one reconciled tick from every entry and removes those that had none left |
| ClockSpec.TickNeverAdds | clockstamp.cpp:124-145 | a tick never adds an entry |
| ClockSpec.TicksNeverAdd | clockstamp.cpp:119-149 | ticks alone never add an entry |
| ClockSpec.Lifetime | clockstamp.cpp:119-149 | without refreshes, an entry is still tracked after n ticks exactly when n is at most its reconciled ticks left, and it then has n fewer |
| ClockSpec.ExpiresWithinTtl | clockstamp.cpp:119-149 | every entry is gone after STAMP + 1 ticks without a refresh |
| ClockSpec.RefreshLifetime | clockstamp.cpp:151-178 | a new id or the refreshed pivot is still tracked after n ticks exactly when n <= STAMP |
| ClockSpec.StaleRefreshLifetime | clockstamp.cpp:165-167 | refreshing a tracked non-pivot id does not extend its life |
| MasterNodes.MasterNodeKeeper.constructor | clockstamp.cpp:210 | the master starts with no counters |
| MasterNodes.MasterNodeKeeper.NotifyAdded | clockstamp.cpp:15-17 | the counter of `id` (zero if missing) goes up by one and no other counter changes |
| MasterNodes.MasterNodeKeeper.NotifyEroded | clockstamp.cpp:19-21 | the counter of `id` (zero if missing) goes down by one, with no floor, and no other counter changes |
| MasterNodes.MasterNodeKeeper.IsActive | clockstamp.cpp:23-29 | true exactly when the counter of `id` is positive |
| MasterNodes.MasterNodeKeeper.GetActives | clockstamp.cpp:31-39 | the ids whose counter is positive, each once, in ascending order |
| ClockKeeping.ClockKeeper.constructor | clockstamp.cpp:52-58 | a new keeper is empty, has no pivot, has both stamps at zero, satisfies the invariant and reports to the given master |
| ClockKeeping.ClockKeeper.TimeInterval | clockstamp.cpp:110-112 | under the invariant, the interval lies between 0 and the baseline, which is at most STAMP, and is the pivot's stored value minus the countdown |
| ClockKeeping.ClockKeeper.Reset | clockstamp.cpp:114-117 | the new state is ClockSpec.Reset of the old one |
| ClockKeeping.ClockKeeper.RefreshAll | clockstamp.cpp:73-108 | the new state is the sweep of the old one, and each counter moves by the change in that id's presence |
| ClockKeeping.ClockKeeper.SweepEntry | clockstamp.cpp:81-97 | one loop step keeps the pass invariant: visited entries decayed or erased and reported, and the pivot the least-valued, smallest survivor visited so far |
| ClockKeeping.PassDone | clockstamp.cpp:99-107 | a finished pass has computed exactly the sweep, and has a survivor exactly when entries remain |
| ClockKeeping.ClockKeeper.Tick | clockstamp.cpp:124-145 | one ticker pass takes the state to ClockSpec.Tick of it, keeps the invariant, and moves each counter by the change in presence |
| ClockKeeping.ClockKeeper.Refresh | clockstamp.cpp:151-178 | the new state is ClockSpec.Refresh of the old one, the invariant is kept, and each counter moves by the change in presence |
| ClockKeeping.ClockKeeper.RenewPivot | clockstamp.cpp:156-163 | the pivot branch of `refresh` computes ClockSpec.Refresh and keeps the counters in step |
| ClockKeeping.ClockKeeper.Start | clockstamp.cpp:170-175 | the no-pivot branch of `refresh` computes ClockSpec.Refresh and keeps the counters in step |
| ClockKeeping.ClockKeeper.IsActive | clockstamp.cpp:180-188 | true exactly when the id is an entry |
| ClockKeeping.ClockKeeper.GetActives | clockstamp.cpp:190-205 | exactly the entry ids, each once, in ascending order |
| ClockKeeping.ClockKeeper.Clear | clockstamp.cpp:60-71 | all entries are dropped and each dropped id's counter goes down by one |
| Bindings.CountStep | clockstamp.cpp:15-21 | a counter moved by the change in one member's presence is still the size of the set it counts |
| Bindings.ClockStamp.constructor | clockstamp.cpp:209-210 | no node has a keeper, and every counter equals its number of holders |
| Bindings.ClockStamp.KeeperOf | clockstamp.cpp:225-229 | the node's existing keeper, or a fresh empty one added under `nodeId`; the invariant still holds |
| Bindings.ClockStamp.Refresh | clockstamp.cpp:224-232 | the node's keeper gets ClockSpec.Refresh of its previous state (Empty for a new node); no other node changes; counters still equal holder counts |
| Bindings.ClockStamp.RefreshAt | clockstamp.cpp:227 | refreshing an existing node's keeper changes only that node and keeps counters equal to holder counts |
| Bindings.ClockStamp.Tick | clockstamp.cpp:119-149 | one ticker pass of a node's keeper takes it to ClockSpec.Tick of its state; no other node changes; counters still equal holder counts |
| Bindings.ClockStamp.IsActive | clockstamp.cpp:299-301 | the master's answer is true exactly when some node's keeper tracks the id |
| Bindings.ClockStamp.GetActives | clockstamp.cpp:247-254 | in ascending order, exactly the ids some node's keeper tracks |
| Bindings.ClockStamp.IsActiveOnNode | clockstamp.cpp:316-326 | true exactly when the node has a keeper that tracks the id; false for an unknown node |
| Bindings.ClockStamp.GetActivesOnNode | clockstamp.cpp:271-282 | the ids the node's keeper tracks, in ascending order; empty for an unknown node |

## Left out

- Threads, `sleep_for` and the mutexes are not modelled. Each ticker pass
  (`Tick`) and each call is one atomic step, and steps happen one after
  another.
- Races on the shared master are not modelled. Each keeper's `m_clockstamp`
  guards only that keeper, and the shared `master` has no lock at all.
  - Every keeper's ticker thread calls `notifyEroded` (clockstamp.cpp:86,
    reached from 142).
  - The calling thread calls `notifyAdded` under a different keeper's lock
    (166, 173), and reads `master` with no lock (251, 301).
  - So `++`/`--` on `activeNodes` can race and lose updates.
  - The model assumes the master's calls are serialised. The counter
    invariant of `Bindings.ClockStamp`, `master.Count(i) == |Holders(i)|`,
    and with it counters that never go negative, hold only under that
    assumption.
- The `working` flag and the "Thread Killed" message are not modelled.
  Neither is the ticker thread of a keeper ending when its destructor runs.
- The V8 marshalling is not modelled: argument-count checks, `TypeError`
  exceptions, `Uint32Value`/`IntegerValue` conversions and building the
  result arrays. The model takes ids as `nat`, already converted.
- `DEBUG` printing is not modelled. The `DEBUG` branch of the ticker
  (clockstamp.cpp:135-139) has the same effect as the other branch.
- `INT_MAX` as the starting running minimum of `refreshAll` is replaced by
  a "no survivor yet" flag. Every survivor is below `INT_MAX`, so the
  first survivor always becomes pivot, exactly as with the flag.
- Integer width: `int` and `unsigned` are unbounded in the model.
  `ClockSpec.InvBounds` shows every stored value stays in 0..2*STAMP, so no
  32-bit overflow can occur. Ids above 2^32-1 are not excluded.
- ClockKeeping.ClockKeeper.Clear: models only what the destructor does to `clocks` and the
  counters. The source never destroys a keeper, because the global map is
  never erased.
- Bindings.ClockStamp.Tick: a node without a keeper has no ticker thread,
  so ticking it changes nothing. Ticks of different nodes are modelled one
  call at a time.
- index.js and test.js (the JavaScript wrapper and its test script) are not
  part of this model.

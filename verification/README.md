# ServicePool in Dafny

`ServicePool` is a small registry of caller-supplied services (database
connections, clients), kept under string ids. A pool has a capacity `max`;
zero or less means unbounded. `add(entry)` stores `entry.onAdd` under
`entry.id`. An entry already under that id is torn down and removed first.
When the pool is then full, the first key in enumeration order is torn down
and removed; that is the oldest insertion. `get`, `test` and `destroy` look
up, health-check and tear down one entry. `reset` tears down every entry.
Tearing down means calling the entry's `onDestroy` with its service, when
the entry has one.

The project has four modules:

- `Wrappers` (wrappers.dfy): `Option` and `Result`.
- `PoolSpec` (pool_spec.dfy): the pool as a value.
  - `State` holds the capacity, the keys in enumeration order, the entries,
    and a log of every teardown call.
  - Each operation is a function from the old state to the new one.
  - `Valid` is the invariant every operation keeps. Each key is listed
    exactly once, every key is ordinary (neither an array index nor
    `__proto__`), and the count stays within a positive `max`.
- `Pool` (service_pool.dfy): the class `ServicePool`.
  - Its fields `order` and `pool` are updated in place, as the object's keys
    are. The ghost field `log` records the teardown calls.
  - Each method is proved to leave exactly the state the matching `PoolSpec`
    function computes, and to keep `Valid`.
  - `reset` and the replacement step of `add` are `for…in` loops over the
    keys in the source, so they are loops here too.
- `PoolProperties` (pool_properties.dfy): what the pool promises its callers,
  as lemmas about `PoolSpec`:
  - replacement;
  - FIFO eviction;
  - the capacity bound over any sequence of adds;
  - one teardown per entry on `reset`;
  - the rejection paths;
  - the mongoose scenario of the repository's test suite, step by step.

A few JavaScript values are given Dafny shapes:

- A descriptor is `NonObject` (`null` or `undefined`) or
  `Object(id, onAdd, onTest, hasOnDestroy, plain)`, whose `id` is a string.
  `plain` is false for an object the type check does not call a plain
  object: an array, a function or a boxed value.
- A falsy `onAdd`, `onTest` or `onDestroy` is `None` or `false`.
- `null` answers are `None`, and `destroy`'s `true`/`null` is `true`/`false`.
- `get` answers `Option<Option<R>>`. The outer `None` is `null`: nothing
  found. The inner `None` is `undefined`: an entry stored without a
  service, or a property every object inherits from `Object.prototype`
  (such as `toString`), which `this.pool[id]` finds even without an entry.
  `destroy` of such an inherited name answers `true` and changes nothing.
- `add` answers a `Result`, in place of the promise it returns: `Success` is
  a resolve and `Failure` a reject.
- The library's `MAX_POOL_SIZE` constant is not part of this model. The
  constructor takes it as the parameter `defaultMax`.

`add` does not stop after a failed validation: `reject(msg)` does not
return, so the replacement, the eviction and the store still run
(lib/ServicePool.js:50-62). A descriptor without `onAdd` is therefore stored
with an absent service, and one that is not a plain object is stored like a
plain one (`PoolSpec.Add`, `PoolProperties.MissingOnAddStillStored`,
`PoolProperties.NonPlainStillStored`). A `null` or `undefined` descriptor is
different: reading `entry.id` throws before any key is touched, so the pool
is left as it was. The first read is in the replacement loop when the pool
has keys (line 51), and otherwise at the store (line 58), after an eviction
check that cannot fire on an empty pool. `add` stores the `onAdd`
value itself and never calls it (line 59).

## Model

| member | source | states |
|---|---|---|
| Pool.ServicePool.constructor | lib/ServicePool.js:8-13 | the pool starts empty and valid; `max` is the configured number when there is one, else the default |
| PoolSpec.Create | lib/ServicePool.js:8-13 | the initial state is valid and empty, with `max` taken from the config when numeric and from the default otherwise |
| Pool.ServicePool.GetConfig | lib/ServicePool.js:15-17 | the snapshot carries the pool's `max` |
| Pool.ServicePool.GetActiveServiceCount | lib/ServicePool.js:19-21 | the number of keys enumerated is the number of entries, and it never exceeds a positive `max` |
| PoolSpec.CountIsKeys | lib/ServicePool.js:19-20 | a duplicate-free key list that names exactly the entries is as long as there are entries |
| PoolProperties.CountWithinMax | lib/ServicePool.js:19-21 | in any valid state the count equals the number of keys and stays within a positive `max` |
| Pool.ServicePool.GetActiveIds | lib/ServicePool.js:23-27 | the ids come back in enumeration order, each present key exactly once and nothing else |
| Pool.ServicePool.Reset | lib/ServicePool.js:29-36 | the loop over the keys leaves the state `PoolSpec.Reset` computes: no entries, one teardown per key in enumeration order; answers `true` |
| PoolSpec.Reset | lib/ServicePool.js:29-33 | keeps `max`, leaves no keys and no entries, and only appends to the log |
| PoolSpec.ResetPrefixAll | lib/ServicePool.js:29-33 | after the last key the loop has reached exactly the reset state, which is valid |
| PoolSpec.ResetPrefixStep | lib/ServicePool.js:30-32 | one iteration of the reset loop tears down and deletes the next key, which is still present, and reaches the next prefix state |
| PoolProperties.ResetTearsDownEachOnce | lib/ServicePool.js:29-36 | reset empties the pool, keeps the earlier log, and calls each present teardown callback exactly once, with that entry's service |
| PoolProperties.TeardownsOncePerKey | lib/ServicePool.js:30-31 | over distinct keys, each key with a teardown callback gets exactly one call and no other key gets any |
| PoolProperties.TeardownsServices | lib/ServicePool.js:31 | every teardown call is for a key with a callback and passes that entry's own service |
| PoolSpec.Validate | lib/ServicePool.js:43-64 | `add` succeeds exactly for a plain object with `onAdd`, with that value; a value that is not a plain object fails as an invalid object, a plain one without `onAdd` as missing `onAdd` |
| PoolSpec.Add | lib/ServicePool.js:51-62 | keeps `max`; a null or undefined descriptor changes nothing; otherwise the id ends the enumeration order and holds the descriptor's service, health check and teardown flag |
| PoolSpec.Evict | lib/ServicePool.js:53-55 | keeps `max`, and either changes nothing or is the destroy of the first key in enumeration order |
| PoolSpec.EvictMakesRoom | lib/ServicePool.js:53-55 | from a valid state, eviction keeps the invariant, leaves the count below a positive `max`, and when it removes anything removes the oldest key alone |
| Pool.ServicePool.Add | lib/ServicePool.js:38-66 | the new state is `PoolSpec.Add` of the old one and stays valid; the answer is the validation outcome or the stored service |
| PoolSpec.AddKeepsValid | lib/ServicePool.js:51-62 | replacement, eviction and store keep every key listed once and the count within a positive `max` |
| PoolProperties.NonObjectRejected | lib/ServicePool.js:44-45 | a null or undefined descriptor is rejected as not an object and leaves the pool unchanged |
| PoolProperties.MissingOnAddStillStored | lib/ServicePool.js:44-62 | a descriptor without `onAdd` is rejected (as missing `onAdd` when plain), yet replaced, evicted and stored exactly like one with a service, and `get` then finds an absent service |
| PoolProperties.NonPlainStillStored | lib/ServicePool.js:44-62 | a value that is not a plain object is rejected as an invalid object, yet leaves exactly the state a plain object with the same properties would, and `get` finds its `onAdd` |
| PoolProperties.AddThenGet | lib/ServicePool.js:57-64 | after `add`, `get` answers the descriptor's `onAdd`, which is what a successful `add` resolves to, and `test` applies the new `onTest` to it |
| PoolProperties.ReAddReplaces | lib/ServicePool.js:51 | re-adding a present id tears the old entry down exactly once, evicts nothing, keeps the key set and count, moves the id last, and leaves every other entry alone |
| PoolProperties.FullPoolEvictsOldest | lib/ServicePool.js:53-55 | a new id on a full pool tears down exactly the first key in enumeration order and keeps every other entry |
| PoolProperties.AddWithRoom | lib/ServicePool.js:53-62 | a new id with room to spare is appended, the count grows by one and nothing is torn down |
| PoolProperties.AddAllWithinMax | lib/ServicePool.js:53-55 | after any sequence of adds the pool is valid and its count never exceeds a positive `max` |
| PoolSpec.Found | lib/ServicePool.js:69 | the truthiness of `this.pool[id]` (also at lines 74 and 81): an entry is always found, and apart from the inherited names only an entry is |
| PoolSpec.Get | lib/ServicePool.js:68-70 | something is answered exactly when an entry or an inherited property is found; an entry answers its stored service, and only an entry answers a present service |
| Pool.ServicePool.Get | lib/ServicePool.js:68-70 | the answer is `PoolSpec.Get` of the current state |
| PoolSpec.Test | lib/ServicePool.js:72-76 | an answer comes exactly when the entry exists and has a health check, and it is that check applied to the stored service |
| Pool.ServicePool.Test | lib/ServicePool.js:72-76 | the answer is `PoolSpec.Test` of the current state |
| PoolSpec.Hook | lib/ServicePool.js:82 | removing an entry makes one teardown call when it has a callback and none otherwise, naming its key and passing its service |
| PoolSpec.Destroy | lib/ServicePool.js:78-88 | keeps `max`, leaves no entry under `id`, extends the log by at most one call without changing earlier calls, and changes nothing when `id` has no entry |
| Pool.ServicePool.Destroy | lib/ServicePool.js:78-88 | answers whether `this.pool[id]` finds a value (an entry or an inherited property), and leaves the state `PoolSpec.Destroy` computes, still valid |
| PoolSpec.DestroyKeepsValid | lib/ServicePool.js:78-88 | destroy keeps the invariant and the capacity |
| PoolSpec.Without | lib/ServicePool.js:83 | deleting a key leaves exactly the other keys, one fewer when it was present, and drops the head when it is the key |
| PoolSpec.WithoutCutsOne | lib/ServicePool.js:83 | deleting a present key cuts the key list at its one position, so the other keys keep their relative order and the first key stays the oldest |
| PoolProperties.DestroyOnlyTouchesId | lib/ServicePool.js:78-88 | destroy removes only `id`, with its one teardown call when it has a callback; every other entry, teardown callback included, is unchanged, so are `get` and `test` for every other id, and an absent id changes nothing |
| PoolProperties.DestroyTwice | lib/ServicePool.js:81-87 | a second destroy of the same id changes nothing, and finds something (answers `true` rather than `null`) exactly when the id is an inherited name |
| PoolProperties.ScenarioFirstConnection | test/001-mongoose.mjs:74-98 | with `max` 2, one connection is added, tests live, and its destroy tears it down and empties the pool |
| PoolProperties.ScenarioFillTwo | test/001-mongoose.mjs:100-105 | the first two of three adds fill the pool without teardowns |
| PoolProperties.ScenarioThirdEvicts | test/001-mongoose.mjs:100-114 | the third add evicts and tears down the first connection; the count is `max` |
| PoolProperties.ScenarioFill | test/001-mongoose.mjs:100-114 | the three adds leave `id222` and `id333`, with one teardown for `id111` |
| PoolProperties.ScenarioReplace | test/001-mongoose.mjs:116-120 | re-adding `id222` tears down only its old connection and keeps the count at 2 |
| PoolProperties.ScenarioDestroyAndReset | test/001-mongoose.mjs:122-150 | destroying `id333` leaves one live entry whose `get` is the new connection; reset tears it down and empties the pool |

## Left out

- Promises are not modelled. `add` answers its settled outcome directly, and a caller's `.then` is not sequenced.
- A caller's `onAdd`, `onTest` and `onDestroy` may have side effects, and they may throw. Those are not modelled. A teardown is recorded as the call it receives (`Teardown`), and a health check is a pure function of the service.
- Array-index keys such as `"7"` are not modelled. JavaScript enumerates them before all other keys, in numeric order, so for them the first key is not the oldest. `Valid` and `Pool.ServicePool.Add` exclude them.
- An id of `"__proto__"` is not modelled for `add`. Assigning it replaces the pool object's prototype instead of storing a key, after which `for…in` enumerates the inherited descriptor fields. `Valid` and `Pool.ServicePool.Add` exclude it. Other inherited names, such as `toString`, are modelled for `get`, `test` and `destroy`, and are stored as own keys by `add`, as the code does.
- Descriptors whose `id` is not a string are not modelled: a missing `id`, a number, or a primitive descriptor such as `5`, whose `id` reads as `undefined`. The replacement step at line 51 compares keys with `===`, so for such an id it never fires, and the store at line 58 writes the converted key (such as `"undefined"`) in place. That entry then gets no teardown and keeps its enumeration position, which `PoolSpec.Add` does not describe.
- The model distinguishes falsy values only as absent. A service of `0`, `""` or `false` is treated like a missing one.
- `max` is an integer. `NaN`, infinities and fractional values, which the type check accepts as numbers, are not modelled.
- The type-detection library and the library's constants module are not part of this model. `MAX_POOL_SIZE` is the constructor's `defaultMax` parameter.
- Concurrency is not modelled. Each operation runs to completion, as it does on the single JavaScript thread.
- Pool.ServicePool.Add: requires that an object descriptor's id is ordinary (not an array index and not `__proto__`), as explained above.

# In-memory TTL store: a Dafny model

This project models the core of a small Redis-like server written in Go: an
in-memory store of named **collections**, each mapping string keys to
**objects** that expire at an absolute instant, together with the validator
of the server's configuration. It states and proves what the store promises:
how request settings resolve to an expiry instant, that expired objects are
never returned and are evicted lazily on read, that a refresh removes
exactly the expired objects, that the default collection can never be lost,
that the collection cap is kept, and that the configuration validator
reports the first unset field in a fixed order.

Everything is a pure function over immutable values:

- `Clock` — durations as 64-bit nanosecond counts with explicit wrap-around
  (`time.Duration` multiplication wraps), instants as unbounded integers
  counting nanoseconds since Go's zero time (0001-01-01 UTC), so a deadline
  of `0` is the zero time.
- `Objects` — `Object(data, expires)`, the three construction options, the
  `Interstellar` instant (2067-01-01 UTC) for timeless objects, `New`,
  `Resolve` (the request settings' `New`) and `IsExpired`.
- `Collections` — a collection is a `map<string, Object>`; `Get` (with lazy
  eviction), `Set`, `Delete`, `Refresh`, and `RefreshScan`, the refresh as
  the key-by-key deletion loop the program runs.
- `Storage` — the registry `map<string, Collection>` with its configuration;
  `New`, `NewCollection`, `GetCollection`, `DeleteCollection`,
  `DefaultTimeout`, the object helpers `GetObject`, `SetObject`,
  `DeleteObject`, and `SweepTick`, one tick of the background sweeper run
  sequentially.
- `Config` — the configuration records and `ValidateStorage`,
  `ValidateServer` and `Validation`.
- `ObjectProperties`, `CollectionProperties`, `StorageProperties`,
  `ConfigProperties` — lemmas relating the operations to each other and to
  reference definitions; `Scenarios` — the unit tests' example runs, stated
  for every start instant from year 1 up to 2067-01-01.

The clock is a parameter: every operation that reads the time takes
`now: int`, and all reads within one operation see the same instant.
Operations that change a collection return the new collection (or store)
next to their result. Errors are constructors of `Errors.Error`
(`NoObject(key)`, `NoCollection(name)`, `AlreadyExist(name)`,
`MaxCollections`, `DeleteDefault`, `EmptyField(field)`) rather than
formatted messages.

## Where the code departs from its documentation or from the expected behaviour

The model follows the code in each case.

- **Expiry precedence.** The comment on `RequestSettings` says timeless
  beats deadline and deadline beats timeout. The code tests a non-zero
  timeout first, then a non-zero deadline, then the timeless flag, and
  falls back to the default time to live.
  `ObjectProperties.DocumentedResolve` encodes the documented order.
  `ObjectProperties.DocumentedPrecedenceDiffers` shows the two orders give
  different objects for a one-second timeout with the timeless flag set.
- **Timeless objects expire.** The `Timeless` field is documented as
  "without expiration". The code gives such an object the expiry
  2067-01-01 00:00 UTC, so after that instant it counts as expired and is
  evicted like any other (`ObjectProperties.TimelessIndependentOfNow`,
  `ObjectProperties.ExpiryIsStrictAndPermanent`). The scenarios and
  `StorageProperties.TimelessObjectReadBack` therefore hold only up to
  that date.
- **Durations wrap.** Timeouts and the default time to live are counts of
  seconds multiplied by one second in 64-bit arithmetic. Validation only
  rejects zero, so large values wrap: a timeout of 2^55 seconds (or a
  default time to live of 2^55 seconds) gives a zero duration and an object
  expired just after creation, and a timeout of -9223372037 seconds gives
  an object live for about 292 years
  (`ObjectProperties.HugeTimeoutWrapsToZero`,
  `ObjectProperties.NegativeTimeoutWrapsPositive`).
- **Failed collection lookups in the object helpers.** One could expect a
  missing collection to surface as the same not-found failure as a missing
  object. The code returns the registry's `NoCollection(name)` as it is.
- **Deleting the empty name.** Since the empty name reads the default
  collection, one could expect it to be protected from deletion as well.
  In the code only the
  literal name `"default"` is protected. `DeleteCollection("")` is an
  ordinary lookup, so it fails with `NoCollection("")`, or deletes a collection that was created under the
  empty name. Reading through `""` still returns the default collection
  (`StorageProperties.EmptyNameIsOrdinaryKey`).
- **Order of the creation checks.** `NewCollection` tests the cap before
  the name, so at the cap a duplicate name fails `MaxCollections`, not
  `AlreadyExist`. The cap test
  is an equality, so it bounds the registry only because validation demands a positive cap (`StorageProperties.NonPositiveCapNeverFires`).
- **Refresh and cancellation.** The sweeper gives each refresh a time
  limit, but the refresh itself has no cancellation: it scans every entry,
  and a timed-out task only stops being waited for. The sweeper's call passes a context that the collection's
  `Refresh` does not accept.

## Model

| member | source | states |
|---|---|---|
| `Clock.WrapInt64` | internal/storage/object/object.go:55 | a duration product keeps its low 64 bits as a two's-complement value, and is unchanged when it fits |
| `Clock.MulDuration` | internal/storage/object/object.go:55 | the product of two durations keeps the low 64 bits of the mathematical product (congruent modulo 2^64), and equals it whenever it fits in 64 bits |
| `Clock.Seconds` | internal/storage/object/object.go:55 | a count of seconds becomes the duration congruent to that many times 10^9 nanoseconds modulo 2^64, and exactly that product within the representable range |
| `Objects.Apply` | internal/storage/object/opts.go:9-30 | each option replaces only the expiry: a timeout gives now plus the timeout, a deadline gives exactly the deadline, WithoutTimeout gives Interstellar; the payload is kept |
| `Objects.ApplyAll` | internal/storage/object/object.go:45-47 | options applied in order keep the payload, and the last option alone decides the expiry |
| `Objects.New` | internal/storage/object/object.go:40-50 | the new object holds exactly the given data; with no option its expiry is the zero time |
| `Objects.Binary` | internal/storage/object/object.go:74-76 | the payload returned is exactly the data the object holds |
| `Objects.IsExpired` | internal/storage/object/object.go:78-81 | an object is expired at now exactly when its expiry is strictly before now |
| `Objects.Resolve` | internal/storage/object/object.go:52-62 | a non-zero timeout gives now plus timeout seconds, else a non-zero deadline gives the deadline, else the timeless flag gives 2067-01-01, else now plus the default time to live; `Binary` of the result is the request's data |
| `ObjectProperties.ApplyAllAppend` | internal/storage/object/object.go:45-47 | applying a list of options in two parts is the same as applying the whole list |
| `ObjectProperties.LastOptionWins` | internal/storage/object/object.go:40-50 | whatever options precede it, a final option alone determines the expiry and the data is untouched |
| `ObjectProperties.TimeoutOverridesDeadlineAndTimeless` | internal/storage/object/object.go:54-55 | with a non-zero timeout, changing the deadline or the timeless flag changes nothing about the object |
| `ObjectProperties.DeadlineOverridesTimeless` | internal/storage/object/object.go:56-57 | without a timeout, a set deadline is the expiry even when the timeless flag is set |
| `ObjectProperties.DefaultOnlyWhenNothingElse` | internal/storage/object/object.go:53-61 | the default time to live affects the object only when no timeout, deadline or timeless flag is given, and then shifts its expiry one-for-one |
| `ObjectProperties.TimelessIndependentOfNow` | internal/storage/object/opts.go:24-30 | a timeless object expires at 2067-01-01 whenever it is created |
| `ObjectProperties.DocumentedResolve` | internal/storage/object/object.go:24-25 | the precedence the settings comment documents: the timeless flag always yields 2067-01-01 |
| `ObjectProperties.DocumentedPrecedenceDiffers` | internal/storage/object/object.go:25-61 | the implemented and the documented precedence give different objects for a one-second timeout together with the timeless flag |
| `ObjectProperties.PrecedencesAgreeWhenUnambiguous` | internal/storage/object/object.go:25-61 | when at most one expiry field competes, both precedences give the same object |
| `ObjectProperties.ExpiryIsStrictAndPermanent` | internal/storage/object/object.go:78-81 | an object is expired exactly when its expiry is strictly before now: live at its own expiry instant, expired just after, and expired for good |
| `ObjectProperties.NegativeTimeoutAlreadyExpired` | internal/storage/object/object.go:54-55 | a negative timeout down to -9223372036 seconds gives an object already expired at creation |
| `ObjectProperties.NegativeDurationOptionExpired` | internal/storage/collection_test.go:36 | the timeout option with a negative duration gives an object already expired at creation |
| `ObjectProperties.PositiveTimeoutLifetime` | internal/storage/object/object.go:54-55 | a positive in-range timeout keeps the object live until exactly that many seconds have passed |
| `ObjectProperties.NegativeTimeoutWrapsPositive` | internal/storage/object/object.go:54-55 | a timeout of -9223372037 seconds wraps to a positive duration of about 292 years, so the object is live at creation |
| `ObjectProperties.HugeTimeoutWrapsToZero` | internal/storage/object/object.go:54-55 | a timeout of 2^55 seconds selects the timeout rule but its duration wraps to zero, so the object expires at creation |
| `Collections.NewCollection` | internal/storage/collection.go:25-31 | a new collection is empty |
| `Collections.Live` | internal/storage/collection.go:67-73 | the observable content: exactly the entries not expired at now, with their stored objects |
| `Collections.Get` | internal/storage/collection.go:33-47 | an absent key fails NoObject and changes nothing; a live entry is returned as stored and nothing changes; an expired entry is removed and fails NoObject |
| `Collections.Set` | internal/storage/collection.go:49-53 | the key maps to the new object afterwards and every other key keeps its object |
| `Collections.Delete` | internal/storage/collection.go:55-65 | an absent key fails NoObject and changes nothing; a present key is removed, and only it |
| `Collections.Refresh` | internal/storage/collection.go:67-73 | the result is the collection restricted to its unexpired entries |
| `Collections.RefreshScan` | internal/storage/collection.go:67-73 | the key-by-key scan that deletes expired entries ends with exactly the unexpired entries |
| `CollectionProperties.GetAgreesWithLive` | internal/storage/collection.go:33-47 | Get succeeds exactly for keys in the observable content, with that object, and otherwise fails NoObject for the key |
| `CollectionProperties.GetPreservesLive` | internal/storage/collection.go:41-44 | lazy eviction leaves the observable content unchanged |
| `CollectionProperties.GetTouchesOnlyKey` | internal/storage/collection.go:41-44 | Get never adds, removes or changes any key other than the one read |
| `CollectionProperties.EvictionIsDurable` | internal/storage/collection.go:41-44 | after an expired entry is read, the key is gone and a second read, now or later, fails NoObject again |
| `CollectionProperties.SetThenGet` | internal/storage/collection.go:49-53 | reading a key after storing an unexpired object there returns that object and changes nothing |
| `CollectionProperties.SetExpiredThenGet` | internal/storage/collection.go:49-53 | storing an already expired object and reading it back fails NoObject and leaves the key absent |
| `CollectionProperties.SetOverwrites` | internal/storage/collection.go:49-53 | a second store on a key replaces the first |
| `CollectionProperties.DeleteThenGetOrDelete` | internal/storage/collection.go:55-65 | after a successful delete, reading the key and deleting it again both fail NoObject without further change |
| `CollectionProperties.RefreshIdempotent` | internal/storage/collection.go:67-73 | a second refresh at the same instant changes nothing |
| `CollectionProperties.RefreshInvisibleToGet` | internal/storage/collection.go:67-73 | every read at the refresh instant gets the same answer before and after the refresh |
| `CollectionProperties.LiveShrinksOverTime` | internal/storage/object/object.go:78-81 | a key live at a later instant was live at every earlier one |
| `Storage.New` | internal/storage/storage.go:60-73 | a new store holds exactly the default collection, empty, and keeps the configuration |
| `Storage.NewCollection` | internal/storage/storage.go:75-86 | at the cap it fails MaxCollections, else on a registered name AlreadyExist, both unchanged; otherwise it adds one empty collection under the name and keeps the rest |
| `Storage.GetCollection` | internal/storage/storage.go:88-98 | the empty name yields the default collection, a registered name its collection, any other name NoCollection |
| `Storage.DeleteCollection` | internal/storage/storage.go:100-111 | the name "default" fails DeleteDefault, an unknown name NoCollection, both unchanged; otherwise exactly that name is removed |
| `Storage.DefaultTimeout` | internal/storage/storage.go:129-131 | the configured time to live in seconds as a duration: congruent to ttl times 10^9 nanoseconds modulo 2^64, and exactly that product in range |
| `Storage.GetObject` | internal/storage/storage.go:25-32 | a failed collection lookup is returned unchanged; otherwise the collection's Get answers and its eviction is written back |
| `Storage.SetObject` | internal/storage/storage.go:34-43 | a failed lookup is returned unchanged; otherwise the settings resolved with the store's default time to live are stored and the result is nil |
| `Storage.DeleteObject` | internal/storage/storage.go:45-52 | a failed lookup is returned unchanged; otherwise the collection's Delete answers |
| `Storage.SweepTick` | internal/storage/storage.go:119-126 | one tick refreshes every registered collection at now and keeps the registry's names |
| `StorageProperties.ValidConfigGivesValidStore` | internal/storage/storage.go:60-68 | a validated configuration gives a store satisfying the invariant, which holds exactly when the cap is at least one |
| `StorageProperties.NewCollectionKeepsValid` | internal/storage/storage.go:75-86 | creating a collection keeps the default present and the count within the cap |
| `StorageProperties.DeleteCollectionKeepsValid` | internal/storage/storage.go:100-111 | deleting keeps the invariant, and the default collection is still what the empty name resolves to |
| `StorageProperties.CreateThenDeleteRestores` | internal/storage/storage.go:75-111 | a created collection is found by its name and empty, and deleting it again gives back exactly the original store |
| `StorageProperties.ObjectHelpersKeepRegistry` | internal/storage/storage.go:25-52 | the object helpers never add or remove a collection and keep the invariant |
| `StorageProperties.SweepKeepsValid` | internal/storage/storage.go:119-126 | a sweep tick keeps the invariant |
| `StorageProperties.HasDefaultPreserved` | internal/storage/storage.go:60-111 | New and every operation, including the object helpers and a sweep tick, keep the default collection registered, whatever the cap |
| `StorageProperties.CapacityRefusal` | internal/storage/storage.go:76-78 | at the cap, creation fails MaxCollections whatever the name and the store is unchanged |
| `StorageProperties.NonPositiveCapNeverFires` | internal/storage/storage.go:76 | with a cap of zero or less the equality test never fires, and every new name is accepted |
| `StorageProperties.EmptyNameIsDefault` | internal/storage/storage.go:89-91 | the empty name and "default" resolve to the same collection, and always successfully |
| `StorageProperties.EmptyNameIsOrdinaryKey` | internal/storage/storage.go:100-109 | the empty name is not protected from deletion; a collection created under it can be deleted, and reading through the empty name still gives the default |
| `StorageProperties.UnknownCollectionPassesThrough` | internal/storage/storage.go:25-52 | on an unknown collection all three helpers return NoCollection with that name and leave the store unchanged |
| `StorageProperties.SetObjectThenGetObject` | internal/storage/storage.go:34-43 | after SetObject succeeds, GetObject on the same collection and key returns the resolved object at any instant before its expiry |
| `StorageProperties.DeleteObjectThenGetObject` | internal/storage/storage.go:45-52 | after DeleteObject on a registered collection, GetObject of that key fails NoObject |
| `StorageProperties.TimelessObjectReadBack` | internal/storage/storage_test.go:58-63 | a timeless object stored through the store reads back unchanged until 2067-01-01 |
| `StorageProperties.DefaultObjectLivesForTtl` | internal/storage/storage.go:129-131 | with a positive in-range time to live, an object with no expiry settings is live for that many seconds |
| `StorageProperties.SweepEvictsExpired` | internal/storage/storage.go:119-126 | after a tick an expired key is gone from its collection and reading it fails NoObject |
| `StorageProperties.SweepInvisibleToReaders` | internal/storage/storage.go:119-126 | a tick changes no answer GetObject gives at that instant |
| `Config.FirstFailing` | config/validate.go:37-45 | the reference reading of a validator: Pass exactly when every check holds, otherwise the EmptyField of the first failing check |
| `Config.ValidateStorage` | config/validate.go:9-20 | Pass exactly when the time to live and refresh time are non-zero and the cap positive; otherwise default_ttl, then refresh_time, then max_collections_count |
| `Config.ValidateServer` | config/validate.go:22-35 | Pass exactly when host and port are non-empty and both timeouts non-zero; otherwise host, then port, then read_timeout, then write_timeout |
| `Config.FirstError` | config/validate.go:38-44 | the first failing outcome of a list, or Pass when none fails |
| `Config.Validation` | config/validate.go:37-45 | Pass exactly when both sections pass; a server error is returned before any storage error |
| `ConfigProperties.ValidateStorageIsFirstFailing` | config/validate.go:9-20 | the storage validator equals the first failure of its field checks in source order |
| `ConfigProperties.ValidateServerIsFirstFailing` | config/validate.go:22-35 | the server validator equals the first failure of its field checks in source order |
| `ConfigProperties.FirstFailingAppend` | config/validate.go:38-44 | the first failure of two check lists in a row is the first list's failure, or else the second's |
| `ConfigProperties.ValidationIsFirstFailing` | config/validate.go:37-45 | validation equals the first failure of the server checks followed by the storage checks |
| `ConfigProperties.ServerErrorWins` | config/validate.go:38 | when both sections are invalid, the error names a server field |
| `ConfigProperties.StorageFieldOrder` | config/validate.go:11-16 | a zero time to live is reported first, and a negative cap is rejected like a zero one |
| `Scenarios.TimelessObject` | internal/storage/storage_test.go:29 | the tests' stored object never expires before 2067-01-01 |
| `Scenarios.ExpiryAfterSleep` | internal/storage/object/object_test.go:34-107 | with a two-second default, the default, timeout, deadline and timeless cases are expired or live after the tests' sleeps as the tests expect |
| `Scenarios.CollectionGetRun` | internal/storage/collection_test.go:13-51 | on one collection: the stored object is read back, an unknown key fails, an object stored with a negative timeout fails and is evicted |
| `Scenarios.CollectionDeleteRun` | internal/storage/collection_test.go:53-83 | deleting a stored key succeeds, deleting an unknown key fails NoObject |
| `Scenarios.StoreRun` | internal/storage/storage_test.go:32-94 | a timeless object set in the default collection reads back; an unknown collection name fails NoCollection on read and on write |
| `Scenarios.TestConfigIsFull` | internal/storage/storage_test.go:14-18 | with the tests' cap of one, creating any collection fails MaxCollections |
| `Scenarios.ValidationRuns` | config/validate_test.go:17-145 | each row of the validation table yields the expected error or nil |

## Left out

- The background sweeper's concurrency (`refreshing`, `refreshAndPermitNext`):
  the ticker, the goroutines, the semaphore of `MaxRefreshes` permits and
  the per-task context timeout. `SweepTick` is one tick run sequentially.
  The sweeper reads `RefreshTimeout` and `MaxRefreshes`, which do not exist
  in the storage configuration record (only `RefreshTime` does), and its
  call to `Refresh` passes an argument the method does not take.
- The read-write locks of a collection: every operation is atomic here, so
  races between a lazy eviction and another caller are not modelled.
- Concurrent access to the registry: the name-to-collection map has no lock
  in the program, so concurrent creation, deletion and the sweeper's
  iteration race on it. Registry operations are treated as atomic here too.
- The wall clock: each `time.Now()` is the `now` parameter, one value per operation.
- `Clock.Add`: Go's `Time.Add` saturates at the ends of its range, about
  292 billion years from now. The model adds without a bound.
- `RequestSettings.NewKey`: JSON encoding and SHA-256 hashing.
- The HTTP handlers, basic authentication, the error-to-response mapping
  and the message texts of the errors.
- Loading the configuration file (`config.New`), the application wiring,
  the command-line entry point, the client library and the integration
  tests: file, network and process I/O.
- The basic-auth credentials in the server configuration: no validator reads them.

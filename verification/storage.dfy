/** The store: a registry of named collections that always holds the default
    collection, bounded by the configured collection cap, plus the helpers
    that resolve a collection and delegate one object operation to it.
    Collections are values here, so an operation that changes a collection
    returns the store with that collection written back. */
module Storage {
  import opened Clock
  import opened Errors
  import opened Objects
  import opened Collections
  import opened Config

  const DefaultCollection: string := "default"

  datatype Store = Store(collections: map<string, Collection>, config: StorageConfig)

  /** The default collection is registered. `New` establishes it and every
      operation below keeps it (StorageProperties.HasDefaultPreserved). */
  predicate HasDefault(s: Store)
  {
    DefaultCollection in s.collections
  }

  /** The registry invariant: the default collection is present and the
      number of collections does not exceed the cap. */
  predicate Valid(s: Store)
  {
    HasDefault(s) && |s.collections| <= s.config.maxCollectionsCount
  }

  /** A store holding only the empty default collection. */
  function New(config: StorageConfig): (s: Store)
    ensures s.collections.Keys == {DefaultCollection}
    ensures s.collections[DefaultCollection] == Collections.NewCollection()
    ensures s.config == config
  {
    Store(map[DefaultCollection := Collections.NewCollection()], config)
  }

  /** The collection a name refers to: the empty name means the default. */
  function Resolved(name: string): string
  {
    if name == "" then DefaultCollection else name
  }

  /** Registers a new empty collection. The cap is tested first, with an
      exact comparison, and only then the name. */
  function NewCollection(s: Store, name: string): (r: (Outcome, Store))
    ensures |s.collections| == s.config.maxCollectionsCount ==> r == (Fail(MaxCollections), s)
    ensures |s.collections| != s.config.maxCollectionsCount && name in s.collections ==>
              r == (Fail(AlreadyExist(name)), s)
    ensures r.0 == Pass <==> |s.collections| != s.config.maxCollectionsCount && name !in s.collections
    ensures r.0 == Pass ==> && r.1.collections.Keys == s.collections.Keys + {name}
                            && r.1.collections[name] == Collections.NewCollection()
                            && |r.1.collections| == |s.collections| + 1
    ensures forall n :: n in s.collections ==> n in r.1.collections && r.1.collections[n] == s.collections[n]
    ensures r.1.config == s.config
  {
    if |s.collections| == s.config.maxCollectionsCount then (Fail(MaxCollections), s)
    else if name in s.collections then (Fail(AlreadyExist(name)), s)
    else
      var s' := s.(collections := s.collections[name := Collections.NewCollection()]);
      assert s'.collections.Keys == s.collections.Keys + {name};
      (Pass, s')
  }

  /** Looks a collection up by name; the empty name yields the default. */
  function GetCollection(s: Store, name: string): (r: Result<Collection>)
    requires HasDefault(s)
    ensures name == "" ==> r == Success(s.collections[DefaultCollection])
    ensures name != "" && name in s.collections ==> r == Success(s.collections[name])
    ensures name != "" && name !in s.collections ==> r == Failure(NoCollection(name))
  {
    if name == "" then Success(s.collections[DefaultCollection])
    else if name in s.collections then Success(s.collections[name])
    else Failure(NoCollection(name))
  }

  /** Unregisters a collection. The default collection is refused by its
      name; an unknown name fails; otherwise exactly that name goes. */
  function DeleteCollection(s: Store, name: string): (r: (Outcome, Store))
    ensures name == DefaultCollection ==> r == (Fail(DeleteDefault), s)
    ensures name != DefaultCollection && name !in s.collections ==> r == (Fail(NoCollection(name)), s)
    ensures r.0 == Pass <==> name != DefaultCollection && name in s.collections
    ensures r.1.collections.Keys == if r.0 == Pass then s.collections.Keys - {name} else s.collections.Keys
    ensures forall n :: n in r.1.collections ==> r.1.collections[n] == s.collections[n]
    ensures r.1.config == s.config
  {
    if name == DefaultCollection then (Fail(DeleteDefault), s)
    else if name !in s.collections then (Fail(NoCollection(name)), s)
    else (Pass, s.(collections := s.collections - {name}))
  }

  /** The time to live given to objects whose settings choose no expiry. */
  function DefaultTimeout(s: Store): (d: Int64)
    ensures (d - s.config.defaultTtl * Second) % TwoTo64 == 0
    ensures -MaxSeconds <= s.config.defaultTtl <= MaxSeconds ==> d == s.config.defaultTtl * Second
  {
    Seconds(s.config.defaultTtl)
  }

  /** Writes a collection back under the name it was resolved from. */
  function Put(s: Store, name: string, c: Collection): Store
  {
    s.(collections := s.collections[Resolved(name) := c])
  }

  /** Reads an object from a named collection. A failed collection lookup
      is returned as it is; otherwise the collection's own answer is, and
      an eviction it performed is kept. */
  function GetObject(s: Store, collectionName: string, key: string, now: int): (r: (Result<Object>, Store))
    requires HasDefault(s)
    ensures GetCollection(s, collectionName).Failure? ==>
              r == (Failure(GetCollection(s, collectionName).error), s)
    ensures GetCollection(s, collectionName).Success? ==>
              var (res, c') := Collections.Get(GetCollection(s, collectionName).value, key, now);
              r == (res, Put(s, collectionName, c'))
  {
    match GetCollection(s, collectionName)
    case Failure(e) => (Failure(e), s)
    case Success(c) =>
      var (res, c') := Collections.Get(c, key, now);
      (res, Put(s, collectionName, c'))
  }

  /** Resolves the settings with the store's default time to live and
      stores the object in the named collection. */
  function SetObject(s: Store, collectionName: string, key: string, settings: RequestSettings, now: int): (r: (Outcome, Store))
    requires HasDefault(s)
    ensures GetCollection(s, collectionName).Failure? ==>
              r == (Fail(GetCollection(s, collectionName).error), s)
    ensures GetCollection(s, collectionName).Success? ==>
              r.0 == Pass
              && r.1 == Put(s, collectionName,
                            Collections.Set(GetCollection(s, collectionName).value, key,
                                            Resolve(settings, DefaultTimeout(s), now)))
  {
    match GetCollection(s, collectionName)
    case Failure(e) => (Fail(e), s)
    case Success(c) =>
      var obj := Resolve(settings, DefaultTimeout(s), now);
      (Pass, Put(s, collectionName, Collections.Set(c, key, obj)))
  }

  /** Deletes an object from a named collection. */
  function DeleteObject(s: Store, collectionName: string, key: string): (r: (Outcome, Store))
    requires HasDefault(s)
    ensures GetCollection(s, collectionName).Failure? ==>
              r == (Fail(GetCollection(s, collectionName).error), s)
    ensures GetCollection(s, collectionName).Success? ==>
              var (res, c') := Collections.Delete(GetCollection(s, collectionName).value, key);
              r == (res, Put(s, collectionName, c'))
  {
    match GetCollection(s, collectionName)
    case Failure(e) => (Fail(e), s)
    case Success(c) =>
      var (res, c') := Collections.Delete(c, key);
      (res, Put(s, collectionName, c'))
  }

  /** One tick of the background sweeper, run sequentially: every
      registered collection is refreshed at `now`. */
  function SweepTick(s: Store, now: int): (s': Store)
    ensures s'.config == s.config
    ensures s'.collections.Keys == s.collections.Keys
    ensures forall n :: n in s'.collections ==> s'.collections[n] == Refresh(s.collections[n], now)
  {
    s.(collections := map n | n in s.collections :: Refresh(s.collections[n], now))
  }
}

/** Properties of the store: the registry invariant is established by a
    validated configuration and kept by every operation, the default
    collection cannot be lost, collection-lookup failures pass through the
    object helpers unchanged, and a stored object can be read back. */
module StorageProperties {
  import opened Clock
  import opened Errors
  import opened Objects
  import opened Collections
  import opened Config
  import opened Storage

  /** A store built from a configuration that passes validation satisfies
      the registry invariant; a cap of at least one is all it needs. */
  lemma ValidConfigGivesValidStore(config: StorageConfig)
    ensures ValidateStorage(config) == Pass ==> Valid(Storage.New(config))
    ensures Valid(Storage.New(config)) <==> config.maxCollectionsCount >= 1
  {
  }

  /** Creating a collection keeps the invariant: the cap check refuses the
      one creation that would exceed it. */
  lemma NewCollectionKeepsValid(s: Store, name: string)
    requires Valid(s)
    ensures Valid(Storage.NewCollection(s, name).1)
  {
  }

  /** Deleting a collection keeps the invariant; in particular the default
      collection is still registered afterwards. */
  lemma DeleteCollectionKeepsValid(s: Store, name: string)
    requires Valid(s)
    ensures Valid(DeleteCollection(s, name).1)
    ensures GetCollection(DeleteCollection(s, name).1, "") == GetCollection(s, "")
  {
  }

  /** A newly created collection is found by its name, empty; deleting it
      again restores the store exactly as it was. */
  lemma CreateThenDeleteRestores(s: Store, name: string)
    requires HasDefault(s) && name != "" && name != DefaultCollection
    requires |s.collections| != s.config.maxCollectionsCount && name !in s.collections
    ensures GetCollection(Storage.NewCollection(s, name).1, name) == Success(Collections.NewCollection())
    ensures DeleteCollection(Storage.NewCollection(s, name).1, name).0 == Pass
    ensures DeleteCollection(Storage.NewCollection(s, name).1, name).1.collections == s.collections
    ensures DeleteCollection(Storage.NewCollection(s, name).1, name).1 == s
  {
  }

  /** The object helpers never add or remove a collection. */
  lemma ObjectHelpersKeepRegistry(s: Store, cname: string, key: string, settings: RequestSettings, now: int)
    requires Valid(s)
    ensures GetObject(s, cname, key, now).1.collections.Keys == s.collections.Keys
    ensures SetObject(s, cname, key, settings, now).1.collections.Keys == s.collections.Keys
    ensures DeleteObject(s, cname, key).1.collections.Keys == s.collections.Keys
    ensures Valid(GetObject(s, cname, key, now).1)
    ensures Valid(SetObject(s, cname, key, settings, now).1)
    ensures Valid(DeleteObject(s, cname, key).1)
  {
  }

  /** A sweeper tick keeps the registry and the invariant as they were. */
  lemma SweepKeepsValid(s: Store, now: int)
    requires Valid(s)
    ensures Valid(SweepTick(s, now))
  {
  }

  /** Every operation keeps the default collection registered, whatever
      the cap. */
  lemma HasDefaultPreserved(s: Store, name: string, key: string, settings: RequestSettings, now: int)
    requires HasDefault(s)
    ensures HasDefault(Storage.New(s.config))
    ensures HasDefault(Storage.NewCollection(s, name).1)
    ensures HasDefault(DeleteCollection(s, name).1)
    ensures HasDefault(GetObject(s, name, key, now).1)
    ensures HasDefault(SetObject(s, name, key, settings, now).1)
    ensures HasDefault(DeleteObject(s, name, key).1)
    ensures HasDefault(SweepTick(s, now))
  {
  }

  /** At capacity, creation fails and the registry is left unchanged. */
  lemma CapacityRefusal(s: Store, name: string)
    requires Valid(s) && |s.collections| == s.config.maxCollectionsCount
    ensures Storage.NewCollection(s, name) == (Fail(MaxCollections), s)
  {
  }

  /** The cap is compared with equality, so it only bounds the registry
      because validation demands a positive cap: with a cap of zero or less
      the check never fires and creation succeeds for every new name. */
  lemma NonPositiveCapNeverFires(s: Store, name: string)
    requires HasDefault(s) && s.config.maxCollectionsCount <= 0
    ensures Storage.NewCollection(s, name).0 != Fail(MaxCollections)
    ensures name !in s.collections ==> Storage.NewCollection(s, name).0 == Pass
  {
  }

  /** The empty name and the default collection's name resolve to the same
      collection. */
  lemma EmptyNameIsDefault(s: Store)
    requires HasDefault(s)
    ensures GetCollection(s, "") == GetCollection(s, DefaultCollection)
    ensures GetCollection(s, "").Success?
  {
  }

  /** Only the default collection's name is protected. The empty name is
      not: it is an ordinary registry key, so a collection created under it
      can be deleted, while reading through the empty name keeps returning
      the default collection. */
  lemma EmptyNameIsOrdinaryKey(s: Store)
    requires Valid(s) && "" !in s.collections && |s.collections| < s.config.maxCollectionsCount
    ensures DeleteCollection(s, "") == (Fail(NoCollection("")), s)
    ensures Storage.NewCollection(s, "").0 == Pass
    ensures GetCollection(Storage.NewCollection(s, "").1, "") == GetCollection(s, "")
    ensures DeleteCollection(Storage.NewCollection(s, "").1, "").0 == Pass
  {
  }

  /** A failed collection lookup reaches the caller of every object helper
      as NoCollection with the name asked for; it is not turned into
      NoObject, and the store is unchanged. */
  lemma UnknownCollectionPassesThrough(s: Store, cname: string, key: string, settings: RequestSettings, now: int)
    requires HasDefault(s) && cname != "" && cname !in s.collections
    ensures GetObject(s, cname, key, now) == (Failure(NoCollection(cname)), s)
    ensures SetObject(s, cname, key, settings, now) == (Fail(NoCollection(cname)), s)
    ensures DeleteObject(s, cname, key) == (Fail(NoCollection(cname)), s)
  {
  }

  /** After a successful SetObject the object built from the settings is
      read back from the same collection at any instant before it
      expires. */
  lemma SetObjectThenGetObject(s: Store, cname: string, key: string, settings: RequestSettings, now: int, later: int)
    requires HasDefault(s) && GetCollection(s, cname).Success?
    requires !IsExpired(Resolve(settings, DefaultTimeout(s), now), later)
    ensures SetObject(s, cname, key, settings, now).0 == Pass
    ensures HasDefault(SetObject(s, cname, key, settings, now).1)
    ensures GetObject(SetObject(s, cname, key, settings, now).1, cname, key, later).0
              == Success(Resolve(settings, DefaultTimeout(s), now))
  {
  }

  /** After DeleteObject on a registered collection, reading the key back
      fails NoObject, whether or not the key was there. */
  lemma DeleteObjectThenGetObject(s: Store, cname: string, key: string, now: int)
    requires HasDefault(s) && GetCollection(s, cname).Success?
    ensures HasDefault(DeleteObject(s, cname, key).1)
    ensures GetObject(DeleteObject(s, cname, key).1, cname, key, now).0 == Failure(NoObject(key))
  {
  }

  /** A timeless object stored through the store is read back, unchanged,
      at every instant up to 2067-01-01. */
  lemma TimelessObjectReadBack(s: Store, cname: string, key: string, data: seq<Byte>, now: int, later: int)
    requires HasDefault(s) && GetCollection(s, cname).Success?
    requires later <= Interstellar
    ensures var settings := RequestSettings(data, 0, ZeroTime, true);
            GetObject(SetObject(s, cname, key, settings, now).1, cname, key, later).0
              == Success(Object(data, Interstellar))
  {
  }

  /** With a validated, in-range default time to live, an object that
      chooses no expiry is live when it is made and for `defaultTtl`
      seconds after. */
  lemma DefaultObjectLivesForTtl(s: Store, data: seq<Byte>, now: int, t: int)
    requires 0 < s.config.defaultTtl <= MaxSeconds
    requires now <= t <= now + s.config.defaultTtl * Second
    ensures !IsExpired(Resolve(RequestSettings(data, 0, ZeroTime, false), DefaultTimeout(s), now), t)
  {
  }

  /** After a sweeper tick no registered collection holds an object expired
      at that instant, so reading an expired key fails even though no
      reader evicted it. */
  lemma SweepEvictsExpired(s: Store, cname: string, key: string, now: int)
    requires HasDefault(s) && GetCollection(s, cname).Success?
    requires key in GetCollection(s, cname).value.objects
    requires IsExpired(GetCollection(s, cname).value.objects[key], now)
    ensures HasDefault(SweepTick(s, now))
    ensures key !in GetCollection(SweepTick(s, now), cname).value.objects
    ensures GetObject(SweepTick(s, now), cname, key, now).0 == Failure(NoObject(key))
  {
  }

  /** A sweeper tick changes no answer a reader gets at that instant. */
  lemma SweepInvisibleToReaders(s: Store, cname: string, key: string, now: int)
    requires HasDefault(s)
    ensures HasDefault(SweepTick(s, now))
    ensures GetObject(SweepTick(s, now), cname, key, now).0 == GetObject(s, cname, key, now).0
  {
  }
}

/** The example runs of the program's unit tests, stated for every start
    instant from year 1 up to 2067-01-01 rather than for one wall-clock
    reading. */
module Scenarios {
  import opened Clock
  import opened Errors
  import opened Objects
  import opened Collections
  import opened Config
  import opened Storage

  const Payload: seq<Byte> := [49]     // the one-byte payload "1"
  const TestKey: string := "1"

  /** The object the tests store: payload "1", never expiring. */
  function TimelessObject(): (o: Object)
    ensures o.expires == Interstellar
  {
    Objects.New(Payload, [WithoutTimeout], 0)
  }

  /** Expiry after sleeping, with a two-second default time to live. The
      deadlines are taken when the test table is built, at `table`; each
      object is created later, at `t0`, within the hour of the first
      deadline. */
  lemma ExpiryAfterSleep(table: int, t0: int)
    requires 0 <= table <= t0 && t0 + Second <= table + 3600 * Second
    requires t0 + Second <= Interstellar
    ensures var ttl := 2 * Second;
            && !IsExpired(Resolve(RequestSettings(Payload, 0, ZeroTime, false), ttl, t0), t0 + Second)
            && IsExpired(Resolve(RequestSettings(Payload, 0, ZeroTime, false), ttl, t0), t0 + 5 * Second)
            && !IsExpired(Resolve(RequestSettings(Payload, 5, ZeroTime, false), ttl, t0), t0 + Second)
            && IsExpired(Resolve(RequestSettings(Payload, 1, ZeroTime, false), ttl, t0), t0 + 5 * Second)
            && !IsExpired(Resolve(RequestSettings(Payload, 0, table + 3600 * Second, false), ttl, t0), t0 + Second)
            && IsExpired(Resolve(RequestSettings(Payload, 0, table + Second, false), ttl, t0), t0 + 5 * Second)
            && !IsExpired(Resolve(RequestSettings(Payload, 0, ZeroTime, true), ttl, t0), t0 + Second)
  {
  }

  /** Reading back a stored object, an unknown key, and an object stored
      with a negative one-second timeout, in that order on one collection. */
  lemma CollectionGetRun(now: int)
    requires now <= Interstellar
    ensures var c1 := Set(Collections.NewCollection(), TestKey, TimelessObject());
            var (r1, c2) := Get(c1, TestKey, now);
            var (r2, c3) := Get(Set(c2, TestKey, TimelessObject()), "unknown", now);
            var expired := Objects.New(Payload, [WithTimeout(-Second)], now);
            var (r3, c4) := Get(Set(c3, TestKey, expired), TestKey, now);
            && r1 == Success(TimelessObject())
            && r2 == Failure(NoObject("unknown"))
            && r3 == Failure(NoObject(TestKey))
            && TestKey !in c4.objects
  {
  }

  /** Deleting a stored key succeeds; deleting an unknown key fails. */
  lemma CollectionDeleteRun()
    ensures var c1 := Set(Collections.NewCollection(), TestKey, TimelessObject());
            var (r1, c2) := Collections.Delete(c1, TestKey);
            var (r2, _) := Collections.Delete(Set(c2, TestKey, TimelessObject()), "unknown");
            r1 == Pass && r2 == Fail(NoObject("unknown"))
  {
  }

  /** The storage tests' configuration: one second to live, a cap of one
      collection, a 1000-second sweep interval. */
  const TestConfig: StorageConfig := StorageConfig(1, 1, 1000)

  /** Storing a timeless object in the default collection and reading it
      back through the empty name and through an unknown name. */
  lemma StoreRun(now: int, later: int)
    requires later <= Interstellar
    ensures var s := Storage.New(TestConfig);
            var (set1, s1) := SetObject(s, "", TestKey, RequestSettings(Payload, 0, ZeroTime, true), now);
            && set1 == Pass
            && GetObject(s1, "", TestKey, later).0 == Success(TimelessObject())
            && GetObject(s1, "unknown", TestKey, later).0 == Failure(NoCollection("unknown"))
            && SetObject(s, "unknown", TestKey, RequestSettings(Payload, 0, ZeroTime, true), now).0
                 == Fail(NoCollection("unknown"))
  {
  }

  /** With a cap of one, the default collection already fills the store. */
  lemma TestConfigIsFull(name: string)
    ensures Storage.NewCollection(Storage.New(TestConfig), name).0 == Fail(MaxCollections)
  {
  }

  /** The configuration validation table. */
  lemma ValidationRuns()
    ensures var storage := StorageConfig(1, 1, 1);
            var server := ServerConfig("host", "port", 1, 1);
            && Validation(Config(storage, server)) == Pass
            && Validation(Config(storage.(defaultTtl := 0), server)) == Fail(EmptyField("default_ttl"))
            && Validation(Config(storage.(maxCollectionsCount := 0), server)) == Fail(EmptyField("max_collections_count"))
            && Validation(Config(storage.(refreshTime := 0), server)) == Fail(EmptyField("refresh_time"))
            && Validation(Config(storage, server.(host := ""))) == Fail(EmptyField("host"))
            && Validation(Config(storage, server.(port := ""))) == Fail(EmptyField("port"))
            && Validation(Config(storage, server.(readTimeout := 0))) == Fail(EmptyField("read_timeout"))
            && Validation(Config(storage, server.(writeTimeout := 0))) == Fail(EmptyField("write_timeout"))
  {
  }
}

/** Properties of a collection: lazy eviction never changes what a reader
    can observe, eviction is durable, a stored object can be read back, and
    refresh removes exactly the expired objects. */
module CollectionProperties {
  import opened Errors
  import opened Objects
  import opened Collections

  /** `Get` answers from the observable content: success with the live
      object when the key is live, NoObject otherwise. */
  lemma GetAgreesWithLive(c: Collection, key: string, now: int)
    ensures Get(c, key, now).0 ==
              if key in Live(c, now) then Success(Live(c, now)[key]) else Failure(NoObject(key))
  {
  }

  /** Lazy eviction removes only an object no reader could see, so the
      observable content is the same before and after any `Get`. */
  lemma GetPreservesLive(c: Collection, key: string, now: int)
    ensures Live(Get(c, key, now).1, now) == Live(c, now)
  {
  }

  /** `Get` never adds to a collection and changes nothing but `key`. */
  lemma GetTouchesOnlyKey(c: Collection, key: string, k: string, now: int)
    requires k != key
    ensures k in Get(c, key, now).1.objects <==> k in c.objects
    ensures k in c.objects ==> Get(c, key, now).1.objects[k] == c.objects[k]
  {
  }

  /** An expired object is gone after the first read: a second read, at the
      same or any later instant, fails the same way. */
  lemma EvictionIsDurable(c: Collection, key: string, now: int, later: int)
    requires key in c.objects && IsExpired(c.objects[key], now)
    requires now <= later
    ensures Get(c, key, now).0 == Failure(NoObject(key))
    ensures key !in Get(c, key, now).1.objects
    ensures Get(Get(c, key, now).1, key, later) == (Failure(NoObject(key)), Get(c, key, now).1)
  {
  }

  /** Reading a key straight after storing an object there returns that
      object as long as it has not expired, and leaves the collection as the
      store left it. */
  lemma SetThenGet(c: Collection, key: string, o: Object, now: int)
    requires !IsExpired(o, now)
    ensures Get(Set(c, key, o), key, now) == (Success(o), Set(c, key, o))
  {
  }

  /** Storing an expired object is the same, for a reader, as not storing
      anything under that key. */
  lemma SetExpiredThenGet(c: Collection, key: string, o: Object, now: int)
    requires IsExpired(o, now)
    ensures Get(Set(c, key, o), key, now).0 == Failure(NoObject(key))
    ensures Get(Set(c, key, o), key, now).1.objects == c.objects - {key}
  {
  }

  /** A second `Set` on the same key replaces the first. */
  lemma SetOverwrites(c: Collection, key: string, o1: Object, o2: Object)
    ensures Set(Set(c, key, o1), key, o2) == Set(c, key, o2)
  {
  }

  /** Deleting a stored key and reading it back fails; a second delete fails
      too, and the failures leave the collection alone. */
  lemma DeleteThenGetOrDelete(c: Collection, key: string, now: int)
    requires key in c.objects
    ensures Delete(c, key).0 == Pass
    ensures Get(Delete(c, key).1, key, now) == (Failure(NoObject(key)), Delete(c, key).1)
    ensures Delete(Delete(c, key).1, key) == (Fail(NoObject(key)), Delete(c, key).1)
  {
  }

  /** A refresh at a fixed instant is idempotent. */
  lemma RefreshIdempotent(c: Collection, now: int)
    ensures Refresh(Refresh(c, now), now) == Refresh(c, now)
  {
  }

  /** Refresh changes no answer a reader gets at that instant: every `Get`
      before and after it returns the same result. */
  lemma RefreshInvisibleToGet(c: Collection, key: string, now: int)
    ensures Get(Refresh(c, now), key, now).0 == Get(c, key, now).0
    ensures Live(Refresh(c, now), now) == Live(c, now)
  {
  }

  /** Time only ever shrinks what a reader can see. */
  lemma LiveShrinksOverTime(c: Collection, now: int, later: int)
    requires now <= later
    ensures Live(c, later).Keys <= Live(c, now).Keys
  {
  }
}

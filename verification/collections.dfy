/** A collection: a namespace mapping keys to objects, with lazy eviction of
    expired objects on read and a bulk refresh that drops every expired
    object. Every operation is atomic here; the read-write lock that makes
    it so in the program is not modelled. */
module Collections {
  import opened Errors
  import opened Objects

  datatype Collection = Collection(objects: map<string, Object>)

  /** A fresh, empty collection. */
  function NewCollection(): (c: Collection)
    ensures |c.objects| == 0
  {
    Collection(map[])
  }

  /** The objects a reader can still see at `now`: the entries whose expiry
      has not passed. This is the collection's observable content. */
  function Live(c: Collection, now: int): (m: map<string, Object>)
    ensures m.Keys <= c.objects.Keys
    ensures forall k :: k in m ==> m[k] == c.objects[k] && !IsExpired(m[k], now)
    ensures forall k :: k in c.objects && !IsExpired(c.objects[k], now) ==> k in m
  {
    map k | k in c.objects && !IsExpired(c.objects[k], now) :: c.objects[k]
  }

  /** Looks up `key`. An absent key fails; an expired object is evicted and
      fails the same way; otherwise the stored object is returned and the
      collection is left as it was. */
  function Get(c: Collection, key: string, now: int): (r: (Result<Object>, Collection))
    ensures key !in c.objects ==> r == (Failure(NoObject(key)), c)
    ensures key in c.objects && !IsExpired(c.objects[key], now) ==> r == (Success(c.objects[key]), c)
    ensures key in c.objects && IsExpired(c.objects[key], now) ==>
              r.0 == Failure(NoObject(key)) && r.1.objects == c.objects - {key}
  {
    if key !in c.objects then (Failure(NoObject(key)), c)
    else
      var obj := c.objects[key];
      if IsExpired(obj, now) then
        var (_, c') := Delete(c, key);
        (Failure(NoObject(key)), c')
      else (Success(obj), c)
  }

  /** Stores `o` under `key`, replacing whatever was there. */
  function Set(c: Collection, key: string, o: Object): (c': Collection)
    ensures key in c'.objects && c'.objects[key] == o
    ensures c'.objects.Keys == c.objects.Keys + {key}
    ensures forall k :: k in c.objects && k != key ==> c'.objects[k] == c.objects[k]
  {
    Collection(c.objects[key := o])
  }

  /** Removes `key`; an absent key fails and changes nothing. */
  function Delete(c: Collection, key: string): (r: (Outcome, Collection))
    ensures key !in c.objects ==> r == (Fail(NoObject(key)), c)
    ensures key in c.objects ==> r.0 == Pass
    ensures r.1.objects.Keys == c.objects.Keys - {key}
    ensures forall k :: k in r.1.objects ==> r.1.objects[k] == c.objects[k]
  {
    if key !in c.objects then (Fail(NoObject(key)), c)
    else (Pass, Collection(c.objects - {key}))
  }

  /** Drops every object expired at `now`. */
  function Refresh(c: Collection, now: int): (c': Collection)
    ensures c'.objects == Live(c, now)
  {
    Collection(Live(c, now))
  }

  /** The refresh as the program performs it: a scan over the keys that
      deletes each expired object in turn. It ends with the same collection
      as `Refresh`. */
  method RefreshScan(c: Collection, now: int) returns (c': Collection)
    ensures c'.objects.Keys <= c.objects.Keys
    ensures forall k :: k in c'.objects ==> c'.objects[k] == c.objects[k] && !IsExpired(c'.objects[k], now)
    ensures forall k :: k in c.objects && !IsExpired(c.objects[k], now) ==> k in c'.objects
    ensures c' == Refresh(c, now)
  {
    var pending := c.objects.Keys;
    c' := c;
    while pending != {}
      invariant pending <= c.objects.Keys
      invariant c'.objects.Keys <= c.objects.Keys
      invariant forall k :: k in c'.objects ==> c'.objects[k] == c.objects[k]
      invariant forall k :: k in c'.objects && k !in pending ==> !IsExpired(c.objects[k], now)
      invariant forall k :: k in c.objects && (k in pending || !IsExpired(c.objects[k], now)) ==> k in c'.objects
      decreases pending
    {
      var key :| key in pending;
      if IsExpired(c'.objects[key], now) {
        var (_, next) := Delete(c', key);
        c' := next;
      }
      pending := pending - {key};
    }
    assert c'.objects == Live(c, now);
  }
}

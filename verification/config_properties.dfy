/** The validators against a reference reading: each section is the list
    of its field checks in source order, and the first unset field is the
    error. */
module ConfigProperties {
  import opened Errors
  import opened Config

  function StorageChecks(s: StorageConfig): seq<Check>
  {
    [ Check("default_ttl", s.defaultTtl != 0),
      Check("refresh_time", s.refreshTime != 0),
      Check("max_collections_count", s.maxCollectionsCount > 0) ]
  }

  function ServerChecks(s: ServerConfig): seq<Check>
  {
    [ Check("host", s.host != ""),
      Check("port", s.port != ""),
      Check("read_timeout", s.readTimeout != 0),
      Check("write_timeout", s.writeTimeout != 0) ]
  }

  /** The storage validator reports the first unset field of its list. */
  lemma ValidateStorageIsFirstFailing(s: StorageConfig)
    ensures ValidateStorage(s) == FirstFailing(StorageChecks(s))
  {
    var cs := StorageChecks(s);
    assert cs[1..][1..] == [cs[2]];
    assert cs[1..][1..][1..] == [];
  }

  /** The server validator reports the first unset field of its list. */
  lemma ValidateServerIsFirstFailing(s: ServerConfig)
    ensures ValidateServer(s) == FirstFailing(ServerChecks(s))
  {
    var cs := ServerChecks(s);
    assert cs[1..][1..] == cs[2..];
    assert cs[2..][1..] == [cs[3]];
    assert FirstFailing(cs[2..]) == if s.readTimeout == 0 then Fail(EmptyField("read_timeout"))
                                    else if s.writeTimeout == 0 then Fail(EmptyField("write_timeout"))
                                    else Pass;
  }

  /** The whole configuration reports the first unset field of the server
      list followed by the storage list. */
  lemma ValidationIsFirstFailing(c: Config)
    ensures Validation(c) == FirstFailing(ServerChecks(c.server) + StorageChecks(c.storage))
  {
    ValidateStorageIsFirstFailing(c.storage);
    ValidateServerIsFirstFailing(c.server);
    FirstFailingAppend(ServerChecks(c.server), StorageChecks(c.storage));
  }

  /** The first failure of two lists in a row is the first list's, or else
      the second's. */
  lemma {:induction false} FirstFailingAppend(a: seq<Check>, b: seq<Check>)
    ensures FirstFailing(a + b) == if FirstFailing(a).Fail? then FirstFailing(a) else FirstFailing(b)
    decreases |a|
  {
    if |a| == 0 {
      assert a + b == b;
    } else {
      assert (a + b)[0] == a[0];
      assert (a + b)[1..] == a[1..] + b;
      FirstFailingAppend(a[1..], b);
    }
  }

  /** A server error hides any storage error. */
  lemma ServerErrorWins(c: Config)
    requires !ServerValid(c.server) && !StorageValid(c.storage)
    ensures Validation(c) == ValidateServer(c.server)
    ensures Validation(c).error.field in {"host", "port", "read_timeout", "write_timeout"}
  {
  }

  /** Within the storage section, a zero default time to live is reported
      even when the other fields are unset as well, and a negative cap is
      rejected like a zero one. */
  lemma StorageFieldOrder(s: StorageConfig)
    ensures s.defaultTtl == 0 ==> ValidateStorage(s) == Fail(EmptyField("default_ttl"))
    ensures s.defaultTtl != 0 && s.refreshTime != 0 && s.maxCollectionsCount < 0 ==>
              ValidateStorage(s) == Fail(EmptyField("max_collections_count"))
  {
  }
}

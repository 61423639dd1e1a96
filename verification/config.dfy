/** Configuration records and their validation: each section reports the
    first field that is unset, in a fixed order, and the whole
    configuration checks the server section before the storage section. */
module Config {
  import opened Clock
  import opened Errors

  /** Storage settings. `defaultTtl` and `refreshTime` are counts of seconds
      held in durations. */
  datatype StorageConfig = StorageConfig(
    defaultTtl: Int64,
    maxCollectionsCount: Int64,
    refreshTime: Int64
  )

  /** Server settings. The timeouts are counts of milliseconds held in
      durations; the basic-auth credentials are not validated and are left
      out. */
  datatype ServerConfig = ServerConfig(
    host: string,
    port: string,
    readTimeout: Int64,
    writeTimeout: Int64
  )

  datatype Config = Config(storage: StorageConfig, server: ServerConfig)

  /** One field check: the field's name and whether it is set. */
  datatype Check = Check(field: string, ok: bool)

  /** The first check that fails, as an EmptyField error for its field. */
  function FirstFailing(checks: seq<Check>): (r: Outcome)
    ensures r == Pass <==> forall i :: 0 <= i < |checks| ==> checks[i].ok
    ensures r.Fail? ==>
              (exists i :: && 0 <= i < |checks| && !checks[i].ok
                           && r.error == EmptyField(checks[i].field)
                           && forall j :: 0 <= j < i ==> checks[j].ok)
  {
    if |checks| == 0 then Pass
    else if !checks[0].ok then Fail(EmptyField(checks[0].field))
    else
      var rest := FirstFailing(checks[1..]);
      assert forall i :: 1 <= i < |checks| ==> checks[i] == checks[1..][i - 1];
      if rest.Fail? then
        var i :| 0 <= i < |checks[1..]| && !checks[1..][i].ok
                 && rest.error == EmptyField(checks[1..][i].field)
                 && forall j :: 0 <= j < i ==> checks[1..][j].ok;
        assert checks[i + 1] == checks[1..][i];
        rest
      else rest
  }

  /** The storage section is valid iff the default time to live and the
      refresh interval are non-zero and the collection cap is positive. */
  predicate StorageValid(s: StorageConfig)
  {
    s.defaultTtl != 0 && s.refreshTime != 0 && s.maxCollectionsCount > 0
  }

  predicate ServerValid(s: ServerConfig)
  {
    s.host != "" && s.port != "" && s.readTimeout != 0 && s.writeTimeout != 0
  }

  function ValidateStorage(s: StorageConfig): (r: Outcome)
    ensures r == Pass <==> StorageValid(s)
    ensures s.defaultTtl == 0 ==> r == Fail(EmptyField("default_ttl"))
    ensures s.defaultTtl != 0 && s.refreshTime == 0 ==> r == Fail(EmptyField("refresh_time"))
    ensures s.defaultTtl != 0 && s.refreshTime != 0 && s.maxCollectionsCount <= 0 ==>
              r == Fail(EmptyField("max_collections_count"))
  {
    if s.defaultTtl == 0 then Fail(EmptyField("default_ttl"))
    else if s.refreshTime == 0 then Fail(EmptyField("refresh_time"))
    else if s.maxCollectionsCount <= 0 then Fail(EmptyField("max_collections_count"))
    else Pass
  }

  function ValidateServer(s: ServerConfig): (r: Outcome)
    ensures r == Pass <==> ServerValid(s)
    ensures s.host == "" ==> r == Fail(EmptyField("host"))
    ensures s.host != "" && s.port == "" ==> r == Fail(EmptyField("port"))
    ensures s.host != "" && s.port != "" && s.readTimeout == 0 ==> r == Fail(EmptyField("read_timeout"))
    ensures s.host != "" && s.port != "" && s.readTimeout != 0 && s.writeTimeout == 0 ==>
              r == Fail(EmptyField("write_timeout"))
  {
    if s.host == "" then Fail(EmptyField("host"))
    else if s.port == "" then Fail(EmptyField("port"))
    else if s.readTimeout == 0 then Fail(EmptyField("read_timeout"))
    else if s.writeTimeout == 0 then Fail(EmptyField("write_timeout"))
    else Pass
  }

  /** The sections in the order they are validated; the first error wins. */
  function Validation(c: Config): (r: Outcome)
    ensures r == Pass <==> ServerValid(c.server) && StorageValid(c.storage)
    ensures !ServerValid(c.server) ==> r == ValidateServer(c.server)
    ensures ServerValid(c.server) ==> r == ValidateStorage(c.storage)
  {
    var sections := [ValidateServer(c.server), ValidateStorage(c.storage)];
    assert sections[0] == ValidateServer(c.server) && sections[1] == ValidateStorage(c.storage);
    FirstError(sections)
  }

  /** The first failing outcome of a list, or Pass. */
  function FirstError(outcomes: seq<Outcome>): (r: Outcome)
    ensures r == Pass <==> forall i :: 0 <= i < |outcomes| ==> outcomes[i] == Pass
    ensures r.Fail? ==>
              (exists i :: && 0 <= i < |outcomes| && r == outcomes[i]
                           && forall j :: 0 <= j < i ==> outcomes[j] == Pass)
  {
    if |outcomes| == 0 then Pass
    else if outcomes[0].Fail? then outcomes[0]
    else
      var rest := FirstError(outcomes[1..]);
      assert forall i :: 1 <= i < |outcomes| ==> outcomes[i] == outcomes[1..][i - 1];
      if rest.Fail? then
        var i :| 0 <= i < |outcomes[1..]| && rest == outcomes[1..][i]
                 && forall j :: 0 <= j < i ==> outcomes[1..][j] == Pass;
        assert outcomes[i + 1] == outcomes[1..][i];
        rest
      else rest
  }
}

/** Objects: an opaque payload paired with the absolute instant at which it
    expires, the options that set that instant, and the resolution of
    client-supplied request settings into an object. */
module Objects {
  import opened Clock

  type Byte = b: int | 0 <= b < 256

  /** An immutable stored value. `expires` is always defined: "never
      expires" is the far-future instant Interstellar. */
  datatype Object = Object(data: seq<Byte>, expires: int)

  /** 2067-01-01 00:00 UTC, the expiry given to timeless objects: the
      number of seconds from the zero instant to the Unix epoch
      (62135596800) plus the seconds from the epoch to that date
      (35429 days of 86400 seconds), in nanoseconds. */
  const Interstellar: int := (62_135_596_800 + 35_429 * 86_400) * 1_000_000_000

  /** An option applied to an object under construction. Each option reads
      the clock once; all reads of one operation see the same `now`. */
  datatype Opt =
    | WithTimeout(timeout: Int64)     // expires now + timeout
    | WithDeadline(deadline: int)     // expires exactly at deadline
    | WithoutTimeout                  // expires at Interstellar

  /** Client settings for a new object. `timeout` is a count of seconds
      held in a duration; `deadline` is an instant, ZeroTime when unset. */
  datatype RequestSettings = RequestSettings(
    data: seq<Byte>,
    timeout: Int64,
    deadline: int,
    timeless: bool
  )

  /** The instant an option assigns, whatever the object held before. */
  function OptExpiry(opt: Opt, now: int): int
  {
    match opt
    case WithTimeout(d) => Add(now, d)
    case WithDeadline(t) => t
    case WithoutTimeout => Interstellar
  }

  /** One option applied to an object: it replaces the expiry and keeps the
      payload. */
  function Apply(o: Object, opt: Opt, now: int): (r: Object)
    ensures r.data == o.data
    ensures opt.WithTimeout? ==> r.expires == now + opt.timeout
    ensures opt.WithDeadline? ==> r.expires == opt.deadline
    ensures opt.WithoutTimeout? ==> r.expires == Interstellar
  {
    o.(expires := OptExpiry(opt, now))
  }

  /** Options applied left to right, as the construction loop does. The
      payload survives every option and the last option fixes the expiry. */
  function ApplyAll(o: Object, opts: seq<Opt>, now: int): (r: Object)
    ensures r.data == o.data
    ensures |opts| == 0 ==> r == o
    ensures |opts| > 0 ==> r.expires == OptExpiry(opts[|opts| - 1], now)
    decreases |opts|
  {
    if |opts| == 0 then o
    else ApplyAll(Apply(o, opts[0], now), opts[1..], now)
  }

  /** A new object holding `data`, starting from the zero expiry and then
      shaped by the options in order. */
  function New(data: seq<Byte>, opts: seq<Opt>, now: int): (r: Object)
    ensures r.data == data
    ensures |opts| == 0 ==> r.expires == ZeroTime
    ensures |opts| > 0 ==> r.expires == OptExpiry(opts[|opts| - 1], now)
  {
    ApplyAll(Object(data, ZeroTime), opts, now)
  }

  /** The payload of an object. */
  function Binary(o: Object): (data: seq<Byte>)
    ensures data == o.data
  {
    o.data
  }

  /** Whether the object's expiry lies strictly before `now`. */
  predicate IsExpired(o: Object, now: int)
    ensures IsExpired(o, now) <==> o.expires < now
  {
    Before(o.expires, now)
  }

  /** Which resolution rule the settings select, the first that matches in
      the order the program tests them. */
  datatype Rule = ByTimeout | ByDeadline | ByTimeless | ByDefault

  function RuleOf(s: RequestSettings): Rule
  {
    if s.timeout != 0 then ByTimeout
    else if s.deadline != ZeroTime then ByDeadline
    else if s.timeless then ByTimeless
    else ByDefault
  }

  /** Turns request settings into an object. `defaultTimeout` is the
      store's default time to live, already a duration. */
  function Resolve(s: RequestSettings, defaultTimeout: Int64, now: int): (r: Object)
    ensures Binary(r) == s.data
    ensures s.timeout != 0 ==> r.expires == now + Seconds(s.timeout)
    ensures s.timeout == 0 && s.deadline != ZeroTime ==> r.expires == s.deadline
    ensures s.timeout == 0 && s.deadline == ZeroTime && s.timeless ==> r.expires == Interstellar
    ensures s.timeout == 0 && s.deadline == ZeroTime && !s.timeless ==> r.expires == now + defaultTimeout
  {
    if s.timeout != 0 then New(s.data, [WithTimeout(Seconds(s.timeout))], now)
    else if s.deadline != ZeroTime then New(s.data, [WithDeadline(s.deadline)], now)
    else if s.timeless then New(s.data, [WithoutTimeout], now)
    else New(s.data, [WithTimeout(defaultTimeout)], now)
  }
}

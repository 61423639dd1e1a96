/** Properties of expiry resolution and of the construction options. */
module ObjectProperties {
  import opened Clock
  import opened Objects

  /** Applying a list of options in two parts is applying the whole list. */
  lemma ApplyAllAppend(o: Object, a: seq<Opt>, b: seq<Opt>, now: int)
    ensures ApplyAll(o, a + b, now) == ApplyAll(ApplyAll(o, a, now), b, now)
  {
  }

  /** Whatever options came before, one more option alone decides the
      expiry, and the payload is still the one given to New. */
  lemma LastOptionWins(data: seq<Byte>, opts: seq<Opt>, opt: Opt, now: int)
    ensures New(data, opts + [opt], now) == Object(data, OptExpiry(opt, now))
  {
  }

  /** A non-zero timeout decides the expiry: neither the deadline nor the
      timeless flag has any effect on the object. */
  lemma TimeoutOverridesDeadlineAndTimeless(s: RequestSettings, deadline: int, timeless: bool, ttl: Int64, now: int)
    requires s.timeout != 0
    ensures Resolve(s.(deadline := deadline, timeless := timeless), ttl, now) == Resolve(s, ttl, now)
    ensures Resolve(s, ttl, now) == Object(s.data, now + Seconds(s.timeout))
  {
  }

  /** Without a timeout, a set deadline decides the expiry even when the
      timeless flag is also set. */
  lemma DeadlineOverridesTimeless(s: RequestSettings, timeless: bool, ttl: Int64, now: int)
    requires s.timeout == 0 && s.deadline != ZeroTime
    ensures Resolve(s.(timeless := timeless), ttl, now) == Resolve(s, ttl, now)
    ensures Resolve(s, ttl, now) == Object(s.data, s.deadline)
  {
  }

  /** The default time to live matters only when no rule before it
      matches; the store's time to live has no effect otherwise. */
  lemma DefaultOnlyWhenNothingElse(s: RequestSettings, ttl1: Int64, ttl2: Int64, now: int)
    ensures RuleOf(s) != ByDefault ==> Resolve(s, ttl1, now) == Resolve(s, ttl2, now)
    ensures RuleOf(s) == ByDefault ==> Resolve(s, ttl1, now).expires - Resolve(s, ttl2, now).expires == ttl1 - ttl2
  {
  }

  /** A timeless object's expiry does not depend on when it was made. */
  lemma TimelessIndependentOfNow(s: RequestSettings, ttl: Int64, now1: int, now2: int)
    requires RuleOf(s) == ByTimeless
    ensures Resolve(s, ttl, now1) == Resolve(s, ttl, now2)
    ensures Resolve(s, ttl, now1).expires == Interstellar
  {
  }

  /** The precedence the comment on the settings type describes: timeless,
      then deadline, then timeout. */
  function DocumentedResolve(s: RequestSettings, defaultTimeout: Int64, now: int): (r: Object)
    ensures r.data == s.data
    ensures s.timeless ==> r.expires == Interstellar
  {
    if s.timeless then New(s.data, [WithoutTimeout], now)
    else if s.deadline != ZeroTime then New(s.data, [WithDeadline(s.deadline)], now)
    else if s.timeout != 0 then New(s.data, [WithTimeout(Seconds(s.timeout))], now)
    else New(s.data, [WithTimeout(defaultTimeout)], now)
  }

  /** The implemented precedence and the documented one disagree: a
      one-second timeout together with the timeless flag expires one second
      after creation, not in 2067, for any creation instant before 2067. */
  lemma DocumentedPrecedenceDiffers(ttl: Int64, now: int)
    requires now + Second < Interstellar
    ensures var s := RequestSettings([1], 1, ZeroTime, true);
            && Resolve(s, ttl, now).expires == now + Second
            && DocumentedResolve(s, ttl, now).expires == Interstellar
            && Resolve(s, ttl, now) != DocumentedResolve(s, ttl, now)
  {
  }

  /** The two precedences agree whenever the settings are unambiguous: the
      timeless flag comes without a timeout or a deadline, and a deadline
      comes without a timeout. */
  lemma PrecedencesAgreeWhenUnambiguous(s: RequestSettings, ttl: Int64, now: int)
    requires !s.timeless || (s.timeout == 0 && s.deadline == ZeroTime)
    requires s.deadline == ZeroTime || s.timeout == 0
    ensures Resolve(s, ttl, now) == DocumentedResolve(s, ttl, now)
  {
  }

  /** Expiry is strict: an object is still live at its own expiry instant
      and expired one nanosecond later, and once expired it stays so. */
  lemma ExpiryIsStrictAndPermanent(o: Object, t: int, u: int)
    ensures !IsExpired(o, o.expires)
    ensures IsExpired(o, o.expires + 1)
    ensures IsExpired(o, t) && t <= u ==> IsExpired(o, u)
    ensures IsExpired(o, t) <==> o.expires < t
  {
  }

  /** A negative timeout down to -9223372036 seconds, the most negative
      whole number of seconds a duration can hold, yields an object that is
      already expired when it is created. */
  lemma NegativeTimeoutAlreadyExpired(s: RequestSettings, ttl: Int64, now: int)
    requires -MaxSeconds <= s.timeout < 0
    ensures IsExpired(Resolve(s, ttl, now), now)
  {
  }

  /** The option with a negative duration, as used directly by callers,
      also yields an already expired object. */
  lemma NegativeDurationOptionExpired(data: seq<Byte>, d: Int64, now: int)
    requires d < 0
    ensures IsExpired(New(data, [WithTimeout(d)], now), now)
  {
  }

  /** A positive timeout within range keeps the object live until exactly
      `timeout` seconds have passed. */
  lemma PositiveTimeoutLifetime(s: RequestSettings, ttl: Int64, now: int, t: int)
    requires 0 < s.timeout <= MaxSeconds
    ensures IsExpired(Resolve(s, ttl, now), t) <==> t > now + s.timeout * Second
  {
  }

  /** The seconds-to-duration product wraps like the machine's: a timeout
      of 2^55 seconds is non-zero, so it selects the timeout rule, but its
      duration wraps to zero and the object expires at its creation
      instant. */
  lemma HugeTimeoutWrapsToZero(data: seq<Byte>, ttl: Int64, now: int)
    ensures var s := RequestSettings(data, 0x80_0000_0000_0000, ZeroTime, false);
            && RuleOf(s) == ByTimeout
            && Resolve(s, ttl, now).expires == now
            && IsExpired(Resolve(s, ttl, now), now + 1)
  {
  }

  /** Below that range a negative timeout wraps the other way: -9223372037
      seconds becomes a duration of about 292 years, so the object is live
      when it is created instead of already expired. */
  lemma NegativeTimeoutWrapsPositive(data: seq<Byte>, ttl: Int64, now: int)
    ensures var s := RequestSettings(data, -9_223_372_037, ZeroTime, false);
            && RuleOf(s) == ByTimeout
            && Resolve(s, ttl, now).expires == now + 9_223_372_036_709_551_616
            && !IsExpired(Resolve(s, ttl, now), now)
  {
  }
}

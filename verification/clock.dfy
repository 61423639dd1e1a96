/** Durations and instants. A duration is a 64-bit count of nanoseconds, as
    in the program, and arithmetic on durations wraps around like the
    machine's. An instant is a count of nanoseconds since the zero instant
    (00:00 UTC on 1 January of year 1); instant 0 is the zero time. */
module Clock {

  const MinInt64: int := -0x8000_0000_0000_0000
  const MaxInt64: int := 0x7fff_ffff_ffff_ffff
  const TwoTo64: int := 0x1_0000_0000_0000_0000

  type Int64 = x: int | MinInt64 <= x <= MaxInt64

  /** One second, in nanoseconds. */
  const Second: Int64 := 1_000_000_000

  /** The largest number of whole seconds a duration can hold. */
  const MaxSeconds: int := 9_223_372_036

  /** The zero instant, which reports IsZero. */
  const ZeroTime: int := 0

  /** Reduces an integer to the 64-bit two's-complement value with the same
      low 64 bits. */
  function WrapInt64(x: int): (r: Int64)
    ensures (r - x) % TwoTo64 == 0
    ensures MinInt64 <= x <= MaxInt64 ==> r == x
  {
    var m := (x - MinInt64) % TwoTo64;
    m + MinInt64
  }

  /** Multiplication of two durations, as the machine does it. */
  function MulDuration(a: Int64, b: Int64): (r: Int64)
    ensures (r - a * b) % TwoTo64 == 0
    ensures MinInt64 <= a * b <= MaxInt64 ==> r == a * b
  {
    WrapInt64(a * b)
  }

  /** A count of seconds turned into a duration: `n * time.Second`. */
  function Seconds(n: Int64): (d: Int64)
    ensures (d - n * Second) % TwoTo64 == 0
    ensures -MaxSeconds <= n <= MaxSeconds ==> d == n * Second
  {
    MulDuration(n, Second)
  }

  /** Go's Time.Add on the instant line; the saturation Go applies far
      beyond year 292 billion is not modelled. */
  function Add(t: int, d: Int64): int
  {
    t + d
  }

  /** Go's Time.Before: the strict order on instants. */
  predicate Before(t: int, u: int)
  {
    t < u
  }
}

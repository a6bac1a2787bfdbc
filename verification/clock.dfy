/**
 Points in time as .NET's `DateTime` counts them: 100-nanosecond ticks since
 00:00:00 on 1 January of year 1, and the conversion the weather record uses
 for the provider's Unix timestamp (`DateTimeOffset.FromUnixTimeSeconds`).
 */
module Clock {
  import opened Wrappers

  /** A UTC `DateTime`, by its tick count. */
  datatype Instant = Instant(ticks: int)

  const TicksPerSecond: int := 10_000_000

  /** The ticks of 1970-01-01T00:00:00Z. */
  const UnixEpochTicks: int := 621_355_968_000_000_000

  /** The seconds `FromUnixTimeSeconds` accepts: those of years 1 to 9999. */
  const MinUnixSeconds: int := -62_135_596_800
  const MaxUnixSeconds: int := 253_402_300_799

  /** `DateTimeOffset.FromUnixTimeSeconds(seconds).UtcDateTime`; `None` where
      the call throws `ArgumentOutOfRangeException`. */
  function FromUnixTimeSeconds(seconds: int): (r: Option<Instant>)
    ensures r.Some? <==> MinUnixSeconds <= seconds <= MaxUnixSeconds
    ensures r.Some? ==> 0 <= r.value.ticks
  {
    if seconds < MinUnixSeconds || seconds > MaxUnixSeconds then None
    else Some(Instant(seconds * TicksPerSecond + UnixEpochTicks))
  }

  /** `DateTimeOffset.ToUnixTimeSeconds()` of a UTC instant: whole seconds
      since the epoch, rounded down. */
  function ToUnixTimeSeconds(t: Instant): int
    requires 0 <= t.ticks
  {
    t.ticks / TicksPerSecond - UnixEpochTicks / TicksPerSecond
  }

  /** Converting back gives the seconds that went in. */
  lemma UnixSecondsRoundTrip(seconds: int)
    requires MinUnixSeconds <= seconds <= MaxUnixSeconds
    ensures FromUnixTimeSeconds(seconds).Some?
    ensures ToUnixTimeSeconds(FromUnixTimeSeconds(seconds).value) == seconds
  {
    var t := seconds * TicksPerSecond + UnixEpochTicks;
    assert UnixEpochTicks == 62_135_596_800 * TicksPerSecond;
    assert t == (seconds + 62_135_596_800) * TicksPerSecond;
    assert t / TicksPerSecond == seconds + 62_135_596_800;
  }

  /** Later seconds give later instants. */
  lemma FromUnixMonotone(a: int, b: int)
    requires MinUnixSeconds <= a < b <= MaxUnixSeconds
    ensures FromUnixTimeSeconds(a).value.ticks < FromUnixTimeSeconds(b).value.ticks
  {
  }
}

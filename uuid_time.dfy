/**
  `UUIDv6_Time.swift`: timestamps are counts of 100-nanosecond intervals.
  The shift between the Unix epoch (1970-01-01) and the Gregorian epoch of
  UUID timestamps (1582-10-15, section 5.1 of RFC 9562) is added and
  subtracted with Swift's wrapping operators `&+` and `&-` on `UInt64`. The
  system timestamp is built with wrapping arithmetic from the clock's
  seconds and sub-second part and masked to its low 60 bits, the width of
  the UUID timestamp field (section 5.6 of RFC 9562).

  The clock read (`clock_gettime`, `gettimeofday`) is not modelled: its
  fields are parameters.
 */
module UuidTime {
  const TwoTo64: nat := 0x1_0000_0000_0000_0000
  const TwoTo60: nat := 0x1000_0000_0000_0000

  /** 100-nanosecond intervals from 1582-10-15 to 1970-01-01. */
  const GregorianOffset: nat := 0x01B2_1DD2_1381_4000

  newtype uint64 = x: int | 0 <= x < 0x1_0000_0000_0000_0000
  newtype int64 = x: int | -0x8000_0000_0000_0000 <= x < 0x8000_0000_0000_0000

  /** `UInt64(bitPattern:)`: a negative value becomes its two's-complement pattern. */
  function BitPattern(x: int64): (r: uint64)
    ensures x >= 0 ==> r as int == x as int
    ensures x < 0 ==> r as int == x as int + TwoTo64
  {
    if x >= 0 then x as int as uint64 else (x as int + TwoTo64) as uint64
  }

  /** `&+`. */
  function WrappingAdd(a: uint64, b: uint64): (r: uint64)
    ensures a as int + b as int < TwoTo64 ==> r as int == a as int + b as int
    ensures a as int + b as int >= TwoTo64 ==> r as int == a as int + b as int - TwoTo64
  {
    ((a as int + b as int) % TwoTo64) as uint64
  }

  /** `&-`. */
  function WrappingSub(a: uint64, b: uint64): (r: uint64)
    ensures a >= b ==> r as int == a as int - b as int
    ensures a < b ==> r as int == a as int - b as int + TwoTo64
  {
    ((a as int - b as int) % TwoTo64) as uint64
  }

  /** `&*`: the product modulo 2^64. */
  function WrappingMul(a: uint64, b: uint64): (r: uint64)
    ensures a as int * b as int < TwoTo64 ==> r as int == a as int * b as int
  {
    var p := a as int * b as int;
    ProductOfNaturals(a as int, b as int);
    (p % TwoTo64) as uint64
  }

  lemma ProductOfNaturals(x: int, y: int)
    requires 0 <= x && 0 <= y
    ensures 0 <= x * y
    ensures x * y < TwoTo64 ==> (x * y) % TwoTo64 == x * y
  {
  }

  /** `_unix_to_uuid_timestamp(unix:)`. */
  function UnixToUuid(unix: uint64): uint64 {
    WrappingAdd(unix, GregorianOffset as uint64)
  }

  /** `_uuid_timestamp_to_unix(timestamp:)`. */
  function UuidToUnix(timestamp: uint64): uint64 {
    WrappingSub(timestamp, GregorianOffset as uint64)
  }

  /** `& 0x0FFF_FFFF_FFFF_FFFF`: the low 60 bits. */
  function Low60(x: uint64): (r: uint64)
    ensures r as int < TwoTo60
    ensures (x as int - r as int) % TwoTo60 == 0
    ensures x as int < TwoTo60 ==> r == x
  {
    (x as int % TwoTo60) as uint64
  }

  /** `_get_system_timestamp()` on the `clock_gettime` path: seconds and nanoseconds. */
  function SystemTimestamp(sec: int64, nsec: int64): (t: uint64)
    ensures t as int < TwoTo60
  {
    Low60(WrappingAdd(WrappingMul(BitPattern(sec), 10_000_000), (BitPattern(nsec) as int / 100) as uint64))
  }

  /** `_get_system_timestamp()` on the `gettimeofday` path: seconds and microseconds. */
  function FallbackTimestamp(sec: int64, usec: int64): (t: uint64)
    ensures t as int < TwoTo60
  {
    Low60(WrappingAdd(WrappingMul(BitPattern(sec), 10_000_000), WrappingMul(BitPattern(usec), 10)))
  }

  // ----- properties -----

  /** The offset is 141427 days of 86400 seconds, in 100-nanosecond units. */
  lemma OffsetIsDaysBetweenEpochs()
    ensures GregorianOffset == 141427 * 86400 * 10_000_000
  {
  }

  /** Wrapping addition and subtraction of the offset undo each other on every 64-bit value. */
  lemma ConversionsAreInverse(x: uint64)
    ensures UuidToUnix(UnixToUuid(x)) == x
    ensures UnixToUuid(UuidToUnix(x)) == x
  {
  }

  /** A 60-bit Unix timestamp moves into the UUID range by a plain addition, without wrapping. */
  lemma SixtyBitUnixDoesNotWrap(unix: uint64)
    requires unix as int < TwoTo60
    ensures UnixToUuid(unix) as int == unix as int + GregorianOffset
  {
  }

  /** A UUID timestamp before the Unix epoch wraps around to a huge Unix value. */
  lemma PreUnixUuidWraps(timestamp: uint64)
    requires timestamp as int < GregorianOffset
    ensures UuidToUnix(timestamp) as int == timestamp as int - GregorianOffset + TwoTo64
  {
  }

  /** For a clock after 1970 whose count fits in 60 bits, the timestamp is `sec * 10^7 + nsec / 100`. */
  lemma SystemTimestampInRange(sec: int64, nsec: int64)
    requires 0 <= sec && 0 <= nsec < 1_000_000_000
    requires sec as int * 10_000_000 + nsec as int / 100 < TwoTo60
    ensures SystemTimestamp(sec, nsec) as int == sec as int * 10_000_000 + nsec as int / 100
  {
  }

  /** The fallback path counts `sec * 10^7 + usec * 10` under the same conditions. */
  lemma FallbackTimestampInRange(sec: int64, usec: int64)
    requires 0 <= sec && 0 <= usec < 1_000_000
    requires sec as int * 10_000_000 + usec as int * 10 < TwoTo60
    ensures FallbackTimestamp(sec, usec) as int == sec as int * 10_000_000 + usec as int * 10
  {
  }

  /** Both paths agree when the sub-second part is a whole number of microseconds. */
  lemma PathsAgree(sec: int64, usec: int64)
    requires 0 <= sec && 0 <= usec < 1_000_000
    requires sec as int * 10_000_000 + usec as int * 10 < TwoTo60
    ensures SystemTimestamp(sec, (usec as int * 1000) as int64) == FallbackTimestamp(sec, usec)
  {
    SystemTimestampInRange(sec, (usec as int * 1000) as int64);
    FallbackTimestampInRange(sec, usec);
  }
}

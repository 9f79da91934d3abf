/** The time conversions of util.h, in 32-bit arithmetic: 1/128 s on the node, milliseconds on the host. */
module TimeUtil {
  const UINT32 := 0x1_0000_0000
  const MAX_INTERNAL_TIME_FOR_FULL_PRECISION := 0xFFFF_FFFF / 1000
  const MAX_MS_TIME_FOR_FULL_PRECISION := 0xFFFF_FFFF / 128

  type uint32 = x: int | 0 <= x < UINT32

  function InternalTimeToMs(internalTime: uint32): uint32 {
    if internalTime < MAX_INTERNAL_TIME_FOR_FULL_PRECISION
    then ((internalTime * 1000) % UINT32) / 128
    else ((internalTime / 128) * 1000) % UINT32
  }

  function MsToInternalTime(timeInMs: uint32): uint32 {
    if timeInMs < MAX_MS_TIME_FOR_FULL_PRECISION
    then ((timeInMs * 128) % UINT32) / 1000
    else (timeInMs / 1000) / 128
  }

  // How far the result of a conversion of t is below the exact value t * 1000 / 128, times 128
  function Shortfall(t: uint32): int { t * 1000 - InternalTimeToMs(t) * 128 }

  // The result never exceeds the exact value; it is less than a second below it exactly when the whole
  // seconds, in milliseconds, fit 32 bits.
  lemma WithinASecondIff(t: uint32)
    ensures Shortfall(t) >= 0
    ensures Shortfall(t) < 1000 * 128 <==> (t / 128) * 1000 < UINT32
    ensures t < MAX_INTERNAL_TIME_FOR_FULL_PRECISION ==> Shortfall(t) < 128
  {
    if t >= MAX_INTERNAL_TIME_FOR_FULL_PRECISION {
      var whole := (t / 128) * 1000;
      var wraps := whole / UINT32;
      assert whole == wraps * UINT32 + InternalTimeToMs(t);
      assert t * 1000 == whole * 128 + (t % 128) * 1000;
    }
  }

  // Below the limit the result is the last millisecond reached; above it the whole seconds, in 32 bits.
  lemma MsExactly(t: uint32)
    ensures t < 4_294_967 ==> InternalTimeToMs(t) * 128 <= t * 1000 < (InternalTimeToMs(t) + 1) * 128
    ensures t >= 4_294_967 && t / 128 < 4_294_968 ==> InternalTimeToMs(t) == t / 128 * 1000
    ensures t >= 4_294_967 ==> (t / 128 * 1000 - InternalTimeToMs(t)) % 0x1_0000_0000 == 0
  {
  }

  // Likewise the last unit reached below the limit; above it the whole seconds divided by 128.
  lemma InternalExactly(ms: uint32)
    ensures ms < 33_554_431 ==> MsToInternalTime(ms) * 1000 <= ms * 128 < (MsToInternalTime(ms) + 1) * 1000
    ensures ms >= 33_554_431 ==> MsToInternalTime(ms) * 128_000 <= ms < (MsToInternalTime(ms) + 1) * 128_000
  {
  }

  function RoundTrip(ms: uint32): uint32 { InternalTimeToMs(MsToInternalTime(ms)) }

  // Milliseconds to internal time and back never gains; it loses at most eight milliseconds exactly
  // below one less than the limit for full precision.
  lemma RoundTripIff(ms: uint32)
    ensures RoundTrip(ms) <= ms
    ensures ms - RoundTrip(ms) <= 8 <==> ms < MAX_MS_TIME_FOR_FULL_PRECISION - 1
  {
    if ms < MAX_MS_TIME_FOR_FULL_PRECISION - 1 {
      FullPrecision(ms);
    } else if ms == MAX_MS_TIME_FOR_FULL_PRECISION - 1 {
      LastFullPrecision();
    } else {
      CoarseLoses(ms);
    }
  }

  lemma FullPrecision(ms: uint32)
    requires ms < MAX_MS_TIME_FOR_FULL_PRECISION - 1
    ensures ms - 8 <= RoundTrip(ms) <= ms
  {
    hide MsToInternalTime, InternalTimeToMs;
    PreciseForward(ms);
    PreciseBack((ms * 128) / 1000);
    ThereAndBack(ms);
  }

  lemma PreciseForward(ms: uint32)
    requires ms < MAX_MS_TIME_FOR_FULL_PRECISION - 1
    ensures MsToInternalTime(ms) == (ms * 128) / 1000 < MAX_INTERNAL_TIME_FOR_FULL_PRECISION
  {
  }

  lemma PreciseBack(i: uint32)
    requires i < MAX_INTERNAL_TIME_FOR_FULL_PRECISION
    ensures InternalTimeToMs(i) == (i * 1000) / 128
  {
  }

  lemma ThereAndBack(ms: nat)
    ensures ms - 8 <= (((ms * 128) / 1000) * 1000) / 128 <= ms
  {
    var i := (ms * 128) / 1000;
    assert i * 1000 <= ms * 128 < i * 1000 + 1000;
  }

  // The one value whose internal time is converted precisely one way and coarsely the other: 430 ms
  // are lost.
  lemma LastFullPrecision()
    ensures RoundTrip(33_554_430) == 33_554_000
    ensures MAX_MS_TIME_FOR_FULL_PRECISION - 1 == 33_554_430
  {
    hide InternalTimeToMs;
    LastForward();
    LastBack();
  }

  lemma LastForward()
    ensures MsToInternalTime(33_554_430) == 4_294_967
  {
  }

  lemma LastBack()
    ensures InternalTimeToMs(4_294_967) == 33_554_000
  {
  }

  // Above the limit the conversion divides by 1000 and by 128.
  lemma CoarseLoses(ms: uint32)
    requires ms >= MAX_MS_TIME_FOR_FULL_PRECISION
    ensures RoundTrip(ms) <= 262_140
  {
    var i := (ms / 1000) / 128;
    assert i <= 33_554;
  }
}

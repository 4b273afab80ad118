/** Windows tick counts and wire times (windows_time_from_wire and wire_time_from_windows in
    crates/netfilum-client/src/mount.rs); ticks are as in section 2.3.3 of [MS-DTYP]. */
module FileTimes {
  import opened Wrappers
  import opened Protocol

  const WINDOWS_EPOCH_OFFSET_SECS: int := 11_644_473_600
  const WINDOWS_TICKS_PER_SECOND: int := 10_000_000
  const NEVER: u64 := TWO_64 - 1

  // Two's-complement addition, and reading the bits of an i64 as a u64.
  function WrappingAdd(a: i64, b: int): i64 {
    (a + b + TWO_63) % TWO_64 - TWO_63
  }

  function AsU64(a: i64): u64 {
    if a < 0 then a + TWO_64 else a
  }

  function Saturating(n: nat): u64 {
    if n < TWO_64 then n else TWO_64 - 1
  }

  function WindowsTimeFromWire(value: Option<FileTimeValue>): u64 {
    if value.None? then 0
    else if value.value.secs < -WINDOWS_EPOCH_OFFSET_SECS then 0
    else
      var unixSeconds := AsU64(WrappingAdd(value.value.secs, WINDOWS_EPOCH_OFFSET_SECS));
      Saturating(Saturating(unixSeconds * WINDOWS_TICKS_PER_SECOND) + value.value.nanos / 100)
  }

  function WireTimeFromWindows(value: u64): Option<FileTimeValue> {
    if value == 0 || value == NEVER then None
    else
      Some(FileTimeValue(
        value / WINDOWS_TICKS_PER_SECOND - WINDOWS_EPOCH_OFFSET_SECS,
        value % WINDOWS_TICKS_PER_SECOND * 100))
  }

  // The tick count a wire time stands for, before any clamping.
  function Ticks(w: FileTimeValue): int {
    (w.secs + WINDOWS_EPOCH_OFFSET_SECS) * WINDOWS_TICKS_PER_SECOND + w.nanos / 100
  }

  // Clamping below the Windows epoch and saturating above is all the arithmetic does: the one
  // addition that can wrap around gives the saturated answer all the same.
  lemma TicksClamped(w: FileTimeValue)
    ensures WindowsTimeFromWire(Some(w)) ==
            if w.secs < -WINDOWS_EPOCH_OFFSET_SECS then 0 else if Ticks(w) < TWO_64 then Ticks(w) else NEVER
  {
    if w.secs >= -WINDOWS_EPOCH_OFFSET_SECS {
      var s := w.secs + WINDOWS_EPOCH_OFFSET_SECS;
      if s < TWO_63 {
        assert WrappingAdd(w.secs, WINDOWS_EPOCH_OFFSET_SECS) == s;
      } else {
        assert WrappingAdd(w.secs, WINDOWS_EPOCH_OFFSET_SECS) == s - TWO_64;
      }
    }
  }

  // The Windows epoch, the Unix epoch (the tick count programs know it by), the last instant of the
  // 1900s, and one tick.
  lemma KnownTimes()
    ensures WindowsTimeFromWire(Some(FileTimeValue(-11_644_473_600, 0))) == 0
    ensures WindowsTimeFromWire(Some(FileTimeValue(0, 0))) == 116_444_736_000_000_000
    ensures WindowsTimeFromWire(Some(FileTimeValue(946_684_799, 999_999_999))) == 125_911_583_999_999_999
    ensures WireTimeFromWindows(116_444_736_000_000_001) == Some(FileTimeValue(0, 100))
    ensures WireTimeFromWindows(0) == None && WireTimeFromWindows(0xffff_ffff_ffff_ffff) == None && WindowsTimeFromWire(None) == 0
  {
    TicksClamped(FileTimeValue(-11_644_473_600, 0));
    TicksClamped(FileTimeValue(0, 0));
    TicksClamped(FileTimeValue(946_684_799, 999_999_999));
  }

  // Ticks survive the wire except the one value that means "never".
  lemma TicksRoundTrip(value: u64)
    ensures WindowsTimeFromWire(WireTimeFromWindows(value)) == value <==> value != NEVER
    ensures WireTimeFromWindows(value).Some? ==> WireTimeFromWindows(value).value.nanos < 1_000_000_000
  {
    if value != 0 && value != NEVER {
      var w := WireTimeFromWindows(value).value;
      TicksClamped(w);
      assert w.nanos / 100 == value % WINDOWS_TICKS_PER_SECOND;
    }
  }

  predicate NoLater(a: FileTimeValue, b: FileTimeValue) {
    a.secs < b.secs || (a.secs == b.secs && a.nanos <= b.nanos)
  }

  lemma TicksMonotone(a: FileTimeValue, b: FileTimeValue)
    requires NoLater(a, b) && a.nanos < 1_000_000_000 && b.nanos < 1_000_000_000
    ensures WindowsTimeFromWire(Some(a)) <= WindowsTimeFromWire(Some(b))
  {
    TicksClamped(a);
    TicksClamped(b);
    if a.secs < b.secs {
      assert a.nanos / 100 < WINDOWS_TICKS_PER_SECOND;
    }
  }

  // A wire time comes back, short of its last hundred nanoseconds, exactly when it neither
  // clamps nor saturates.
  lemma WireRoundTrip(w: FileTimeValue)
    requires w.nanos < 1_000_000_000
    ensures WireTimeFromWindows(WindowsTimeFromWire(Some(w))) == Some(w.(nanos := w.nanos / 100 * 100)) <==>
            0 < Ticks(w) < NEVER
  {
    TicksClamped(w);
    var low := w.nanos / 100;
    assert low < WINDOWS_TICKS_PER_SECOND;
    var s := w.secs + WINDOWS_EPOCH_OFFSET_SECS;
    if w.secs >= -WINDOWS_EPOCH_OFFSET_SECS && Ticks(w) < NEVER {
      assert Ticks(w) == s * WINDOWS_TICKS_PER_SECOND + low;
      assert Ticks(w) / WINDOWS_TICKS_PER_SECOND == s && Ticks(w) % WINDOWS_TICKS_PER_SECOND == low;
    }
  }
}

/** System time from the RTC counter: the split 64-bit product, the retained running sum, and the
    fix-up register of chips without retained memory. */
module Rtc {
  import opened Common

  /** A value of the 48-bit RTC counter. */
  type ticks48 = n: int | 0 <= n < TWO_48

  const TWO_48: nat := 0x1_0000_0000_0000
  const FRACT: nat := 0x8_0000       // 2^19, the fraction of the calibration value
  const FRACT_UP: nat := 0x2000      // 2^(32 - 19)

  /** The 64-bit result of an operation. */
  function Wrap(n: int): u64 {
    n % TWO_64
  }

  lemma NoWrap(n: int)
    requires 0 <= n < TWO_64
    ensures Wrap(n) == n
  {
  }

  /** The product of ticks and cal as it is computed on unsigned 64-bit numbers. */
  function SplitProduct(ticks: u64, cal: u32): u64 {
    var low, high := ticks % TWO_32, ticks / TWO_32;
    Wrap(Wrap(low * cal) / FRACT + Wrap(Wrap(high * cal) * FRACT_UP))
  }

  /** What the code means: (ticks * cal) >> 19. */
  function Micros(ticks: nat, cal: nat): nat {
    ticks * cal / FRACT
  }

  /** For a 48-bit counter and every calibration value no step overflows, and the result is the
      whole part of the exact product. */
  lemma SplitProductIsExact(ticks: ticks48, cal: u32)
    ensures SplitProduct(ticks, cal) == Micros(ticks, cal) <= ticks * FRACT_UP
  {
    var low, high := ticks % TWO_32, ticks / TWO_32;
    ProductBelow(low, cal, TWO_32, TWO_32);
    ProductBelow(high, cal, 0x1_0000, TWO_32);
    ShiftedSum(low * cal, high * cal);
    ProductOfParts(low, high, cal);
    ProductBound(ticks, cal);
  }

  lemma ProductOfParts(low: nat, high: nat, cal: nat)
    ensures (low + high * TWO_32) * cal == low * cal + high * cal * TWO_32
  {
  }

  lemma ProductBound(ticks: nat, cal: u32)
    ensures ticks * cal / FRACT <= ticks * FRACT_UP
  {
    var p := ticks * cal;
    assert p <= ticks * TWO_32;
  }

  /** The sum of the two shifted parts is the shifted sum. */
  lemma ShiftedSum(a: nat, b: nat)
    requires a < TWO_64 && b < TWO_48
    ensures Wrap(Wrap(a) / FRACT + Wrap(Wrap(b) * FRACT_UP)) == (a + b * TWO_32) / FRACT
  {
    var m := b * FRACT_UP;
    assert m < 0x2000_0000_0000_0000 && a / FRACT < 0x2000_0000_0000;
    NoWrap(a);
    NoWrap(b);
    NoWrap(m);
    NoWrap(a / FRACT + m);
    AddQuotient(a, m);
  }

  lemma AddQuotient(a: nat, m: nat)
    ensures (a + m * FRACT) / FRACT == a / FRACT + m
  {
  }

  lemma ProductBelow(a: nat, b: nat, x: nat, y: nat)
    requires a < x && b < y
    ensures a * b < x * y
  {
    assert a * b <= a * y;
    assert a * y < x * y;
  }

  /** Calibrated ticks, in units of 2^-19 us. */
  ghost function Calibrated(ticks: nat, cal: nat): nat {
    ticks * cal
  }

  /** The time is not ahead of the exact time, behind it by less than one microsecond per read, and
      cannot overflow before the counter does. */
  ghost predicate Accurate(time: nat, last: nat, exact: nat, readCount: nat) {
    && last < TWO_48
    && exact - readCount * (FRACT - 1) <= time * FRACT <= exact
    && time + (TWO_48 - last) * FRACT_UP <= TWO_64
  }

  lemma AccurateStep(time: nat, last: nat, exact: nat, readCount: nat, now: ticks48, cal: u32)
    requires Accurate(time, last, exact, readCount) && last <= now
    ensures SplitProduct(now - last, cal) == Micros(now - last, cal)
    ensures time + Micros(now - last, cal) < TWO_64
    ensures Accurate(time + Micros(now - last, cal), now, exact + Calibrated(now - last, cal), readCount + 1)
  {
    SplitProductIsExact(now - last, cal);
    var p, d := Calibrated(now - last, cal), Micros(now - last, cal);
    assert d == p / FRACT;
    assert p - (FRACT - 1) <= d * FRACT <= p;
  }

  lemma AccurateAtReset()
    ensures Accurate(0, 0, 0, 0)
  {
  }

  /** The clock of a chip with retained RTC memory. */
  class RetainedClock {
    const sum: (u64, u64, u32) -> u32   // calc_checksum
    var cal: u32                        // the stored calibration value
    var rtcTimeUs: u64                  // the retained memory
    var rtcLastTicks: u64
    var reserve: u32
    var checksum: u32
    var firstCall: bool

    ghost var exact: nat                // exact time since the last reset, in units of 2^-19 us
    ghost var readCount: nat                // readCount since the last reset

    ghost predicate ChecksumOk()
      reads this
    {
      checksum == sum(rtcTimeUs, rtcLastTicks, reserve)
    }

    /** The next read starts again from time 0. */
    ghost predicate Resets()
      reads this
    {
      cal == 0 || (firstCall && !ChecksumOk())
    }

    ghost predicate Valid()
      reads this
    {
      && (firstCall || ChecksumOk())
      && (Resets() || Accurate(rtcTimeUs, rtcLastTicks, exact, readCount))
    }

    /** Whatever the memory holds at power-up, the invariant holds, unless it passes the checksum. */
    constructor (sum: (u64, u64, u32) -> u32, cal: u32, time: u64, last: u64, reserve: u32, checksum: u32)
      requires || cal == 0 || checksum != sum(time, last, reserve)
               || (last < TWO_48 && time + (TWO_48 - last) * FRACT_UP <= TWO_64)
      ensures Valid() && firstCall && this.sum == sum && this.cal == cal
      ensures rtcTimeUs == time && rtcLastTicks == last && this.reserve == reserve && this.checksum == checksum
    {
      this.sum, this.cal, firstCall := sum, cal, true;
      rtcTimeUs, rtcLastTicks, this.reserve, this.checksum := time, last, reserve, checksum;
      exact, readCount := time * FRACT, 0;
    }

    /** The first part of `esp_rtc_get_time_us`: drops the retained memory if it is not in use. */
    method CheckRetained()
      requires Valid()
      modifies this
      ensures Accurate(rtcTimeUs, rtcLastTicks, exact, readCount) && !firstCall && cal == old(cal)
      ensures if old(Resets()) then rtcTimeUs == rtcLastTicks == exact == readCount == 0
              else rtcTimeUs == old(rtcTimeUs) && rtcLastTicks == old(rtcLastTicks)
                   && exact == old(exact) && readCount == old(readCount)
      ensures reserve == if old(Resets()) then 0 else old(reserve)
    {
      AccurateAtReset();
      hide Accurate;
      if cal == 0 || (firstCall && checksum != sum(rtcTimeUs, rtcLastTicks, reserve)) {
        rtcTimeUs, rtcLastTicks, reserve, checksum := 0, 0, 0, 0;
        exact, readCount := 0, 0;
      }
      firstCall := false;
    }

    /** `esp_rtc_get_time_us`. */
    method GetTimeUs(now: ticks48) returns (us: u64)
      requires Valid() && (Resets() || rtcLastTicks <= now)
      modifies this
      ensures !firstCall && ChecksumOk() && cal == old(cal) && rtcLastTicks == now
      ensures reserve == if old(Resets()) then 0 else old(reserve)
      ensures us == rtcTimeUs
      ensures var (time, last) := if old(Resets()) then (0, 0) else old((rtcTimeUs, rtcLastTicks));
              us == time + Micros(now - last, cal)
      ensures !old(Resets()) ==>
                && us >= old(rtcTimeUs) && readCount == old(readCount) + 1
                && exact == old(exact) + Calibrated(now - old(rtcLastTicks), cal)
      ensures old(Resets()) ==> readCount == 1 && exact == Calibrated(now, cal)
      // however often the clock was read and recalibrated since the last reset
      ensures Accurate(us, now, exact, readCount)
    {
      hide Accurate, Micros, Calibrated, SplitProduct, Wrap;
      CheckRetained();
      var ticks := Wrap(now - rtcLastTicks);
      NoWrap(now - rtcLastTicks);
      AccurateStep(rtcTimeUs, rtcLastTicks, exact, readCount, now, cal);
      var delta := SplitProduct(ticks, cal);
      NoWrap(rtcTimeUs + delta);
      rtcTimeUs := Wrap(rtcTimeUs + delta);
      rtcLastTicks := now;
      checksum := sum(rtcTimeUs, rtcLastTicks, reserve);
      exact, readCount := exact + Calibrated(ticks, cal), readCount + 1;
      us := rtcTimeUs;
    }

    /** `esp_clk_slowclk_cal_set`, with the RTC as time source: accounts for the ticks so far at
        the old calibration, then stores the new one. */
    method CalSet(newCal: u32, now: ticks48)
      requires Valid() && (Resets() || rtcLastTicks <= now)
      modifies this
      ensures Valid() && Accurate(rtcTimeUs, now, exact, readCount)
      ensures !firstCall && ChecksumOk() && cal == newCal && rtcLastTicks == now
      ensures var (time, last) := if old(Resets()) then (0, 0) else old((rtcTimeUs, rtcLastTicks));
              rtcTimeUs == time + Micros(now - last, old(cal))
      ensures !old(Resets()) ==> rtcTimeUs >= old(rtcTimeUs)
    {
      var _ := GetTimeUs(now);
      cal := newCal;
    }

    /** The chip restarts, and the retained memory and the stored calibration survive.  The first
        read will check the memory. */
    method Restart()
      requires Valid()
      modifies `firstCall
      ensures Valid() && firstCall
      ensures Resets() <==> cal == 0 || !ChecksumOk()
    {
      firstCall := true;
    }
  }

  /** What happens to the clock at a counter value: a read, a new calibration value, or a restart
      of the chip with its first read. */
  datatype ClockOp = Read(now: ticks48) | Calibrate(now: ticks48, newCal: u32) | Reboot(now: ticks48)

  /** The calibration in force after ops. */
  function CalAfter(ops: seq<ClockOp>, cal: u32): u32 {
    if ops == [] then cal
    else if ops[|ops| - 1].Calibrate? then ops[|ops| - 1].newCal
    else CalAfter(ops[..|ops| - 1], cal)
  }

  predicate NoZeroCal(ops: seq<ClockOp>) {
    forall i :: 0 <= i < |ops| && ops[i].Calibrate? ==> ops[i].newCal != 0
  }

  lemma {:induction false} CalStaysNonZero(ops: seq<ClockOp>, cal: u32, k: nat)
    requires NoZeroCal(ops) && k <= |ops| && cal != 0
    ensures CalAfter(ops[..k], cal) != 0
    decreases k
  {
    if k > 0 {
      assert ops[..k][..k - 1] == ops[..k - 1];
      CalStaysNonZero(ops, cal, k - 1);
    }
  }

  /** Time k of a run: 0 after a calibration of 0, and otherwise not below the one before. */
  ghost predicate TimeFollows(ops: seq<ClockOp>, times: seq<u64>, cal: u32, k: nat)
    requires 0 < k < |times| && k <= |ops|
  {
    if CalAfter(ops[..k], cal) == 0 then times[k] == 0 else times[k - 1] <= times[k]
  }

  ghost predicate TimesFollow(ops: seq<ClockOp>, times: seq<u64>, cal: u32) {
    |times| == |ops| && forall k :: 0 < k < |ops| ==> TimeFollows(ops, times, cal, k)
  }

  /** So without a calibration of 0 the times never decrease. */
  lemma {:induction false} TimesInOrder(ops: seq<ClockOp>, times: seq<u64>, cal: u32, i: nat, j: nat)
    requires TimesFollow(ops, times, cal) && NoZeroCal(ops) && cal != 0 && i <= j < |times|
    ensures times[i] <= times[j]
    decreases j
  {
    if i < j {
      CalStaysNonZero(ops, cal, j);
      assert TimeFollows(ops, times, cal, j);
      TimesInOrder(ops, times, cal, i, j - 1);
    }
  }

  /** One operation of a run. */
  method Apply(clock: RetainedClock, op: ClockOp) returns (us: u64)
    requires clock.Valid() && (clock.Resets() || clock.rtcLastTicks <= op.now)
    modifies clock
    ensures clock.Valid() && !clock.firstCall && clock.ChecksumOk()
    ensures clock.rtcLastTicks == op.now && clock.rtcTimeUs == us
    ensures clock.cal == if op.Calibrate? then op.newCal else old(clock.cal)
    ensures var (time, last) := if old(clock.Resets()) then (0, 0) else old((clock.rtcTimeUs, clock.rtcLastTicks));
            us == time + Micros(op.now - last, old(clock.cal))
  {
    hide Accurate, Calibrated, Micros;
    match op {
      case Read(now) =>
        us := clock.GetTimeUs(now);
      case Calibrate(now, newCal) =>
        clock.CalSet(newCal, now);
        us := clock.rtcTimeUs;
      case Reboot(now) =>
        clock.Restart();
        us := clock.GetTimeUs(now);
    }
  }

  /** The ticks since the last operation, which may have been before the run. */
  function Elapsed(ops: seq<ClockOp>, last: nat): nat
    requires ops != []
  {
    var n := |ops| - 1;
    var before := if n == 0 then last else ops[n - 1].now;
    if before <= ops[n].now then ops[n].now - before else 0
  }

  /** The retained time after ops: every step adds its ticks at the calibration in force, and a
      calibration of 0 starts again from 0. */
  function RetainedTime(ops: seq<ClockOp>, cal: u32, time: nat, last: nat): nat {
    if ops == [] then time
    else
      var c := CalAfter(ops[..|ops| - 1], cal);
      if c == 0 then 0 else RetainedTime(ops[..|ops| - 1], cal, time, last) + Micros(Elapsed(ops, last), c)
  }

  /** Every step of a run follows the one before, as long as the calibration is not 0. */
  lemma RetainedTimesFollow(ops: seq<ClockOp>, times: seq<u64>, cal: u32, time: nat, last: nat)
    requires |times| == |ops| && forall k :: 0 <= k < |ops| ==> times[k] == RetainedTime(ops[..k + 1], cal, time, last)
    ensures TimesFollow(ops, times, cal)
  {
    forall k | 0 < k < |ops| ensures TimeFollows(ops, times, cal, k) {
      assert ops[..k + 1][..k] == ops[..k];
      assert times[k - 1] == RetainedTime(ops[..k - 1 + 1], cal, time, last);
    }
  }

  /** Over any run of reads, recalibrations and restarts on a counter that does not go back, the times
      are exactly those of the calibrated ticks; they never decrease, except that a calibration of 0
      makes the next one 0. */
  method RunRetained(clock: RetainedClock, ops: seq<ClockOp>) returns (times: seq<u64>)
    requires clock.Valid()
    requires forall i :: 0 <= i < |ops| ==> clock.Resets() || clock.rtcLastTicks <= ops[i].now
    requires forall i, j :: 0 <= i < j < |ops| ==> ops[i].now <= ops[j].now
    modifies clock
    ensures var (time, last) := if old(clock.Resets()) then (0, 0) else old((clock.rtcTimeUs, clock.rtcLastTicks));
            |times| == |ops|
            && forall k :: 0 <= k < |ops| ==> times[k] == RetainedTime(ops[..k + 1], old(clock.cal), time, last)
    ensures TimesFollow(ops, times, old(clock.cal))
    ensures NoZeroCal(ops) && old(clock.cal) != 0 ==> forall i, j :: 0 <= i < j < |ops| ==> times[i] <= times[j]
  {
    hide Accurate, TimesFollow, RetainedClock.Valid, Micros;
    times := [];
    ghost var cal := clock.cal;
    ghost var (time, last) := if clock.Resets() then (0, 0) else (clock.rtcTimeUs, clock.rtcLastTicks);
    assert ops[..0] == [];
    for k := 0 to |ops|
      invariant |times| == k && clock.Valid() && clock.cal == CalAfter(ops[..k], cal)
      invariant if k == 0 then unchanged(clock)
                else clock.rtcLastTicks == ops[k - 1].now && clock.ChecksumOk() && clock.rtcTimeUs == times[k - 1]
      invariant forall i :: 0 <= i < k ==> times[i] == RetainedTime(ops[..i + 1], cal, time, last)
    {
      assert ops[..k + 1][..k] == ops[..k];
      NoTicksNoTime(ops[k].now);
      var us := Apply(clock, ops[k]);
      assert k > 0 ==> times[k - 1] == RetainedTime(ops[..k - 1 + 1], cal, time, last);
      times := times + [us];
    }
    assert ops[..|ops|] == ops;
    RetainedTimesFollow(ops, times, cal, time, last);
    if NoZeroCal(ops) && cal != 0 {
      forall i, j | 0 <= i < j < |ops| ensures times[i] <= times[j] {
        TimesInOrder(ops, times, cal, i, j);
      }
    }
  }

  /** A run in which the time goes down: one second at the nominal calibration of a 32768 Hz clock
      is read, then the calibration is set to 0 and the clock is read again. */
  method ZeroCalSetsTimeBack(sum: (u64, u64, u32) -> u32) returns (times: seq<u64>)
    ensures |times| == 3 && times[0] == 1000000 && times[2] == 0
  {
    var clock := new RetainedClock(sum, 16000000, 0, 0, 0, sum(0, 0, 0));
    var first := clock.GetTimeUs(32768);
    clock.CalSet(0, 32768);
    var second := clock.rtcTimeUs;
    var third := clock.GetTimeUs(32768);
    assert Micros(32768, 16000000) == 1000000;
    NoTicksNoTime(32768);
    times := [first, second, third];
  }

  lemma NoTicksNoTime(now: nat)
    ensures Micros(now, 0) == 0
  {
  }

  /** The clock of a chip without retained memory: the time is computed from the whole counter, and
      a fix-up register makes up for earlier calibrations. */
  class FixUpClock {
    var cal: u32
    var fixUs: u64

    ghost var offset: int   // the fix-up before it is reduced to 64 bits

    ghost predicate Valid()
      reads this
    {
      fixUs == Wrap(offset)
    }

    /** The time at a counter value. */
    ghost function TimeAt(now: ticks48): int
      reads this
    {
      Micros(now, cal) + offset
    }

    constructor (cal: u32, fixUs: u64)
      ensures Valid() && this.cal == cal && this.fixUs == fixUs && offset == fixUs
    {
      this.cal, this.fixUs, offset := cal, fixUs, fixUs;
    }

    /** `esp_rtc_get_time_us`. */
    method GetTimeUs(now: ticks48) returns (us: u64)
      requires Valid()
      ensures us == Wrap(TimeAt(now))
      ensures 0 <= TimeAt(now) < TWO_64 ==> us == TimeAt(now)
    {
      hide Wrap, Micros, SplitProduct;
      SplitProductIsExact(now, cal);
      WrapSum(Micros(now, cal), offset);
      us := Wrap(SplitProduct(now, cal) + fixUs);
      if 0 <= TimeAt(now) < TWO_64 {
        NoWrap(TimeAt(now));
      }
    }

    lemma TimeIsExact(ops: seq<ClockOp>, startCal: u32, startOffset: int)
      requires ops != [] && cal == CalAfter(ops, startCal) && offset == OffsetAfter(ops, startCal, startOffset)
      ensures TimeAt(ops[|ops| - 1].now) == ExactTime(ops, startCal, startOffset)
    {
    }

    /** `esp_clk_slowclk_cal_set`: the time does not jump, unless there was no calibration. */
    method CalSet(newCal: u32, now: ticks48)
      requires Valid()
      modifies this
      ensures Valid() && cal == newCal
      ensures old(cal) != 0 ==> TimeAt(now) == old(TimeAt(now))
      ensures old(cal) != 0 ==> offset == old(offset) + Micros(now, old(cal)) - Micros(now, newCal)
      ensures old(cal) == 0 ==> offset == old(offset) && fixUs == old(fixUs)
    {
      var oldCal := cal;
      if oldCal != 0 {
        SplitProductIsExact(now, oldCal);
        SplitProductIsExact(now, newCal);
        var oldFixUs := Wrap(fixUs + SplitProduct(now, oldCal));
        WrapSum(Micros(now, oldCal), offset);
        WrapDifference(offset + Micros(now, oldCal), Micros(now, newCal));
        fixUs := Wrap(oldFixUs - SplitProduct(now, newCal));
        offset := offset + Micros(now, oldCal) - Micros(now, newCal);
      }
      cal := newCal;
    }
  }

  lemma WrapSum(a: nat, b: int)
    ensures Wrap(a + Wrap(b)) == Wrap(a + b)
  {
  }

  lemma WrapDifference(a: int, b: nat)
    ensures Wrap(Wrap(a) - b) == Wrap(a - b)
  {
  }

  /** The unreduced fix-up after ops: each change from a calibration other than 0 makes up for it. */
  ghost function OffsetAfter(ops: seq<ClockOp>, cal: u32, offset: int): int {
    if ops == [] then offset
    else
      var front, op := ops[..|ops| - 1], ops[|ops| - 1];
      var c, before := CalAfter(front, cal), OffsetAfter(front, cal, offset);
      if op.Calibrate? && c != 0 then before + Micros(op.now, c) - Micros(op.now, op.newCal) else before
  }

  /** The unreduced time at the last of ops. */
  ghost function ExactTime(ops: seq<ClockOp>, cal: u32, offset: int): int
    requires ops != []
  {
    Micros(ops[|ops| - 1].now, CalAfter(ops, cal)) + OffsetAfter(ops, cal, offset)
  }

  /** From one operation to the next this time grows by the calibrated ticks in between. */
  lemma ExactTimeGrows(ops: seq<ClockOp>, cal: u32, offset: int, k: nat)
    requires 0 < k < |ops| && CalAfter(ops[..k], cal) != 0
    ensures var c := CalAfter(ops[..k], cal);
            ExactTime(ops[..k + 1], cal, offset) - ExactTime(ops[..k], cal, offset) ==
            Micros(ops[k].now, c) - Micros(ops[k - 1].now, c)
  {
    hide Micros;
    assert ops[..k + 1][..k] == ops[..k];
  }

  lemma MicrosIsMonotone(t: nat, t': nat, cal: nat)
    requires t <= t'
    ensures Micros(t, cal) <= Micros(t', cal)
  {
    assert t * cal <= t' * cal;
  }

  ghost predicate CounterAdvances(ops: seq<ClockOp>) {
    forall i, j :: 0 <= i < j < |ops| ==> ops[i].now <= ops[j].now
  }

  lemma {:induction false} ExactTimesInOrder(ops: seq<ClockOp>, cal: u32, offset: int, i: nat, j: nat)
    requires CounterAdvances(ops) && NoZeroCal(ops) && cal != 0 && i <= j < |ops|
    ensures ExactTime(ops[..i + 1], cal, offset) <= ExactTime(ops[..j + 1], cal, offset)
    decreases j
  {
    hide Micros, ExactTime;
    if i < j {
      CalStaysNonZero(ops, cal, j);
      ExactTimeGrows(ops, cal, offset, j);
      MicrosIsMonotone(ops[j - 1].now, ops[j].now, CalAfter(ops[..j], cal));
      ExactTimesInOrder(ops, cal, offset, i, j - 1);
    }
  }

  /** Over any run the returned times are the 64-bit values of the exact ones.  Without a calibration
      of 0, and while the exact times fit 64 bits, they are the exact ones, and never decrease.  A
      restart leaves both registers as they are. */
  method RunFixUp(clock: FixUpClock, ops: seq<ClockOp>) returns (times: seq<u64>)
    requires clock.Valid() && CounterAdvances(ops)
    modifies clock
    ensures |times| == |ops|
    ensures forall k :: 0 <= k < |ops| ==>
              times[k] == Wrap(ExactTime(ops[..k + 1], old(clock.cal), old(clock.offset)))
    ensures NoZeroCal(ops) && old(clock.cal) != 0 && ops != []
              && 0 <= ExactTime(ops[..1], old(clock.cal), old(clock.offset))
              && ExactTime(ops, old(clock.cal), old(clock.offset)) < TWO_64 ==>
              && (forall k :: 0 <= k < |ops| ==>
                    times[k] == ExactTime(ops[..k + 1], old(clock.cal), old(clock.offset)))
              && forall i, j :: 0 <= i < j < |ops| ==> times[i] <= times[j]
  {
    hide Micros, Wrap, ExactTime;
    times := [];
    ghost var cal, offset := clock.cal, clock.offset;
    for k := 0 to |ops|
      invariant |times| == k && clock.Valid()
      invariant clock.cal == CalAfter(ops[..k], cal) && clock.offset == OffsetAfter(ops[..k], cal, offset)
      invariant forall i :: 0 <= i < k ==> times[i] == Wrap(ExactTime(ops[..i + 1], cal, offset))
    {
      assert ops[..k + 1][..k] == ops[..k];
      if ops[k].Calibrate? {
        clock.CalSet(ops[k].newCal, ops[k].now);
      }
      var us := clock.GetTimeUs(ops[k].now);
      clock.TimeIsExact(ops[..k + 1], cal, offset);
      times := times + [us];
    }
    assert ops[..|ops|] == ops;
    if NoZeroCal(ops) && cal != 0 && ops != []
        && 0 <= ExactTime(ops[..1], cal, offset) && ExactTime(ops, cal, offset) < TWO_64 {
      forall k | 0 <= k < |ops| ensures times[k] == ExactTime(ops[..k + 1], cal, offset) {
        ExactTimesInOrder(ops, cal, offset, 0, k);
        ExactTimesInOrder(ops, cal, offset, k, |ops| - 1);
        NoWrap(ExactTime(ops[..k + 1], cal, offset));
      }
      forall i, j | 0 <= i < j < |ops| ensures times[i] <= times[j] {
        ExactTimesInOrder(ops, cal, offset, i, j);
      }
    }
  }
}

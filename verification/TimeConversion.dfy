/** Conversions between the driver's time scales (drivers/libera/libera_dd.h): system time
  * (LST, 125 MHz ticks), machine time (LMT, ticks of a clock measured in tenths of a
  * hertz), and machine time in atoms of `d` ticks (MT). */
module TimeConversion {
  import opened Words

  const LSC_FREQ: nat := 125000000
  const NS_IN_SECOND: nat := 1000000000
  const FLMC_DECI_HZ: nat := 10
  const DELTA_LST_OVERFLOW: nat := 15707377440
  const DELTA_LMT_OVERFLOW: nat := 14757395240
  const FLMC_WORST: nat := 1174400000
  const TICKS: nat := LSC_FREQ * FLMC_DECI_HZ

  /** A pair of simultaneous system and machine times. */
  datatype LTimestamp = LTimestamp(lst: HwTime, lmt: HwTime)

  datatype Conversion = Converted(time: HwTime) | OutOfRange

  /** A second and nanosecond count, the seconds being a signed 32-bit word. */
  datatype Timespec = Timespec(sec: int, nsec: int)

  predicate Normal(st: Timespec) {
    0 <= st.sec < U32 / 2 && 0 <= st.nsec < NS_IN_SECOND
  }

  // ---------- The conversions ----------

  function Lst2Lmt(lst: HwTime, stime: LTimestamp, flmcdHz: nat): Conversion {
    var positive := lst > stime.lst;
    var deltaLst: nat := if positive then lst - stime.lst else stime.lst - lst;
    if deltaLst > DELTA_LST_OVERFLOW then OutOfRange else
    var deltaLmt := Wrap64(deltaLst * flmcdHz) / TICKS;
    Converted(if positive then Wrap64(stime.lmt + deltaLmt) else Wrap64(stime.lmt - deltaLmt))
  }

  function Lmt2Lst(lmt: HwTime, stime: LTimestamp, flmcdHz: nat): Conversion
    requires flmcdHz > 0
  {
    var positive := lmt > stime.lmt;
    var deltaLmt: nat := if positive then lmt - stime.lmt else stime.lmt - lmt;
    if deltaLmt > DELTA_LMT_OVERFLOW then OutOfRange else
    var deltaLst := Wrap64(Wrap64(deltaLmt * LSC_FREQ) * FLMC_DECI_HZ) / flmcdHz;
    Converted(if positive then Wrap64(stime.lst + deltaLst) else Wrap64(stime.lst - deltaLst))
  }

  function St2Lst(st: Timespec): HwTime {
    Wrap64(Wrap64(Wrap64(st.sec) * LSC_FREQ) + Wrap64(Wrap64(st.nsec) * LSC_FREQ) / NS_IN_SECOND)
  }

  function Lst2St(lst: HwTime): Timespec {
    Timespec(Signed32(lst / LSC_FREQ), Signed32(lst % LSC_FREQ * (NS_IN_SECOND / LSC_FREQ)))
  }

  function Mt2Lmt(mt: HwTime, d: nat): HwTime {
    Wrap64(mt * d)
  }

  function Lmt2Mt(lmt: HwTime, d: nat): HwTime
    requires d > 0
  {
    DivShrinks(lmt, d);
    lmt / d
  }

  // ---------- The overflow guards ----------

  /** The guard on LST differences keeps the product inside 64 bits for exactly the clocks
    * up to 117.44 MHz: the bound named in the driver is tight. */
  lemma LstGuardIsTight(flmcdHz: nat)
    ensures (forall delta: nat :: delta <= DELTA_LST_OVERFLOW ==> delta * flmcdHz < U64)
            <==> flmcdHz <= FLMC_WORST
  {
    if flmcdHz <= FLMC_WORST {
      forall delta: nat | delta <= DELTA_LST_OVERFLOW
        ensures delta * flmcdHz < U64
      {
        MulMonotone(delta, DELTA_LST_OVERFLOW, flmcdHz);
        assert DELTA_LST_OVERFLOW * flmcdHz <= DELTA_LST_OVERFLOW * FLMC_WORST;
      }
    } else {
      assert DELTA_LST_OVERFLOW * flmcdHz >= DELTA_LST_OVERFLOW * (FLMC_WORST + 1);
    }
  }

  /** The guard on LMT differences keeps the product inside 64 bits whatever the clock. */
  lemma LmtGuardHolds(delta: nat)
    requires delta <= DELTA_LMT_OVERFLOW
    ensures Wrap64(Wrap64(delta * LSC_FREQ) * FLMC_DECI_HZ) == delta * TICKS
  {
  }

  /** Converting the largest accepted LST difference yields an accepted LMT difference for
    * exactly the clocks below the worst case: at 117.44 MHz itself the way back can be
    * refused. */
  lemma GuardsMatch(flmcdHz: nat)
    ensures (forall delta: nat :: delta <= DELTA_LST_OVERFLOW
                                  ==> delta * flmcdHz / TICKS <= DELTA_LMT_OVERFLOW)
            <==> flmcdHz < FLMC_WORST
  {
    if flmcdHz < FLMC_WORST {
      forall delta: nat | delta <= DELTA_LST_OVERFLOW
        ensures delta * flmcdHz / TICKS <= DELTA_LMT_OVERFLOW
      {
        MulMonotone(delta, DELTA_LST_OVERFLOW, flmcdHz);
        assert DELTA_LST_OVERFLOW * flmcdHz <= DELTA_LST_OVERFLOW * (FLMC_WORST - 1);
        DivMonotone(delta * flmcdHz, DELTA_LST_OVERFLOW * (FLMC_WORST - 1), TICKS);
      }
    } else {
      assert DELTA_LST_OVERFLOW * flmcdHz >= DELTA_LST_OVERFLOW * FLMC_WORST;
      DivMonotone(DELTA_LST_OVERFLOW * FLMC_WORST, DELTA_LST_OVERFLOW * flmcdHz, TICKS);
    }
  }

  // ---------- Scaling about the synchronisation point ----------

  /** A signed tick difference scaled by the clock ratio, rounded toward zero. */
  function Scaled(delta: int, flmcdHz: nat): int {
    if delta > 0 then delta * flmcdHz / TICKS else -(-delta * flmcdHz / TICKS)
  }

  /** Within the guard, the conversion is the scaled difference added to the machine time
    * of the synchronisation point, on either side of it. */
  lemma Lst2LmtScales(lst: HwTime, stime: LTimestamp, flmcdHz: nat)
    requires flmcdHz <= FLMC_WORST
    ensures var delta := lst - stime.lst;
            Lst2Lmt(lst, stime, flmcdHz) ==
            if -(DELTA_LST_OVERFLOW as int) <= delta <= DELTA_LST_OVERFLOW
            then Converted(Wrap64(stime.lmt + Scaled(delta, flmcdHz))) else OutOfRange
  {
    LstGuardIsTight(flmcdHz);
    var delta: nat := if lst > stime.lst then lst - stime.lst else stime.lst - lst;
    if delta <= DELTA_LST_OVERFLOW {
      assert delta * flmcdHz < U64;
      assert Wrap64(delta * flmcdHz) == delta * flmcdHz;
    }
  }

  /** The way back, within its guard, likewise. */
  lemma Lmt2LstScales(lmt: HwTime, stime: LTimestamp, flmcdHz: nat)
    requires flmcdHz > 0
    ensures var delta := lmt - stime.lmt;
            Lmt2Lst(lmt, stime, flmcdHz) ==
            if -14757395240 <= delta <= 14757395240
            then Converted(Wrap64(stime.lst + (if delta > 0 then delta * 1250000000 / flmcdHz
                                               else -(-delta * 1250000000 / flmcdHz))))
            else OutOfRange
  {
    var delta: nat := if lmt > stime.lmt then lmt - stime.lmt else stime.lmt - lmt;
    if delta <= DELTA_LMT_OVERFLOW {
      LmtGuardHolds(delta);
      hide Wrap64;
    }
  }

  /** A second after the synchronisation point the machine clock has made its tenths of a
    * hertz, divided by ten, in ticks. */
  lemma OneSecondLater(stime: LTimestamp, flmcdHz: nat)
    requires flmcdHz <= FLMC_WORST
    requires stime.lst + 125000000 < U64 && stime.lmt + flmcdHz / 10 < U64
    ensures Lst2Lmt(stime.lst + 125000000, stime, flmcdHz) == Converted(stime.lmt + flmcdHz / 10)
  {
    hide Lst2Lmt;
    Lst2LmtScales(stime.lst + 125000000, stime, flmcdHz);
    DivMod(flmcdHz, 10);
    DivIs(125000000 * flmcdHz, TICKS, flmcdHz / 10);
  }

  /** A tick of the system time is eight nanoseconds. */
  lemma SecondsShown(sec: nat, ticks: nat)
    requires sec < 0x8000_0000 && ticks < 125000000
    ensures Lst2St(sec * 125000000 + ticks) == Timespec(sec, 8 * ticks)
  {
    hide Wrap64;
    ModIs(sec * 125000000 + ticks, LSC_FREQ, sec, ticks);
    NanosecondsBack(ticks);
  }

  lemma ScaledIsMonotone(a: int, b: int, flmcdHz: nat)
    requires a <= b
    ensures Scaled(a, flmcdHz) <= Scaled(b, flmcdHz)
  {
    if a > 0 {
      MulMonotone(a, b, flmcdHz);
      DivMonotone(a * flmcdHz, b * flmcdHz, TICKS);
    } else if b <= 0 {
      MulMonotone(-b, -a, flmcdHz);
      DivMonotone(-b * flmcdHz, -a * flmcdHz, TICKS);
    } else {
      assert 0 <= -a * flmcdHz && 0 <= b * flmcdHz;
    }
  }

  /** Later system times convert to later machine times, across the synchronisation point
    * too, as long as neither result leaves the 64-bit range. */
  lemma Lst2LmtIsMonotone(lst1: HwTime, lst2: HwTime, stime: LTimestamp, flmcdHz: nat)
    requires flmcdHz <= FLMC_WORST && lst1 <= lst2
    requires Lst2Lmt(lst1, stime, flmcdHz).Converted? && Lst2Lmt(lst2, stime, flmcdHz).Converted?
    requires 0 <= stime.lmt + Scaled(lst1 - stime.lst, flmcdHz)
    requires stime.lmt + Scaled(lst2 - stime.lst, flmcdHz) < U64
    ensures Lst2Lmt(lst1, stime, flmcdHz).time <= Lst2Lmt(lst2, stime, flmcdHz).time
  {
    Lst2LmtScales(lst1, stime, flmcdHz);
    Lst2LmtScales(lst2, stime, flmcdHz);
    ScaledIsMonotone(lst1 - stime.lst, lst2 - stime.lst, flmcdHz);
    WrapIsMonotone(stime.lmt + Scaled(lst1 - stime.lst, flmcdHz),
                   stime.lmt + Scaled(lst2 - stime.lst, flmcdHz));
  }

  lemma WrapIsMonotone(a: int, b: int)
    requires 0 <= a <= b < U64
    ensures Wrap64(a) <= Wrap64(b)
  {
  }

  // ---------- Round trips ----------

  /** The least whole number of LST ticks that is at least one LMT tick long. */
  function TickCeiling(flmcdHz: nat): (c: nat)
    requires flmcdHz > 0
    ensures (c - 1) * flmcdHz < TICKS <= c * flmcdHz
  {
    DivBounds(TICKS + flmcdHz - 1, flmcdHz);
    (TICKS + flmcdHz - 1) / flmcdHz
  }

  /** Scaling down by the clock ratio and back loses less than a tick ceiling and a tick. */
  lemma ScaleAndBack(delta: nat, flmcdHz: nat)
    requires flmcdHz > 0
    ensures var back := delta * flmcdHz / TICKS * TICKS / flmcdHz;
            0 <= back <= delta <= back + TickCeiling(flmcdHz)
  {
    var q := delta * flmcdHz / TICKS;
    DivBounds(delta * flmcdHz, TICKS);
    DivBounds(q * TICKS, flmcdHz);
    TwoRoundings(delta, flmcdHz, TICKS, q, q * TICKS / flmcdHz, TickCeiling(flmcdHz));
  }

  lemma TwoRoundings(delta: nat, f: nat, t: nat, q: nat, r: nat, c: nat)
    requires q * t <= delta * f < (q + 1) * t && r * f <= q * t < (r + 1) * f
    requires t <= c * f
    ensures r <= delta <= r + c
  {
    MulAdd(q, 1, t);
    MulAdd(r + 1, c, f);
    MulAdd(delta, 1, f);
    if f > 0 {
      MulCancel(r, delta + 1, f);
      MulCancel(delta, r + 1 + c, f);
    }
  }

  /** A shift of the machine time that the way back accepts did not wrap around, and is
    * scaled back to the same side. */
  lemma ShiftIsUndone(q: nat, up: bool, stime: LTimestamp, flmcdHz: nat)
    requires flmcdHz > 0 && q <= 2 * DELTA_LMT_OVERFLOW
    requires var lmt := Wrap64(if up then stime.lmt + q else stime.lmt - q);
             Lmt2Lst(lmt, stime, flmcdHz).Converted?
    ensures var lmt := Wrap64(if up then stime.lmt + q else stime.lmt - q);
            var r := q * TICKS / flmcdHz;
            Lmt2Lst(lmt, stime, flmcdHz).time == Wrap64(if up then stime.lst + r else stime.lst - r)
  {
    hide Wrap64;
    WrapIsRefused(stime.lmt, q, up);
    LmtGuardHolds(q);
    assert q == 0 ==> q * TICKS / flmcdHz == 0;
  }

  /** A shift that wraps around lands too far away to be accepted. */
  lemma WrapIsRefused(from: HwTime, q: nat, up: bool)
    requires q <= 2 * DELTA_LMT_OVERFLOW
    ensures var to := Wrap64(if up then from + q else from - q);
            var delta := if to > from then to - from else from - to;
            delta <= DELTA_LMT_OVERFLOW ==> delta == q && (q > 0 ==> (to > from <==> up))
  {
  }

  /** An accepted LST difference scales to less than twice the bound on LMT differences. */
  lemma ScaledIsSmall(delta: nat, flmcdHz: nat)
    requires delta <= DELTA_LST_OVERFLOW && flmcdHz <= FLMC_WORST
    ensures 0 <= delta * flmcdHz / TICKS <= 2 * DELTA_LMT_OVERFLOW
  {
    LstGuardIsTight(flmcdHz);
    assert delta * flmcdHz < U64;
    DivMonotone(delta * flmcdHz, U64, TICKS);
    DivBounds(delta * flmcdHz, TICKS);
  }

  /** From LST to LMT and back: whenever both range checks pass, the time stays on its side
    * of the synchronisation point and moves toward it by at most the tick ceiling. */
  lemma LstRoundTrip(lst: HwTime, stime: LTimestamp, flmcdHz: nat)
    requires 0 < flmcdHz <= FLMC_WORST
    requires Lst2Lmt(lst, stime, flmcdHz).Converted?
    requires Lmt2Lst(Lst2Lmt(lst, stime, flmcdHz).time, stime, flmcdHz).Converted?
    ensures var back := Lmt2Lst(Lst2Lmt(lst, stime, flmcdHz).time, stime, flmcdHz).time;
            if lst > stime.lst
            then stime.lst <= back <= lst <= back + TickCeiling(flmcdHz)
            else back - TickCeiling(flmcdHz) <= lst <= back <= stime.lst
  {
    var up := lst > stime.lst;
    var delta: nat := if up then lst - stime.lst else stime.lst - lst;
    BackShift(lst, stime, flmcdHz, up, delta);
    ScaleAndBack(delta, flmcdHz);
    MoveTowards(lst, stime.lst, delta * flmcdHz / TICKS * TICKS / flmcdHz, TickCeiling(flmcdHz));
  }

  lemma ScaledBySide(e: int, up: bool, delta: nat, flmcdHz: nat)
    requires if up then e == delta && delta > 0 else e + delta == 0
    ensures Scaled(e, flmcdHz) == if up then delta * flmcdHz / TICKS else -(delta * flmcdHz / TICKS)
  {
  }

  /** Both range checks do pass for every accepted LST difference, when the clock is below the
    * worst case and the LMT does not leave the 64-bit range. */
  lemma BothChecksPass(lst: HwTime, stime: LTimestamp, flmcdHz: nat)
    requires 0 < flmcdHz < FLMC_WORST
    requires -(DELTA_LST_OVERFLOW as int) <= lst - stime.lst <= DELTA_LST_OVERFLOW
    requires 0 <= stime.lmt + Scaled(lst - stime.lst, flmcdHz) < U64
    ensures Lst2Lmt(lst, stime, flmcdHz).Converted?
    ensures Lmt2Lst(Lst2Lmt(lst, stime, flmcdHz).time, stime, flmcdHz).Converted?
  {
    hide Lst2Lmt, Lmt2Lst;
    var delta: nat := if lst > stime.lst then lst - stime.lst else stime.lst - lst;
    Lst2LmtScales(lst, stime, flmcdHz);
    GuardsMatch(flmcdHz);
    ScaledIsSmall(delta, flmcdHz);
    var q := delta * flmcdHz / TICKS;
    assert q <= DELTA_LMT_OVERFLOW;
    ShiftIsAccepted(Scaled(lst - stime.lst, flmcdHz), stime, flmcdHz);
  }

  lemma ShiftIsAccepted(shift: int, stime: LTimestamp, flmcdHz: nat)
    requires flmcdHz > 0 && -(DELTA_LMT_OVERFLOW as int) <= shift <= DELTA_LMT_OVERFLOW
    requires 0 <= stime.lmt + shift < U64
    ensures Lmt2Lst(Wrap64(stime.lmt + shift), stime, flmcdHz).Converted?
  {
  }

  lemma BackShift(lst: HwTime, stime: LTimestamp, flmcdHz: nat, up: bool, delta: nat)
    requires 0 < flmcdHz <= FLMC_WORST
    requires Lst2Lmt(lst, stime, flmcdHz).Converted?
    requires Lmt2Lst(Lst2Lmt(lst, stime, flmcdHz).time, stime, flmcdHz).Converted?
    requires up == (lst > stime.lst) && delta == if up then lst - stime.lst else stime.lst - lst
    ensures var r := delta * flmcdHz / TICKS * TICKS / flmcdHz;
            Lmt2Lst(Lst2Lmt(lst, stime, flmcdHz).time, stime, flmcdHz).time
            == Wrap64(if up then stime.lst + r else stime.lst - r)
  {
    hide Wrap64, Lst2Lmt, Lmt2Lst, Scaled;
    var q := delta * flmcdHz / TICKS;
    Lst2LmtScales(lst, stime, flmcdHz);
    ScaledIsSmall(delta, flmcdHz);
    ScaledBySide(lst - stime.lst, up, delta, flmcdHz);
    assert Lst2Lmt(lst, stime, flmcdHz).time == Wrap64(if up then stime.lmt + q else stime.lmt - q);
    ShiftIsUndone(q, up, stime, flmcdHz);
  }

  lemma MoveTowards(lst: HwTime, sync: HwTime, r: int, c: nat)
    requires var delta := if lst > sync then lst - sync else sync - lst;
             0 <= r <= delta <= r + c
    ensures var back := Wrap64(if lst > sync then sync + r else sync - r);
            if lst > sync then sync <= back <= lst <= back + c else back - c <= lst <= back <= sync
  {
  }

  /** From LST to seconds and nanoseconds and back: exact as long as the seconds fit a
    * signed 32-bit word, and only then. */
  lemma StRoundTrip(lst: HwTime)
    ensures St2Lst(Lst2St(lst)) == lst <==> lst / LSC_FREQ < U32 / 2
  {
    var sec, rem := lst / LSC_FREQ, lst % LSC_FREQ;
    NanosecondsBack(rem);
    if sec < U32 / 2 {
      assert Wrap64(Wrap64(sec) * LSC_FREQ) == sec * LSC_FREQ;
    } else {
      StTruncates(sec, rem);
    }
  }

  lemma NanosecondsBack(rem: nat)
    requires rem < LSC_FREQ
    ensures var nsec := Signed32(rem * (NS_IN_SECOND / LSC_FREQ));
            nsec == 8 * rem && Wrap64(Wrap64(nsec) * LSC_FREQ) / NS_IN_SECOND == rem
  {
  }

  /** Seconds beyond the signed 32-bit range come back as other seconds. */
  lemma StTruncates(sec: nat, rem: nat)
    requires U32 / 2 <= sec && sec * LSC_FREQ + rem < U64 && rem < LSC_FREQ
    ensures Wrap64(Wrap64(Wrap64(Signed32(sec)) * LSC_FREQ) + rem) != sec * LSC_FREQ + rem
  {
    var s := Signed32(sec);
    var k := (sec - s) / U32;
    assert sec - s == k * U32;
    TruncatedSeconds(s, k, rem);
  }

  lemma TruncatedSeconds(s: int, k: int, rem: nat)
    requires -(U32 / 2) <= s < U32 / 2 && 1 <= k
    requires (s + k * U32) * LSC_FREQ + rem < U64 && rem < LSC_FREQ
    ensures Wrap64(Wrap64(Wrap64(s) * LSC_FREQ) + rem) != (s + k * U32) * LSC_FREQ + rem
  {
    WrapSeconds(s);
    WrapTicks(s * LSC_FREQ, rem);
    var actual := (s + k * U32) * LSC_FREQ + rem;
    var seen := s * LSC_FREQ + rem;
    assert actual == seen + k * (U32 * LSC_FREQ);
    if seen < 0 {
      assert Wrap64(seen) == seen + U64;
      assert k <= 34 || 35 <= k;
    } else {
      assert Wrap64(seen) == seen;
    }
  }

  lemma WrapSeconds(s: int)
    requires -(U32 / 2) <= s < U32 / 2
    ensures Wrap64(Wrap64(s) * LSC_FREQ) == Wrap64(s * LSC_FREQ)
  {
    WrapNegative(s);
    hide Wrap64;
    if s < 0 {
      assert (s + U64) * LSC_FREQ == s * LSC_FREQ + LSC_FREQ * U64;
      WrapMultiple(s * LSC_FREQ);
    }
  }

  lemma WrapNegative(s: int)
    requires -(U64 as int) <= s < U64
    ensures Wrap64(s) == if s < 0 then s + U64 else s
  {
  }

  lemma WrapMultiple(x: int)
    ensures Wrap64(x + LSC_FREQ * U64) == Wrap64(x)
  {
  }

  lemma WrapTicks(x: int, rem: nat)
    ensures Wrap64(Wrap64(x) + rem) == Wrap64(x + rem)
  {
  }

  lemma NanosecondsCut(nsec: nat)
    requires nsec < NS_IN_SECOND
    ensures Wrap64(Wrap64(nsec) * LSC_FREQ) / NS_IN_SECOND == nsec / 8
  {
  }

  lemma SecondsAndTicks(sec: nat, ticks: nat)
    requires sec < U32 / 2 && ticks < LSC_FREQ
    ensures Wrap64(Wrap64(Wrap64(sec) * LSC_FREQ) + ticks) == sec * LSC_FREQ + ticks
    ensures (sec * LSC_FREQ + ticks) % LSC_FREQ == ticks && Signed32(sec) == sec
  {
  }

  /** From a normal time to LST and back: the nanoseconds are cut to a multiple of 8. */
  lemma LstOfStRoundTrip(st: Timespec)
    requires Normal(st)
    ensures Lst2St(St2Lst(st)) == Timespec(st.sec, st.nsec - st.nsec % 8)
  {
    NanosecondsCut(st.nsec);
    var ticks: nat := st.nsec / 8;
    var lst := st.sec * LSC_FREQ + ticks;
    DivIs(lst, LSC_FREQ, st.sec);
    NanosecondsBack(ticks);
    SecondsAndTicks(st.sec, ticks);
  }

  /** From MT to LMT and back: exact if and only if the LMT fits 64 bits. */
  lemma MtRoundTrip(mt: HwTime, d: nat)
    requires d > 0
    ensures Lmt2Mt(Mt2Lmt(mt, d), d) == mt <==> mt * d < U64
  {
    if mt * d < U64 {
      DivIs(mt * d, d, mt);
    } else {
      var w := Wrap64(mt * d);
      DivBounds(w, d);
      MulCancel(w / d, mt, d);
    }
  }

  /** From LMT to MT and back: the start of the atom the time lies in. */
  lemma LmtRoundTrip(lmt: HwTime, d: nat)
    requires d > 0
    ensures Mt2Lmt(Lmt2Mt(lmt, d), d) == lmt - lmt % d
  {
    DivBounds(lmt, d);
    assert lmt == lmt / d * d + lmt % d by { assert lmt == d * (lmt / d) + lmt % d; }
    assert Wrap64(lmt / d * d) == lmt / d * d;
  }
}

/** Waiting for requested history to be recorded (wait_lmt and wait_lst in
  * drivers/libera/ebpp.c). Both functions are the same computation on two time scales: a
  * delay of t ticks takes t * num / den jiffies, with num / den = 10 HZ / flmcdHz for
  * machine time and HZ / 125 MHz for system time. */
module Waits {
  import opened Words

  const CIRCBUF_ATOMS: nat := 2097152
  const READSYNC_MARGIN: nat := 64
  const MAX_INADVANCE: nat := 5 * CIRCBUF_ATOMS
  const D_MAX: nat := 409

  datatype WaitResult = Ready | NoData | TryAgain | Interrupted

  /** What follows a sleep: the time is read, or reading it is cut short by a signal. */
  datatype Sleep = Woke(now: HwTime) | Signalled

  // The driver's bounds are unsigned 32-bit products.

  function SafeLimit(d: nat): nat {
    Wrap32(Wrap32(CIRCBUF_ATOMS * d) - Wrap32(CIRCBUF_ATOMS * d) / 10)
  }

  function SyncMargin(d: nat): nat {
    Wrap32(READSYNC_MARGIN * d)
  }

  function AdvanceLimit(d: nat): nat {
    Wrap32(MAX_INADVANCE * d)
  }

  /** The ticks since the requested start, and since the start plus the margin. */
  function SinceStart(now: HwTime, start: HwTime): int {
    Signed64(Wrap64(now - start))
  }

  function SinceEnd(now: HwTime, start: HwTime, d: nat): int {
    Signed64(Wrap64(SinceStart(now, start) - SyncMargin(d)))
  }

  /** The ticks still missing before the margin has passed. */
  function Missing(now: HwTime, start: HwTime, d: nat): nat {
    if SinceEnd(now, start, d) < 0 then -SinceEnd(now, start, d) else 0
  }

  /** The number of jiffies to sleep for a number of ticks. */
  function Jiffies(delay: nat, num: nat, den: nat): (j: int)
    requires den > 0
  {
    Signed32(Wrap64(delay * num) / den + 1)
  }

  /** The ticks by which a clock of den / num ticks a jiffy moves on in j jiffies. */
  function Elapsed(j: nat, num: nat, den: nat): nat
    requires num > 0
  {
    DivBounds(j * den, num);
    j * den / num
  }

  /** The 32-bit products are the intended ones if and only if an atom is at most 409
    * ticks long. */
  lemma BoundsFit(d: nat)
    requires d < U32
    ensures AdvanceLimit(d) == 10485760 * d <==> d <= 409
    ensures d <= 409 ==> SyncMargin(d) == 64 * d
                         && SafeLimit(d) == 2097152 * d - 2097152 * d / 10
  {
  }

  /** The sleep covers the missing ticks, and is at most one jiffy longer than they take. */
  lemma JiffiesCover(delay: nat, num: nat, den: nat)
    requires num > 0 && den > 0 && delay * num < U64 && delay * num / den + 1 < U32 / 2
    ensures var j := Jiffies(delay, num, den);
            1 <= j && delay <= Elapsed(j, num, den) && (j - 1) * den <= delay * num
  {
    var j := delay * num / den + 1;
    DivBounds(delay * num, den);
    DivBounds(j * den, num);
    MulCancel(delay, j * den / num + 1, num);
  }

  /** For times far from the end of the 64-bit range, the signed differences say what they
    * are meant to say. */
  lemma DifferencesAreExact(now: HwTime, start: HwTime, d: nat)
    requires now < U64 / 2 && start + READSYNC_MARGIN * d < U64 / 2 && d <= D_MAX
    ensures SinceStart(now, start) == now - start
    ensures SinceEnd(now, start, d) == now - start - READSYNC_MARGIN * d
  {
    BoundsFit(d);
  }

  /** When the clock keeps its stated rate during the sleep, the time read after it is past
    * the margin: one sleep is enough. */
  lemma OneSleepIsEnough(now0: HwTime, now1: HwTime, start: HwTime, d: nat, num: nat, den: nat,
                         delay: nat, j: nat)
    requires now1 < U64 / 2 && start + READSYNC_MARGIN * d < U64 / 2 && d <= D_MAX
    requires num > 0 && den > 0 && now0 <= now1
    requires delay == Missing(now0, start, d) && delay > 0
    requires delay * num < U64 && delay * num / den + 1 < U32 / 2
    requires j == Jiffies(delay, num, den) && now1 >= now0 + Elapsed(j, num, den)
    ensures SinceEnd(now1, start, d) >= 0
  {
    DifferencesAreExact(now0, start, d);
    DifferencesAreExact(now1, start, d);
    JiffiesCover(delay, num, den);
  }

  // ---------- Whether the requested interval is over ----------

  /** The times at which a wait can succeed: not too late, and past the margin. */
  predicate InWindow(now: HwTime, start: HwTime, d: nat) {
    SinceStart(now, start) <= SafeLimit(d) && SinceEnd(now, start, d) >= 0
  }

  /** Times far enough from the end of the 64-bit range. */
  predicate InRange(now: HwTime, start: HwTime, d: nat) {
    now < U64 / 2 && start + READSYNC_MARGIN * d < U64 / 2
  }

  /** Success means that an interval of `span` atoms is over, whatever the times, if and only
    * if it is no longer than the margin: the length of the interval has no part in the
    * wait. */
  lemma EndIsAwaited(d: nat, span: nat)
    requires 0 < d <= D_MAX
    ensures (forall now: HwTime, start: HwTime ::
               InRange(now, start, d) && InWindow(now, start, d) ==> now - start >= span * d)
            <==> span <= 64
  {
    if span <= READSYNC_MARGIN {
      forall now: HwTime, start: HwTime | InRange(now, start, d) && InWindow(now, start, d)
        ensures now - start >= span * d
      {
        MarginPassed(now, start, d, span);
      }
    } else {
      MulMonotone(READSYNC_MARGIN + 1, span, d);
      ReadyTooEarly(d);
      assert InRange(READSYNC_MARGIN * d, 0, d);
    }
  }

  /** A request for 65 atoms from time 0 is ready at tick 64 * d, an atom before its end. */
  lemma ReadyTooEarly(d: nat)
    requires 0 < d <= D_MAX
    ensures InWindow(READSYNC_MARGIN * d, 0, d) && READSYNC_MARGIN * d + d == (READSYNC_MARGIN + 1) * d
  {
    BoundsFit(d);
    DifferencesAreExact(READSYNC_MARGIN * d, 0, d);
  }

  // ---------- The wait ----------

  /** A request that is neither too late nor too early, but not ready either. */
  predicate MustSleep(now: HwTime, start: HwTime, d: nat) {
    && SinceStart(now, start) <= SafeLimit(d)
    && -SinceEnd(now, start, d) <= AdvanceLimit(d)
    && SinceEnd(now, start, d) < 0
  }

  /** The first k sleeps end, and too early. */
  predicate EarlyUntil(sleeps: seq<Sleep>, k: nat, start: HwTime, d: nat) {
    k <= |sleeps| && forall i :: 0 <= i < k ==> sleeps[i].Woke? && SinceEnd(sleeps[i].now, start, d) < 0
  }

  /** A sleep for the ticks missing at one time, with the clock at the stated rate, ends at the
    * other or before. */
  predicate KeepsRate(now0: HwTime, now1: HwTime, start: HwTime, d: nat, num: nat, den: nat)
    requires num > 0 && den > 0
  {
    var delay := Missing(now0, start, d);
    var j := Jiffies(delay, num, den);
    && delay * num < U64 && delay * num / den + 1 < U32 / 2
    && now0 <= now1 && 0 <= j && now1 >= now0 + Elapsed(j, num, den)
  }

  /** Waits until the start of the request lies the margin in the past. Too late a request
    * gets NoData and too early a one TryAgain, without a sleep; one whose margin has passed
    * already is ready at once. Otherwise the wait ends with the first waking past the margin,
    * or with a signal if that comes first; each sleep asked for is the one for the ticks
    * missing at the time read last; and if the clock keeps its rate, one sleep is enough.
    * Success means the end of intervals of up to the margin's length. */
  method Wait(now0: HwTime, start: HwTime, span: nat, d: nat, num: nat, den: nat, sleeps: seq<Sleep>)
    returns (result: WaitResult, now: HwTime, rounds: nat, asked: seq<int>)
    requires num > 0 && den > 0
    ensures result == NoData <==> SinceStart(now0, start) > SafeLimit(d)
    ensures result == TryAgain <==> SinceStart(now0, start) <= SafeLimit(d)
                                    && -SinceEnd(now0, start, d) > AdvanceLimit(d)
    ensures !MustSleep(now0, start, d) ==> rounds == 0 && now == now0 && asked == []
    ensures InWindow(now0, start, d) ==> result == Ready
    ensures MustSleep(now0, start, d) ==>
              match result
              case Ready =>
                && 0 < rounds == |asked| <= |sleeps| && EarlyUntil(sleeps, rounds - 1, start, d)
                && sleeps[rounds - 1] == Woke(now) && SinceEnd(now, start, d) >= 0
              case Interrupted =>
                && |asked| == rounds + 1 && EarlyUntil(sleeps, rounds, start, d)
                && (rounds == |sleeps| || sleeps[rounds].Signalled?)
              case _ => false
    ensures forall i :: 0 <= i < |asked| ==>
              && (i > 0 ==> i <= |sleeps| && sleeps[i - 1].Woke?)
              && asked[i] == Jiffies(Missing(if i == 0 then now0 else sleeps[i - 1].now, start, d), num, den)
    ensures MustSleep(now0, start, d) && sleeps != [] && sleeps[0].Woke?
            && InRange(sleeps[0].now, start, d) && d <= D_MAX
            && KeepsRate(now0, sleeps[0].now, start, d, num, den)
            ==> result == Ready && rounds == 1
    ensures result == Ready && InRange(now, start, d) && d <= D_MAX && span <= READSYNC_MARGIN
            ==> now - start >= span * d
  {
    hide SinceStart, SinceEnd, SafeLimit, AdvanceLimit, Jiffies, InRange, KeepsRate;
    now, rounds, asked := now0, 0, [];
    if sleeps != [] && sleeps[0].Woke? {
      RateSuffices(now0, sleeps[0].now, start, d, num, den);
    }
    var deltaStart := SinceStart(now, start);
    if deltaStart > SafeLimit(d) {
      return NoData, now, rounds, asked;
    }
    var deltaEnd := SinceEnd(now, start, d);
    if deltaEnd < 0 {
      if -deltaEnd > AdvanceLimit(d) {
        return TryAgain, now, rounds, asked;
      }
      while deltaEnd < 0
        invariant rounds <= |sleeps|
        invariant rounds > 0 ==> sleeps[rounds - 1].Woke? && EarlyUntil(sleeps, rounds - 1, start, d)
        invariant now == if rounds == 0 then now0 else sleeps[rounds - 1].now
        invariant deltaEnd == SinceEnd(now, start, d)
        invariant |asked| == rounds && forall i :: 0 <= i < rounds ==>
                    && (i > 0 ==> sleeps[i - 1].Woke?)
                    && asked[i] == Jiffies(Missing(if i == 0 then now0 else sleeps[i - 1].now, start, d), num, den)
        decreases |sleeps| - rounds
      {
        assert EarlyUntil(sleeps, rounds, start, d);
        var timeout := Jiffies(-deltaEnd, num, den);
        asked := asked + [timeout];
        if rounds == |sleeps| || sleeps[rounds].Signalled? {
          return Interrupted, now, rounds, asked;
        }
        now := sleeps[rounds].now;
        rounds := rounds + 1;
        deltaEnd := SinceEnd(now, start, d);
      }
    }
    result := Ready;
    if InRange(now, start, d) && d <= D_MAX && span <= READSYNC_MARGIN {
      MarginPassed(now, start, d, span);
    }
  }

  lemma RateSuffices(now0: HwTime, now1: HwTime, start: HwTime, d: nat, num: nat, den: nat)
    requires num > 0 && den > 0
    ensures InRange(now1, start, d) && d <= D_MAX && SinceEnd(now0, start, d) < 0
            && KeepsRate(now0, now1, start, d, num, den)
            ==> SinceEnd(now1, start, d) >= 0
  {
    if InRange(now1, start, d) && d <= D_MAX && SinceEnd(now0, start, d) < 0
       && KeepsRate(now0, now1, start, d, num, den) {
      var delay := Missing(now0, start, d);
      OneSleepIsEnough(now0, now1, start, d, num, den, delay, Jiffies(delay, num, den));
    }
  }

  lemma MarginPassed(now: HwTime, start: HwTime, d: nat, span: nat)
    requires InRange(now, start, d) && d <= D_MAX && span <= READSYNC_MARGIN
    requires SinceEnd(now, start, d) >= 0
    ensures now - start >= span * d
  {
    MulMonotone(span, READSYNC_MARGIN, d);
    DifferencesAreExact(now, start, d);
  }
}

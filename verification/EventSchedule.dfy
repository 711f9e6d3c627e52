/** Programming the FPGA's event generator (libera_mc_selfinc_specific and
  * libera_mchelp_handler_specific in drivers/libera/ebpp.c).
  *
  * The generator compares the low 26 bits of the machine counter only. Two handlers share
  * the job of programming the 64-bit event time: one runs at each wrap-around of the
  * counter, the other on a helper interrupt inside each epoch between two wrap-arounds. */
module EventSchedule {
  import opened Words

  const EPOCH: nat := 0x4000000
  const HALF: nat := 0x2000000

  /** A value written to the generator: the event bits and the 26-bit time. */
  datatype Programming = Programming(event: nat, offset: nat)

  /** What the wrap-around handler writes: times in the second half of this epoch. */
  function AtSelfInc(mcTime: HwTime, event: nat, time: HwTime): (w: seq<Programming>)
    ensures |w| <= 1
  {
    if mcTime <= time < Wrap64(mcTime + EPOCH) && time - mcTime >= HALF
    then [Programming(event, Wrap32(time - mcTime))] else []
  }

  /** What the helper handler writes: times in the first half of the next epoch. */
  function AtHelper(mcTime: HwTime, event: nat, time: HwTime): (w: seq<Programming>)
    ensures |w| <= 1
  {
    var next := Wrap64(mcTime + EPOCH);
    if next <= time < Wrap64(mcTime + 2 * EPOCH) && time - next < HALF
    then [Programming(event, Wrap32(time - next))] else []
  }

  class EventGenerator {
    var mcTime: HwTime
    var event: nat
    var time: HwTime
    var written: seq<Programming>

    constructor (mcTime: HwTime, event: nat, time: HwTime)
      ensures this.mcTime == mcTime && this.event == event && this.time == time && written == []
    {
      this.mcTime, this.event, this.time, written := mcTime, event, time, [];
    }

    /** The machine counter has wrapped around: the event is programmed exactly when its time
      * lies in the second half of the epoch that begins. */
    method SelfInc()
      modifies this`mcTime, this`written
      ensures mcTime == Wrap64(old(mcTime) + EPOCH)
      ensures written == old(written) + AtSelfInc(mcTime, event, time)
      ensures mcTime % EPOCH == 0 && mcTime + 2 * EPOCH < U64 ==>
                written == old(written) + if time / EPOCH == mcTime / EPOCH && time % EPOCH >= HALF
                                          then [Programming(event, time % EPOCH)] else []
    {
      mcTime := Wrap64(mcTime + EPOCH);
      if mcTime <= time && Wrap64(mcTime + EPOCH) > time {
        var offset26 := time - mcTime;
        if offset26 >= HALF {
          written := written + [Programming(event, Wrap32(offset26))];
        }
      }
      if mcTime % EPOCH == 0 && mcTime + 2 * EPOCH < U64 {
        SelfIncWrites(mcTime / EPOCH, event, time);
      }
    }

    /** The helper interrupt: the event is programmed exactly when its time lies in the first
      * half of the next epoch. */
    method Helper()
      modifies this`written
      ensures written == old(written) + AtHelper(mcTime, event, time)
      ensures mcTime % EPOCH == 0 && mcTime + 2 * EPOCH < U64 ==>
                written == old(written) + if time / EPOCH == mcTime / EPOCH + 1 && time % EPOCH < HALF
                                          then [Programming(event, time % EPOCH)] else []
    {
      if Wrap64(mcTime + EPOCH) <= time && Wrap64(mcTime + 2 * EPOCH) > time {
        var offset26 := time - Wrap64(mcTime + EPOCH);
        if offset26 < HALF {
          written := written + [Programming(event, Wrap32(offset26))];
        }
      }
      if mcTime % EPOCH == 0 && mcTime + 2 * EPOCH < U64 {
        HelperWrites(mcTime / EPOCH, event, time);
      }
    }

    /** A run of n epochs from the beginning of one: the helper and the wrap-around handler
      * take turns. What they write, with the numbers of the handler runs, is what the series
      * of handler runs below says, and so an event time of at least one epoch is written
      * exactly once, or not at all if its due handler is not among them. */
    method RunEpochs(n: nat) returns (log: seq<(nat, Programming)>)
      requires mcTime % EPOCH == 0 && mcTime + (n + 2) * EPOCH < U64
      modifies this`mcTime, this`written
      ensures mcTime == old(mcTime) + n * EPOCH
      ensures var e := old(mcTime) / EPOCH;
              && log == Writes(2 * e, 2 * (e + n), event, time)
              && (time >= EPOCH ==>
                    log == if 2 * e <= Due(time) < 2 * (e + n) then [(Due(time), Programming(event, time % EPOCH))]
                           else [])
      ensures written == old(written) + Values(log)
    {
      hide AtHelper, AtSelfInc, Writes, Values, Numbered;
      var e := mcTime / EPOCH;
      log := [];
      NoWrites(2 * e, event, time);
      for i := 0 to n
        invariant mcTime == (e + i) * EPOCH
        invariant log == Writes(2 * e, 2 * (e + i), event, time)
        invariant written == old(written) + Values(log)
      {
        var count := |written|;
        Helper();
        log := Record(log, 2 * (e + i), written[count..], 2 * e, old(written), written[..count]);
        count := |written|;
        SelfInc();
        log := Record(log, 2 * (e + i) + 1, written[count..], 2 * e, old(written), written[..count]);
      }
      if time >= EPOCH {
        ExactlyOnce(2 * e, 2 * (e + n), event, time);
      }
    }

    /** Adds the write of handler run k, if it made one, to the log of the runs before. */
    method Record(log0: seq<(nat, Programming)>, k: nat, w: seq<Programming>, ghost from: nat,
                  ghost before: seq<Programming>, ghost now: seq<Programming>)
      returns (log: seq<(nat, Programming)>)
      requires from <= k && (EpochOf(k + 1) + 2) * EPOCH < U64
      requires log0 == Writes(from, k, event, time) && w == WritesOf(k, event, time)
      requires now == before + Values(log0)
      ensures log == Writes(from, k + 1, event, time)
      ensures now + w == before + Values(log)
    {
      log := log0 + Numbered(k, w);
      NumberedValues(log0, k, w);
      assert before + (Values(log0) + w) == before + Values(log0) + w;
    }
  }

  /** What handler run k wrote, with its number. */
  function Numbered(k: nat, w: seq<Programming>): seq<(nat, Programming)> {
    if w == [] then [] else [(k, w[0])]
  }

  lemma NumberedValues(log: seq<(nat, Programming)>, k: nat, w: seq<Programming>)
    requires |w| <= 1
    ensures Values(log + Numbered(k, w)) == Values(log) + w
  {
  }

  lemma NoWrites(from: nat, event: nat, time: HwTime)
    requires (EpochOf(from) + 2) * EPOCH < U64
    ensures Writes(from, from, event, time) == [] && Values([]) == []
  {
  }

  /** What was written, without the numbers. */
  function Values(log: seq<(nat, Programming)>): seq<Programming> {
    seq(|log|, i requires 0 <= i < |log| => log[i].1)
  }

  // ---------- Whole runs ----------

  // Handler run number 2e is the helper of epoch e, number 2e - 1 the wrap-around into it.

  function EpochOf(k: nat): nat {
    (k + 1) / 2
  }

  /** What handler run number k writes for an event time. */
  function WritesOf(k: nat, event: nat, time: HwTime): seq<Programming>
    requires EpochOf(k) * EPOCH < U64
  {
    if k % 2 == 0 then AtHelper(EpochOf(k) * EPOCH, event, time)
    else AtSelfInc(EpochOf(k) * EPOCH, event, time)
  }

  /** What handler runs number from, ..., until - 1 write, with their numbers. */
  function Writes(from: nat, until: nat, event: nat, time: HwTime): seq<(nat, Programming)>
    requires (EpochOf(until) + 2) * EPOCH < U64
    decreases until
  {
    if until <= from then [] else
    Writes(from, until - 1, event, time) + Numbered(until - 1, WritesOf(until - 1, event, time))
  }

  /** The handler run that programs an event time. */
  function Due(time: nat): nat
    requires time >= EPOCH
  {
    if time % EPOCH >= HALF then 2 * (time / EPOCH) - 1 else 2 * (time / EPOCH) - 2
  }

  lemma OnlyDueWrites(k: nat, event: nat, time: HwTime)
    requires time >= EPOCH && (EpochOf(k) + 2) * EPOCH < U64
    ensures WritesOf(k, event, time)
            == if k == Due(time) then [Programming(event, time % EPOCH)] else []
  {
    var e := EpochOf(k);
    if k % 2 == 0 {
      assert k == 2 * e;
      HelperWrites(e, event, time);
    } else {
      assert k == 2 * e - 1;
      SelfIncWrites(e, event, time);
    }
  }

  lemma HelperWrites(e: nat, event: nat, time: HwTime)
    requires (e + 2) * EPOCH < U64
    ensures AtHelper(e * EPOCH, event, time)
            == if time / EPOCH == e + 1 && time % EPOCH < HALF
               then [Programming(event, time % EPOCH)] else []
  {
    assert time == time / EPOCH * EPOCH + time % EPOCH;
  }

  lemma SelfIncWrites(e: nat, event: nat, time: HwTime)
    requires (e + 2) * EPOCH < U64
    ensures AtSelfInc(e * EPOCH, event, time)
            == if time / EPOCH == e && time % EPOCH >= HALF
               then [Programming(event, time % EPOCH)] else []
  {
    assert time == time / EPOCH * EPOCH + time % EPOCH;
  }

  /** Over any stretch of handler runs an event time of at least one epoch is programmed
    * exactly once, by one handler and at its due run, or not at all: the first exactly when
    * the due run lies in the stretch. */
  lemma {:induction false} ExactlyOnce(from: nat, until: nat, event: nat, time: HwTime)
    requires time >= EPOCH && (EpochOf(until) + 2) * EPOCH < U64
    ensures Writes(from, until, event, time)
            == if from <= Due(time) < until
               then [(Due(time), Programming(event, time % EPOCH))] else []
    decreases until
  {
    if from < until {
      OnlyDueWrites(until - 1, event, time);
      ExactlyOnce(from, until - 1, event, time);
    }
  }

  /** Event times in the very first epoch are never programmed: the handlers that would be
    * due for them belong to the time before it. */
  lemma {:induction false} FirstEpochIsNeverProgrammed(from: nat, until: nat, event: nat, time: HwTime)
    requires time < EPOCH && (EpochOf(until) + 2) * EPOCH < U64
    ensures Writes(from, until, event, time) == []
    decreases until
  {
    if from < until {
      assert WritesOf(until - 1, event, time) == [];
      FirstEpochIsNeverProgrammed(from, until - 1, event, time);
    }
  }

  // ---------- When the event fires ----------

  /** The next tick after `now` at which the low 26 bits equal an offset. */
  function NextMatch(now: nat, offset: nat): (t: nat)
    requires offset < EPOCH
    ensures now < t <= now + EPOCH && t % EPOCH == offset
    ensures forall u: nat :: now < u < t ==> u % EPOCH != offset
  {
    if now % EPOCH < offset then now - now % EPOCH + offset else now - now % EPOCH + EPOCH + offset
  }

  /** The event fires at its very time if and only if the due handler runs in time: the
    * wrap-around handler before the offset has passed, the helper after it has. */
  lemma FiresOnTime(time: nat, now: nat)
    requires time >= EPOCH && now / EPOCH == EpochOf(Due(time))
    ensures NextMatch(now, time % EPOCH) == time
            <==> if Due(time) % 2 == 1 then now % EPOCH < time % EPOCH
                 else time % EPOCH <= now % EPOCH
  {
    assert time == time / EPOCH * EPOCH + time % EPOCH;
    assert now == now / EPOCH * EPOCH + now % EPOCH;
  }

  /** When the wrap-around handler runs within the first half of its epoch and the helper
    * within the second half of its own, every event fires at its very time. */
  lemma HalvesSuffice(time: nat, now: nat)
    requires time >= EPOCH && now / EPOCH == EpochOf(Due(time))
    requires if Due(time) % 2 == 1 then now % EPOCH < HALF else HALF <= now % EPOCH
    ensures NextMatch(now, time % EPOCH) == time
  {
    assert time == time / EPOCH * EPOCH + time % EPOCH;
    FiresOnTime(time, now);
  }

  /** The counter has 26 bits and the halves are equally long: when the wrap-around handler
    * runs at the wrap-around and the helper 2^25 ticks later, the event is programmed at least
    * 2^25 ticks before its time, and less than 2^26. */
  lemma HalfEpochLead(time: nat, now: nat)
    requires time >= 67108864
    requires now == EpochOf(Due(time)) * 67108864 + if Due(time) % 2 == 1 then 0 else 33554432
    ensures now + 33554432 <= time < now + 67108864
  {
    assert time == time / EPOCH * EPOCH + time % EPOCH;
  }
}

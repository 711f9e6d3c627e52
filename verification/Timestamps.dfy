/** Rebuilding 64-bit times from the records of a timing module and dispatching its triggers
  * (libera_sc_handler and libera_mc_handler in drivers/libera/libera_main.c, which share
  * this part).
  *
  * A record carries the low 26 bits of a tick count and a word with one bit for each of
  * nine triggers and one for the wrap-around of the 26-bit counter. */
module Timestamps {
  import opened Words

  const EPOCH: nat := 0x4000000
  const TRIGGERS: nat := 9
  const TRIG_LSB: nat := 22
  const SELF_INC: nat := 31

  /** A machine word, as the set of its bits that are one. */
  type Word = set<nat>

  /** A status word and the word with the time stamp. */
  datatype Record = Record(tl: Word, th: nat)

  /** A trigger handed on with the raw time of its record. */
  datatype Dispatched = Dispatched(trigger: nat, raw: HwTime)

  // ---------- The trigger vector ----------

  /** Whether a bit is one of the nine trigger bits. */
  predicate IsTrigBit(b: nat) {
    TRIG_LSB <= b < TRIG_LSB + TRIGGERS
  }

  /** The trigger bits of a word, the result of masking it with the trigger vector. */
  function TrigVector(tl: Word): Word {
    set b | b in tl && IsTrigBit(b)
  }

  /** The triggers from number i on whose bits are set, lowest first. */
  function Set(tl: Word, i: nat): seq<nat>
    requires i <= TRIGGERS
    decreases TRIGGERS - i
  {
    if i == TRIGGERS then [] else
    if TRIG_LSB + i in tl then [i] + Set(tl, i + 1) else Set(tl, i + 1)
  }

  /** Exactly the triggers with a set bit are listed, each once and in ascending order. */
  lemma {:induction false} SetIsExact(tl: Word, i: nat)
    requires i <= TRIGGERS
    ensures forall k :: k in Set(tl, i) <==> i <= k < TRIGGERS && TRIG_LSB + k in tl
    ensures forall a, b :: 0 <= a < b < |Set(tl, i)| ==> Set(tl, i)[a] < Set(tl, i)[b]
    decreases TRIGGERS - i
  {
    if i < TRIGGERS {
      SetIsExact(tl, i + 1);
      if TRIG_LSB + i in tl {
        Prepend(i, Set(tl, i + 1));
      }
    }
  }

  /** There are nine triggers, from bit 22 on. */
  lemma NineTriggers(tl: Word)
    ensures forall k: nat :: k in Set(tl, 0) <==> k < 9 && 22 + k in tl
  {
    hide Set;
    SetIsExact(tl, 0);
    forall k: nat
      ensures k in Set(tl, 0) <==> k < 9 && 22 + k in tl
    {
      assert TRIG_LSB + k == 22 + k;
    }
  }

  lemma Prepend(x: nat, s: seq<nat>)
    requires forall k :: k in s ==> x < k
    requires forall a, b :: 0 <= a < b < |s| ==> s[a] < s[b]
    ensures forall a, b :: 0 <= a < b < |[x] + s| ==> ([x] + s)[a] < ([x] + s)[b]
  {
    var t := [x] + s;
    forall a, b | 0 <= a < b < |t|
      ensures t[a] < t[b]
    {
      assert t[b] == s[b - 1] && s[b - 1] in s;
      assert a > 0 ==> t[a] == s[a - 1];
    }
  }

  /** Words that agree from trigger i on have the same triggers from i on. */
  lemma {:induction false} SameSet(a: Word, b: Word, i: nat)
    requires i <= TRIGGERS
    requires forall k :: TRIG_LSB + i <= k < TRIG_LSB + TRIGGERS ==> (k in a <==> k in b)
    ensures Set(a, i) == Set(b, i)
    decreases TRIGGERS - i
  {
    if i < TRIGGERS {
      SameSet(a, b, i + 1);
    }
  }

  // ---------- What a handler does ----------

  /** The handler's count of wrap-arounds, in ticks, after a record. */
  function TimeAfter(time: HwTime, r: Record): HwTime {
    if SELF_INC in r.tl then Wrap64(time + EPOCH) else time
  }

  /** The stamp built for a record: its low 26 bits under the high bits of the count. */
  function Stamp(time: HwTime, r: Record): HwTime {
    r.th % EPOCH + (time - time % EPOCH)
  }

  function Dispatches(triggers: seq<nat>, raw: HwTime): (d: seq<Dispatched>)
  {
    seq(|triggers|, i requires 0 <= i < |triggers| => Dispatched(triggers[i], raw))
  }

  /** What is handed on are the triggers, in order, all with the given time. */
  lemma DispatchesExact(triggers: seq<nat>, raw: HwTime)
    ensures |Dispatches(triggers, raw)| == |triggers|
    ensures forall i :: 0 <= i < |triggers| ==> Dispatches(triggers, raw)[i] == Dispatched(triggers[i], raw)
  {
  }

  lemma NoDispatches(raw: HwTime)
    ensures Dispatches([], raw) == []
  {
  }

  lemma Shift(done: seq<nat>, i: nat, rest: seq<nat>, raw: HwTime)
    ensures (done + [i]) + rest == done + ([i] + rest)
    ensures Dispatches(done + [i], raw) == Dispatches(done, raw) + [Dispatched(i, raw)]
  {
  }

  /** The count after a series of records, and what they dispatch. */
  function TimeAfterAll(time: HwTime, rs: seq<Record>): HwTime
    decreases |rs|
  {
    if rs == [] then time else TimeAfterAll(TimeAfter(time, rs[0]), rs[1..])
  }

  function DispatchAll(time: HwTime, rs: seq<Record>): seq<Dispatched>
    decreases |rs|
  {
    if rs == [] then [] else
    var t := TimeAfter(time, rs[0]);
    Dispatches(Set(rs[0].tl, 0), Stamp(t, rs[0])) + DispatchAll(t, rs[1..])
  }

  /** Taking the lowest set trigger bit out of a word takes it off the list. */
  lemma TakeBit(tl: Word, i: nat)
    requires i < TRIGGERS && TRIG_LSB + i in tl
    ensures Set(tl, i) == [i] + Set(tl - {TRIG_LSB + i}, i)
  {
    SameSet(tl, tl - {TRIG_LSB + i}, i + 1);
  }

  lemma {:induction false} NoneLeft(tl: Word, i: nat)
    requires i <= TRIGGERS && TrigVector(tl) == {}
    ensures Set(tl, i) == []
    decreases TRIGGERS - i
  {
    if i < TRIGGERS {
      NoneLeft(tl, i + 1);
      assert TRIG_LSB + i in tl ==> TRIG_LSB + i in TrigVector(tl);
    }
  }

  /** A timing module's part of the event device, with the log of its dispatches. */
  class TimingModule {
    var time: HwTime
    var log: seq<Dispatched>

    constructor (time: HwTime)
      ensures this.time == time && log == []
    {
      this.time := time;
      log := [];
    }

    /** Hands on the triggers of one record: each set bit once, lowest first. */
    method DispatchTriggers(tl0: Word, raw: HwTime)
      modifies this`log
      ensures log == old(log) + Dispatches(Set(tl0, 0), raw)
    {
      hide Set, Dispatches;
      NoDispatches(raw);
      var tl, i, m := tl0, 0, TRIG_LSB;
      ghost var done: seq<nat> := [];
      while TrigVector(tl) != {}
        invariant i < TRIGGERS && m == TRIG_LSB + i
        invariant forall b :: TRIG_LSB <= b < m ==> b !in tl
        invariant done + Set(tl, i) == Set(tl0, 0)
        invariant log == old(log) + Dispatches(done, raw)
        decreases |Set(tl, i)|
      {
        i, m := NextSet(tl, i, m);
        TakeBit(tl, i);
        Shift(done, i, Set(tl - {m}, i), raw);
        tl := tl - {m};
        done := done + [i];
        log := log + [Dispatched(i, raw)];
      }
      NoneLeft(tl, i);
      assert done == Set(tl0, 0);
    }

    /** Moves on to the next set trigger bit, which exists as the vector is not empty. */
    static method NextSet(tl: Word, i0: nat, m0: nat) returns (i: nat, m: nat)
      requires i0 < TRIGGERS && m0 == TRIG_LSB + i0 && TrigVector(tl) != {}
      requires forall b :: TRIG_LSB <= b < m0 ==> b !in tl
      ensures i0 <= i < TRIGGERS && m == TRIG_LSB + i && m in tl
      ensures forall b :: TRIG_LSB <= b < m ==> b !in tl
      ensures Set(tl, i) == Set(tl, i0)
    {
      i, m := i0, m0;
      ghost var next :| next in TrigVector(tl);
      while m !in tl
        invariant i0 <= i < TRIGGERS && m == TRIG_LSB + i <= next
        invariant forall b :: TRIG_LSB <= b < m ==> b !in tl
        invariant Set(tl, i) == Set(tl, i0)
        decreases TRIGGERS - i
      {
        i, m := i + 1, m + 1;
      }
    }

    /** Handles one record: counts a wrap-around, builds the stamp, dispatches. */
    method HandleRecord(r: Record)
      modifies this
      ensures time == TimeAfter(old(time), r)
      ensures log == old(log) + Dispatches(Set(r.tl, 0), Stamp(time, r))
    {
      var stamp := r.th % EPOCH;
      if SELF_INC in r.tl {
        time := Wrap64(time + EPOCH);
      }
      stamp := stamp + (time - time % EPOCH);
      DispatchTriggers(r.tl, stamp);
    }

    /** The handler: empties the module's FIFO of records. */
    method Handle(fifo: seq<Record>)
      modifies this
      ensures time == TimeAfterAll(old(time), fifo)
      ensures log == old(log) + DispatchAll(old(time), fifo)
    {
      hide DispatchAll, TimeAfterAll, Dispatches, Stamp, TimeAfter;
      NothingYet(time);
      for i := 0 to |fifo|
        invariant time == TimeAfterAll(old(time), fifo[..i])
        invariant log == old(log) + DispatchAll(old(time), fifo[..i])
      {
        OneMore(old(time), fifo[..i], fifo[i]);
        ghost var done := DispatchAll(old(time), fifo[..i]);
        assert fifo[..i + 1] == fifo[..i] + [fifo[i]];
        HandleRecord(fifo[i]);
        ghost var more := Dispatches(Set(fifo[i].tl, 0), Stamp(time, fifo[i]));
        assert old(log) + done + more == old(log) + (done + more);
      }
      assert fifo[..|fifo|] == fifo;
    }
  }

  lemma NothingYet(time: HwTime)
    ensures TimeAfterAll(time, []) == time && DispatchAll(time, []) == []
  {
  }

  lemma OneMore(time: HwTime, rs: seq<Record>, r: Record)
    ensures var t := TimeAfterAll(time, rs);
            && TimeAfterAll(time, rs + [r]) == TimeAfter(t, r)
            && DispatchAll(time, rs + [r])
               == DispatchAll(time, rs) + Dispatches(Set(r.tl, 0), Stamp(TimeAfter(t, r), r))
  {
    RunsCompose(time, rs, [r]);
    assert [r][1..] == [];
    assert DispatchAll(TimeAfterAll(time, rs), [r])
        == Dispatches(Set(r.tl, 0), Stamp(TimeAfter(TimeAfterAll(time, rs), r), r)) + [];
  }

  // ---------- Reconstruction ----------

  /** Records of ticks after `prev`, in order, one a tick, each with its tick's low 26 bits. */
  predicate InOrder(rs: seq<Record>, ticks: seq<nat>, prev: nat) {
    && |rs| == |ticks| && prev < U64
    && (forall k :: 0 <= k < |ticks| ==> prev < ticks[k] < U64)
    && (forall j, k :: 0 <= j < k < |ticks| ==> ticks[j] < ticks[k])
    && (forall k :: 0 <= k < |rs| ==> rs[k].th % EPOCH == ticks[k] % EPOCH)
  }

  /** The start of the epoch of a tick. */
  function EpochStart(t: nat): nat {
    t - t % EPOCH
  }

  /** The first record of each epoch is marked, no other is, and no epoch goes by without a
    * record. */
  predicate MarksRight(rs: seq<Record>, ticks: seq<nat>, prev: nat)
    requires |rs| == |ticks|
    decreases |rs|
  {
    rs == [] ||
    (EpochStart(ticks[0]) == EpochStart(prev) + (if SELF_INC in rs[0].tl then EPOCH else 0)
     && MarksRight(rs[1..], ticks[1..], ticks[0]))
  }

  /** The stamps built for a series of records. */
  function Stamps(time: HwTime, rs: seq<Record>): seq<HwTime>
    decreases |rs|
  {
    if rs == [] then [] else
    var t := TimeAfter(time, rs[0]);
    [Stamp(t, rs[0])] + Stamps(t, rs[1..])
  }

  /** A stamp has the low 26 bits of the record below the count's. */
  lemma StampSplits(time: HwTime, r: Record)
    ensures Stamp(time, r) % 67108864 == r.th % 67108864 && Stamp(time, r) / 67108864 == time / 67108864
  {
  }

  /** One stamp is right, and so is the count after it, if and only if the mark is. */
  lemma MarkIsNeeded(prev: nat, tick: nat, r: Record)
    requires prev < tick < U64 && r.th % EPOCH == tick % EPOCH
    ensures var t := TimeAfter(EpochStart(prev), r);
            var right := EpochStart(tick) == EpochStart(prev) + if SELF_INC in r.tl then EPOCH else 0;
            (t == EpochStart(tick) <==> right) && (Stamp(t, r) == tick <==> right)
  {
    EpochCarries(EpochStart(prev));
    var t := TimeAfter(EpochStart(prev), r);
    assert Stamp(t, r) == tick % EPOCH + t;
  }

  lemma EpochCarries(e: HwTime)
    requires e % EPOCH == 0
    ensures Wrap64(e + EPOCH) % EPOCH == 0
    ensures Wrap64(e + EPOCH) == if e + EPOCH < U64 then e + EPOCH else 0
  {
  }

  /** The stamps of a whole run are the true 64-bit tick counts if and only if the marks are
    * right. */
  lemma {:induction false} StampsTrueIff(rs: seq<Record>, ticks: seq<nat>, prev: nat)
    requires InOrder(rs, ticks, prev)
    ensures Stamps(EpochStart(prev), rs) == ticks <==> MarksRight(rs, ticks, prev)
    decreases |rs|
  {
    if rs != [] {
      hide Stamp, TimeAfter, EpochStart;
      RestInOrder(rs, ticks, prev);
      MarkIsNeeded(prev, ticks[0], rs[0]);
      var t := TimeAfter(EpochStart(prev), rs[0]);
      var rest := Stamps(t, rs[1..]);
      assert [Stamp(t, rs[0])] + rest == ticks <==> Stamp(t, rs[0]) == ticks[0] && rest == ticks[1..] by {
        assert ticks == [ticks[0]] + ticks[1..];
        assert ([Stamp(t, rs[0])] + rest)[1..] == rest && ([Stamp(t, rs[0])] + rest)[0] == Stamp(t, rs[0]);
      }
      if Stamp(t, rs[0]) == ticks[0] {
        StampsTrueIff(rs[1..], ticks[1..], ticks[0]);
      }
    }
  }

  lemma RestInOrder(rs: seq<Record>, ticks: seq<nat>, prev: nat)
    requires InOrder(rs, ticks, prev) && rs != []
    ensures InOrder(rs[1..], ticks[1..], ticks[0])
  {
  }

  /** What a module should dispatch: every trigger of every record, with the true tick. */
  function TrueDispatches(rs: seq<Record>, ticks: seq<nat>): seq<Dispatched>
    requires |rs| == |ticks| && forall k :: 0 <= k < |ticks| ==> ticks[k] < U64
  {
    if rs == [] then [] else
    Dispatches(Set(rs[0].tl, 0), ticks[0]) + TrueDispatches(rs[1..], ticks[1..])
  }

  /** With right marks, a run dispatches every trigger of every record with its true tick, and
    * the count is left at the epoch of the last tick, ready for the next run. */
  lemma {:induction false} StampsAreTrue(rs: seq<Record>, ticks: seq<nat>, prev: nat)
    requires InOrder(rs, ticks, prev) && MarksRight(rs, ticks, prev)
    ensures DispatchAll(EpochStart(prev), rs) == TrueDispatches(rs, ticks)
    ensures TimeAfterAll(EpochStart(prev), rs)
            == EpochStart(if ticks == [] then prev else ticks[|ticks| - 1])
    decreases |rs|
  {
    if rs != [] {
      hide Stamp, TimeAfter, EpochStart, Dispatches, Set;
      RestInOrder(rs, ticks, prev);
      MarkIsNeeded(prev, ticks[0], rs[0]);
      StampsAreTrue(rs[1..], ticks[1..], ticks[0]);
      if |ticks| > 1 {
        assert ticks[1..][|ticks| - 2] == ticks[|ticks| - 1];
      }
    }
  }

  /** The hardware's rule: there is a record for every wrap-around of the counter, and exactly
    * the records of wrap-arounds are marked. */
  predicate MarksWraps(rs: seq<Record>, ticks: seq<nat>, prev: nat)
    requires |rs| == |ticks|
  {
    && (forall k :: 0 <= k < |rs| ==> (SELF_INC in rs[k].tl <==> ticks[k] % EPOCH == 0))
    && (forall k, t: nat :: 0 <= k < |ticks| && prev < t <= ticks[k] && t % EPOCH == 0 ==> t in ticks)
  }

  /** Under the hardware's rule the marks are right. */
  lemma {:induction false} WrapsSuffice(rs: seq<Record>, ticks: seq<nat>, prev: nat)
    requires InOrder(rs, ticks, prev) && MarksWraps(rs, ticks, prev)
    ensures MarksRight(rs, ticks, prev)
    decreases |rs|
  {
    if rs != [] {
      FirstMarkIsRight(rs, ticks, prev);
      RestInOrder(rs, ticks, prev);
      WrapsSuffice(rs[1..], ticks[1..], ticks[0]);
    }
  }

  lemma FirstMarkIsRight(rs: seq<Record>, ticks: seq<nat>, prev: nat)
    requires InOrder(rs, ticks, prev) && MarksWraps(rs, ticks, prev) && rs != []
    ensures EpochStart(ticks[0]) == EpochStart(prev) + if SELF_INC in rs[0].tl then EPOCH else 0
    ensures MarksWraps(rs[1..], ticks[1..], ticks[0])
  {
    var t := EpochStart(ticks[0]);
    assert t % EPOCH == 0;
    if prev < t {
      assert t in ticks;
      assert t == ticks[0];
      var u := t - EPOCH;
      assert u % EPOCH == 0;
      assert u > prev ==> u in ticks;
    }
    forall k, w: nat | 0 <= k < |ticks[1..]| && ticks[0] < w <= ticks[1..][k] && w % EPOCH == 0
      ensures w in ticks[1..]
    {
      assert ticks[1..][k] == ticks[k + 1];
      assert w in ticks;
    }
  }

  /** Handler runs compose: emptying the FIFO in two runs, wherever the records are cut,
    * does what one run over all of them does. */
  lemma {:induction false} RunsCompose(time: HwTime, a: seq<Record>, b: seq<Record>)
    ensures TimeAfterAll(time, a + b) == TimeAfterAll(TimeAfterAll(time, a), b)
    ensures DispatchAll(time, a + b) == DispatchAll(time, a) + DispatchAll(TimeAfterAll(time, a), b)
    decreases |a|
  {
    if a == [] {
      assert a + b == b;
    } else {
      assert (a + b)[1..] == a[1..] + b;
      RunsCompose(TimeAfter(time, a[0]), a[1..], b);
    }
  }
}

/** Setting the machine and system time (libera_set_time and the SC/MC trigger cases in
  * drivers/libera/libera_main.c).
  *
  * The FPGA's raw machine counter is the plain tick count shifted by the PLL offset that
  * the driver last computed; the driver adds its own offset to raw stamps. */
module SetTime {
  import opened Words
  import opened TimeConversion

  const TRIG_LOG: nat := 4096

  datatype LstSetting = LstSetting(ref: HwTime, off: HwTime, scphi: HwTime)
  datatype LmtSetting = LmtSetting(ref: HwTime, offAll: HwTime, off: HwTime, offPll: HwTime, mcphi: HwTime)

  /** The driver's time settings: what the next SET trigger is to update, whether one is
    * armed, and the time of the next generated event. */
  datatype Settings = Settings(lst: LstSetting, lmt: LmtSetting, updateSt: bool, updateMt: bool,
                               setMode: bool, eventTime: HwTime)

  /** The machine clock's division: an atom of d ticks, a fast-acquisition step of dfa atoms. */
  datatype Division = Division(d: nat, dfa: nat) {
    /** The step of the PLL offset, a 32-bit product; none when dfa is zero. */
    function Step(): nat {
      Wrap32(d * dfa)
    }

    predicate Usable() {
      dfa > 0 ==> Step() > 0
    }

    function StartDelay(): nat {
      Wrap32(20 * 1024 * dfa * d)
    }
  }

  function SetLst(s: Settings, trig: LTimestamp): Settings {
    s.(lst := s.lst.(off := Wrap64(s.lst.ref - s.lst.scphi - trig.lst)))
  }

  function SetLmt(s: Settings, trig: LTimestamp, v: Division): Settings
    requires v.Usable()
  {
    var offAll := Wrap64(s.lmt.ref - s.lmt.mcphi - trig.lmt + s.lmt.offPll);
    var offPll: HwTime := if v.dfa > 0 then offAll % v.Step() else 0;
    s.(lmt := s.lmt.(offAll := offAll, offPll := offPll, off := Wrap64(offAll - offPll)),
    eventTime := Wrap64(trig.lmt + v.StartDelay() - Wrap64(offPll - s.lmt.offPll)))
  }

  function Apply(s: Settings, trig: LTimestamp, v: Division): Settings
    requires v.Usable()
  {
    var a := if s.updateSt then SetLst(s, trig) else s;
    var b := if a.updateMt then SetLmt(a, trig, v) else a;
    b.(updateSt := false, updateMt := false)
  }

  // ---------- What a stamp shows ----------

  /** The LST stamp of a trigger at a raw system count. */
  function LstStamp(s: Settings, count: int): HwTime {
    Wrap64(Wrap64(count) + s.lst.off)
  }

  /** The raw machine stamp at a plain machine count. */
  function RawLmt(s: Settings, count: int): HwTime {
    Wrap64(count + s.lmt.offPll)
  }

  /** The LMT stamp at a plain machine count. */
  function LmtStamp(s: Settings, count: int): HwTime {
    Wrap64(RawLmt(s, count) + s.lmt.off)
  }

  /** The two partial offsets make up the global one; the driver's part is a multiple of
    * the step and the PLL's part less than a step. */
  predicate Consistent(l: LmtSetting, v: Division) {
    && Wrap64(l.off + l.offPll) == l.offAll
    && (v.dfa > 0 && v.Usable() ==> l.off % v.Step() == 0 && l.offPll < v.Step())
    && (v.dfa == 0 ==> l.offPll == 0)
  }

  lemma SetLmtIsConsistent(s: Settings, trig: LTimestamp, v: Division)
    requires v.Usable()
    ensures Consistent(SetLmt(s, trig, v).lmt, v)
  {
    hide Division.Step, Division.StartDelay;
    if v.dfa > 0 {
      CutToMultiple(SetLmt(s, trig, v).lmt.offAll, v.Step());
    }
  }

  lemma CutToMultiple(x: HwTime, m: nat)
    requires m > 0
    ensures 0 <= x % m < m && x % m <= x && (x - x % m) % m == 0
    ensures Wrap64(x - x % m) == x - x % m && Wrap64(x - x % m + x % m) == x
  {
    DivMod(x, m);
    ModIs(x - x % m, m, x / m, 0);
  }

  /** After a SET trigger at plain count c, the LMT at count b is the reference time less
    * the phase, plus the ticks since the trigger: the offsets in force before, the PLL's
    * among them, have no influence. */
  lemma LmtAfterSet(s: Settings, lst: HwTime, c: int, b: int, v: Division)
    requires v.Usable()
    ensures var t := SetLmt(s, LTimestamp(lst, RawLmt(s, c)), v);
            LmtStamp(t, b) == Wrap64(s.lmt.ref - s.lmt.mcphi + b - c)
  {
    hide Division.Step, Division.StartDelay, Wrap64;
    var t := SetLmt(s, LTimestamp(lst, RawLmt(s, c)), v);
    SetLmtIsConsistent(s, LTimestamp(lst, RawLmt(s, c)), v);
    WrapSum(b, t.lmt.offPll, t.lmt.off);
    WrapDifference(s.lmt.ref - s.lmt.mcphi, c, s.lmt.offPll);
    WrapPlus(b, t.lmt.offAll, s.lmt.ref - s.lmt.mcphi - c);
  }

  lemma WrapSum(b: int, x: HwTime, y: HwTime)
    ensures Wrap64(Wrap64(b + x) + y) == Wrap64(b + Wrap64(y + x))
  {
    WrapAdds(b + x, y);
    WrapAdds(y + x, b);
  }

  lemma WrapDifference(a: int, c: int, p: HwTime)
    ensures Wrap64(a - Wrap64(c + p) + p) == Wrap64(a - c)
  {
    WrapSubtracts(a + p, c + p);
  }

  lemma WrapPlus(b: int, x: HwTime, y: int)
    requires x == Wrap64(y)
    ensures Wrap64(b + x) == Wrap64(y + b)
  {
  }

  /** After a SET trigger at raw system count c, the LST at count b is the reference time
    * less the phase, plus the ticks since the trigger. */
  lemma LstAfterSet(s: Settings, lmt: HwTime, c: int, b: int)
    ensures LstStamp(SetLst(s, LTimestamp(Wrap64(c), lmt)), b)
            == Wrap64(s.lst.ref - s.lst.scphi + b - c)
  {
  }

  /** Stamps of the machine prescaler take the PLL offset out again: they show the plain
    * count whatever has been set. */
  lemma PrescalerIsPlain(s: Settings, count: int)
    ensures Wrap64(RawLmt(s, count) - s.lmt.offPll) == Wrap64(count)
  {
  }

  /** A consistent driver offset keeps the phase of the raw stamp if and only if the sum does
    * not wrap around, or the step divides the 64-bit range. */
  lemma PhaseIsKept(s: Settings, count: int, v: Division)
    requires v.dfa > 0 && v.Usable() && Consistent(s.lmt, v)
    ensures LmtStamp(s, count) % v.Step() == RawLmt(s, count) % v.Step()
            <==> RawLmt(s, count) + s.lmt.off < U64 || U64 % v.Step() == 0
  {
    var m, raw := v.Step(), RawLmt(s, count);
    PhaseShift(raw + s.lmt.off, s.lmt.off, m);
    assert raw % m == (raw + s.lmt.off) % m;
    if raw + s.lmt.off < U64 {
      assert LmtStamp(s, count) == raw + s.lmt.off;
    } else {
      assert LmtStamp(s, count) == raw + s.lmt.off - U64;
      PhaseShift(raw + s.lmt.off, U64, m);
    }
  }

  /** Subtracting b keeps the phase if and only if b is a multiple of m. */
  lemma PhaseShift(a: nat, b: nat, m: nat)
    requires m > 0 && b <= a
    ensures (a - b) % m == a % m <==> b % m == 0
  {
    var p := a - b;
    DivMod(p, m);
    DivMod(b, m);
    MulAdd(p / m, b / m, m);
    MulAdd(p / m + b / m, 1, m);
    var r := p % m + b % m;
    if r < m {
      ModIs(a, m, p / m + b / m, r);
    } else {
      ModIs(a, m, p / m + b / m + 1, r - m);
    }
  }

  /** The PLL offset a SET trigger at plain machine count c leads to, from what is known
    * before it. */
  function NextOffPll(s: Settings, c: int, v: Division): HwTime
    requires v.Usable()
  {
    if v.dfa > 0 then Wrap64(s.lmt.ref - s.lmt.mcphi - c) % v.Step() else 0
  }

  lemma OffPllAfterSet(s: Settings, lst: HwTime, c: int, v: Division)
    requires v.Usable()
    ensures SetLmt(s, LTimestamp(lst, RawLmt(s, c)), v).lmt.offPll == NextOffPll(s, c, v)
  {
    hide Wrap64;
    WrapDifference(s.lmt.ref - s.lmt.mcphi, c, s.lmt.offPll);
  }

  /** The raw time at which the restart of the slow acquisition is scheduled is wrong by
    * twice the change of the PLL offset: the start delay after the trigger the raw counter,
    * as it is then shifted, shows another time. */
  lemma RestartError(s: Settings, lst: HwTime, c: int, v: Division)
    requires v.Usable()
    ensures var t := SetLmt(s, LTimestamp(lst, RawLmt(s, c)), v);
            t.eventTime == Wrap64(RawLmt(t, c + v.StartDelay()) - 2 * (NextOffPll(s, c, v) - s.lmt.offPll))
  {
    hide Division.Step, Division.StartDelay, NextOffPll, Wrap64;
    OffPllAfterSet(s, lst, c, v);
    ShiftTwice(c, v.StartDelay(), s.lmt.offPll, NextOffPll(s, c, v));
  }

  /** The restart is scheduled the start delay after the trigger, on the machine clock as
    * set, if and only if the PLL offset is already the one that the reference time, the phase
    * and the count of the trigger call for. */
  lemma RestartTime(s: Settings, lst: HwTime, c: int, v: Division)
    requires v.Usable() && s.lmt.offPll < U32
    ensures var t := SetLmt(s, LTimestamp(lst, RawLmt(s, c)), v);
            t.eventTime == RawLmt(t, c + v.StartDelay()) <==> s.lmt.offPll == NextOffPll(s, c, v)
  {
    hide Division.Step, Division.StartDelay, NextOffPll, Wrap64;
    var t := SetLmt(s, LTimestamp(lst, RawLmt(s, c)), v);
    RestartError(s, lst, c, v);
    OffPllIsSmall(s, c, v);
    ShiftIsSeen(RawLmt(t, c + v.StartDelay()), s.lmt.offPll, NextOffPll(s, c, v));
  }

  lemma OffPllIsSmall(s: Settings, c: int, v: Division)
    requires v.Usable()
    ensures NextOffPll(s, c, v) < U32
  {
    if v.dfa > 0 {
      CutToMultiple(Wrap64(s.lmt.ref - s.lmt.mcphi - c), v.Step());
    }
  }

  lemma ShiftTwice(c: int, delay: nat, before: HwTime, after: HwTime)
    ensures Wrap64(Wrap64(c + before) + delay - Wrap64(after - before))
            == Wrap64(Wrap64(c + delay + after) - 2 * (after - before))
  {
    WrapAdds(c + before, delay - Wrap64(after - before));
    WrapSubtracts(c + before + delay, after - before);
    WrapAdds(c + delay + after, -2 * (after - before));
  }

  lemma WrapAdds(a: int, b: int)
    ensures Wrap64(Wrap64(a) + b) == Wrap64(a + b)
  {
  }

  lemma WrapSubtracts(a: int, b: int)
    ensures Wrap64(a - Wrap64(b)) == Wrap64(a - b)
  {
  }

  lemma ShiftIsSeen(raw: HwTime, before: HwTime, after: HwTime)
    requires before < U32 && after < U32
    ensures Wrap64(raw - 2 * (after - before)) == raw <==> after == before
  {
  }

  /** Setting the time to 60 at the very first tick, with steps of 100 ticks: the restart is
    * scheduled 120 ticks before its time. */
  lemma RestartTooEarly()
    ensures var v := Division(50, 2);
            var s := Settings(LstSetting(0, 0, 0), LmtSetting(60, 0, 0, 0, 0), false, true, true, 0);
            var t := SetLmt(s, LTimestamp(0, RawLmt(s, 0)), v);
            v.Usable() && RawLmt(t, v.StartDelay()) == 2048060 && t.eventTime == 2048060 - 120
  {
    var v := Division(50, 2);
    var s := Settings(LstSetting(0, 0, 0), LmtSetting(60, 0, 0, 0, 0), false, true, true, 0);
    assert v.Step() == 100 && v.StartDelay() == 2048000;
    assert RawLmt(s, 0) == 0 && NextOffPll(s, 0, v) == 60;
    hide SetLmt, Division.Step, Division.StartDelay, NextOffPll;
    OffPllAfterSet(s, 0, 0, v);
    RestartError(s, 0, 0, v);
  }

  // ---------- Series of triggers ----------

  /** What happens to the settings: new references and phases from user programs, and
    * triggers at a raw system count and a plain machine count. */
  datatype Event =
    | ArmSt(ref: HwTime)
    | ArmMt(ref: HwTime)
    | SetScphi(phase: HwTime)
    | SetMcphi(phase: HwTime)
    | Trigger(scCount: int, mcCount: int)

  function Step(s: Settings, e: Event, v: Division): Settings
    requires v.Usable()
  {
    match e
    case ArmSt(ref) => s.(lst := s.lst.(ref := ref), setMode := true, updateSt := true)
    case ArmMt(ref) => s.(lmt := s.lmt.(ref := ref), setMode := true, updateMt := true)
    case SetScphi(phase) => s.(lst := s.lst.(scphi := phase))
    case SetMcphi(phase) => s.(lmt := s.lmt.(mcphi := phase))
    case Trigger(sc, mc) =>
      if !s.setMode then s else
      Apply(s, LTimestamp(Wrap64(sc), RawLmt(s, mc)), v).(setMode := false)
  }

  /** The settings after a series of events. */
  function Run(s: Settings, es: seq<Event>, v: Division): Settings
    requires v.Usable()
  {
    if es == [] then s else Step(Run(s, es[..|es| - 1], v), es[|es| - 1], v)
  }

  datatype Anchor = Unset | At(time: int, count: int)

  // What a series of events calls for, read off the events alone.

  /** Whether a trigger is armed: something was asked for after the last trigger. */
  predicate Armed(s: Settings, es: seq<Event>) {
    if es == [] then s.setMode else
    match es[|es| - 1]
    case ArmSt(_) => true
    case ArmMt(_) => true
    case Trigger(_, _) => false
    case _ => Armed(s, es[..|es| - 1])
  }

  /** Whether the machine time is to be set: it was asked for after the last SET trigger. */
  predicate MtWanted(s: Settings, es: seq<Event>) {
    if es == [] then s.updateMt else
    match es[|es| - 1]
    case ArmMt(_) => true
    case Trigger(_, _) => !Armed(s, es[..|es| - 1]) && MtWanted(s, es[..|es| - 1])
    case _ => MtWanted(s, es[..|es| - 1])
  }

  predicate StWanted(s: Settings, es: seq<Event>) {
    if es == [] then s.updateSt else
    match es[|es| - 1]
    case ArmSt(_) => true
    case Trigger(_, _) => !Armed(s, es[..|es| - 1]) && StWanted(s, es[..|es| - 1])
    case _ => StWanted(s, es[..|es| - 1])
  }

  /** The machine time asked for last, and the phase given last. */
  function MtAsked(s: Settings, es: seq<Event>): HwTime {
    if es == [] then s.lmt.ref else
    match es[|es| - 1]
    case ArmMt(ref) => ref
    case _ => MtAsked(s, es[..|es| - 1])
  }

  function McphiGiven(s: Settings, es: seq<Event>): HwTime {
    if es == [] then s.lmt.mcphi else
    match es[|es| - 1]
    case SetMcphi(phase) => phase
    case _ => McphiGiven(s, es[..|es| - 1])
  }

  function StAsked(s: Settings, es: seq<Event>): HwTime {
    if es == [] then s.lst.ref else
    match es[|es| - 1]
    case ArmSt(ref) => ref
    case _ => StAsked(s, es[..|es| - 1])
  }

  function ScphiGiven(s: Settings, es: seq<Event>): HwTime {
    if es == [] then s.lst.scphi else
    match es[|es| - 1]
    case SetScphi(phase) => phase
    case _ => ScphiGiven(s, es[..|es| - 1])
  }

  /** The machine time the last SET trigger for it had to assign, and its plain count. */
  function MtAnchor(s: Settings, es: seq<Event>): Anchor {
    if es == [] then Unset else
    var before := es[..|es| - 1];
    match es[|es| - 1]
    case Trigger(_, mcCount) =>
      if Armed(s, before) && MtWanted(s, before)
      then At(MtAsked(s, before) - McphiGiven(s, before), mcCount) else MtAnchor(s, before)
    case _ => MtAnchor(s, before)
  }

  /** The system time the last SET trigger for it had to assign, and its raw count. */
  function StAnchor(s: Settings, es: seq<Event>): Anchor {
    if es == [] then Unset else
    var before := es[..|es| - 1];
    match es[|es| - 1]
    case Trigger(scCount, _) =>
      if Armed(s, before) && StWanted(s, before)
      then At(StAsked(s, before) - ScphiGiven(s, before), scCount) else StAnchor(s, before)
    case _ => StAnchor(s, before)
  }

  /** The settings follow what the events call for. */
  lemma {:induction false} RunFollowsEvents(s: Settings, es: seq<Event>, v: Division)
    requires v.Usable()
    ensures var t := Run(s, es, v);
            && t.setMode == Armed(s, es) && t.updateMt == MtWanted(s, es) && t.updateSt == StWanted(s, es)
            && t.lmt.ref == MtAsked(s, es) && t.lmt.mcphi == McphiGiven(s, es)
            && t.lst.ref == StAsked(s, es) && t.lst.scphi == ScphiGiven(s, es)
  {
    if es != [] {
      hide Wrap64, Division.Step, Division.StartDelay;
      RunFollowsEvents(s, es[..|es| - 1], v);
    }
  }

  lemma {:induction false} OffsetsStayConsistent(s: Settings, es: seq<Event>, v: Division)
    requires v.Usable() && Consistent(s.lmt, v)
    ensures Consistent(Run(s, es, v).lmt, v)
  {
    if es != [] {
      OffsetsStayConsistent(s, es[..|es| - 1], v);
      StepKeepsConsistent(Run(s, es[..|es| - 1], v), es[|es| - 1], v);
    }
  }

  lemma StepKeepsConsistent(s: Settings, e: Event, v: Division)
    requires v.Usable() && Consistent(s.lmt, v)
    ensures Consistent(Step(s, e, v).lmt, v)
  {
    if e.Trigger? {
      hide Consistent;
      var trig := LTimestamp(Wrap64(e.scCount), RawLmt(s, e.mcCount));
      SetLmtIsConsistent(if s.updateSt then SetLst(s, trig) else s, trig, v);
    }
  }

  /** After any series of events, machine stamps count on from the time that the last SET
    * trigger for it had to assign: the one asked for last before it, less the phase given
    * last, whatever offsets were in force. */
  lemma {:induction false} MachineTimeIsSet(s: Settings, es: seq<Event>, b: int, v: Division)
    requires v.Usable() && MtAnchor(s, es).At?
    ensures var a := MtAnchor(s, es);
            LmtStamp(Run(s, es, v), b) == Wrap64(a.time + b - a.count)
  {
    hide Wrap64, Division.Step, Division.StartDelay;
    var before := Run(s, es[..|es| - 1], v);
    var e := es[|es| - 1];
    RunFollowsEvents(s, es[..|es| - 1], v);
    if e.Trigger? && before.setMode && before.updateMt {
      var a := if before.updateSt
               then SetLst(before, LTimestamp(Wrap64(e.scCount), RawLmt(before, e.mcCount)))
               else before;
      LmtAfterSet(a, Wrap64(e.scCount), e.mcCount, b, v);
    } else {
      MachineTimeIsSet(s, es[..|es| - 1], b, v);
    }
  }

  /** After any series of events, system stamps count on from the time that the last SET
    * trigger assigned. */
  lemma {:induction false} SystemTimeIsSet(s: Settings, es: seq<Event>, b: int, v: Division)
    requires v.Usable() && StAnchor(s, es).At?
    ensures var a := StAnchor(s, es);
            LstStamp(Run(s, es, v), b) == Wrap64(a.time + b - a.count)
  {
    hide Wrap64, Division.Step, Division.StartDelay;
    var before := Run(s, es[..|es| - 1], v);
    var e := es[|es| - 1];
    RunFollowsEvents(s, es[..|es| - 1], v);
    if e.Trigger? && before.setMode && before.updateSt {
      LstAfterSet(before, RawLmt(before, e.mcCount), e.scCount, b);
    } else {
      SystemTimeIsSet(s, es[..|es| - 1], b, v);
    }
  }

  // ---------- The event device ----------

  /** The part of the event device that keeps the time settings and the last trigger pairs. */
  class EventDevice {
    const v: Division
    const stamps: array<LTimestamp>
    var cbPut: nat
    var lst: LstSetting
    var lmt: LmtSetting
    var updateSt: bool
    var updateMt: bool
    var setMode: bool
    var eventTime: HwTime

    // The pair whose second half came last.
    ghost var last: LTimestamp

    ghost predicate Valid()
      reads this, stamps
    {
      && stamps.Length == TRIG_LOG && cbPut < TRIG_LOG && v.Usable()
      && stamps[if cbPut == 0 then TRIG_LOG - 1 else cbPut - 1] == last
    }

    ghost function State(): Settings
      reads this
    {
      Settings(lst, lmt, updateSt, updateMt, setMode, eventTime)
    }

    constructor (v: Division, s: Settings)
      requires v.Usable()
      ensures Valid() && State() == s && this.v == v && fresh(stamps)
    {
      this.v := v;
      stamps := new LTimestamp[TRIG_LOG](_ => LTimestamp(0, 0));
      cbPut, last := 0, LTimestamp(0, 0);
      lst, lmt, updateSt, updateMt, setMode, eventTime :=
        s.lst, s.lmt, s.updateSt, s.updateMt, s.setMode, s.eventTime;
    }

    /** The first half of a pair goes into the open slot. */
    method PutLst(t: HwTime)
      requires Valid()
      modifies stamps
      ensures Valid()
      ensures stamps[..] == old(stamps[..])[cbPut := LTimestamp(t, old(stamps[cbPut].lmt))]
    {
      stamps[cbPut] := stamps[cbPut].(lst := t);
    }

    /** The second half completes the pair and closes the slot. */
    method PutLmt(t: HwTime)
      requires Valid()
      modifies this`cbPut, this`last, stamps
      ensures Valid() && cbPut == (old(cbPut) + 1) % TRIG_LOG
      ensures last == LTimestamp(old(stamps[cbPut].lst), t)
      ensures stamps[..] == old(stamps[..])[old(cbPut) := LTimestamp(old(stamps[cbPut].lst), t)]
    {
      stamps[cbPut] := stamps[cbPut].(lmt := t);
      last := stamps[cbPut];
      cbPut := (cbPut + 1) % TRIG_LOG;
    }

    /** Returns the pair closed last, wherever the index has gone since and whatever the open
      * pair holds; before any was closed, the cleared one. */
    method LastPair() returns (p: LTimestamp)
      requires Valid()
      ensures p == last
    {
      p := stamps[(cbPut + TRIG_LOG - 1) % TRIG_LOG];
    }

    method SetLstTime()
      requires Valid()
      modifies this`lst
      ensures State() == SetLst(old(State()), last)
    {
      var trig := LastPair();
      lst := lst.(off := Wrap64(lst.ref - lst.scphi - trig.lst));
    }

    method SetLmtTime()
      requires Valid()
      modifies this`lmt, this`eventTime
      ensures State() == SetLmt(old(State()), last, v)
    {
      var trig := LastPair();
      var offPllOld := lmt.offPll;
      var offAll := Wrap64(lmt.ref - lmt.mcphi - trig.lmt + offPllOld);
      var offPll: HwTime := 0;
      if v.dfa > 0 {
        offPll := offAll % v.Step();
      }
      lmt := lmt.(offAll := offAll, offPll := offPll, off := Wrap64(offAll - offPll));
      eventTime := Wrap64(trig.lmt + v.StartDelay() - Wrap64(offPll - offPllOld));
    }

    method ApplySettings()
      requires Valid()
      modifies this`lst, this`lmt, this`eventTime, this`updateSt, this`updateMt
      ensures State() == Apply(old(State()), last, v)
    {
      if updateSt {
        SetLstTime();
      }
      if updateMt {
        SetLmtTime();
      }
      updateSt, updateMt := false, false;
    }

    /** The system half of a trigger: raw when the time is to be set, offset otherwise. */
    method ScTrigger(raw: HwTime)
      requires Valid()
      modifies stamps
      ensures Valid()
      ensures stamps[cbPut].lst == if setMode then raw else Wrap64(raw + lst.off)
      ensures forall i :: 0 <= i < TRIG_LOG && i != cbPut ==> stamps[i] == old(stamps[i])
    {
      if setMode {
        PutLst(raw);
      } else {
        PutLst(Wrap64(raw + lst.off));
      }
    }

    /** The machine half, which also sets the time and leaves set mode. */
    method McTrigger(raw: HwTime)
      requires Valid()
      modifies this, stamps
      ensures Valid() && cbPut == (old(cbPut) + 1) % TRIG_LOG
      ensures State() == if old(setMode)
                         then Apply(old(State()), LTimestamp(old(stamps[cbPut].lst), raw), v).(setMode := false)
                         else old(State())
      ensures stamps[old(cbPut)]
              == LTimestamp(old(stamps[cbPut].lst), if old(setMode) then raw else Wrap64(raw + old(lmt.off)))
    {
      if setMode {
        PutLmt(raw);
        ApplySettings();
        setMode := false;
      } else {
        PutLmt(Wrap64(raw + lmt.off));
      }
    }

    /** Both halves of one trigger: the settings step as in the series above, and the pair
      * recorded is the raw one in set mode and the offset one otherwise. */
    method TriggerPair(scCount: int, mcCount: int)
      requires Valid()
      modifies this, stamps
      ensures Valid() && State() == Step(old(State()), Trigger(scCount, mcCount), v)
      ensures stamps[old(cbPut)]
              == if old(setMode) then LTimestamp(Wrap64(scCount), RawLmt(old(State()), mcCount))
                 else LTimestamp(LstStamp(old(State()), scCount), LmtStamp(old(State()), mcCount))
    {
      ScTrigger(Wrap64(scCount));
      McTrigger(Wrap64(mcCount + lmt.offPll));
    }
  }
}

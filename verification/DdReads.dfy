/** Addressing of the history buffer, a ring of 2^21 atoms in FPGA memory, and how a chain
  * of reads on one file walks through it (drivers/libera/libera_dd.h, ebpp.c). */
module DdReads {
  import opened Words
  import opened TimeConversion

  const CIRCBUF_ATOMS: nat := 2097152

  // ---------- Ring offsets ----------

  /** The ring offset of a machine time; `base` is the driver's LMT offset plus the LMT at
    * which the history buffer was started. */
  function OffsetOfLmt(lmt: HwTime, base: HwTime, d: nat): nat
    requires d > 0
  {
    DivShrinks(Wrap64(lmt - base + d / 2), d);
    Wrap64(lmt - base + d / 2) / d % CIRCBUF_ATOMS
  }

  /** The ring offset of a machine time in atoms. */
  function OffsetOfMt(mt: HwTime, base: HwTime, d: nat): nat
    requires d > 0
  {
    Wrap64(mt - base / d) % CIRCBUF_ATOMS
  }

  /** The time is not before the base by more than half an atom, and rounding it to the
    * nearest atom stays inside 64 bits. */
  predicate Addressable(lmt: int, base: HwTime, d: nat) {
    0 <= lmt - base + d / 2 < U64
  }

  lemma OffsetIsExact(lmt: HwTime, base: HwTime, d: nat)
    requires d > 0 && Addressable(lmt, base, d)
    ensures OffsetOfLmt(lmt, base, d) == (lmt - base + d / 2) / d % CIRCBUF_ATOMS
  {
    assert Wrap64(lmt - base + d / 2) == lmt - base + d / 2;
  }

  /** Whole atoms come out of the division unchanged. */
  lemma DivShift(x: nat, n: nat, d: nat)
    requires d > 0
    ensures (x + n * d) / d == x / d + n
  {
    DivBounds(x, d);
    assert (x / d + n) * d == x / d * d + n * d;
    assert (x / d + n + 1) * d == (x / d + 1) * d + n * d;
    DivIs(x + n * d, d, x / d + n);
  }

  /** Reading on from any addressable time n atoms later moves the ring offset by n. */
  lemma OffsetMoves(lmt: HwTime, later: HwTime, n: nat, base: HwTime, d: nat)
    requires d > 0 && later == lmt + n * d
    requires Addressable(lmt, base, d) && Addressable(later, base, d)
    ensures OffsetOfLmt(later, base, d) == (OffsetOfLmt(lmt, base, d) + n) % CIRCBUF_ATOMS
  {
    var x := lmt - base + d / 2;
    OffsetIsExact(lmt, base, d);
    OffsetIsExact(later, base, d);
    DivShift(x, n, d);
    DivBounds(x, d);
    RingAdds(x / d, n);
  }

  lemma RingAdds(a: nat, n: nat)
    ensures (a + n) % CIRCBUF_ATOMS == (a % CIRCBUF_ATOMS + n) % CIRCBUF_ATOMS
  {
  }

  /** The ring offset is the number of the nearest atom after the base, modulo the ring: atom k
    * stands for the times from half an atom before its start on. */
  lemma NearestAtom(base: HwTime, k: nat, e: int, d: nat)
    requires d > 0 && -(d / 2) <= e < d - d / 2 && 0 <= base + k * d + e
    requires base + k * d + e < U64 && Addressable(base + k * d + e, base, d)
    ensures OffsetOfLmt(base + k * d + e, base, d) == k % 2097152
  {
    hide OffsetOfLmt;
    OffsetIsExact(base + k * d + e, base, d);
    MulAdd(k, 1, d);
    DivIs(k * d + e + d / 2, d, k);
  }

  /** Rounding to the nearest atom counts from the whole atom before the base, or from the
    * one after it when the base lies in the second half of an atom. */
  lemma RoundedAtom(mt: nat, base: nat, d: nat)
    requires d > 0 && 0 <= mt * d - base + d / 2
    ensures 0 <= (mt * d - base + d / 2) / d
    ensures (mt * d - base + d / 2) / d == mt - base / d - (if base % d <= d / 2 then 0 else 1)
  {
    var q, r := base / d, base % d;
    assert base == q * d + r by { assert base == d * q + r; }
    var e := if r <= d / 2 then 0 else 1;
    Distribute(mt, q, e, d);
    Distribute(mt, q, e - 1, d);
    DivIs(mt * d - base + d / 2, d, mt - q - e);
    DivShrinks(mt * d - base + d / 2, d);
  }

  lemma Distribute(a: int, b: int, c: int, d: int)
    ensures (a - b - c) * d == a * d - b * d - c * d
  {
  }

  /** The two addressing functions agree on a whole number of atoms if and only if the base
    * lies at most half an atom after a whole number of atoms. */
  lemma AddressingAgrees(mt: HwTime, base: HwTime, d: nat)
    requires d > 0 && mt * d < U64 && Addressable(mt * d, base, d)
    ensures OffsetOfLmt(mt * d, base, d) == OffsetOfMt(mt, base, d) <==> base % d <= d / 2
  {
    RoundedAtom(mt, base, d);
    OffsetIsExact(mt * d, base, d);
    DivShrinks(base, d);
    OffByOne(mt - base / d);
  }

  lemma OffByOne(x: int)
    requires 0 <= x < U64
    ensures Wrap64(x) % CIRCBUF_ATOMS == x % CIRCBUF_ATOMS
    ensures (x - 1) % CIRCBUF_ATOMS != x % CIRCBUF_ATOMS
  {
  }

  // ---------- Reads ----------

  datatype Request = Implicit | ExplicitSt | ExplicitMt

  /** The position of an open file. */
  datatype Position = Position(request: Request, mt: HwTime, l: LTimestamp, trigOffset: int)

  /** How a transfer ends: in order with some atoms; with an error after some atoms have
    * reached the user; or not begun, as the wait for the FPGA's interrupt was cut short. */
  datatype Transfer = Completed(atoms: nat) | CutOff(written: nat) | NotBegun

  /** What one read finds outside the file: the machine clock and its frequency, whether the
    * current time could be read, the time after the wait for the data, the last trigger,
    * whether the wait succeeded and the command could be queued, and the end of the
    * transfer. */
  datatype Surroundings = Surroundings(d: nat, flmcdHz: nat, base: HwTime, timed: bool, ctime: LTimestamp,
                                       trigger: LTimestamp, ready: bool, queued: bool,
                                       transfer: Transfer)

  /** What a read returns: an error; an atom count after all was well; the count of the atoms
    * that reached the user before the transfer failed, which may be none; or nothing, as
    * nothing was asked for. The caller sees counts of the same kind in the last three. */
  datatype ReadResult = Failed | Read(offset: nat, atoms: nat) | Cut(offset: nat, atoms: nat) | NothingAsked

  predicate Sane(s: Surroundings) {
    s.d > 0 && s.flmcdHz > 0
  }

  /** The position with all its parts defined, and whether they could be. */
  function Resolve(p: Position, s: Surroundings): (r: (Position, bool))
    requires Sane(s)
  {
    if !s.timed then (p, false) else
    match p.request
    case ExplicitSt =>
      if !s.ready then (p, false) else
      var lmt := Lst2Lmt(p.l.lst, s.ctime, s.flmcdHz);
      if lmt.OutOfRange? then (p, false) else
      (p.(l := LTimestamp(p.l.lst, lmt.time), mt := Lmt2Mt(lmt.time, s.d)), true)
    case ExplicitMt =>
      if !s.ready then (p, false) else
      var lst := Lmt2Lst(p.l.lmt, s.ctime, s.flmcdHz);
      if lst.OutOfRange? then (p, false) else
      (p.(l := LTimestamp(lst.time, p.l.lmt)), true)
    case Implicit =>
      var lmt := Wrap64(s.trigger.lmt + Wrap64(p.trigOffset * s.d));
      var lst := Lmt2Lst(lmt, s.trigger, s.flmcdHz);
      if lst.OutOfRange? then (p.(l := LTimestamp(s.trigger.lst, lmt)), false) else
      (p.(l := LTimestamp(lst.time, lmt), mt := Lmt2Mt(lmt, s.d)), s.ready)
  }

  /** The position after `atoms` atoms have been read with decimation `dec`. */
  function Advance(p: Position, atoms: nat, dec: nat, d: nat): Position {
    var mt := Wrap64(p.mt + atoms * dec);
    p.(request := ExplicitMt, mt := mt, l := LTimestamp(p.l.lst, Mt2Lmt(mt, d)))
  }

  /** One read of `span` atoms: the position it leaves and its result. */
  function ReadStep(p: Position, span: nat, dec: nat, s: Surroundings): (Position, ReadResult)
    requires Sane(s)
  {
    if span == 0 then (Advance(p, 0, dec, s.d), NothingAsked) else
    var (q, resolved) := Resolve(p, s);
    if !resolved || !s.queued then (q, Failed) else
    var offset := OffsetOfLmt(q.l.lmt, s.base, s.d);
    match s.transfer
    case Completed(n) => (Advance(q, n, dec, s.d), Read(offset, n))
    case CutOff(n) => (q, Cut(offset, n))
    case NotBegun => (q, Cut(offset, 0))
  }

  /** An open file of the Data-on-Demand device. */
  class DdFile {
    const dec: nat
    var request: Request
    var mt: HwTime
    var l: LTimestamp
    var trigOffset: int

    ghost function State(): Position
      reads this
    {
      Position(request, mt, l, trigOffset)
    }

    constructor (dec: nat, p: Position)
      ensures State() == p && this.dec == dec
    {
      this.dec := dec;
      request, mt, l, trigOffset := p.request, p.mt, p.l, p.trigOffset;
    }

    method ReadSpecific(span: nat, s: Surroundings) returns (result: ReadResult)
      requires Sane(s)
      modifies this
      ensures (State(), result) == ReadStep(old(State()), span, dec, s)
    {
      var atoms: nat := 0;
      result := NothingAsked;
      if span > 0 {
        var resolved := ResolveTimes(s);
        if !resolved || !s.queued {
          return Failed;
        }
        var offset := OffsetOfLmt(l.lmt, s.base, s.d);
        if s.transfer.NotBegun? {
          return Cut(offset, 0);
        }
        if s.transfer.CutOff? {
          return Cut(offset, s.transfer.written);
        }
        atoms := s.transfer.atoms;
        result := Read(offset, atoms);
      }
      request := ExplicitMt;
      mt := Wrap64(mt + atoms * dec);
      l := LTimestamp(l.lst, Mt2Lmt(mt, s.d));
    }

    method ResolveTimes(s: Surroundings) returns (ok: bool)
      requires Sane(s)
      modifies this
      ensures (State(), ok) == Resolve(old(State()), s)
    {
      if !s.timed {
        return false;
      }
      if request == ExplicitSt {
        if !s.ready {
          return false;
        }
        var lmt := Lst2Lmt(l.lst, s.ctime, s.flmcdHz);
        if lmt.OutOfRange? {
          return false;
        }
        l := LTimestamp(l.lst, lmt.time);
        mt := Lmt2Mt(l.lmt, s.d);
        ok := true;
      } else if request == ExplicitMt {
        if !s.ready {
          return false;
        }
        var lst := Lmt2Lst(l.lmt, s.ctime, s.flmcdHz);
        if lst.OutOfRange? {
          return false;
        }
        l := LTimestamp(lst.time, l.lmt);
        ok := true;
      } else {
        l := LTimestamp(s.trigger.lst, Wrap64(s.trigger.lmt + Wrap64(trigOffset * s.d)));
        var lst := Lmt2Lst(l.lmt, s.trigger, s.flmcdHz);
        if lst.OutOfRange? {
          return false;
        }
        l := LTimestamp(lst.time, l.lmt);
        mt := Lmt2Mt(l.lmt, s.d);
        ok := s.ready;
      }
    }
  }

  // ---------- Chains of reads ----------

  /** A read of a chain: the length asked for and its surroundings. */
  type Step = (nat, Surroundings)

  /** All reads of a chain are non-empty, see the same clock and base, and return no error: a
    * transfer that was cut short looks to the caller like one that had less to give. */
  predicate Succeeds(p: Position, dec: nat, d: nat, base: HwTime, chain: seq<Step>)
    decreases |chain|
  {
    chain == [] ||
    (var (span, s) := chain[0];
     && d > 0 && s.d == d && s.base == base && s.flmcdHz > 0 && span > 0
     && !ReadStep(p, span, dec, s).1.Failed?
     && Succeeds(ReadStep(p, span, dec, s).0, dec, d, base, chain[1..]))
  }

  /** A read at a machine time returns no error if and only if the current time can be read,
    * the wait succeeds, the command can be queued and the time can be converted: so far as the
    * times are concerned, if it is close enough to the current one. */
  lemma ReadSucceeds(p: Position, span: nat, dec: nat, s: Surroundings)
    requires Sane(s) && span > 0 && p.request == ExplicitMt
    ensures ReadStep(p, span, dec, s).1.Failed?
            <==> !s.timed || !s.ready || !s.queued
                 || !(-(DELTA_LMT_OVERFLOW as int) <= p.l.lmt - s.ctime.lmt <= DELTA_LMT_OVERFLOW)
    ensures ReadStep(p, span, dec, s).1.Read? ==> s.transfer.Completed?
  {
  }

  /** What a read returns, when it is no error: as many atoms as reached the user. A position
    * is left alone when not even the current time could be read. */
  lemma CountsAreTrue(p: Position, span: nat, dec: nat, s: Surroundings)
    requires Sane(s) && span > 0
    ensures var (q, r) := ReadStep(p, span, dec, s);
            && (!s.timed ==> r == Failed && q == p)
            && (!r.Failed? ==>
                  match s.transfer
                  case Completed(n) => r.Read? && r.atoms == n
                  case CutOff(n) => r.Cut? && r.atoms == n
                  case NotBegun => r.Cut? && r.atoms == 0)
  {
    hide OffsetOfLmt, Lst2Lmt, Lmt2Lst;
  }

  /** The ring offsets a chain reads from. */
  function Offsets(p: Position, dec: nat, d: nat, base: HwTime, chain: seq<Step>): (o: seq<nat>)
    requires Succeeds(p, dec, d, base, chain)
    ensures |o| == |chain|
    decreases |chain|
  {
    if chain == [] then [] else
    var (q, r) := ReadStep(p, chain[0].0, dec, chain[0].1);
    [r.offset] + Offsets(q, dec, d, base, chain[1..])
  }

  /** The atoms of history one read passes. */
  function Moved(dec: nat, s: Step): nat {
    if s.1.transfer.Completed? then s.1.transfer.atoms * dec else 0
  }

  /** The atoms of history a chain passes before its read number i. */
  function Passed(dec: nat, chain: seq<Step>, i: nat): nat
    requires i <= |chain|
  {
    if i == 0 then 0 else Moved(dec, chain[0]) + Passed(dec, chain[1..], i - 1)
  }

  /** The machine times of a position that lies on a whole number of atoms. */
  predicate OnAtom(p: Position, d: nat) {
    p.request == ExplicitMt && p.l.lmt == p.mt * d
  }

  /** After a read the file is on a whole atom and as far on as the read moved it: after one
    * that was cut short, where it was. */
  lemma AfterRead(p: Position, dec: nat, d: nat, base: HwTime, chain: seq<Step>)
    requires Succeeds(p, dec, d, base, chain) && chain != []
    requires p.request == ExplicitMt && (OnAtom(p, d) || chain[0].1.transfer.Completed?)
    requires (p.mt + Moved(dec, chain[0])) * d < U64
    ensures var q := ReadStep(p, chain[0].0, dec, chain[0].1).0;
            q.mt == p.mt + Moved(dec, chain[0]) && OnAtom(q, d)
  {
    hide Lmt2Lst, Lst2Lmt, OffsetOfLmt, Wrap64;
    var mt := p.mt + Moved(dec, chain[0]);
    MulMonotone(1, d, mt);
    NoWrap(mt);
    NoWrap(mt * d);
  }

  lemma NoWrap(x: nat)
    ensures x < U64 ==> Wrap64(x) == x
  {
  }

  /** In a chain of reads without error from a whole atom, every read starts at the machine
    * time reached by all the reads before it. */
  lemma {:induction false} ReadsFollowOn(p: Position, dec: nat, d: nat, base: HwTime,
                                         chain: seq<Step>, i: nat)
    requires Succeeds(p, dec, d, base, chain) && OnAtom(p, d) && i < |chain|
    requires 0 <= (p.mt + Passed(dec, chain, i)) * d < U64
    ensures Offsets(p, dec, d, base, chain)[i]
            == OffsetOfLmt((p.mt + Passed(dec, chain, i)) * d, base, d)
    decreases i
  {
    if i > 0 {
      var n := Moved(dec, chain[0]);
      MulMonotone(p.mt + n, p.mt + n + Passed(dec, chain[1..], i - 1), d);
      AfterRead(p, dec, d, base, chain);
      var q := ReadStep(p, chain[0].0, dec, chain[0].1).0;
      ReadsFollowOn(q, dec, d, base, chain[1..], i - 1);
    }
  }

  /** Gap-free reads from a whole atom: in every chain of reads without error the ring offset
    * of each read is the first one plus all that was passed since, modulo the ring. */
  lemma GapFree(p: Position, dec: nat, d: nat, base: HwTime, chain: seq<Step>, i: nat)
    requires Succeeds(p, dec, d, base, chain) && OnAtom(p, d) && i < |chain|
    requires (p.mt + Passed(dec, chain, i)) * d + d / 2 < U64 && Addressable(p.l.lmt, base, d)
    ensures Offsets(p, dec, d, base, chain)[i]
            == (OffsetOfLmt(p.l.lmt, base, d) + Passed(dec, chain, i)) % CIRCBUF_ATOMS
  {
    hide ReadStep, OffsetOfLmt;
    var n := Passed(dec, chain, i);
    MulMonotone(0, p.mt + n, d);
    ReadsFollowOn(p, dec, d, base, chain, i);
    AtomsLater(p.mt, n, base, d);
  }

  lemma AtomsLater(mt: nat, n: nat, base: HwTime, d: nat)
    requires d > 0 && (mt + n) * d + d / 2 < U64
    requires 0 <= mt * d < U64 && Addressable(mt * d, base, d)
    ensures 0 <= (mt + n) * d < U64
    ensures OffsetOfLmt((mt + n) * d, base, d) == (OffsetOfLmt(mt * d, base, d) + n) % CIRCBUF_ATOMS
  {
    hide OffsetOfLmt;
    MulAdd(mt, n, d);
    MulMonotone(0, n, d);
    OffsetMoves(mt * d, (mt + n) * d, n, base, d);
  }

  /** Rounding a time to the nearest atom and rounding a time `within` ticks earlier, less
    * than an atom, agree unless the ticks carry the rounding over, and then differ by one. */
  lemma RoundingCarries(start: HwTime, within: nat, base: HwTime, d: nat)
    requires within < d && start + within < U64
    requires Addressable(start, base, d) && Addressable(start + within, base, d)
    ensures OffsetOfLmt(start + within, base, d)
            == (OffsetOfLmt(start, base, d) + Carry(start + within, within, base, d)) % CIRCBUF_ATOMS
  {
    hide OffsetOfLmt;
    var x := start + within - base + d / 2;
    var carry := Carry(start + within, within, base, d);
    OffsetIsExact(start, base, d);
    OffsetIsExact(start + within, base, d);
    SplitDiv(x, within, d);
    DivShrinks(x - within, d);
    RingAdds((x - within) / d, carry);
  }

  /** Whether the last `within` ticks before a time carry its rounding to the next atom. */
  function Carry(lmt: HwTime, within: nat, base: HwTime, d: nat): nat
    requires d > 0
  {
    if (lmt - base + d / 2) % d < within then 1 else 0
  }

  lemma SplitDiv(x: nat, s: nat, d: nat)
    requires s < d && s <= x
    ensures (x - s) / d == x / d - if x % d < s then 1 else 0
  {
    var q, r := x / d, x % d;
    assert x == q * d + r by { assert x == d * q + r; }
    MulAdd(q, 1, d);
    MulAdd(q, -1, d);
    DivIs(x - s, d, if r < s then q - 1 else q);
  }

  /** Gap-free reads from any time: the first read of a chain may be resolved to a time
    * inside an atom, whose number is then the position's. Every later read is at the first
    * offset plus what was passed since, less one atom exactly when the rounding carried;
    * the first read then overlaps the second by that one atom. */
  lemma GapFreeFromInside(p: Position, q: Position, within: nat, dec: nat, d: nat, base: HwTime,
                          chain: seq<Step>, i: nat)
    requires Succeeds(p, dec, d, base, chain) && 0 < i < |chain| && chain[0].1.transfer.Completed?
    requires q == Resolve(p, chain[0].1).0 && q.l.lmt == q.mt * d + within && within < d
    requires (q.mt + Passed(dec, chain, i)) * d + d / 2 < U64
    requires Addressable(q.l.lmt, base, d) && Addressable(q.mt * d, base, d)
    ensures Offsets(p, dec, d, base, chain)[0] == OffsetOfLmt(q.l.lmt, base, d)
    ensures (Offsets(p, dec, d, base, chain)[i] + Carry(q.l.lmt, within, base, d)) % CIRCBUF_ATOMS
            == (Offsets(p, dec, d, base, chain)[0] + Passed(dec, chain, i)) % CIRCBUF_ATOMS
  {
    hide Resolve, Advance, OffsetOfLmt, ReadStep, Offsets, Succeeds, Moved, Carry, Passed, Addressable;
    var n := Passed(dec, chain, i);
    MovedFirst(dec, chain, i);
    InsideBounds(q.mt, Moved(dec, chain[0]), n, d);
    FirstRead(p, q, dec, d, base, chain);
    SecondRead(p, q, dec, d, base, chain, i);
    CarriedOn(q.mt, within, n, base, d);
  }

  lemma MovedFirst(dec: nat, chain: seq<Step>, i: nat)
    requires 0 < i <= |chain|
    ensures Moved(dec, chain[0]) <= Passed(dec, chain, i)
  {
  }

  lemma InsideBounds(mt: nat, m: nat, n: nat, d: nat)
    requires m <= n
    ensures 0 <= mt * d <= (mt + m) * d <= (mt + n) * d
  {
    MulMonotone(0, mt, d);
    MulMonotone(mt, mt + m, d);
    MulMonotone(mt + m, mt + n, d);
  }

  lemma CarriedOn(mt: nat, within: nat, n: nat, base: HwTime, d: nat)
    requires within < d && 0 <= mt * d && mt * d + within < U64
    requires 0 <= (mt + n) * d && (mt + n) * d + d / 2 < U64
    requires Addressable(mt * d, base, d) && Addressable(mt * d + within, base, d)
    ensures (OffsetOfLmt((mt + n) * d, base, d) + Carry(mt * d + within, within, base, d)) % CIRCBUF_ATOMS
            == (OffsetOfLmt(mt * d + within, base, d) + n) % CIRCBUF_ATOMS
  {
    hide OffsetOfLmt;
    AtomsLater(mt, n, base, d);
    RoundingCarries(mt * d, within, base, d);
    RingCommutes(OffsetOfLmt(mt * d, base, d), n, Carry(mt * d + within, within, base, d));
  }

  lemma RingCommutes(o: nat, n: nat, c: nat)
    ensures ((o + n) % CIRCBUF_ATOMS + c) % CIRCBUF_ATOMS == ((o + c) % CIRCBUF_ATOMS + n) % CIRCBUF_ATOMS
  {
    RingAdds(o + n, c);
    RingAdds(o + c, n);
  }

  lemma FirstRead(p: Position, q: Position, dec: nat, d: nat, base: HwTime, chain: seq<Step>)
    requires Succeeds(p, dec, d, base, chain) && chain != [] && chain[0].1.transfer.Completed?
    requires q == Resolve(p, chain[0].1).0
    requires (q.mt + Moved(dec, chain[0])) * d < U64
    ensures var r := ReadStep(p, chain[0].0, dec, chain[0].1).0;
            r.mt == q.mt + Moved(dec, chain[0]) && OnAtom(r, d)
    ensures Offsets(p, dec, d, base, chain)[0] == OffsetOfLmt(q.l.lmt, base, d)
  {
    hide Lmt2Lst, Lst2Lmt, OffsetOfLmt, Resolve;
    MulMonotone(1, d, q.mt + Moved(dec, chain[0]));
  }

  /** From the second read of a chain on, reads start on whole atoms. */
  lemma SecondRead(p: Position, q: Position, dec: nat, d: nat, base: HwTime,
                   chain: seq<Step>, i: nat)
    requires Succeeds(p, dec, d, base, chain) && 0 < i < |chain| && chain[0].1.transfer.Completed?
    requires q == Resolve(p, chain[0].1).0
    requires 0 <= (q.mt + Passed(dec, chain, i)) * d < U64
    ensures Offsets(p, dec, d, base, chain)[i]
            == OffsetOfLmt((q.mt + Passed(dec, chain, i)) * d, base, d)
  {
    hide Lmt2Lst, Lst2Lmt, OffsetOfLmt, Resolve, Advance;
    var m := Moved(dec, chain[0]);
    MulMonotone(q.mt + m, q.mt + Passed(dec, chain, i), d);
    var r := ReadStep(p, chain[0].0, dec, chain[0].1).0;
    FirstRead(p, q, dec, d, base, chain);
    ReadsFollowOn(r, dec, d, base, chain[1..], i - 1);
  }

  // ---------- Reads that were cut short ----------

  /** After a read at a machine time that was cut short the next one reads from the same ring
    * offset again, so that all the atoms returned are returned once more. A pending seek to a
    * system time or a trigger stays pending: it is made again. */
  lemma CutReadRepeats(p: Position, span: nat, next: nat, dec: nat, s: Surroundings, t: Surroundings)
    requires Sane(s) && Sane(t) && s.d == t.d && s.base == t.base && next > 0
    requires ReadStep(p, span, dec, s).1.Cut?
    ensures var q := ReadStep(p, span, dec, s).0;
            && q.request == p.request && q.trigOffset == p.trigOffset
            && (p.request == ExplicitSt ==> q.l.lst == p.l.lst)
            && (p.request == ExplicitMt && !ReadStep(q, next, dec, t).1.Failed? ==>
                  ReadStep(q, next, dec, t).1.offset == ReadStep(p, span, dec, s).1.offset)
  {
    hide Lmt2Lst, Lst2Lmt, OffsetOfLmt;
  }

  /** The atoms of history a read's return value stands for. */
  function Returned(dec: nat, s: Step): nat {
    match s.1.transfer
    case Completed(n) => n * dec
    case CutOff(n) => n * dec
    case NotBegun => 0
  }

  /** What the caller has been given before read number i. */
  function Received(dec: nat, chain: seq<Step>, i: nat): nat
    requires i <= |chain|
  {
    if i == 0 then 0 else Returned(dec, chain[0]) + Received(dec, chain[1..], i - 1)
  }

  /** What the reads before number i returned although they were cut short. */
  function Repeated(dec: nat, chain: seq<Step>, i: nat): nat
    requires i <= |chain|
  {
    if i == 0 then 0
    else (if chain[0].1.transfer.CutOff? then Returned(dec, chain[0]) else 0) + Repeated(dec, chain[1..], i - 1)
  }

  /** The position before read number i. */
  function At(p: Position, dec: nat, d: nat, base: HwTime, chain: seq<Step>, i: nat): Position
    requires Succeeds(p, dec, d, base, chain) && i <= |chain|
    decreases i
  {
    if i == 0 then p else At(ReadStep(p, chain[0].0, dec, chain[0].1).0, dec, d, base, chain[1..], i - 1)
  }

  /** A transfer that returned nothing unless it ended in order. */
  predicate Lossless(t: Transfer) {
    t.CutOff? ==> t.written == 0
  }

  lemma {:induction false} PassedAndRepeated(dec: nat, chain: seq<Step>, i: nat)
    requires i <= |chain|
    ensures Received(dec, chain, i) == Passed(dec, chain, i) + Repeated(dec, chain, i)
  {
    if i > 0 {
      PassedAndRepeated(dec, chain[1..], i - 1);
    }
  }

  lemma {:induction false} NothingRepeated(dec: nat, chain: seq<Step>, i: nat)
    requires i <= |chain| && dec > 0
    ensures Repeated(dec, chain, i) == 0 <==> forall j :: 0 <= j < i ==> Lossless(chain[j].1.transfer)
  {
    if i > 0 {
      var t := chain[0].1.transfer;
      NothingRepeated(dec, chain[1..], i - 1);
      if t.CutOff? && t.written > 0 {
        MulMonotone(1, t.written, dec);
      }
      assert forall j :: 0 < j < i ==> chain[j] == chain[1..][j - 1];
      assert forall j :: 0 <= j < i - 1 ==> chain[1..][j] == chain[j + 1];
    }
  }

  /** The position before read number i is the start plus what was passed. */
  lemma {:induction false} AtFollowsOn(p: Position, dec: nat, d: nat, base: HwTime, chain: seq<Step>, i: nat)
    requires Succeeds(p, dec, d, base, chain) && OnAtom(p, d) && i <= |chain|
    requires 0 <= (p.mt + Passed(dec, chain, i)) * d < U64
    ensures At(p, dec, d, base, chain, i).mt == p.mt + Passed(dec, chain, i)
    ensures OnAtom(At(p, dec, d, base, chain, i), d)
    decreases i
  {
    if i > 0 {
      hide ReadStep, OnAtom;
      var n := Moved(dec, chain[0]);
      MulMonotone(p.mt + n, p.mt + n + Passed(dec, chain[1..], i - 1), d);
      AfterRead(p, dec, d, base, chain);
      AtFollowsOn(ReadStep(p, chain[0].0, dec, chain[0].1).0, dec, d, base, chain[1..], i - 1);
    }
  }

  /** How far the reads lag behind what the caller was given: by exactly what reads cut short
    * had returned, which is returned again. */
  lemma ReadsLag(p: Position, dec: nat, d: nat, base: HwTime, chain: seq<Step>, i: nat)
    requires Succeeds(p, dec, d, base, chain) && OnAtom(p, d) && i <= |chain|
    requires 0 <= (p.mt + Passed(dec, chain, i)) * d < U64
    ensures At(p, dec, d, base, chain, i).mt + Repeated(dec, chain, i) == p.mt + Received(dec, chain, i)
  {
    AtFollowsOn(p, dec, d, base, chain, i);
    PassedAndRepeated(dec, chain, i);
  }

  /** To a caller who goes by the counts returned, a chain of reads without error is gap-free,
    * each read starting at the atom at which what was returned before it ends, if and only if
    * no transfer but the last failed after atoms had reached the user. */
  lemma GapFreeForCaller(p: Position, dec: nat, d: nat, base: HwTime, chain: seq<Step>)
    requires Succeeds(p, dec, d, base, chain) && OnAtom(p, d) && dec > 0
    requires forall i :: 0 <= i < |chain| ==> 0 <= (p.mt + Passed(dec, chain, i)) * d < U64
    ensures (forall i :: 0 <= i < |chain| ==>
               At(p, dec, d, base, chain, i).mt == p.mt + Received(dec, chain, i))
            <==> forall j :: 0 <= j < |chain| - 1 ==> Lossless(chain[j].1.transfer)
  {
    hide Succeeds, OnAtom, At, Received, Repeated, Passed, Lossless;
    forall i | 0 <= i < |chain|
      ensures At(p, dec, d, base, chain, i).mt == p.mt + Received(dec, chain, i)
              <==> forall j :: 0 <= j < i ==> Lossless(chain[j].1.transfer)
    {
      ReadsLag(p, dec, d, base, chain, i);
      NothingRepeated(dec, chain, i);
    }
    if chain != [] {
      var last := |chain| - 1;
      assert At(p, dec, d, base, chain, last).mt == p.mt + Received(dec, chain, last)
        <==> forall j :: 0 <= j < last ==> Lossless(chain[j].1.transfer);
    }
  }

  // ---------- Seeks ----------

  /** What a seek relative to the last trigger leads to: the given number of atoms after it, or
    * before it, on the machine clock; the system time belongs to that. */
  lemma SeekToTrigger(p: Position, s: Surroundings)
    requires Sane(s) && s.timed && p.request == Implicit
    requires 0 <= s.trigger.lmt + p.trigOffset * s.d < U64
    ensures var q := Resolve(p, s);
            && q.0.l.lmt == s.trigger.lmt + p.trigOffset * s.d
            && (q.1 <==> s.ready && -14757395240 <= p.trigOffset * s.d <= 14757395240)
            && (q.1 ==> q.0.mt == (s.trigger.lmt + p.trigOffset * s.d) / s.d
                        && Lmt2Lst(q.0.l.lmt, s.trigger, s.flmcdHz) == Converted(q.0.l.lst))
  {
    var x := p.trigOffset * s.d;
    SumWraps(s.trigger.lmt, x);
    hide Wrap64;
    Lmt2LstScales(s.trigger.lmt + x, s.trigger, s.flmcdHz);
  }

  lemma SumWraps(a: HwTime, x: int)
    requires 0 <= a + x < U64
    ensures Wrap64(a + Wrap64(x)) == a + x
  {
  }

  /** In the ring, such a seek moves from the trigger by its number of atoms. */
  lemma SeekMovesRing(p: Position, s: Surroundings)
    requires Sane(s) && s.timed && p.request == Implicit
    requires 0 <= s.trigger.lmt + p.trigOffset * s.d < U64
    requires Addressable(s.trigger.lmt, s.base, s.d)
    requires Addressable(s.trigger.lmt + p.trigOffset * s.d, s.base, s.d)
    ensures OffsetOfLmt(Resolve(p, s).0.l.lmt, s.base, s.d)
            == (OffsetOfLmt(s.trigger.lmt, s.base, s.d) + p.trigOffset) % 2097152
  {
    hide OffsetOfLmt, Resolve;
    SeekToTrigger(p, s);
    SignedMove(s.trigger.lmt, s.trigger.lmt + p.trigOffset * s.d, p.trigOffset, s.base, s.d);
  }

  /** Moving by a signed number of atoms moves by as many slots. */
  lemma SignedMove(from: HwTime, to: HwTime, n: int, base: HwTime, d: nat)
    requires d > 0 && to == from + n * d
    requires Addressable(from, base, d) && Addressable(to, base, d)
    ensures OffsetOfLmt(to, base, d) == (OffsetOfLmt(from, base, d) + n) % 2097152
  {
    hide OffsetOfLmt;
    if n >= 0 {
      OffsetMoves(from, to, n, base, d);
    } else {
      MulAdd(n, -n, d);
      InRing(to, base, d);
      OffsetMoves(to, from, -n, base, d);
      RingBack(OffsetOfLmt(to, base, d), -n);
    }
  }

  lemma RingBack(o: nat, n: nat)
    requires o < CIRCBUF_ATOMS
    ensures ((o + n) % CIRCBUF_ATOMS - n) % CIRCBUF_ATOMS == o
  {
  }

  lemma InRing(lmt: HwTime, base: HwTime, d: nat)
    requires d > 0
    ensures OffsetOfLmt(lmt, base, d) < CIRCBUF_ATOMS
  {
  }

  /** What a seek to a system time leads to: the machine time as far from the current one as the
    * clocks' ratio says. */
  lemma SeekToSystemTime(p: Position, s: Surroundings)
    requires Sane(s) && s.timed && p.request == ExplicitSt && s.flmcdHz <= FLMC_WORST
    ensures var q := Resolve(p, s);
            var delta := p.l.lst - s.ctime.lst;
            && (q.1 <==> s.ready && -15707377440 <= delta <= 15707377440)
            && q.0.l.lst == p.l.lst
            && (q.1 ==> q.0.l.lmt == Wrap64(s.ctime.lmt + Scaled(delta, s.flmcdHz))
                        && q.0.mt == q.0.l.lmt / s.d)
  {
    hide Wrap64, Lst2Lmt, Scaled;
    Lst2LmtScales(p.l.lst, s.ctime, s.flmcdHz);
  }

  /** A position at a machine time stays where it is, and is given its system time: as far from
    * the current one as the clocks' ratio says. */
  lemma StayAtMachineTime(p: Position, s: Surroundings)
    requires Sane(s) && s.timed && p.request == ExplicitMt
    ensures var q := Resolve(p, s);
            var delta := p.l.lmt - s.ctime.lmt;
            && (q.1 <==> s.ready && -14757395240 <= delta <= 14757395240)
            && q.0.l.lmt == p.l.lmt && q.0.mt == p.mt
            && (q.1 ==> q.0.l.lst == Wrap64(s.ctime.lst + (if delta > 0 then delta * 1250000000 / s.flmcdHz
                                                           else -(-delta * 1250000000 / s.flmcdHz))))
  {
    hide Wrap64, Lmt2Lst;
    Lmt2LstScales(p.l.lmt, s.ctime, s.flmcdHz);
  }

  /** Resolving a system time or a trigger gives a time inside the atom it names, so the
    * assumption of GapFreeFromInside is met. */
  lemma ResolvedInsideAtom(p: Position, s: Surroundings)
    requires Sane(s) && Resolve(p, s).1 && p.request != ExplicitMt
    ensures var q := Resolve(p, s).0;
            0 <= q.l.lmt - q.mt * s.d < s.d
  {
    DivBounds(Resolve(p, s).0.l.lmt, s.d);
    MulAdd(Resolve(p, s).0.mt, 1, s.d);
  }

  /** A read of no atoms after a seek to a system time or a trigger forgets the seek: the
    * next read starts at the machine time left from before. It is harmless if and only if
    * the position was a machine time on a whole atom. */
  lemma EmptyReadForgets(p: Position, dec: nat, s: Surroundings)
    requires Sane(s) && p.mt * s.d < U64
    ensures var q := ReadStep(p, 0, dec, s).0;
            && q.mt == p.mt && OnAtom(q, s.d)
            && (q == p <==> OnAtom(p, s.d))
  {
  }
}

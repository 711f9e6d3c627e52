/** The DMA read pipeline of the Data-on-Demand device.
  *
  * A reader process drains a ring of 4096 atoms which a DMA controller fills from the
  * FPGA output-buffer (OB) FIFO. The DMA end-of-transfer interrupt advances the ring,
  * and either relaunches the controller or leaves that to the reader. The processor is a
  * uniprocessor, so each handler run and each section with interrupts off is one atomic
  * step; `Preempt` stands between the reader's atomic steps and lets the FPGA, the DMA
  * controller and the interrupt handler take any number of steps.
  */
module DmaPipeline {

  const FIFO_ATOMS := 4096
  const BLOCK_ATOMS := 128
  const OB_SIZE_MAX := 255
  const HZ := 100

  /** One Data-on-Demand atom. */
  datatype Atom = Atom(cosVa: int, sinVa: int, cosVb: int, sinVb: int,
                       cosVc: int, sinVc: int, cosVd: int, sinVd: int)

  /** How a transfer ends. `ZeroLength` is the first launch being issued with no atoms;
    * `Aborted` is the answer to a signal or to a post-mortem event. */
  datatype Outcome =
    | Done(atoms: nat)
    | Aborted
    | CopyFault
    | SyncTimeout
    | ResidualData
    | SizeInconsistency
    | AwakeWhenEmpty
    | ZeroLength

  /** The atoms stream(0), ..., stream(n - 1). */
  function Prefix(stream: nat -> Atom, n: nat): (s: seq<Atom>)
  {
    seq(n, i requires 0 <= i < n => stream(i))
  }

  /** The slots of two positions less than a ring apart are different. */
  lemma SlotsDiffer(a: nat, b: nat)
    requires a < b < a + FIFO_ATOMS
    ensures a % FIFO_ATOMS != b % FIFO_ATOMS
  {
  }

  /** Moving n positions on, without passing the end of the ring, moves n slots on. */
  lemma SlotAfter(a: nat, n: nat)
    requires a % FIFO_ATOMS + n <= FIFO_ATOMS
    ensures (a + n) % FIFO_ATOMS == (a % FIFO_ATOMS + n) % FIFO_ATOMS
    ensures a % FIFO_ATOMS + n < FIFO_ATOMS ==> (a + n) % FIFO_ATOMS == a % FIFO_ATOMS + n
  {
  }

  class Driver {
    // The driver's DMA structure.
    const buf: array<Atom>
    var put: int
    var get: int
    var csize: int
    var remaining: int
    var obSize: int
    var overrun: bool
    var transfer: bool
    var written: nat

    // The DMA controller: running, where it stores, how long the transfer is, how far it is.
    var busy: bool
    var dmaTarget: int
    var dmaLength: int
    var moved: nat

    // The FPGA: the atoms of the request, how many entered and how many left the OB FIFO.
    const stream: nat -> Atom
    var produced: nat
    var drained: nat

    // The user: a signal is pending, or a post-mortem event asks the reader to give up; the
    // numbers of the atoms that cannot be copied to the user's buffer.
    var pending: bool
    const faulty: nat -> bool

    // Whether a status read that is to be checked for overruns has shown one; how many reads
    // the last wait for the OB FIFO took; the length of the request; and the number of ring
    // entries the reader has passed.
    ghost var reported: bool
    ghost var syncReads: nat
    ghost var total: nat
    ghost var taken: nat

    /** The number of atoms the interrupt handler has put into the ring so far. */
    ghost function Arrived(): int
      reads this
    {
      total - remaining
    }

    /** The ring indices are the slots of the positions they stand for, and the unread
      * atoms leave at least one slot free. */
    ghost predicate RingValid()
      reads this
    {
      && buf.Length == FIFO_ATOMS
      && 0 <= remaining && 0 <= taken <= Arrived() <= taken + FIFO_ATOMS - 1
      && get == taken % FIFO_ATOMS && put == Arrived() % FIFO_ATOMS
      && 0 <= obSize
    }

    /** A running transfer was launched for at least one atom, at most one block and at
      * most what is still wanted; it stays inside the ring and clear of the unread atoms,
      * and the OB FIFO holds what it has still to move. */
    ghost predicate TransferFits()
      reads this
    {
      && dmaTarget == put && dmaLength == csize
      && 0 < csize <= remaining && csize <= BLOCK_ATOMS
      && put + csize <= FIFO_ATOMS
      && Arrived() - taken + csize <= FIFO_ATOMS - 1
      && moved <= csize
      && csize - moved <= produced - drained
    }

    /** The invariant at every atomic step: the driver's flag mirrors the controller, no
      * atom is lost or counted twice, and the ring holds exactly the next atoms. */
    ghost predicate Valid()
      reads this, buf
    {
      && RingValid()
      && transfer == busy && overrun == reported
      && (busy ==> TransferFits())
      && (!busy ==> moved == 0 && obSize <= produced - drained)
      && drained == Arrived() + moved <= produced
      && Holds(drained)
    }

    /** The ring holds the atoms of positions taken, ..., upto - 1. */
    ghost predicate Holds(upto: int)
      requires buf.Length == FIFO_ATOMS
      reads this, buf
    {
      forall k: nat :: taken <= k < upto ==> buf[k % FIFO_ATOMS] == stream(k)
    }

    /** A sleeping reader will be woken: atoms are waiting or a transfer is in flight. */
    ghost predicate WakeupDue()
      reads this
    {
      busy || taken < Arrived()
    }

    /** What the FPGA, the controller and the handler may do between two reader steps. */
    twostate predicate Interfered()
      reads this, buf
    {
      && Valid()
      && get == old(get) && taken == old(taken) && written == old(written) && total == old(total)
      && remaining <= old(remaining) && old(produced) <= produced
      && (old(overrun) ==> overrun) && (old(pending) ==> pending) && syncReads == old(syncReads)
      && (old(WakeupDue()) ==> WakeupDue())
      && (!old(busy) ==> !busy && remaining == old(remaining) && put == old(put)
                         && csize == old(csize) && obSize == old(obSize) && overrun == old(overrun))
    }

    constructor (stream: nat -> Atom, faulty: nat -> bool, filler: Atom)
      ensures Valid() && !busy && drained == 0 && fresh(buf)
      ensures this.stream == stream && this.faulty == faulty
    {
      buf := new Atom[FIFO_ATOMS](_ => filler);
      this.stream, this.faulty := stream, faulty;
      put, get, csize, remaining, obSize, written := 0, 0, 0, 0, 0, 0;
      overrun, transfer := false, false;
      busy, dmaTarget, dmaLength, moved := false, 0, 0, 0;
      produced, drained, total, taken, reported := 0, 0, 0, 0, false;
      pending, syncReads := false, 0;
    }

    // ---------- The ring ----------

    method LenFifo() returns (n: int)
      requires RingValid()
      ensures n == Arrived() - taken
    {
      n := (put + FIFO_ATOMS - get) % FIFO_ATOMS;
    }

    method TailFifo() returns (n: int)
      ensures put + n == FIFO_ATOMS
    {
      n := FIFO_ATOMS - put;
    }

    method EmptyFifo() returns (r: bool)
      requires RingValid()
      ensures r <==> Arrived() == taken
    {
      r := put == get;
    }

    method PutToFifo(atoms: int) returns (r: int)
      requires 0 <= put && 0 <= atoms
      modifies this`put
      ensures r == if (old(put) + atoms) % FIFO_ATOMS == get then -1 else 0
      ensures put == if r == 0 then (old(put) + atoms) % FIFO_ATOMS else old(put)
    {
      var index := (put + atoms) % FIFO_ATOMS;
      if index == get {
        r := -1;
      } else {
        put := index;
        r := 0;
      }
    }

    // ---------- The hardware ----------

    /** Reads the OB status register: a size the FIFO really holds and the overrun bit. */
    method ReadObStatus() returns (size: int, over: bool)
      requires drained <= produced
      modifies this`reported
      ensures 0 <= size <= OB_SIZE_MAX && size <= produced - drained
      ensures reported == (old(reported) || over)
    {
      size := ReadObSize();
      over := *;
      reported := reported || over;
    }

    /** Reads the OB status register for its size only. */
    method ReadObSize() returns (size: int)
      requires drained <= produced
      ensures 0 <= size <= OB_SIZE_MAX && size <= produced - drained
    {
      size :| 0 <= size <= OB_SIZE_MAX && size <= produced - drained;
    }

    /** The controller moves the next atom from the OB FIFO to the ring. */
    method MoveAtom()
      requires Valid() && busy && moved < dmaLength
      modifies this`moved, this`drained, buf
      ensures Interfered() && busy && moved == old(moved) + 1 && dmaLength == old(dmaLength)
    {
      SlotAfter(Arrived(), moved);
      forall k: nat | taken <= k < drained
        ensures k % FIFO_ATOMS != drained % FIFO_ATOMS
      {
        SlotsDiffer(k, drained);
      }
      buf[dmaTarget + moved] := stream(drained);
      moved, drained := moved + 1, drained + 1;
    }

    // ---------- The driver's handlers ----------

    /** The new transfer size is the largest that meets all five restrictions. */
    method GetDmacCsize()
      requires RingValid()
      modifies this`csize
      ensures 0 <= csize <= remaining && csize <= 128 && csize <= obSize
      ensures put + csize <= 4096 && Arrived() - taken + csize <= 4095
      ensures csize == remaining || csize == 128 || csize == obSize
              || put + csize == 4096 || Arrived() - taken + csize == 4095
    {
      var tail := TailFifo();
      var len := LenFifo();
      var block := if remaining < BLOCK_ATOMS then remaining else BLOCK_ATOMS;
      var linear := if tail < obSize then tail else obSize;
      var size := if block < linear then block else linear;
      csize := if FIFO_ATOMS - 1 - len < size then FIFO_ATOMS - 1 - len else size;
    }

    /** Starts the controller. At most one transfer is outstanding, and every launch meets
      * the requirements of TransferFits. */
    method DmaCommand(target: int, atoms: int)
      requires RingValid() && !busy && moved == 0
      requires target == put && atoms == csize
      requires 0 < atoms <= remaining && atoms <= BLOCK_ATOMS && target + atoms <= FIFO_ATOMS
      requires Arrived() - taken + atoms <= FIFO_ATOMS - 1
      requires atoms <= produced - drained
      modifies this`transfer, this`busy, this`dmaTarget, this`dmaLength
      ensures transfer && busy && TransferFits()
    {
      transfer := true;
      dmaTarget, dmaLength, busy := target, atoms, true;
    }

    /** The handler's bookkeeping: the finished transfer leaves what is still wanted and
      * enters the ring, which never refuses it. */
    method AdvanceRing()
      requires RingValid()
      requires 0 < csize <= remaining && put + csize <= FIFO_ATOMS
      requires Arrived() - taken + csize <= FIFO_ATOMS - 1
      modifies this`put, this`remaining, this`moved
      ensures RingValid() && moved == 0
      ensures remaining == old(remaining) - csize && put == (old(put) + csize) % FIFO_ATOMS
    {
      SlotAfter(Arrived(), csize);
      SlotsDiffer(taken, Arrived() + csize);
      remaining := remaining - csize;
      var r := PutToFifo(csize);
      assert r == 0;
      moved := 0;
    }

    /** The handler's decision: the next transfer starts unless there is nothing to move or
      * nowhere to put it, and then the flag hands the decision to the reader. */
    method Relaunch()
      requires RingValid() && !busy && moved == 0 && obSize <= produced - drained
      modifies this`csize, this`transfer, this`busy, this`dmaTarget, this`dmaLength
      ensures transfer == busy && (busy ==> TransferFits())
      ensures !busy <==> remaining == 0 || obSize == 0 || Arrived() - taken == FIFO_ATOMS - 1
    {
      GetDmacCsize();
      if csize > 0 {
        DmaCommand(put, csize);
      } else {
        transfer := false;
      }
    }

    /** The first half of the interrupt handler: the controller has stopped; the status is
      * read and the finished transfer enters the ring. */
    method EndTransfer()
      requires Valid() && busy && moved == dmaLength
      modifies this`busy, this`obSize, this`overrun, this`reported, this`put, this`remaining, this`moved
      ensures RingValid() && !busy && moved == 0 && remaining == old(remaining) - csize
      ensures obSize <= produced - drained && drained == Arrived() && Holds(drained)
      ensures overrun == reported && (old(overrun) ==> overrun)
    {
      busy := false;
      var over: bool;
      obSize, over := ReadObStatus();
      if over {
        overrun := true;
      }
      AdvanceRing();
    }

    /** The end-of-transfer interrupt. */
    method DmaInterrupt()
      requires Valid() && busy && moved == dmaLength
      modifies this
      ensures Interfered() && remaining == old(remaining) - old(csize)
      ensures produced == old(produced) && drained == old(drained)
    {
      EndTransfer();
      Relaunch();
    }

    // ---------- Interference ----------

    /** One step of the FPGA, of the controller, of the interrupt handler or of whoever sends
      * a signal. */
    method EnvironmentStep()
      requires Valid()
      modifies this, buf
      ensures Interfered()
    {
      var fpga: bool := *;
      var signal: bool := *;
      if signal {
        pending := true;
      } else if fpga || !busy {
        produced := produced + 1;
      } else if moved < dmaLength {
        MoveAtom();
      } else {
        DmaInterrupt();
      }
    }

    /** Any number of environment steps, in any order. */
    method Preempt()
      requires Valid()
      modifies this, buf
      ensures Interfered()
    {
      var steps: nat := *;
      while steps > 0
        invariant Interfered()
      {
        EnvironmentStep();
        steps := steps - 1;
      }
    }

    /** Sleeping until woken. The caller has to show that a wake-up has come or will come;
      * a transfer in flight ends, and its interrupt wakes the reader. */
    method Schedule()
      requires Valid() && WakeupDue()
      modifies this, buf
      ensures Interfered() && taken < Arrived()
    {
      if put == get {
        while moved < dmaLength
          invariant Interfered() && busy
        {
          MoveAtom();
        }
        DmaInterrupt();
      }
      Preempt();
    }

    // ---------- The reader ----------

    /** What the reader's own steps on an idle controller leave alone. */
    twostate predicate SameProgress()
      reads this
    {
      && get == old(get) && taken == old(taken) && written == old(written)
      && total == old(total) && remaining == old(remaining) && (old(overrun) ==> overrun)
    }

    /** What reached the user is a prefix of the request that can be copied, and all that was
      * passed unless there was an overrun. */
    ghost predicate Delivered(out: seq<Atom>)
      reads this
    {
      && |out| == written <= taken
      && out == Prefix(stream, written)
      && (written < taken ==> overrun)
      && (forall k :: 0 <= k < written ==> !faulty(k))
    }

    /** The reader's own counts agree with the pipeline. */
    ghost predicate Reading(atomCount: nat, obAtoms: nat, out: seq<Atom>)
      reads this, buf
    {
      Valid() && total == atomCount && taken == obAtoms && Delivered(out)
    }

    /** Reads the status while the controller is idle. */
    method RefreshStatus()
      requires Valid() && !busy
      modifies this`obSize, this`overrun, this`reported
      ensures Valid() && SameProgress()
    {
      var over: bool;
      obSize, over := ReadObStatus();
      if over {
        overrun := true;
      }
    }

    /** Sets up the transfer structure for a request of which nothing has been read yet. */
    method BeginTransfer(atomCount: nat)
      requires buf.Length == FIFO_ATOMS && !busy && moved == 0 && drained == 0
      modifies this
      ensures Valid() && !busy && !overrun && written == 0
      ensures total == remaining == atomCount && taken == 0
    {
      ResetTransfer(atomCount);
      GetDmacCsize();
    }

    method ResetTransfer(atomCount: nat)
      requires buf.Length == FIFO_ATOMS && !busy && moved == 0 && drained == 0
      modifies this
      ensures Valid() && !busy && !overrun && written == 0
      ensures total == remaining == atomCount && taken == 0
    {
      obSize := ReadObSize();
      overrun, transfer, remaining, written := false, false, atomCount, 0;
      put, get := 0, 0;
      total, taken, reported := atomCount, 0, false;
    }

    /** Waits, for at most HZ + 2 status reads, until the OB FIFO shows data or an overrun. */
    method ObFifoSync() returns (r: int, statusReads: nat)
      requires Valid() && !busy
      modifies this, buf
      ensures Valid() && !busy && SameProgress() && put == old(put)
      ensures r == 0 || r == -1
      ensures remaining == 0 ==> r == 0
      ensures r == 0 ==> remaining == 0 || obSize > 0 || overrun
      ensures syncReads == statusReads <= 102 && (r == -1 <==> statusReads == 102)
    {
      var waitCount := 0;
      statusReads := 0;
      syncReads := 0;
      while remaining != 0 && obSize == 0 && !overrun
        invariant Valid() && !busy && SameProgress() && put == old(put)
        invariant 0 <= waitCount == statusReads == syncReads <= HZ + 1
        decreases HZ + 2 - waitCount
      {
        Preempt();
        RefreshStatus();
        statusReads := statusReads + 1;
        syncReads := statusReads;
        if waitCount > HZ {
          return -1, statusReads;
        }
        waitCount := waitCount + 1;
      }
      r := 0;
    }

    /** Starts the controller for `csize` atoms at the ring's put index. */
    method StartTransfer()
      requires Valid() && !busy
      requires 0 < csize <= remaining && csize <= BLOCK_ATOMS && csize <= obSize
      requires put + csize <= FIFO_ATOMS && Arrived() - taken + csize <= FIFO_ATOMS - 1
      modifies this`transfer, this`busy, this`dmaTarget, this`dmaLength
      ensures Valid() && busy
    {
      DmaCommand(put, csize);
    }

    /** The next slot holds the next atom of the stream. */
    method ReadSlot() returns (atom: Atom)
      requires Valid() && taken < Arrived()
      ensures atom == stream(taken)
    {
      atom := buf[get];
    }

    /** Gives the next slot back to the controller. */
    method ReleaseSlot()
      requires Valid() && taken < Arrived()
      modifies this`get, this`taken
      ensures Valid() && taken == old(taken) + 1
    {
      SlotAfter(taken, 1);
      get := (get + 1) % FIFO_ATOMS;
      taken := taken + 1;
      assert get == taken % FIFO_ATOMS;
    }

    /** Copies the next atom to the user. */
    method CopySlot(atomCount: nat, obAtoms: nat, out0: seq<Atom>) returns (out: seq<Atom>)
      requires Reading(atomCount, obAtoms, out0) && taken < Arrived() && !faulty(written)
      requires written == taken
      modifies this`written
      ensures Valid() && written == old(written) + 1
      ensures |out| == written && out == Prefix(stream, written)
      ensures forall k :: 0 <= k < written ==> !faulty(k)
    {
      var atom := ReadSlot();
      out := out0 + [atom];
      written := written + 1;
    }

    /** Copies the next atom unless an overrun has been seen, then passes its slot. The
      * test, the copy and the release of the slot are separate steps, and the copy to the
      * user may fail. */
    method CopyOne(atomCount: nat, obAtoms: nat, out0: seq<Atom>) returns (fault: bool, out: seq<Atom>)
      requires Reading(atomCount, obAtoms, out0) && taken < Arrived()
      modifies this, buf
      ensures Valid() && total == atomCount && Delivered(out) && remaining <= old(remaining)
      ensures if fault then faulty(written) else Reading(atomCount, obAtoms + 1, out)
      ensures old(overrun) ==> overrun && written == old(written)
    {
      out, fault := out0, false;
      var copy := obAtoms < atomCount && !overrun;
      Preempt();
      if copy {
        fault := faulty(written);
        if fault {
          return;
        }
        out := CopySlot(atomCount, obAtoms, out);
        Preempt();
      }
      ReleaseSlot();
    }

    /** Passes `count` ring entries, unless a copy fails. */
    method CopyOut(count: nat, atomCount: nat, obAtoms: nat, out0: seq<Atom>)
      returns (fault: bool, obAtoms': nat, out: seq<Atom>)
      requires Reading(atomCount, obAtoms, out0) && taken + count <= Arrived()
      modifies this, buf
      ensures Valid() && total == atomCount && Delivered(out) && remaining <= old(remaining)
      ensures if fault then faulty(written) else Reading(atomCount, obAtoms', out) && obAtoms' == obAtoms + count
      ensures old(overrun) ==> overrun && written == old(written)
    {
      fault, obAtoms', out := false, obAtoms, out0;
      for i := 0 to count
        invariant !fault && Reading(atomCount, obAtoms', out) && remaining <= old(remaining)
        invariant obAtoms' == obAtoms + i
        invariant old(overrun) ==> overrun && written == old(written)
      {
        fault, out := CopyOne(atomCount, obAtoms', out);
        if fault {
          return;
        }
        obAtoms' := obAtoms' + 1;
      }
    }

    /** The restart section of a reader pass. `stop` asks to leave the loop; otherwise the
      * reader is certain to be woken again. */
    method Restart() returns (r: int, stop: bool)
      requires Valid() && !busy && remaining > 0
      modifies this, buf
      ensures Valid() && SameProgress() && (r == 0 || r == -1)
      ensures r == -1 ==> !busy && syncReads == 102
      ensures r == 0 && stop ==> !busy && overrun
      ensures r == 0 && !stop ==> if busy then !overrun else Arrived() - taken == 4095
    {
      stop := false;
      RefreshStatus();
      Preempt();
      var statusReads: nat;
      r, statusReads := ObFifoSync();
      if r < 0 {
        return;
      }
      GetDmacCsize();
      if csize <= 0 {
        var len := LenFifo();
        if FIFO_ATOMS - 1 - len == 0 {
          return;
        }
      }
      if !overrun {
        StartTransfer();
      } else {
        stop := true;
      }
    }

    /** Restarts the controller if it is idle with atoms still to come. */
    method RestartIfNeeded() returns (ok: bool, stop: bool)
      requires Valid()
      modifies this, buf
      ensures Valid() && SameProgress()
      ensures !ok ==> !busy && syncReads == 102
      ensures ok && stop ==> !busy && overrun
      ensures ok && !stop ==> WakeupDue() || remaining == 0
    {
      ok, stop := true, false;
      if !transfer && remaining != 0 {
        var code: int;
        code, stop := Restart();
        ok := code >= 0;
      }
    }

    /** Sleeps while the ring is empty, unless a signal or a post-mortem event ends that; such
      * an event is looked at only while the ring is empty. */
    method AwaitAtoms() returns (aborted: bool)
      requires Valid() && WakeupDue()
      modifies this, buf
      ensures Interfered() && (if aborted then pending && taken == Arrived() else taken < Arrived())
    {
      var empty := EmptyFifo();
      aborted := false;
      while empty
        invariant Interfered() && WakeupDue() && (empty <==> Arrived() == taken)
        decreases empty
      {
        aborted := pending;
        if aborted {
          return;
        }
        Schedule();
        empty := EmptyFifo();
      }
    }

    /** Lets other processes run if it is time to; a signal or a post-mortem event then
      * aborts. */
    method Yield() returns (aborted: bool)
      requires Valid()
      modifies this, buf
      ensures Interfered() && (aborted ==> pending)
    {
      Preempt();
      var due: bool := *;
      aborted := due && pending;
    }

    /** One pass of the reader loop: sleep while the ring is empty, copy what is there, and
      * restart the controller if it is idle with atoms still to come. `Done` continues or,
      * with `stop`, leaves the loop; other outcomes are the error exits. */
    method ReaderPass(atomCount: nat, obAtoms: nat, out0: seq<Atom>)
      returns (r: Outcome, obAtoms': nat, out: seq<Atom>, stop: bool)
      requires Reading(atomCount, obAtoms, out0) && WakeupDue()
      modifies this, buf
      ensures r.SyncTimeout? || r.Done? || r.Aborted? || r.CopyFault?
      ensures Valid() && total == atomCount && Delivered(out)
      ensures r.SyncTimeout? || r.Done? ==> Reading(atomCount, obAtoms', out) && obAtoms < obAtoms'
      ensures r.Aborted? ==> pending
      ensures r.CopyFault? ==> faulty(written)
      ensures r.SyncTimeout? ==> !busy && syncReads == 102
      ensures old(overrun) ==> overrun && written == old(written)
      ensures r.Done? && stop ==> !busy && overrun
      ensures r.Done? && !stop ==> WakeupDue() || remaining == 0
    {
      obAtoms', out, stop := obAtoms, out0, false;
      Preempt();
      var aborted := AwaitAtoms();
      if aborted {
        return Aborted, obAtoms', out, stop;
      }
      Preempt();
      var fifoAtoms := LenFifo();
      if fifoAtoms == 0 {
        return AwakeWhenEmpty, obAtoms', out, stop;
      }
      var fault: bool;
      fault, obAtoms', out := CopyOut(fifoAtoms, atomCount, obAtoms, out0);
      if fault {
        return CopyFault, obAtoms', out, stop;
      }
      aborted := Yield();
      if aborted {
        return Aborted, obAtoms', out, stop;
      }
      var ok: bool;
      ok, stop := RestartIfNeeded();
      r := if ok then Done(0) else SyncTimeout;
    }

    /** The reader loop. Every pass that is not aborted moves on by at least one atom, so at
      * most atomCount are made; after the last one the controller is idle. */
    method ReadLoop(atomCount: nat)
      returns (ret: Outcome, obAtoms: nat, out: seq<Atom>, passes: nat)
      requires Reading(atomCount, 0, []) && busy
      modifies this, buf
      ensures Valid() && total == atomCount && Delivered(out) && passes <= atomCount
      ensures ret.SyncTimeout? || ret.Done? || ret.Aborted? || ret.CopyFault?
      ensures ret.Aborted? ==> pending
      ensures ret.CopyFault? ==> faulty(written)
      ensures ret.SyncTimeout? ==> syncReads == 102
      ensures ret.SyncTimeout? || ret.Done? ==> !busy
      ensures ret.Done? ==> (overrun || obAtoms == atomCount) && Reading(atomCount, obAtoms, out)
    {
      obAtoms, out, passes := 0, [], 0;
      ret := Done(0);
      var more := true;
      while more
        invariant Reading(atomCount, obAtoms, out) && passes <= obAtoms && ret.Done?
        invariant more ==> WakeupDue()
        invariant !more ==> !busy && (overrun || obAtoms == atomCount)
        decreases more, atomCount - obAtoms
      {
        var stop: bool;
        ret, obAtoms, out, stop := ReaderPass(atomCount, obAtoms, out);
        if ret.Aborted? || ret.CopyFault? {
          return;
        }
        passes := passes + 1;
        if !ret.Done? {
          return;
        }
        if stop {
          more := false;
        } else {
          more := LoopCondition();
        }
      }
    }

    /** The loop condition: something is still wanted, or still in the ring. When it fails
      * everything has been passed and the controller is idle. */
    method LoopCondition() returns (more: bool)
      requires Valid() && (WakeupDue() || remaining == 0)
      modifies this, buf
      ensures Valid() && taken == old(taken) && written == old(written) && total == old(total)
      ensures old(overrun) ==> overrun
      ensures more ==> WakeupDue()
      ensures !more ==> !busy && taken == total
    {
      Preempt();
      more := remaining != 0;
      if !more {
        Preempt();
        var empty := EmptyFifo();
        more := !empty;
      }
    }

    /** Starts the first transfer of a request once the OB FIFO shows data or an overrun. It
      * would be for no atoms if and only if none are wanted, or there was an overrun and the
      * OB FIFO is empty. */
    method FirstLaunch(atomCount: nat) returns (r: Outcome)
      requires buf.Length == FIFO_ATOMS && !busy && moved == 0 && drained == 0
      modifies this, buf
      ensures Reading(atomCount, 0, []) && (r.Done? || r.SyncTimeout? || r.ZeroLength?)
      ensures busy <==> r.Done?
      ensures r.SyncTimeout? ==> atomCount > 0 && syncReads == 102
      ensures !r.SyncTimeout? ==> (r.ZeroLength? <==> atomCount == 0 || (overrun && obSize == 0))
    {
      BeginTransfer(atomCount);
      Preempt();
      var sync, statusReads := ObFifoSync();
      if sync < 0 {
        return SyncTimeout;
      }
      GetDmacCsize();
      if csize == 0 {
        return ZeroLength;
      }
      StartTransfer();
      return Done(0);
    }

    /** Reads `atomCount` atoms of the request the FPGA is serving.
      *
      * For every schedule of the FPGA, the controller and the interrupt, and however the call
      * ends: what is delivered is a prefix of the stream; the size-inconsistency and
      * awake-when-empty exits are never taken; and the loop ends within atomCount passes that
      * are not aborted. All atoms are delivered unless there was an overrun, the OB FIFO
      * stayed empty for too long, or the call was aborted or a copy failed; only then may a
      * transfer still be in flight. Each of these exits is taken for its own reason only: an
      * abort for a signal or a post-mortem event, a copy fault for an atom that cannot be
      * copied, the timeout after 102 status reads, and the report of residual data, without
      * an overrun, exactly for a closing status that shows some. Only a first launch on an
      * overrun with an empty OB FIFO, or a request for no atoms, is for zero atoms; the model
      * ends there. */
    method TransferObFifo(atomCount: nat) returns (ret: Outcome, out: seq<Atom>, passes: nat)
      requires buf.Length == FIFO_ATOMS && !busy && moved == 0 && drained == 0
      modifies this, buf
      ensures Valid() && (busy ==> ret.Aborted? || ret.CopyFault?)
      ensures out == Prefix(stream, |out|) && |out| == written <= atomCount
      ensures ret.Done? ==> ret.atoms == |out|
      ensures (ret.Done? || ret.ResidualData?) && !overrun ==> |out| == atomCount
      ensures ret.Done? || ret.ResidualData? ==> (ret.ResidualData? <==> !overrun && obSize > 0)
      ensures forall k :: 0 <= k < |out| ==> !faulty(k)
      ensures ret.Aborted? ==> pending
      ensures ret.CopyFault? ==> faulty(|out|)
      ensures ret.SyncTimeout? ==> syncReads == 102
      ensures !ret.SizeInconsistency? && !ret.AwakeWhenEmpty?
      ensures ret.ZeroLength? ==> atomCount == 0 || (overrun && obSize == 0)
      ensures atomCount == 0 ==> ret.ZeroLength?
      ensures passes <= atomCount
    {
      var obAtoms: nat := 0;
      out, passes := [], 0;
      ret := FirstLaunch(atomCount);
      if !ret.Done? {
        return;
      }
      ret, obAtoms, out, passes := ReadLoop(atomCount);
      if !ret.Done? {
        return;
      }

      ret := Conclude(atomCount, obAtoms);
    }

    /** The closing checks, for data left in the OB FIFO and for the count. */
    method Conclude(atomCount: nat, obAtoms: nat) returns (ret: Outcome)
      requires Valid() && !busy && (overrun || obAtoms == atomCount)
      modifies this`obSize
      ensures Valid()
      ensures ret == if !overrun && obSize > 0 then ResidualData else Done(written)
    {
      RefreshResidual();
      if !overrun && obSize > 0 {
        return ResidualData;
      }
      if !overrun && obAtoms != atomCount {
        return SizeInconsistency;
      }
      return Done(written);
    }

    /** The closing status read, which looks at the size only. */
    method RefreshResidual()
      requires Valid() && !busy
      modifies this`obSize
      ensures Valid()
    {
      obSize := ReadObSize();
    }
  }
}

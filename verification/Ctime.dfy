/** Reading the current time (libera_get_CTIME and libera_interrupt in
  * drivers/libera/libera_main.c, getBlockedFromFIFO in libera_event.c).
  *
  * A software trigger makes the system and the machine timing module each record it; the
  * interrupt handler moves the records to two FIFOs, and the reader takes one entry from
  * each. A record stands here for its trigger's number. */
module Ctime {

  const TRIG_LOG: nat := 4096
  const CAPACITY: nat := TRIG_LOG - 1

  /** The numbers from a to b - 1. */
  function Range(a: nat, b: nat): (s: seq<nat>)
    requires a <= b
    ensures |s| == b - a
  {
    seq(b - a, i requires 0 <= i < b - a => a + i)
  }

  lemma RangeSteps(a: nat, b: nat)
    requires a <= b
    ensures Range(a, b + 1) == Range(a, b) + [b]
    ensures a < b ==> Range(a, b)[0] == a && Range(a, b)[1..] == Range(a + 1, b)
  {
  }

  /** Putting an entry into a bounded FIFO drops the new entry when the FIFO is full. */
  function Put(q: seq<nat>, id: nat): seq<nat> {
    if |q| == CAPACITY then q else q + [id]
  }

  datatype Result = Pair(lst: nat, lmt: nat) | CutShort | NoSystemTime

  class CtimeDevice {
    // Triggers given; the records each timing module has made of them; its own FIFO.
    var triggers: nat
    var scMade: nat
    var mcMade: nat
    var scHw: seq<nat>
    var mcHw: seq<nat>

    // The driver's FIFOs.
    var sc: seq<nat>
    var mc: seq<nat>

    // How many signals have cut short a wait of the readers.
    var signals: nat

    // How many records the handler has taken from each module, how many entries the readers
    // have taken from each FIFO, how many calls were cut short after their trigger, and
    // whether every call began with fewer than 4095 of those behind it.
    ghost var scTaken: nat
    ghost var mcTaken: nat
    ghost var scRead: nat
    ghost var mcRead: nat
    ghost var cutShort: nat
    ghost var kept: bool

    /** Each FIFO holds an unbroken run of trigger numbers, and there is room for all triggers
      * outstanding. */
    ghost predicate Unbroken()
      reads this
    {
      && scRead <= scTaken && mcRead <= mcTaken && scTaken <= triggers && mcTaken <= triggers
      && scRead <= mcRead <= scRead + 1
      && triggers - scRead <= CAPACITY
      && sc == Range(scRead, scTaken) && mc == Range(mcRead, mcTaken)
    }

    /** The machine module records a trigger after the system module did. */
    ghost predicate Valid()
      reads this
    {
      && mcMade <= scMade <= triggers
      && scTaken <= scMade && scHw == Range(scTaken, scMade)
      && mcTaken <= mcMade && mcHw == Range(mcTaken, mcMade)
      && |sc| <= CAPACITY && |mc| <= CAPACITY
      && (kept ==> Unbroken())
    }

    /** At every return of the handler the system FIFO has been given at least what the machine
      * FIFO has; while the FIFOs are unbroken, their k-th entries are for the same trigger. */
    ghost predicate Paired()
      reads this
    {
      Valid() && mcTaken <= scTaken
    }

    /** The state between two calls. */
    ghost predicate Idle()
      reads this
    {
      && Paired()
      && (kept ==> scRead == mcRead && triggers - scRead == cutShort)
      && (!kept ==> cutShort >= CAPACITY)
    }

    /** The readers' side is untouched; the hardware's and the handler's counts only grow; a
      * record handled leaves the machine FIFO with an entry. */
    twostate predicate HandlerOnly()
      reads this
    {
      && triggers == old(triggers) && cutShort == old(cutShort) && kept == old(kept) && signals == old(signals)
      && scRead == old(scRead) && mcRead == old(mcRead)
      && old(scMade) <= scMade && old(mcMade) <= mcMade
      && old(scTaken) <= scTaken && old(mcTaken) <= mcTaken
      && |old(mc)| <= |mc| && (old(mcTaken) < mcTaken ==> mc != [])
    }

    /** Only records have been made. */
    twostate predicate ArrivalsOnly()
      reads this
    {
      && Valid() && HandlerOnly()
      && scTaken == old(scTaken) && mcTaken == old(mcTaken)
    }

    constructor ()
      ensures Idle() && triggers == scRead == mcRead == cutShort == 0 && sc == mc == [] && kept
    {
      triggers, scMade, mcMade, scHw, mcHw, sc, mc, signals := 0, 0, 0, [], [], [], [], 0;
      scTaken, mcTaken, scRead, mcRead, cutShort, kept := 0, 0, 0, 0, 0, true;
    }

    // ---------- The hardware ----------

    /** The reader's trigger reaches the modules. */
    method GiveTrigger()
      requires Paired()
      modifies this`triggers, this`kept
      ensures Paired() && triggers == old(triggers) + 1
      ensures kept <==> old(kept) && old(triggers) - scRead < CAPACITY
    {
      triggers := triggers + 1;
      kept := kept && triggers - scRead <= CAPACITY;
    }

    method MakeSystemRecord()
      requires Valid() && scMade < triggers
      modifies this`scMade, this`scHw
      ensures Valid() && scMade == old(scMade) + 1
    {
      RangeSteps(scTaken, scMade);
      scHw := scHw + [scMade];
      scMade := scMade + 1;
    }

    method MakeMachineRecord()
      requires Valid() && mcMade < scMade
      modifies this`mcMade, this`mcHw
      ensures Valid() && mcMade == old(mcMade) + 1
    {
      RangeSteps(mcTaken, mcMade);
      mcHw := mcHw + [mcMade];
      mcMade := mcMade + 1;
    }

    /** One module makes its next record, if it may. */
    method MakeRecord()
      requires Valid()
      modifies this`scMade, this`scHw, this`mcMade, this`mcHw
      ensures ArrivalsOnly()
      ensures old(mcMade) < triggers ==> scMade + mcMade == old(scMade) + old(mcMade) + 1
    {
      var machine: bool := *;
      if mcMade < scMade && (machine || scMade == triggers) {
        MakeMachineRecord();
      } else if scMade < triggers {
        MakeSystemRecord();
      }
    }

    /** Any number of records are made. */
    method Arrive()
      requires Valid()
      modifies this`scMade, this`scHw, this`mcMade, this`mcHw
      ensures ArrivalsOnly()
    {
      var n: nat := *;
      while n > 0
        invariant ArrivalsOnly()
      {
        MakeRecord();
        n := n - 1;
      }
    }

    // ---------- The interrupt handler ----------

    /** Moves one record of the system module to its FIFO. */
    method HandleSystemRecord()
      requires Valid() && scTaken < scMade
      modifies this`scHw, this`sc, this`scTaken
      ensures Valid() && scTaken == old(scTaken) + 1
      ensures sc == Put(old(sc), old(scTaken))
    {
      hide Range;
      RangeSteps(scTaken, scMade);
      if kept {
        RangeSteps(scRead, scTaken);
      }
      var id := scHw[0];
      scHw := scHw[1..];
      sc := Put(sc, id);
      scTaken := scTaken + 1;
    }

    /** Moves one record of the machine module to its FIFO. */
    method HandleMachineRecord()
      requires Valid() && mcTaken < mcMade
      modifies this`mcHw, this`mc, this`mcTaken
      ensures Valid() && mcTaken == old(mcTaken) + 1
      ensures mc == Put(old(mc), old(mcTaken))
    {
      hide Range;
      RangeSteps(mcTaken, mcMade);
      if kept {
        RangeSteps(mcRead, mcTaken);
      }
      var id := mcHw[0];
      mcHw := mcHw[1..];
      mc := Put(mc, id);
      mcTaken := mcTaken + 1;
    }

    /** Empties the system module's FIFO, records arriving all the while. */
    method ScHandler()
      requires Valid()
      modifies this`scMade, this`scHw, this`mcMade, this`mcHw, this`sc, this`scTaken
      ensures Valid() && HandlerOnly() && mcTaken == old(mcTaken)
      ensures old(scMade) <= scTaken
    {
      hide Range;
      while scHw != []
        invariant Valid() && HandlerOnly() && mcTaken == old(mcTaken)
        decreases triggers - scTaken
      {
        HandleSystemRecord();
        Arrive();
      }
    }

    /** Empties the machine module's FIFO, records arriving all the while. */
    method McHandler()
      requires Valid()
      modifies this`scMade, this`scHw, this`mcMade, this`mcHw, this`mc, this`mcTaken
      ensures Valid() && HandlerOnly() && scTaken == old(scTaken)
      ensures old(mcMade) <= mcTaken
    {
      hide Range;
      while mcHw != []
        invariant Valid() && HandlerOnly() && scTaken == old(scTaken)
        decreases triggers - mcTaken
      {
        HandleMachineRecord();
        Arrive();
      }
    }

    /** The handler runs the two module handlers, system first, as long as the interrupt
      * vector, read once a round, shows one of them. It may take the machine record of a
      * trigger before the system one, but never returns in between. */
    method Interrupt()
      requires Paired()
      modifies this`scMade, this`scHw, this`mcMade, this`mcHw, this`sc, this`scTaken, this`mc, this`mcTaken
      ensures Paired() && HandlerOnly()
      ensures old(scMade) <= scTaken && old(mcMade) <= mcTaken
    {
      hide Range;
      var scIrq, mcIrq := scHw != [], mcHw != [];
      while scIrq || mcIrq
        invariant Valid() && HandlerOnly()
        invariant scIrq == (scTaken < scMade) && mcIrq == (mcTaken < mcMade)
        decreases 2 * triggers - scTaken - mcTaken
      {
        if scIrq {
          ScHandler();
        }
        Arrive();
        if mcIrq {
          McHandler();
        }
        Arrive();
        scIrq, mcIrq := scHw != [], mcHw != [];
      }
    }

    // ---------- The readers ----------

    /** Records arrive and interrupts are handled between two steps of a reader. */
    method Preempt()
      requires Paired()
      modifies this`scMade, this`scHw, this`mcMade, this`mcHw, this`sc, this`scTaken, this`mc, this`mcTaken
      ensures Paired() && HandlerOnly()
    {
      var n: nat := *;
      while n > 0
        invariant Paired() && HandlerOnly()
      {
        Arrive();
        Interrupt();
        n := n - 1;
      }
      Arrive();
    }

    /** Sleeping for a machine entry: the records of all triggers given are made in the end,
      * and handling them wakes the reader. */
    method Sleep()
      requires Paired() && mcTaken < triggers
      modifies this`scMade, this`scHw, this`mcMade, this`mcHw, this`sc, this`scTaken, this`mc, this`mcTaken
      ensures Paired() && HandlerOnly() && mc != []
    {
      while mcMade < triggers
        invariant Paired() && HandlerOnly()
        decreases 2 * triggers - scMade - mcMade
      {
        MakeRecord();
      }
      Interrupt();
    }

    /** Takes the oldest machine entry. */
    method TakeMachine() returns (id: nat)
      requires Valid() && mc != [] && (kept ==> mcRead == scRead)
      modifies this`mc, this`mcRead
      ensures Valid() && id == old(mc)[0] && mc == old(mc)[1..] && mcRead == old(mcRead) + 1
      ensures kept ==> id == old(mcRead)
    {
      hide Range;
      if kept {
        RangeSteps(mcRead, mcTaken);
      }
      id := mc[0];
      mc := mc[1..];
      mcRead := mcRead + 1;
    }

    /** Takes the oldest system entry, without waiting for one. */
    method TakeSystem() returns (found: bool, id: nat)
      requires Valid() && (kept ==> mcRead == scRead + 1)
      modifies this`sc, this`scRead
      ensures Valid() && found == (old(sc) != [])
      ensures if found then id == old(sc)[0] && sc == old(sc)[1..] && scRead == old(scRead) + 1
              else sc == [] && scRead == old(scRead)
      ensures found && kept ==> id == old(scRead)
    {
      hide Range;
      if sc == [] {
        return false, 0;
      }
      if kept {
        RangeSteps(scRead, scTaken);
      }
      found, id := true, sc[0];
      sc := sc[1..];
      scRead := scRead + 1;
    }

    /** A signal may come. */
    method Signal() returns (signal: bool)
      modifies this`signals
      ensures signals == old(signals) + (if signal then 1 else 0)
    {
      signal := *;
      if signal {
        signals := signals + 1;
      }
    }

    /** The blocking get, on the machine FIFO: unless a signal comes while it waits for the
      * device or for an entry, it takes the oldest entry. */
    method GetBlocked() returns (signal: bool, id: nat)
      requires Paired() && (mc != [] || mcTaken < triggers) && (kept ==> mcRead == scRead)
      modifies this`scMade, this`scHw, this`mcMade, this`mcHw, this`sc, this`scTaken, this`mc, this`mcTaken,
        this`mcRead, this`signals
      ensures signals == old(signals) + (if signal then 1 else 0)
      ensures Paired() && triggers == old(triggers) && scRead == old(scRead)
      ensures cutShort == old(cutShort) && kept == old(kept)
      ensures mcRead == if signal then old(mcRead) else old(mcRead) + 1
      ensures !signal && kept ==> id == old(mcRead)
    {
      hide Range;
      id := 0;
      signal := Signal();
      if signal {
        return;
      }
      Preempt();
      while mc == []
        invariant !signal && Paired() && HandlerOnly() && (mc != [] || mcTaken < triggers)
        decreases if mc == [] then 1 else 0
      {
        signal := Signal();
        if signal {
          return;
        }
        Sleep();
      }
      id := TakeMachine();
    }

    /** Gives a trigger and reads one entry of each FIFO. While fewer than 4095 calls have
      * been cut short by a signal, a call that is not cut short itself returns both halves
      * of one trigger: not its own, but the one given as many triggers earlier as calls
      * were cut short; the system FIFO is never found empty. */
    method GetCtime() returns (r: Result)
      requires Idle()
      modifies this
      ensures Idle() && triggers == old(triggers) + 1 && old(cutShort) <= cutShort
      ensures signals == old(signals) + (if r == CutShort then 1 else 0)
      ensures old(cutShort) < 4095 ==>
                if r == CutShort then cutShort == old(cutShort) + 1
                else r == Pair(old(scRead), old(scRead)) && cutShort == old(cutShort)
      ensures old(cutShort) < 4095 && r.Pair? ==> r.lst == triggers - 1 - cutShort
    {
      hide Range;
      GiveTrigger();
      Preempt();
      var signal, lmt := GetBlocked();
      if signal {
        cutShort := cutShort + 1;
        return CutShort;
      }
      Preempt();
      var found, lst := TakeSystem();
      if !found {
        return NoSystemTime;
      }
      return Pair(lst, lmt);
    }

    // ---------- When the FIFOs overflow ----------

    /** Both modules' records of the last trigger are made and handled. */
    method RecordBoth(n: nat)
      requires Valid() && triggers == n + 1 && scMade == mcMade == scTaken == mcTaken == n
      modifies this`scMade, this`scHw, this`mcMade, this`mcHw, this`sc, this`scTaken, this`mc, this`mcTaken
      ensures Paired() && scMade == mcMade == scTaken == mcTaken == n + 1
      ensures sc == Put(old(sc), n) && mc == Put(old(mc), n)
    {
      MakeSystemRecord();
      HandleSystemRecord();
      MakeMachineRecord();
      HandleMachineRecord();
    }

    /** From the start on, at least 4095 calls are cut short: both FIFOs are full of the
      * entries of the first 4095. */
    method FillFifos(calls: nat)
      requires Idle() && triggers == scRead == mcRead == cutShort == 0 && sc == mc == []
      requires calls >= CAPACITY
      modifies this
      ensures Idle() && scMade == mcMade == scTaken == mcTaken == triggers == cutShort == calls
      ensures scRead == mcRead == 0 && sc == mc == Range(0, CAPACITY)
    {
      for n := 0 to calls
        invariant Idle() && scMade == mcMade == scTaken == mcTaken == triggers == cutShort == n
        invariant scRead == mcRead == 0 && sc == mc == Range(0, if n < CAPACITY then n else CAPACITY)
      {
        RangeSteps(0, n);
        GiveTrigger();
        RecordBoth(n);
        cutShort := cutShort + 1;
      }
    }

    /** A call during which the interrupt is handled once before and once after the reader
      * takes the machine entry: in full FIFOs, the system half of its trigger is dropped and
      * the machine half is not. */
    method LateCall() returns (r: Result)
      requires Idle() && scMade == mcMade == scTaken == mcTaken == triggers >= CAPACITY
      requires scRead == mcRead == 0 && sc == mc == Range(0, CAPACITY)
      modifies this
      ensures Paired() && !kept && triggers == old(triggers) + 1 && cutShort == old(cutShort)
      ensures scMade == mcMade == scTaken == mcTaken == triggers
      ensures sc == Range(1, CAPACITY) && mc == Range(1, CAPACITY) + [old(triggers)]
    {
      hide Range;
      RangeSteps(0, CAPACITY);
      GiveTrigger();
      MakeSystemRecord();
      HandleSystemRecord();
      var lmt := TakeMachine();
      MakeMachineRecord();
      HandleMachineRecord();
      var found, lst := TakeSystem();
      return Pair(lst, lmt);
    }

    /** Call number j after that, whose trigger is recorded and handled after its gets. */
    method PromptCall(calls: nat, j: nat) returns (r: Result)
      requires Paired() && !kept && 0 < j < CAPACITY <= calls
      requires scMade == mcMade == scTaken == mcTaken == triggers == calls + j
      requires sc == Range(j, CAPACITY) + Range(calls + 1, calls + j)
      requires mc == Range(j, CAPACITY) + Range(calls, calls + j)
      modifies this
      ensures Paired() && !kept && cutShort == old(cutShort) && r.Pair?
      ensures scMade == mcMade == scTaken == mcTaken == triggers == calls + j + 1
      ensures sc == Range(j + 1, CAPACITY) + Range(calls + 1, calls + j + 1)
      ensures mc == Range(j + 1, CAPACITY) + Range(calls, calls + j + 1)
    {
      hide Range;
      RangeSteps(j, CAPACITY);
      RangeSteps(calls, calls + j);
      RangeSteps(calls + 1, calls + j);
      GiveTrigger();
      var lmt := TakeMachine();
      var found, lst := TakeSystem();
      assert sc == Range(j + 1, CAPACITY) + Range(calls + 1, calls + j);
      assert mc == Range(j + 1, CAPACITY) + Range(calls, calls + j);
      RecordBoth(calls + j);
      r := Pair(lst, lmt);
    }

    /** With any number of calls from 4095 on cut short, a run of calls that are not cut short
      * comes to a pair whose halves are of different triggers. */
    method LosePairing(calls: nat) returns (r: Result)
      requires Idle() && triggers == scRead == mcRead == cutShort == 0 && sc == mc == []
      requires calls >= CAPACITY
      modifies this
      ensures Paired() && cutShort == calls && r == Pair(calls + 1, calls)
    {
      hide Range;
      FillFifos(calls);
      r := LateCall();
      EmptyRanges(calls);
      for j := 1 to CAPACITY
        invariant Paired() && !kept && cutShort == calls
        invariant scMade == mcMade == scTaken == mcTaken == triggers == calls + j
        invariant sc == Range(j, CAPACITY) + Range(calls + 1, calls + j)
        invariant mc == Range(j, CAPACITY) + Range(calls, calls + j)
      {
        r := PromptCall(calls, j);
      }
      RangeSteps(calls, calls + CAPACITY);
      RangeSteps(calls + 1, calls + CAPACITY);
      assert sc == Range(calls + 1, calls + CAPACITY);
      assert mc == Range(calls, calls + CAPACITY);
      GiveTrigger();
      var lmt := TakeMachine();
      var found, lst := TakeSystem();
      r := Pair(lst, lmt);
    }
  }

  lemma EmptyRanges(calls: nat)
    ensures Range(CAPACITY, CAPACITY) == Range(calls + 1, calls + 1) == [] && Range(calls, calls + 1) == [calls]
  {
  }
}

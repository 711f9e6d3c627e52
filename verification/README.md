# A verified model of the Libera driver's protocols and codecs

Libera is a beam position processor. Its Linux driver reads beam history out of an FPGA with a
DMA controller, keeps two 64-bit time scales, talks to a microcontroller over a serial line, and
comes with small tools for the boot environment. This project models the parts of the driver and
the tools in which something can go wrong between steps, and proves properties of the model in
Dafny. `dafny verify dfyconfig.toml` checks all of it.

One module stands for one component:

- `DmaPipeline`: the reader of the Data-on-Demand device, the end-of-transfer interrupt, the DMA
  controller and the FPGA, around one ring of 4096 atoms. The processor is a uniprocessor, so an
  interrupt handler and a section with interrupts off are one step; `Preempt` lets the others take
  any number of steps between two steps of the reader.
- `Timestamps`: how the handlers of the two timing modules rebuild 64-bit times from 26-bit stamps
  and wrap-around records, and dispatch the triggers.
- `EventSchedule`: how two handlers share programming one 64-bit event time into a 26-bit
  comparator.
- `Ctime`: reading the current time as one entry of each of two FIFOs that an interrupt fills.
- `SetTime`: setting the two times on a trigger, over any series of triggers and settings.
- `TimeConversion`, `DdReads`, `Waits`: conversion between the time scales, addressing of the
  history buffer and chains of reads, waiting for data. Products are taken modulo 2^32 or 2^64
  wherever the source does (`Words`).
- `SerialProtocol`: both ends of the line to the microcontroller, and the voltages.
- `Crc32`, `Environment`: the checksum, and the tools that make and read a boot environment block.
- `Rings`, `SaPipes`, `TriggerVectors`: index rings, the slots of the slow-acquisition readers, and
  which file owns which trigger.

Code that changes state is a class with the source's fields or a method over an array; its
methods are proved against functions on values, and the results over whole runs are lemmas about
those functions or invariants that every method keeps. What the hardware, other processes and the
user supply is arbitrary: an arbitrary choice in a method, or a parameter.

Where the code does not do what its comments or names promise, the model follows the code, and
members say when the promise is kept and give an input for which it is not:

- A time read after k calls were cut short by signals is k triggers old, and the two halves belong
  together as long as k is below 4095, not beyond (`Ctime.CtimeDevice.GetCtime`, `LosePairing`).
- When the time is set, the restart of the slow acquisition is off by twice the change of the PLL
  offset (`SetTime.RestartTime`, `RestartError`, `RestartTooEarly`).
- `wait_lmt` and `wait_lst` are described as waiting for the end of the requested interval; they
  never use its length and wait for its start and 64 atoms (`Waits.EndIsAwaited`, `ReadyTooEarly`).
- At exactly 117.44 MHz, the worst case the comments name, a converted time can be refused on the
  way back (`TimeConversion.GuardsMatch`).
- A read of no atoms forgets a pending seek to a system time or a trigger
  (`DdReads.EmptyReadForgets`), and a transfer that fails part way returns a count but leaves the
  position, so that the next read repeats those atoms (`DdReads.GapFreeForCaller`,
  `CutReadRepeats`).
- Enabling several triggers at once flushes the wrong FIFOs, even some past the last one
  (`TriggerVectors.FlushIsRight`, `FlushHitsCtime`, `FlushInRange`, `FlushPastLast`).
- A pipe's free count is one too high, and its overflow report is unreachable
  (`Rings.PipeWriteIsComplete`, `SingleWriteNeverFaults`).
- `libera_register_pipe` returns its error code always (`SaPipes.Device.RegisterPipe`).
- The first launch of a DMA read can be for no atoms (`DmaPipeline.Driver.FirstLaunch`).
- `makeenv` checks the room for each line alone (`Environment.RoomNeeded`, `RoomIsNotChecked`).
- The test for valid triggers looks at bit 31 only (`TriggerVectors.EventDevice.Enable`).

## Model

| member | source | states |
|---|---|---|
| `DmaPipeline.Driver.TransferObFifo` | drivers/libera/ebpp.c:1307-1635 | For every schedule of FPGA, DMA controller and interrupt and for every exit: the reader delivers a prefix of the stream in order, and all atom_count atoms unless there was an overrun, a sync timeout, an abort or a copy fault; each exit is taken for its own reason only (a pending signal or post-mortem event, an atom that cannot be copied, 102 status reads), and residual data are reported exactly when the closing status shows some without an overrun; the size-inconsistency and awake-when-empty exits are unreachable; only an abort or a copy fault leaves a transfer in flight; at most atom_count unaborted passes are made; a launch for no atoms happens only for an empty request or on an overrun with an empty FIFO |
| `DmaPipeline.Driver.FirstLaunch` | drivers/libera/ebpp.c:1346-1361 | The first launch would be for no atoms if and only if none are wanted, or there was an overrun and the FIFO is empty |
| `DmaPipeline.Driver.ReadLoop` | drivers/libera/ebpp.c:1364-1596 | Ends after at most atom_count unaborted passes; if it is not cut short, idle and with everything passed or an overrun seen; what was delivered is a prefix in every case |
| `DmaPipeline.Driver.ReaderPass` | drivers/libera/ebpp.c:1393-1583 | Each completed pass moves on by at least one atom, keeps the pipeline invariant, and leaves a transfer in flight, atoms in the ring, or nothing to do: no wake-up is lost; an aborted one leaves a delivered prefix |
| `DmaPipeline.Driver.Restart` | drivers/libera/ebpp.c:1502-1583 | The restart section launches only an idle controller, and only without an overrun; it ends in the timeout, in the loop exit on an overrun, or with a transfer in flight or a full ring |
| `DmaPipeline.Driver.AwaitAtoms` | drivers/libera/ebpp.c:1394-1428 | Sleeping on an empty ring happens only with a transfer in flight and ends with atoms in the ring, or, while it is still empty, with a signal or a post-mortem event |
| `DmaPipeline.Driver.Schedule` | drivers/libera/ebpp.c:1400-1407 | The reader may sleep only when a wake-up is due, and is woken with an atom in the ring |
| `DmaPipeline.Driver.CopyOut` | drivers/libera/ebpp.c:1438-1458 | Passes exactly the counted entries, delivering the next atoms of the stream until an overrun is seen or a copy fails |
| `DmaPipeline.Driver.CopyOne` | drivers/libera/ebpp.c:1441-1455 | Copies the next atom and frees its slot, with the interrupt free to run between test, copy and release; nothing is copied after an overrun; a failing copy delivers nothing and leaves the slot |
| `DmaPipeline.Driver.ReadSlot` | drivers/libera/ebpp.c:1443-1444 | The get slot holds the next atom of the stream |
| `DmaPipeline.Driver.LoopCondition` | drivers/libera/ebpp.c:1595-1596 | When the loop condition fails every wanted atom has been passed and the controller is idle |
| `DmaPipeline.Driver.Conclude` | drivers/libera/ebpp.c:1602-1634 | Residual data are reported if and only if there was no overrun and the closing status shows some; otherwise the count delivered is returned, and never an inconsistency |
| `DmaPipeline.Driver.ObFifoSync` | drivers/libera/ebpp.c:1057-1140 | Returns after at most HZ + 2 status reads, with data, an overrun or nothing wanted, or after exactly HZ + 2 with the timeout |
| `DmaPipeline.Driver.BeginTransfer` | drivers/libera/ebpp.c:1327-1344 | Establishes the pipeline invariant for a new request |
| `DmaPipeline.Driver.DmaInterrupt` | drivers/libera/libera_main.c:1145-1205 | The handler moves exactly csize atoms from wanted to arrived and keeps the invariant; a due wake-up stays due |
| `DmaPipeline.Driver.EndTransfer` | drivers/libera/libera_main.c:1157-1178 | The finished transfer enters the ring, which then holds exactly the atoms drained |
| `DmaPipeline.Driver.AdvanceRing` | drivers/libera/libera_main.c:1176-1178 | The ring never refuses a finished transfer |
| `DmaPipeline.Driver.Relaunch` | drivers/libera/libera_main.c:1179-1200 | The handler leaves the controller idle if and only if nothing is wanted, nothing is in the FIFO or the ring is full, and the flag says so |
| `DmaPipeline.Driver.GetDmacCsize` | drivers/libera/libera_main.c:1104-1133 | The new size is the largest that meets all five restrictions |
| `DmaPipeline.Driver.DmaCommand` | drivers/libera/libera_main.c:1075-1100 | Launched only on an idle controller, for at least one atom, inside the ring and clear of unread atoms |
| `DmaPipeline.Driver.MoveAtom` | drivers/libera/libera_main.c:1089-1099 | The controller stores each atom in the slot of its position, none of which is unread |
| `DmaPipeline.Driver.PutToFifo` | drivers/libera/libera_event.h:171-184 | Refuses exactly when the new put index would meet the get index |
| `DmaPipeline.Driver.LenFifo` | drivers/libera/libera_event.h:126-136 | The index difference is the number of unread atoms |
| `DmaPipeline.Driver.EmptyFifo` | drivers/libera/libera_event.h:159-169 | The indices are equal exactly when nothing is unread |
| `DmaPipeline.SlotsDiffer` | drivers/libera/libera_event.h:171-184 | Positions less than a ring apart have different slots |
| `Timestamps.StampsAreTrue` | drivers/libera/libera_main.c:566-648 | With such marks a whole run dispatches every trigger with its true tick and leaves the count ready for the next run |
| `Timestamps.StampsTrueIff` | drivers/libera/libera_main.c:566-648 | Over a whole run of records in time order every stamp is the true 64-bit tick count if and only if the first record of each epoch is marked, no other is, and no epoch lacks a record |
| `Timestamps.WrapsSuffice` | drivers/libera/libera_main.c:576-594 | One record at each wrap-around, marked as the only ones, makes the marks right |
| `Timestamps.RunsCompose` | drivers/libera/libera_main.c:567-671 | Emptying the FIFO in two handler runs does what one run over all records does |
| `Timestamps.MarkIsNeeded` | drivers/libera/libera_main.c:576-594 | One stamp and the count after it are right if and only if the record's mark is |
| `Timestamps.StampSplits` | drivers/libera/libera_main.c:573-594 | A stamp has the record's low 26 bits below the high bits of the count |
| `Timestamps.SetIsExact` | drivers/libera/libera_main.c:600-607 | The list of dispatched triggers holds exactly the set bits, each once, in ascending order |
| `Timestamps.NineTriggers` | drivers/libera/libera_kernel.h:500 | The dispatched triggers are the nine from bit 22 on |
| `Timestamps.DispatchesExact` | drivers/libera/libera_main.c:600-648 | What a record dispatches are its triggers, in order, with the record's time |
| `Timestamps.TimingModule.DispatchTriggers` | drivers/libera/libera_main.c:600-648 | The mask loop dispatches each set trigger bit exactly once, lowest first |
| `Timestamps.TimingModule.HandleRecord` | drivers/libera/libera_main.c:570-597 | One record's count, stamp and dispatches |
| `Timestamps.TimingModule.Handle` | drivers/libera/libera_main.c:679-817 | A handler run does what the specification of whole runs says, for any number of records |
| `EventSchedule.ExactlyOnce` | drivers/libera/ebpp.c:744-808 | Over any stretch of handler runs an event time of at least one epoch is programmed exactly once, by one of the two handlers, if and only if its due run lies in the stretch |
| `EventSchedule.EventGenerator.RunEpochs` | drivers/libera/ebpp.c:744-808 | A run of n epochs of the two handlers taking turns on the device's own counter writes an event time of at least one epoch exactly once, at its due handler run, or not at all if that is not among them |
| `EventSchedule.FirstEpochIsNeverProgrammed` | drivers/libera/ebpp.c:750-807 | Event times in the first epoch are never programmed |
| `EventSchedule.OnlyDueWrites` | drivers/libera/ebpp.c:744-808 | A handler run writes if and only if it is the due run, and then the low 26 bits of the time |
| `EventSchedule.HelperWrites` | drivers/libera/ebpp.c:750-769 | The helper writes exactly for the first half of the next epoch |
| `EventSchedule.SelfIncWrites` | drivers/libera/ebpp.c:788-807 | The wrap-around handler writes exactly for the second half of its own epoch |
| `EventSchedule.FiresOnTime` | drivers/libera/ebpp.c:788-803 | The 26-bit comparison fires at the 64-bit time if and only if the due handler runs on the right side of the offset |
| `EventSchedule.HalvesSuffice` | drivers/libera/ebpp.c:744-808 | It does whenever the handlers run in the first and second half of their epochs |
| `EventSchedule.HalfEpochLead` | drivers/libera/ebpp.c:744-808 | With the helper 2^25 ticks after the wrap-around of the 26-bit counter, an event is programmed at least 2^25 and less than 2^26 ticks early |
| `EventSchedule.EventGenerator.SelfInc` | drivers/libera/ebpp.c:783-808 | Programs the event exactly when its time lies in the second half of the epoch that begins |
| `EventSchedule.EventGenerator.Helper` | drivers/libera/ebpp.c:745-770 | Programs the event exactly when its time lies in the first half of the next epoch |
| `Ctime.CtimeDevice.Interrupt` | drivers/libera/libera_main.c:1007-1072 | At every return the system FIFO has been given at least as many entries as the machine FIFO, whatever arrives during the run; until a call begins with 4095 cut short, both hold unbroken runs of triggers, so that k-th entries belong together |
| `Ctime.CtimeDevice.ScHandler` | drivers/libera/libera_main.c:567-672 | Empties the module's records into the system FIFO, keeping their order |
| `Ctime.CtimeDevice.McHandler` | drivers/libera/libera_main.c:694-816 | Empties the module's records into the machine FIFO, keeping their order |
| `Ctime.CtimeDevice.GetBlocked` | drivers/libera/libera_event.c:214-264 | Returns the oldest machine entry unless a signal comes first, also while waiting for the device; a sleeping reader is always woken |
| `Ctime.CtimeDevice.GetCtime` | drivers/libera/libera_main.c:295-342 | From every state between calls: a call is cut short exactly by a signal; with fewer than 4095 calls cut short so far, any other call returns both halves of one trigger, as many triggers old as calls were cut short, and never finds the system FIFO empty |
| `Ctime.CtimeDevice.LosePairing` | drivers/libera/libera_main.c:295-342 | With any number of calls from 4095 on cut short, the device comes to a call that returns halves of different triggers |
| `Ctime.CtimeDevice.LateCall` | drivers/libera/libera_event.h:52-65 | In full FIFOs, a trigger handled before and after the machine get loses its system half only |
| `SetTime.MachineTimeIsSet` | drivers/libera/libera_main.c:484-534 | After any series of events, machine stamps count on from the time the last SET trigger for it had to assign, read off the events alone: the last reference asked for less the last phase given, whatever offsets were in force before |
| `SetTime.SystemTimeIsSet` | drivers/libera/libera_main.c:459-479 | The same for system stamps |
| `SetTime.RunFollowsEvents` | drivers/libera/libera_event.c:525-582 | Over any series of events, what is armed and the references and phases in force are what the events alone call for |
| `SetTime.OffsetsStayConsistent` | drivers/libera/libera_main.c:499-516 | After any series of events off + off_pll == off_all modulo 2^64, off is a multiple of the step and off_pll less than a step |
| `SetTime.SetLmtIsConsistent` | drivers/libera/libera_main.c:499-516 | A SET trigger establishes this from any offsets |
| `SetTime.LmtAfterSet` | drivers/libera/libera_main.c:484-516 | After one SET trigger the machine stamp at any count is the reference less the phase plus the ticks since |
| `SetTime.LstAfterSet` | drivers/libera/libera_main.c:459-472 | The same for the system stamp |
| `SetTime.PrescalerIsPlain` | drivers/libera/ebpp.c:720-723 | Prescaler stamps show the plain count whatever has been set |
| `SetTime.PhaseIsKept` | drivers/libera/libera_main.c:504-516 | The offset keeps the phase of the raw stamp if and only if the sum does not wrap around or the step divides 2^64 |
| `SetTime.RestartTime` | drivers/libera/libera_main.c:529-533 | The restart is scheduled the stated delay after the trigger on the clock as set if and only if the PLL offset is already the one that reference, phase and trigger count call for |
| `SetTime.RestartError` | drivers/libera/libera_main.c:529-533 | It is wrong by exactly twice the change of the PLL offset |
| `SetTime.RestartTooEarly` | drivers/libera/libera_main.c:529-533 | A concrete setting for which it is 120 ticks early |
| `SetTime.EventDevice.TriggerPair` | drivers/libera/libera_main.c:624-642 | Both handlers' share of one trigger is one step of the specification, and the pair recorded is raw in set mode, offset otherwise |
| `SetTime.EventDevice.McTrigger` | drivers/libera/libera_main.c:752-786 | The machine half closes the pair, applies the settings and leaves set mode |
| `SetTime.EventDevice.ScTrigger` | drivers/libera/libera_main.c:626-642 | The system half goes into the open pair |
| `SetTime.EventDevice.ApplySettings` | drivers/libera/libera_main.c:538-547 | Applies what was armed to the last pair and disarms it |
| `SetTime.EventDevice.SetLmtTime` | drivers/libera/libera_main.c:483-534 | Sets the machine offsets from the last closed pair |
| `SetTime.EventDevice.SetLstTime` | drivers/libera/libera_main.c:458-479 | Sets the system offset from the last closed pair |
| `SetTime.EventDevice.PutLmt` | drivers/libera/libera_event.h:97-102 | Completes the open pair, which becomes the pair closed last, and moves on |
| `SetTime.EventDevice.LastPair` | drivers/libera/libera_event.h:111-117 | Returns the pair whose second half came last, whatever the open pair holds and also after the index wrapped around |
| `TimeConversion.LstGuardIsTight` | drivers/libera/libera_kernel.h:437-441 | DELTA_LST_OVERFLOW keeps the product inside 64 bits for exactly the clocks up to 117.44 MHz |
| `TimeConversion.LmtGuardHolds` | drivers/libera/libera_dd.h:205-212 | DELTA_LMT_OVERFLOW keeps the product inside 64 bits |
| `TimeConversion.GuardsMatch` | drivers/libera/libera_kernel.h:440-441 | Accepted LST differences give accepted LMT differences for exactly the clocks below 117.44 MHz |
| `TimeConversion.Lst2LmtScales` | drivers/libera/libera_dd.h:121-168 | Within the guard the conversion adds the scaled difference on either side of the sync point; outside it is refused |
| `TimeConversion.Lmt2LstScales` | drivers/libera/libera_dd.h:175-219 | The way back adds the inversely scaled difference within its guard and refuses outside |
| `TimeConversion.OneSecondLater` | drivers/libera/libera_dd.h:153-166 | One second of system time is flmcdHz / 10 ticks of machine time |
| `TimeConversion.SecondsShown` | drivers/libera/libera_dd.h:45-54 | A second is 125000000 ticks of system time, a tick eight nanoseconds |
| `TimeConversion.Lst2LmtIsMonotone` | drivers/libera/libera_dd.h:121-168 | Later system times convert to later machine times, across the sync point too |
| `TimeConversion.LstRoundTrip` | drivers/libera/libera_dd.h:121-219 | From LST to LMT and back, whenever both range checks pass, moves toward the sync point by at most ceil(1250000000 / flmcdHz) ticks |
| `TimeConversion.BothChecksPass` | drivers/libera/libera_dd.h:153-210 | For a clock below 117.44 MHz the way back is accepted for every accepted LST difference whose LMT does not wrap around |
| `TimeConversion.ScaleAndBack` | drivers/libera/libera_dd.h:159-212 | The loss of the two roundings |
| `TimeConversion.WrapIsRefused` | drivers/libera/libera_dd.h:187-210 | A converted time that wrapped around is refused on the way back |
| `TimeConversion.StRoundTrip` | drivers/libera/libera_dd.h:30-54 | LST to seconds and nanoseconds and back is exact if and only if the seconds fit a signed 32-bit word |
| `TimeConversion.LstOfStRoundTrip` | drivers/libera/libera_dd.h:30-54 | The other way round cuts the nanoseconds to a multiple of 8 |
| `TimeConversion.MtRoundTrip` | drivers/libera/libera_dd.h:57-72 | MT to LMT and back is exact if and only if the LMT fits 64 bits |
| `TimeConversion.LmtRoundTrip` | drivers/libera/libera_dd.h:57-72 | LMT to MT and back gives the start of the atom |
| `DdReads.GapFree` | drivers/libera/ebpp.c:1788-1829 | In every chain of reads without error from a whole atom each ring offset is the first plus all atoms passed since, modulo the ring |
| `DdReads.GapFreeForCaller` | drivers/libera/ebpp.c:1798-1829 | To a caller who goes by the counts returned, such a chain is gap-free if and only if no transfer but the last failed after atoms had reached the user |
| `DdReads.ReadsLag` | drivers/libera/ebpp.c:1807-1829 | Reads lag behind what the caller was given by exactly what reads cut short had returned |
| `DdReads.CutReadRepeats` | drivers/libera/ebpp.c:1803-1815 | After a cut read at a machine time the next one reads from the same ring offset again; a pending seek is made again |
| `DdReads.GapFreeFromInside` | drivers/libera/ebpp.c:1788-1829 | From a time inside an atom, with a first read that is not cut short, the same holds from the second read on, up to an overlap of one atom exactly when the rounding carried |
| `DdReads.ReadSucceeds` | drivers/libera/ebpp.c:1736-1817 | A read at a machine time returns an error if and only if the current time cannot be read, the wait fails, the command cannot be queued or the time is out of conversion range |
| `DdReads.SeekToTrigger` | drivers/libera/ebpp.c:1753-1780 | A request relative to the last trigger leads to the LMT of the trigger plus the offset in atoms, fails exactly when the wait does or the offset is out of conversion range, and gets the system time that belongs to it |
| `DdReads.SeekMovesRing` | drivers/libera/ebpp.c:1765 | In the ring it moves from the trigger by as many atoms, forward or back |
| `DdReads.SeekToSystemTime` | drivers/libera/ebpp.c:1717-1734 | A request at a system time leads to the machine time as far from the current one as the clocks' ratio says |
| `DdReads.StayAtMachineTime` | drivers/libera/ebpp.c:1735-1752 | A request at a machine time stays there and gets its system time from the current one |
| `DdReads.CountsAreTrue` | drivers/libera/ebpp.c:1798-1817 | A read returns as many atoms as reached the user; without the current time it fails and leaves the position |
| `DdReads.ReadsFollowOn` | drivers/libera/ebpp.c:1823-1829 | Every read starts at the machine time all reads before it reached |
| `DdReads.RoundingCarries` | drivers/libera/libera_dd.h:79-93 | When rounding inside an atom differs from rounding its start, and by how much |
| `DdReads.OffsetMoves` | drivers/libera/libera_dd.h:79-93 | n atoms later is n slots on |
| `DdReads.NearestAtom` | drivers/libera/libera_dd.h:79-93 | The ring offset is the number of the nearest atom after the base, modulo 2097152 |
| `DdReads.AddressingAgrees` | drivers/libera/libera_dd.h:79-114 | The two addressing functions agree if and only if the base lies at most half an atom after a whole atom |
| `DdReads.RoundedAtom` | drivers/libera/libera_dd.h:87-88 | What the rounding to the nearest atom counts from |
| `DdReads.ResolvedInsideAtom` | drivers/libera/ebpp.c:1717-1783 | A resolved system time or trigger lies inside the atom it names |
| `DdReads.EmptyReadForgets` | drivers/libera/ebpp.c:1705-1829 | A read of no atoms drops a pending seek; harmless if and only if the position was a whole atom in machine time |
| `DdReads.DdFile.ReadSpecific` | drivers/libera/ebpp.c:1663-1840 | Every outcome of a read, with what it returns and the position it leaves: errors, before and after the times are resolved, counts, counts of a transfer that failed part way, and nothing after an interrupted wait |
| `DdReads.DdFile.ResolveTimes` | drivers/libera/ebpp.c:1717-1783 | The three kinds of request define the missing times as specified |
| `Waits.Wait` | drivers/libera/ebpp.c:1143-1282 | Too late and too early requests are told apart without a sleep, exactly by the two bounds, and one whose margin has passed is ready at once; otherwise the wait ends with the first waking past the margin, or with a signal before it; every sleep asks for the jiffies of the ticks missing at the time read last; a clock that keeps its rate needs one sleep; success means the end of intervals up to the margin |
| `Waits.EndIsAwaited` | drivers/libera/ebpp.c:1150-1167 | Success means that the interval asked for is over, whatever the times, if and only if it is at most 64 atoms long |
| `Waits.ReadyTooEarly` | drivers/libera/ebpp.c:1166-1169 | A request for 65 atoms is ready an atom before its end |
| `Waits.OneSleepIsEnough` | drivers/libera/ebpp.c:1190-1206 | If the clock keeps its rate during the sleep, one sleep is enough |
| `Waits.JiffiesCover` | drivers/libera/ebpp.c:1190-1191 | The jiffies cover the missing ticks and exceed them by at most one jiffy |
| `Waits.BoundsFit` | drivers/libera/ebpp.c:1159-1172 | The 32-bit bounds are the intended products if and only if an atom is at most 409 ticks long |
| `Waits.DifferencesAreExact` | drivers/libera/ebpp.c:1156-1167 | The signed differences are exact away from the end of the 64-bit range |
| `SerialProtocol.MspTransfer` | drivers/msp430/msp_main.c:252-298 | For any conversion time no protocol test fails, the transfer fails exactly when the hardware shows no reply, the atom is that of the one conversion this transfer started, and the slave is left asleep with the reset code in its register, after a failure too |
| `SerialProtocol.AwaitConversion` | drivers/msp430/msp_main.c:264-270 | Polling ends when the conversion does, with the expected code |
| `SerialProtocol.ReadOut` | drivers/msp430/msp_main.c:276-296 | The sixteen bytes read are byte_data[0..15] in order, and the last code sent restores the idle state |
| `SerialProtocol.Exchange` | drivers/msp430/msp_main.c:219-235 | The reply is what the slave prepared before; the slave then prepares the answer to this byte |
| `SerialProtocol.CheckProtocol` | drivers/msp430/msp_main.c:238-249 | An unexpected code resets the slave |
| `SerialProtocol.Slave.RxIsr` | drivers/msp430/adc/msp_adc.c:188-205 | The interrupt sets the transmit register by the protocol and wakes the main loop only for the start code |
| `SerialProtocol.Slave.MainStep` | drivers/msp430/adc/msp_adc.c:165-182 | The main loop keeps the data of the last conversion readable whenever it is not converting |
| `SerialProtocol.StaleData` | drivers/msp430/msp_main.c:209-218 | Without time for the slave's main loop the driver would accept the data of an earlier conversion |
| `SerialProtocol.LastByteSent` | drivers/msp430/msp_main.c:280-284 | 0xa9 is the only byte that leaves the reset code whatever the data |
| `SerialProtocol.MspTransform` | drivers/msp430/msp_main.c:178-194 | The bytes become the voltages of the conversion's words |
| `SerialProtocol.ScalingIsAccurate` | drivers/msp430/msp_main.c:183-191 | The two-step scaling fits 32 bits and is less than one unit of each step below the exact voltage |
| `SerialProtocol.VoltagesAreAccurate` | drivers/msp430/msp_main.c:88-98 | Every delivered voltage in numbers: less than one unit of each scaling step below 2500 mV in 4096 steps times the channel's divider, voltage 6 against 1.5 times voltage 5, voltage 7 against 8250 mV |
| `SerialProtocol.LowByteFirst` | drivers/msp430/adc/msp_adc.c:42-44 | The low byte of each word comes first |
| `SerialProtocol.ChannelsAreSeparate` | drivers/msp430/msp_main.c:183-193 | A word decides its own voltage, rising with it, and no other, except that voltage 6 falls with word 5 |
| `Crc32.Crc32` | u-boot/tools/crc32lib.c:128-153 | The unrolled table loop equals the bit-at-a-time CRC-32 of section 8 of RFC 1952 for every start value and string |
| `Crc32.CheckValue` | u-boot/tools/crc32lib.c:134-153 | The checksum of the digits 1 to 9 is the standard's check value 0xcbf43926 |
| `Crc32.TableIsRight` | u-boot/tools/crc32lib.c:71-124 | Every entry of the built-in table is eight bit steps of its index |
| `Crc32.MakeCrcTable` | u-boot/tools/crc32lib.c:45-66 | The generating code makes exactly the built-in table |
| `Crc32.MakePoly` | u-boot/tools/crc32lib.c:50-56 | The exponents give the pattern 0xedb88320 |
| `Crc32.Do1IsFeed` | u-boot/tools/crc32lib.c:128 | One table step takes in the eight bits of a byte |
| `Crc32.Do8IsRegister` | u-boot/tools/crc32lib.c:129-131 | The unrolled step takes in eight bytes in order |
| `Crc32.StepsAreLinear` | u-boot/tools/crc32lib.c:25-43 | Any number of bit steps is linear |
| `Crc32.ChecksumOfAppend` | u-boot/tools/crc32lib.c:143-152 | crc32(crc32(c, a), b) == crc32(c, a + b) |
| `Crc32.RegisterIsInjective` | u-boot/tools/crc32lib.c:143-151 | The same bytes take different registers to different ones |
| `Crc32.RegisterOfWord` | u-boot/tools/crc32lib.c:143-151 | Up to four bytes can be taken in as one word |
| `Crc32.BurstsAreDetected` | u-boot/tools/crc32lib.c:134-153 | A change within four bytes in a row always changes the checksum |
| `Environment.RoundTrip` | u-boot/tools/readenv.c:5-17 | Listing a block made from a text gives the text (with a final newline); a name gives the value of the first line for it; padding, filler and checksum play no part |
| `Environment.MakeAndRead` | u-boot/tools/makeenv.c:82-100 | Making a block and reading it with the other tool gives the text, or the value of the first line for a name with exit code 0, or nothing with exit code 1 if there is none |
| `Environment.LoadBlock` | u-boot/tools/makeenv.c:43-66 | The buffered line loop writes the lines up to the first bad one, each with its NUL, then the end mark if there was none, and nothing else |
| `Environment.MakeBlock` | u-boot/tools/makeenv.c:82-100 | The block is the checksum of the area, the area, and 0xff filler |
| `Environment.Padding` | u-boot/tools/makeenv.c:92-98 | The area is zero after its strings, and the block 0xff after the area |
| `Environment.LoadSucceeds` | u-boot/tools/makeenv.c:46-64 | Loading succeeds if and only if every line has an = and alone fits the buffer and the area |
| `Environment.FirstBadLine` | u-boot/tools/makeenv.c:49-60 | A failing load reports the first fault of the first bad line and keeps the lines before it |
| `Environment.RoomNeeded` | u-boot/tools/makeenv.c:59-65 | How much room a text takes |
| `Environment.RoomIsNotChecked` | u-boot/tools/makeenv.c:59-63 | Success does not imply that all lines fit: a concrete text that overflows the area |
| `Environment.NextLine` | u-boot/tools/makeenv.c:46-54 | What a buffer's worth of input says about the next line, including the too long one |
| `Environment.LinesEnded` | u-boot/tools/makeenv.c:46-64 | Splitting into lines loses nothing but the last newline |
| `Environment.ReadEnv` | u-boot/tools/readenv.c:19-72 | For every input the character machine prints the listing, or the value with exit code 0, or nothing with exit code 1 if and only if there is none |
| `Environment.MatchNext` | u-boot/tools/readenv.c:60-69 | How one character changes whether a string can still match |
| `Environment.ListingOfArea` | u-boot/tools/readenv.c:36-58 | Listing the strings of an area gives their lines |
| `Environment.LookupOfArea` | u-boot/tools/readenv.c:41-69 | Looking up a name in an area gives the first line's value |
| `Environment.FirstValueIsFirst` | u-boot/tools/readenv.c:12-16 | The value is that of the first line starting with the name and =, and is missing exactly when there is no such line |
| `Environment.StoredChecksum` | u-boot/tools/makeenv.c:97 | The stored bytes give the checksum back |
| `Environment.ChangesAreNoticed` | u-boot/tools/makeenv.c:96-98 | A change of up to four bytes in a row of the area no longer fits the stored checksum |
| `Rings.PutEnqueues` | drivers/libera/libera_event.h:52-65 | A put appends, or changes nothing exactly when N - 1 entries are in the ring |
| `Rings.GetDequeues` | drivers/libera/libera_event.h:67-78 | A get removes the oldest entry and hands out its slot |
| `Rings.HandedOutSlotIsStable` | drivers/libera/libera_event.h:52-78 | No number of puts overwrites the slot last handed out |
| `Rings.Fifo.Put` | drivers/libera/libera_event.h:211-224 | In place, as specified; -1 if and only if full |
| `Rings.Fifo.Get` | drivers/libera/libera_event.h:226-237 | In place, as specified; no slot if and only if empty |
| `Rings.WriteToPipe` | drivers/libera/libera_sa.h:88-139 | A pipe write as specified, including the write that drops its last atom |
| `Rings.PipeWriteIsComplete` | drivers/libera/libera_sa.h:54-58 | Everything is written if and only if it fits the 63 usable slots; a write is refused if and only if it exceeds 64; one reaching exactly 64 loses its last atom |
| `Rings.SingleWriteNeverFaults` | drivers/libera/ebpp.c:929-937 | The driver's one-atom writes never report a fault: an overflow goes unnoticed |
| `SaPipes.Device.RegisterPipe` | drivers/libera/libera_sa.c:47-73 | The pipe takes a free slot, no live pipe loses its own, the count and the next free slot stay right; the result is always -1 |
| `SaPipes.Device.UnregisterPipe` | drivers/libera/libera_sa.c:82-105 | Frees exactly the pipe's slot; asked for no pipe it breaks the count if and only if a slot is free |
| `SaPipes.Device.Open` | drivers/libera/libera_sa.c:116-181 | At most sixteen pipes, each open file with its own; refusals change nothing |
| `SaPipes.Device.Release` | drivers/libera/libera_sa.c:192-226 | The file's pipe, and no other, stops being live |
| `SaPipes.OccupiedUpdate` | drivers/libera/libera_sa.c:55-56 | Changing one slot changes the number of occupied slots as registered is changed |
| `SaPipes.FullIffNoneFree` | drivers/libera/libera_sa.c:59-68 | The search for a free slot fails exactly when all are occupied |
| `TriggerVectors.EventDevice.Enable` | drivers/libera/libera_event.c:363-414 | Refuses an empty vector, bit 31, and any trigger enabled for anyone; otherwise the file owns the new bits, ownership stays exclusive, and the FIFOs of the running sums are flushed |
| `TriggerVectors.FlushEnabled` | drivers/libera/libera_event.c:372-385 | The loop that is to flush the FIFOs of the new triggers flushes those numbered by the running sums of their numbers |
| `TriggerVectors.FlushIsRight` | drivers/libera/libera_event.c:372-385 | These are the new triggers' FIFOs if and only if there is at most one trigger, or two of which one is trigger 0 |
| `TriggerVectors.FlushHitsCtime` | drivers/libera/libera_event.c:372-385 | Enabling triggers 1 and 3 flushes the FIFO by which the time is read |
| `TriggerVectors.FlushInRange` | drivers/libera/libera_event.c:372-385 | Only existing FIFOs are flushed if and only if the numbers of the new triggers come to less than 11 |
| `TriggerVectors.FlushPastLast` | drivers/libera/libera_event.c:372-385 | Enabling triggers 5 and 6 flushes a FIFO past the last one |
| `TriggerVectors.EventDevice.Release` | drivers/libera/libera_event.c:162-204 | A read-only file gives back exactly its own triggers, any other file's stay enabled for good; the writer's close empties the event queue and clears the mask |
| `TriggerVectors.EventDevice.Open` | drivers/libera/libera_event.c:103-153 | One writer at a time, for whom the event queue is emptied; a new file owns nothing |
| `TriggerVectors.EventDevice.TrigEnable` | drivers/libera/libera_event.c:65-95 | The hardware mask is the device's vector and the self-increment bit |
| `TriggerVectors.StartUpTriggers` | drivers/libera/libera_main.c:1614-1623 | The triggers enabled at start-up are 4, 7 and 8, and all are dispatched |
| `TriggerVectors.EventDevice.OneReader` | drivers/libera/libera_event.c:43-57 | A trigger is readable by one open file at most, never by one if the driver needs it |
| `TriggerVectors.EventDevice.OwnerMayRead` | drivers/libera/libera_event.c:43-57 | An owner may read each trigger it owns |

## Left out

- DmaPipeline.Driver.TransferObFifo: ends at a first launch for no atoms, because what the controller then does is hardware, and says nothing of a request made while an aborted one's transfer is still in flight. The OB FIFO's size is taken as 8 bits wide and HZ as 100, as configured for this device.
- DmaPipeline.Driver.FirstLaunch: likewise starts from an idle controller.
- DmaPipeline.Driver.BeginTransfer: likewise starts from an idle controller.
- Ctime.CtimeDevice.GetCtime: says nothing of what is returned once a call has begun with 4095 calls cut short, as LosePairing shows that the halves may then differ; the mutex around calls is taken as given, and the flush of the FIFOs by other files is left out.
- Timestamps.TimingModule.Handle: does not model which FIFO a dispatched trigger ends in, apart from the SET and GET trigger pairs in SetTime, as that adds only a table; status words are sets of their one-bits.
- SetTime.EventDevice.TriggerPair: takes the two halves of a trigger one after the other; triggers so close that a second system half overwrites the first in the open pair are not modelled, nor is the effect of a PLL offset set for debugging.
- SetTime.RestartTime: takes the PLL offset in force to be below 2^32, as every one the driver computes is.
- SetTime.PhaseIsKept: is about one settings state; that off_all does not wrap is stated as its condition.
- EventSchedule.ExactlyOnce: takes one wrap-around and one helper interrupt per epoch in turn and an event time that does not change meanwhile; the driver's first event time is two epochs, so the first epoch does not matter to it.
- DdReads.GapFree: assumes that times do not leave the 64-bit range and do not lie before the start of the history buffer; the system time shown next to a position, the size limit of a request and its division into atoms are not modelled.
- Waits.Wait: one method for both functions, with the ratio of the two clocks as a parameter; the sleep is an arbitrary time and may end early.
- SerialProtocol.MspTransfer: assumes that the slave's main loop runs between exchanges, as the driver's delays intend, and that the first conversion after a reset is over before the next transfer.
- Environment.LoadBlock: asks that what it writes fits, which the code does not check, and that the text holds no NUL. A host whose unsigned long has 32 bits and is little endian is assumed for the checksum.
- Environment.MakeBlock: asks for the same, because the source writes past the area otherwise; RoomNeeded says how much room that is.
- Environment.ReadEnv: usage errors and the write system call are left out.
- TriggerVectors.EventDevice.Enable: tells which FIFOs are flushed and does not change them.
- SaPipes.Device.Open: the master file pointer and the reading side of a pipe are left out.
- The circular buffer between the two halves of the slow-acquisition interrupt, whose delivery depends on how they are scheduled.
- Configuration parameters, interlock, post-mortem acquisition, ADC and fast-acquisition access, ioctl argument checks, register addresses, module start and exit: they are I/O or leave no state to reason about.
- Loading the microcontroller's program, padding and comparing binaries, shell scripts and kernel patches: easy members or no logic in the repository.
- Debug-only code.

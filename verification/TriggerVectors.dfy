/** Which open file owns which triggers of the event device (drivers/libera/libera_event.c).
  * The device keeps one vector of triggers for the system clock's timing module and one for
  * the machine clock's, and treats them alike; this is the story of either of them. Vectors
  * are sets of the numbers of their one-bits. */
module TriggerVectors {
  import opened Timestamps

  const T_TRIG_CTIME: nat := 4
  const T_TRIG_POST_MORTEM: nat := 7
  const T_TRIG_TRIGGER: nat := 8

  /** The number of FIFOs. */
  const TRIG_EVENTS_MAX: nat := 11

  /** The triggers the driver enables when it starts. */
  const START_UP: Word :=
    {TRIG_LSB + T_TRIG_CTIME, TRIG_LSB + T_TRIG_TRIGGER, TRIG_LSB + T_TRIG_POST_MORTEM}

  datatype Code = Done | Invalid | Busy

  /** What an open file keeps for itself. */
  class EventLocal {
    const canRead: bool
    const canWrite: bool
    var vec: Word

    constructor (canRead: bool, canWrite: bool)
      ensures this.canRead == canRead && this.canWrite == canWrite && vec == {}
    {
      this.canRead, this.canWrite, vec := canRead, canWrite, {};
    }
  }

  class EventDevice {
    var vec: Word
    var hwMask: Word
    var writers: int
    var masterFile: EventLocal?

    // What is queued for user programs, and what they want to be told.
    var events: seq<nat>
    var eventMask: Word

    // The open files; the file each trigger belongs to; the triggers whose files were closed
    // without giving them back.
    ghost var files: set<EventLocal>
    ghost var owner: map<nat, EventLocal>
    ghost var left: Word

    /** Every enabled trigger is enabled for the driver, for the one open file that owns it, or
      * for a file that was closed. */
    ghost predicate Valid()
      reads this, files
    {
      && (forall b <- owner :: owner[b] in files && b in owner[b].vec)
      && (forall f, b | f in files && b in f.vec :: b in owner && owner[b] == f)
      && vec == START_UP + owner.Keys + left
      && START_UP !! owner.Keys && START_UP !! left && owner.Keys !! left
      && SELF_INC !in vec && hwMask == vec + {SELF_INC}
    }

    /** At most one file is open for writing. */
    ghost predicate OneWriter()
      reads this
    {
      && writers == (if masterFile == null then 0 else 1)
      && (masterFile != null ==> masterFile in files && masterFile.canWrite)
      && (forall f <- files :: f.canWrite ==> f == masterFile)
    }

    constructor ()
      ensures Valid() && OneWriter() && files == {} && left == {}
    {
      vec, hwMask := START_UP, START_UP + {SELF_INC};
      writers, masterFile := 0, null;
      events, eventMask := [], {};
      files, owner, left := {}, map[], {};
    }

    method Open(canRead: bool, canWrite: bool) returns (code: Code, file: EventLocal)
      requires Valid() && OneWriter()
      modifies this
      ensures Valid() && OneWriter()
      ensures code == if canWrite && old(masterFile) != null then Busy else Done
      ensures fresh(file) && file.canRead == canRead && file.canWrite == canWrite && file.vec == {}
      ensures files == if code == Done then old(files) + {file} else old(files)
      ensures vec == old(vec) && left == old(left) && eventMask == old(eventMask)
      ensures events == if code == Done && canWrite then [] else old(events)
    {
      file := new EventLocal(canRead, canWrite);
      if canWrite {
        if masterFile != null {
          return Busy, file;
        }
        masterFile := file;
        events := [];
        writers := writers + 1;
      }
      files := files + {file};
      return Done, file;
    }

    /** Enables triggers for the device and in the hardware. */
    method TrigEnable(mask: Word) returns (ok: bool)
      modifies this`vec, this`hwMask
      ensures ok <==> 31 !in mask
      ensures vec == if ok then old(vec) + mask else old(vec)
      ensures hwMask == if ok then vec + {SELF_INC} else old(hwMask)
    {
      if SELF_INC in mask {
        return false;
      }
      vec := vec + mask;
      hwMask := vec + {SELF_INC};
      return true;
    }

    /** Enables triggers for a file, all of them or none, and only if they are enabled for
      * nobody yet, and flushes what it takes for their FIFOs. */
    method Enable(file: EventLocal, arg: Word) returns (code: Code, flushed: seq<nat>)
      requires Valid() && file in files
      modifies this`vec, this`hwMask, this`owner, file`vec
      ensures Valid()
      ensures code == if arg == {} || 31 in arg then Invalid
                      else if arg * old(vec) != {} then Busy
                      else Done
      ensures file.vec == if code == Done then old(file.vec) + arg else old(file.vec)
      ensures code == Done ==> forall t: nat :: 22 + t in arg ==> MayRead(file, t)
      ensures vec == if code == Done then old(vec) + arg else old(vec)
      ensures flushed == if code == Done then Sums(0, Set(arg, 0)) else []
    {
      hide Set, Sums;
      if arg == {} || SELF_INC in arg {
        return Invalid, [];
      }
      if arg * vec != {} {
        return Busy, [];
      }
      forall b | b in arg
        ensures b !in vec
      {
        assert b in vec ==> b in arg * vec;
      }
      file.vec := file.vec + arg;
      owner := owner + map b | b in arg :: file;
      assert file.vec <= vec + arg;
      flushed := FlushEnabled(arg);
      var ok := TrigEnable(file.vec);
      code := Done;
    }

    /** The test that lets a file wait for a trigger. */
    predicate MayRead(file: EventLocal, trigger: nat)
      reads file
    {
      TRIG_LSB + trigger in file.vec
    }

    /** The owner of triggers may read each of them. */
    lemma OwnerMayRead(b: nat)
      requires Valid() && b in owner && b >= 22
      ensures MayRead(owner[b], b - 22)
    {
    }

    /** A trigger is read by one file at most, and never by one if the driver needs it. */
    lemma OneReader(f: EventLocal, g: EventLocal, trigger: nat)
      requires Valid() && f in files && g in files
      requires MayRead(f, trigger) && MayRead(g, trigger)
      ensures f == g && trigger !in {4, 7, 8}
    {
      assert TRIG_LSB + trigger in owner.Keys;
    }

    /** Forgets a file, taking back its triggers if it is open for reading only. */
    method GiveBack(file: EventLocal)
      requires Valid() && file in files
      modifies this`vec, this`hwMask, this`owner, this`left, this`files
      ensures Valid() && files == old(files) - {file}
      ensures if file.canRead && !file.canWrite then vec == old(vec) - file.vec && left == old(left)
              else vec == old(vec) && left == old(left) + file.vec
    {
      if file.canRead && !file.canWrite {
        vec := vec - file.vec;
        hwMask := vec + {SELF_INC};
      } else {
        left := left + file.vec;
      }
      owner := map b | b in owner && owner[b] != file :: owner[b];
      files := files - {file};
    }

    /** Closes a file. A file open for reading only gives back exactly its own triggers; any
      * other file's stay enabled for good. */
    method Release(file: EventLocal)
      requires Valid() && OneWriter() && file in files
      modifies this
      ensures Valid() && OneWriter()
      ensures files == old(files) - {file}
      ensures if file.canRead && !file.canWrite then vec == old(vec) - file.vec && left == old(left)
              else vec == old(vec) && left == old(left) + file.vec
      ensures if file.canWrite then events == [] && eventMask == {}
              else events == old(events) && eventMask == old(eventMask)
    {
      GiveBack(file);
      if file.canWrite {
        writers := writers - 1;
        if writers == 0 {
          masterFile := null;
          eventMask := {};
          events := [];
        }
      }
    }
  }

  /** The triggers enabled at start-up are the three the driver needs, and all are dispatched. */
  lemma StartUpTriggers()
    ensures START_UP == {26, 29, 30} && Set(START_UP, 0) == [4, 7, 8]
  {
    NoneBelow(START_UP, 4);
    assert Set(START_UP, 8) == [8] + Set(START_UP, 9);
    assert Set(START_UP, 7) == [7] + Set(START_UP, 8);
    assert Set(START_UP, 5) == Set(START_UP, 6) == Set(START_UP, 7);
    assert Set(START_UP, 4) == [4] + Set(START_UP, 5);
  }

  // ---------- Which FIFOs are flushed ----------

  /** Running sums, from i on. */
  function Sums(i: nat, ts: seq<nat>): (sums: seq<nat>)
    ensures |sums| == |ts|
    decreases |ts|
  {
    if ts == [] then [] else [i + ts[0]] + Sums(i + ts[0], ts[1..])
  }

  /** The loop that is to flush the FIFOs of all triggers in a mask. For each trigger it starts
    * over with the lowest bit, but goes on counting: the numbers of the FIFOs flushed are the
    * running sums of the triggers' numbers. */
  method FlushEnabled(arg0: Word) returns (flushed: seq<nat>)
    ensures flushed == Sums(0, Set(arg0, 0))
  {
    hide Set, Sums, TrigVector;
    var arg, i := arg0, 0;
    flushed := [];
    while TrigVector(arg) != {}
      invariant flushed + Sums(i, Set(arg, 0)) == Sums(0, Set(arg0, 0))
      decreases |Set(arg, 0)|
    {
      var m: nat;
      ghost var start := i;
      i, m := CountOn(arg, i);
      SumsStep(start, arg, m - TRIG_LSB);
      assert flushed + ([i] + Sums(i, Set(arg - {m}, 0))) == flushed + [i] + Sums(i, Set(arg - {m}, 0));
      flushed := flushed + [i];
      arg := arg - {m};
    }
    NoneLeft(arg, 0);
    NoSums(i);
  }

  /** Goes to the lowest trigger of a mask, counting. */
  method CountOn(arg: Word, i0: nat) returns (i: nat, m: nat)
    requires TrigVector(arg) != {}
    ensures TRIG_LSB <= m < TRIG_LSB + TRIGGERS && m in arg && i == i0 + (m - TRIG_LSB)
    ensures forall b :: TRIG_LSB <= b < m ==> b !in arg
  {
    i, m := i0, TRIG_LSB;
    ghost var next :| next in TrigVector(arg);
    while m !in arg
      invariant TRIG_LSB <= m <= next && i == i0 + (m - TRIG_LSB)
      invariant forall b :: TRIG_LSB <= b < m ==> b !in arg
      decreases next - m
    {
      i, m := i + 1, m + 1;
    }
  }

  lemma SumsStep(start: nat, arg: Word, t: nat)
    requires t < TRIGGERS && TRIG_LSB + t in arg && forall b :: TRIG_LSB <= b < TRIG_LSB + t ==> b !in arg
    ensures var rest := Set(arg - {TRIG_LSB + t}, 0);
            Set(arg, 0) == [t] + rest && Sums(start, Set(arg, 0)) == [start + t] + Sums(start + t, rest)
  {
    hide Set;
    NoneBelow(arg, t);
    NoneBelow(arg - {TRIG_LSB + t}, t);
    TakeBit(arg, t);
    var rest := Set(arg - {TRIG_LSB + t}, 0);
    assert ([t] + rest)[1..] == rest;
  }

  /** Bits that are not set can be skipped. */
  lemma {:induction false} NoneBelow(tl: Word, t: nat)
    requires t <= TRIGGERS && forall b :: TRIG_LSB <= b < TRIG_LSB + t ==> b !in tl
    ensures Set(tl, 0) == Set(tl, t)
  {
    if t > 0 {
      NoneBelow(tl, t - 1);
      assert TRIG_LSB + (t - 1) !in tl;
    }
  }

  /** The FIFOs flushed are those of the triggers in the mask if and only if it has at most one
    * trigger, or two of which one is trigger 0. */
  lemma FlushIsRight(arg: Word)
    ensures Sums(0, Set(arg, 0)) == Set(arg, 0)
            <==> |Set(arg, 0)| <= 1 || (|Set(arg, 0)| == 2 && TRIG_LSB in arg)
  {
    hide Set, Sums;
    var ts := Set(arg, 0);
    SetIsExact(arg, 0);
    assert TRIG_LSB + 0 in arg <==> 0 in ts;
    if ts != [] {
      assert ts[0] in ts && (0 in ts ==> ts[0] == 0);
      SumAt(0, ts, 0);
    }
    if |ts| >= 2 {
      SumAt(0, ts, 1);
    }
    if |ts| >= 3 {
      SumAt(0, ts, 2);
    }
  }

  lemma NoSums(i: nat)
    ensures Sums(i, []) == []
  {
  }

  /** Each sum is the one before and the trigger's number. */
  lemma {:induction false} SumAt(i: nat, ts: seq<nat>, k: nat)
    requires k < |ts|
    ensures Sums(i, ts)[k] == (if k == 0 then i else Sums(i, ts)[k - 1]) + ts[k]
    decreases k
  {
    if k > 0 {
      SumAt(i + ts[0], ts[1..], k - 1);
    }
  }

  function Total(ts: seq<nat>): nat {
    if ts == [] then 0 else ts[0] + Total(ts[1..])
  }

  predicate AllBelow(s: seq<nat>, limit: nat) {
    forall k :: 0 <= k < |s| ==> s[k] < limit
  }

  lemma AllBelowCons(x: nat, s: seq<nat>, limit: nat)
    ensures AllBelow([x] + s, limit) <==> x < limit && AllBelow(s, limit)
  {
    var t := [x] + s;
    assert t[0] == x;
    assert forall k :: 0 <= k < |s| ==> s[k] == t[k + 1];
  }

  lemma {:induction false} SumsBelow(i: nat, ts: seq<nat>, limit: nat)
    requires i < limit
    ensures AllBelow(Sums(i, ts), limit) <==> i + Total(ts) < limit
    decreases |ts|
  {
    if ts != [] {
      AllBelowCons(i + ts[0], Sums(i + ts[0], ts[1..]), limit);
      if i + ts[0] < limit {
        SumsBelow(i + ts[0], ts[1..], limit);
      }
    }
  }

  /** Only FIFOs that exist are flushed if and only if the numbers of the triggers in the mask
    * come to less than the number of FIFOs. */
  lemma FlushInRange(arg: Word)
    ensures AllBelow(Sums(0, Set(arg, 0)), TRIG_EVENTS_MAX) <==> Total(Set(arg, 0)) < 11
  {
    SumsBelow(0, Set(arg, 0), TRIG_EVENTS_MAX);
  }

  /** Enabling triggers 5 and 6 together flushes a FIFO past the last one. */
  lemma FlushPastLast()
    ensures var ts := Set({TRIG_LSB + 5, TRIG_LSB + 6}, 0);
            ts == [5, 6] && Sums(0, ts) == [5, 11]
  {
    var tl: Word := {TRIG_LSB + 5, TRIG_LSB + 6};
    SumAt(0, [5, 6], 0);
    SumAt(0, [5, 6], 1);
    NoneBelow(tl, 5);
    assert Set(tl, 7) == [] by {
      SetIsExact(tl, 7);
    }
    assert Set(tl, 6) == [6];
    assert Set(tl, 5) == [5] + Set(tl, 6);
  }

  /** Enabling triggers 1 and 3 together leaves FIFO 3 as it is and flushes that of the
    * triggers by which the time is read, which belongs to the driver. */
  lemma FlushHitsCtime()
    ensures var ts := Set({TRIG_LSB + 1, TRIG_LSB + 3}, 0);
            ts == [1, 3] && Sums(0, ts) == [1, 4] && T_TRIG_CTIME == 4
  {
    SumAt(0, [1, 3], 0);
    SumAt(0, [1, 3], 1);
    assert Set({TRIG_LSB + 1, TRIG_LSB + 3}, 4) == [] by {
      SetIsExact({TRIG_LSB + 1, TRIG_LSB + 3}, 4);
    }
  }
}

/** The driver's index rings (drivers/libera/libera_event.h, libera_sa.h): a ring of n slots
  * holds at most n - 1 entries, the slot of the get index being the one last handed out. */
module Rings {
  import opened Words

  /** The index after i; the source masks with n - 1, its ring sizes being powers of two. */
  function Next(i: nat, n: nat): (j: nat)
    requires i < n
    ensures j < n && j == (i + 1) % n
  {
    if i + 1 == n then 0 else i + 1
  }

  datatype Ring<T> = Ring(slots: seq<T>, put: nat, get: nat) {

    predicate Valid() {
      put < |slots| && get < |slots|
    }

    function Len(): (len: nat)
      requires Valid()
      ensures len < |slots|
    {
      if get <= put then put - get else put + |slots| - get
    }

    /** The slot of entry number k. */
    function Slot(k: nat): (i: nat)
      requires Valid() && k < Len()
      ensures i < |slots|
    {
      if get + 1 + k < |slots| then get + 1 + k else get + 1 + k - |slots|
    }

    /** The bounded queue the ring stands for. */
    function Contents(): (q: seq<T>)
      requires Valid()
      ensures |q| == Len()
    {
      seq(Len(), k requires 0 <= k < Len() => slots[Slot(k)])
    }

    predicate Full()
      requires Valid()
    {
      Len() == |slots| - 1
    }

    /** Stores an entry, unless the ring is full. */
    function Put(x: T): (r: Ring<T>)
      requires Valid()
      ensures r.Valid() && |r.slots| == |slots| && r.get == get
    {
      var index := Next(put, |slots|);
      if index == get then this else Ring(slots[index := x], index, get)
    }

    /** Hands out the slot of the oldest entry. */
    function Get(): (r: Ring<T>)
      requires Valid()
      ensures r.Valid() && r.slots == slots && r.put == put
    {
      if put == get then this else Ring(slots, put, Next(get, |slots|))
    }

    /** The ring after any number of puts. */
    function PutAll(xs: seq<T>): (r: Ring<T>)
      requires Valid()
      ensures r.Valid() && |r.slots| == |slots| && r.get == get
      decreases xs
    {
      if xs == [] then this else Put(xs[0]).PutAll(xs[1..])
    }
  }

  /** A put appends to the queue, or leaves the ring alone exactly when it is full. */
  lemma PutEnqueues<T>(r: Ring<T>, x: T)
    requires r.Valid()
    ensures r.Full() ==> r.Put(x) == r
    ensures !r.Full() ==> r.Put(x).Contents() == r.Contents() + [x]
  {
  }

  /** A get removes the oldest entry and hands out the slot that holds it. */
  lemma GetDequeues<T>(r: Ring<T>)
    requires r.Valid()
    ensures r.Len() == 0 ==> r.Get() == r
    ensures r.Len() > 0 ==> r.Contents() == [r.slots[r.Get().get]] + r.Get().Contents()
  {
  }

  /** No number of puts disturbs the slot last handed out, and what the puts add are their
    * first entries, as many as there was room for. */
  lemma {:induction false} HandedOutSlotIsStable<T>(r: Ring<T>, xs: seq<T>)
    requires r.Valid()
    ensures r.PutAll(xs).slots[r.get] == r.slots[r.get]
    ensures var room := |r.slots| - 1 - r.Len();
            r.PutAll(xs).Contents() == r.Contents() + xs[..if |xs| <= room then |xs| else room]
    decreases xs
  {
    if xs != [] {
      var room := |r.slots| - 1 - r.Len();
      PutEnqueues(r, xs[0]);
      HandedOutSlotIsStable(r.Put(xs[0]), xs[1..]);
      if room > 0 {
        var n := if |xs| <= room then |xs| else room;
        assert [xs[0]] + xs[1..][..n - 1] == xs[..n];
      }
    }
  }

  /** A ring with its slots updated in place. */
  class Fifo<T(0)> {
    const slots: array<T>
    var put: nat
    var get: nat

    ghost function State(): Ring<T>
      reads this, slots
    {
      Ring(slots[..], put, get)
    }

    ghost predicate Valid()
      reads this
    {
      put < slots.Length && get < slots.Length
    }

    constructor (size: nat)
      requires size > 0
      ensures Valid() && slots.Length == size && fresh(slots) && State().Contents() == []
    {
      slots := new T[size];
      put, get := 0, 0;
    }

    method Flush()
      requires Valid()
      modifies this
      ensures Valid() && State().Contents() == [] && slots[..] == old(slots[..])
    {
      put, get := 0, 0;
    }

    method Len() returns (n: nat)
      requires Valid()
      ensures n == |State().Contents()|
    {
      if get <= put {
        ModIs(put + slots.Length - get, slots.Length, 1, put - get);
      } else {
        ModIs(put + slots.Length - get, slots.Length, 0, put + slots.Length - get);
      }
      n := (put + slots.Length - get) % slots.Length;
    }

    /** Returns -1, with nothing changed, if and only if the ring is full. */
    method Put(x: T) returns (r: int)
      requires Valid()
      modifies this`put, slots
      ensures Valid() && State() == old(State()).Put(x)
      ensures r == if old(State()).Full() then -1 else 0
    {
      var index := Next(put, slots.Length);
      if index == get {
        r := -1;
      } else {
        slots[index] := x;
        put := index;
        r := 0;
      }
    }

    /** Returns the slot of the oldest entry, or -1 if and only if the ring is empty. */
    method Get() returns (slot: int)
      requires Valid()
      modifies this`get
      ensures Valid() && State() == old(State()).Get()
      ensures slot == if old(State()).Len() == 0 then -1 else get
      ensures slot >= 0 ==> old(State()).Contents() == [slots[slot]] + State().Contents()
    {
      GetDequeues(State());
      if put == get {
        slot := -1;
      } else {
        get := Next(get, slots.Length);
        slot := get;
      }
    }
  }

  // ---------- Writing to a slow-acquisition pipe (libera_sa.h) ----------

  const SA_LOG: nat := 64

  datatype PipeResult = Written(atoms: nat) | PipeFault

  /** The pipe and the result after writing some atoms. */
  function PipeWrite<T>(r: Ring<T>, atoms: seq<T>): (w: (Ring<T>, PipeResult))
    requires r.Valid() && |r.slots| == SA_LOG
  {
    if |atoms| > SA_LOG - r.Len() then (r, PipeFault) else
    (r.PutAll(atoms), Written(if |atoms| <= SA_LOG - 1 - r.Len() then |atoms| else SA_LOG - 1 - r.Len()))
  }

  /** Writes atoms to a pipe of 64 slots. The check for room counts one slot too many: a
    * write that fits it but not the ring drops its last atom and reports one less. */
  method WriteToPipe<T(0)>(pipe: Fifo<T>, atoms: seq<T>) returns (result: PipeResult)
    requires pipe.Valid() && pipe.slots.Length == SA_LOG
    modifies pipe, pipe.slots
    ensures pipe.Valid() && (pipe.State(), result) == PipeWrite(old(pipe.State()), atoms)
  {
    var len := pipe.Len();
    if SA_LOG - len < |atoms| {
      return PipeFault;
    }
    ghost var before := pipe.State();
    HandedOutSlotIsStable(before, atoms);
    for i := 0 to |atoms|
      invariant pipe.Valid() && pipe.State() == before.PutAll(atoms[..i])
      invariant i <= SA_LOG - 1 - before.Len()
    {
      HandedOutSlotIsStable(before, atoms[..i]);
      PutAllSplits(before, atoms[..i], atoms[i]);
      assert atoms[..i + 1] == atoms[..i] + [atoms[i]];
      var r := pipe.Put(atoms[i]);
      if r != 0 {
        assert i == |atoms| - 1 && atoms[..i + 1] == atoms;
        return Written(i);
      }
    }
    assert atoms[..|atoms|] == atoms;
    return Written(|atoms|);
  }

  lemma {:induction false} PutAllSplits<T>(r: Ring<T>, xs: seq<T>, x: T)
    requires r.Valid()
    ensures r.PutAll(xs + [x]) == r.PutAll(xs).Put(x)
    decreases xs
  {
    if xs == [] {
      assert xs + [x] == [x];
    } else {
      assert (xs + [x])[1..] == xs[1..] + [x];
      PutAllSplits(r.Put(xs[0]), xs[1..], x);
    }
  }

  /** A write puts everything into the pipe exactly when a slot would still be free. */
  lemma PipeWriteIsComplete<T>(r: Ring<T>, atoms: seq<T>)
    requires r.Valid() && |r.slots| == SA_LOG
    ensures PipeWrite(r, atoms).0.Contents() == r.Contents() + atoms
            <==> r.Len() + |atoms| <= 63
    ensures PipeWrite(r, atoms).1 == PipeFault <==> r.Len() + |atoms| > 64
    ensures r.Len() + |atoms| <= 63 ==> PipeWrite(r, atoms).1 == Written(|atoms|)
    ensures r.Len() + |atoms| == 64 ==>
              atoms != [] && PipeWrite(r, atoms).1 == Written(|atoms| - 1)
              && PipeWrite(r, atoms).0.Contents() == r.Contents() + atoms[..|atoms| - 1]
  {
    HandedOutSlotIsStable(r, atoms);
    var room := SA_LOG - 1 - r.Len();
    if |atoms| <= room {
      assert atoms[..|atoms|] == atoms;
    } else if |atoms| <= room + 1 {
      assert |r.Contents() + atoms[..room]| < |r.Contents() + atoms|;
    } else {
      assert |r.Contents()| < |r.Contents() + atoms|;
    }
  }

  /** The driver writes single atoms. Such a write never reports a fault, so an overflow of
    * a pipe goes unnoticed: it shows only as a write of nothing. */
  lemma SingleWriteNeverFaults<T>(r: Ring<T>, atom: T)
    requires r.Valid() && |r.slots| == SA_LOG
    ensures !PipeWrite(r, [atom]).1.PipeFault?
    ensures PipeWrite(r, [atom]).1 == Written(0) <==> r.Full()
  {
  }
}

/** The slow acquisition device's reader pipes (drivers/libera/libera_sa.c): each open file
  * has a pipe in one of sixteen slots. A pipe stands here for its address. */
module SaPipes {

  const MAX_READERS: nat := 16
  const NULL: nat := 0

  /** How many slots hold a pipe. */
  function Occupied(slots: seq<nat>): (n: nat)
    ensures n <= |slots|
  {
    if slots == [] then 0
    else Occupied(slots[1..]) + (if slots[0] == NULL then 0 else 1)
  }

  lemma {:induction false} OccupiedUpdate(slots: seq<nat>, i: nat, pipe: nat)
    requires i < |slots|
    ensures Occupied(slots[i := pipe]) + (if slots[i] == NULL then 0 else 1)
            == Occupied(slots) + (if pipe == NULL then 0 else 1)
  {
    if i > 0 {
      OccupiedUpdate(slots[1..], i - 1, pipe);
      assert slots[i := pipe][1..] == slots[1..][i - 1 := pipe];
    } else {
      assert slots[0 := pipe][1..] == slots[1..];
    }
  }

  lemma {:induction false} FullIffNoneFree(slots: seq<nat>)
    ensures Occupied(slots) == |slots| <==> NULL !in slots
  {
    if slots != [] {
      FullIffNoneFree(slots[1..]);
      assert slots == [slots[0]] + slots[1..];
    }
  }

  lemma Stored(slots: seq<nat>, i: nat, pipe: nat, p: nat)
    requires i < |slots| && slots[i] == NULL && pipe != NULL && p != NULL
    ensures p in slots[i := pipe] <==> p in slots || p == pipe
  {
    assert slots[i := pipe][i] == pipe;
    if p in slots {
      var k :| 0 <= k < |slots| && slots[k] == p;
      assert slots[i := pipe][k] == p;
    }
  }

  lemma Freed(slots: seq<nat>, i: nat, p: nat)
    requires i < |slots| && p != NULL
    requires forall j, k :: 0 <= j < k < |slots| && slots[j] == slots[k] ==> slots[j] == NULL
    ensures p in slots[i := NULL] <==> p in slots && p != slots[i]
  {
    if p in slots && p != slots[i] {
      var k :| 0 <= k < |slots| && slots[k] == p;
      assert slots[i := NULL][k] == p;
    }
  }

  datatype OpenResult = Opened | NotPermitted | NoMemory | Busy

  class Device {
    const slots: array<nat>
    var registered: int
    var next: nat
    var readers: int
    var openCount: int

    /** The count is right, no pipe has two slots, and while a slot is free, next names a free
      * one. */
    ghost predicate Valid()
      reads this, slots
    {
      && slots.Length == MAX_READERS
      && registered == Occupied(slots[..])
      && (forall i, j :: 0 <= i < j < MAX_READERS && slots[i] == slots[j] ==> slots[i] == NULL)
      && (registered < MAX_READERS ==> next < MAX_READERS && slots[next] == NULL)
    }

    /** Whether a pipe gets the data of the device. */
    ghost predicate Live(pipe: nat)
      reads slots
    {
      pipe != NULL && pipe in slots[..]
    }

    /** Every open file has its pipe, and there are no other pipes. */
    ghost predicate Balanced()
      reads this, slots
    {
      Valid() && readers == openCount == registered
    }

    constructor ()
      ensures Balanced() && fresh(slots) && forall pipe :: !Live(pipe)
    {
      slots := new nat[MAX_READERS](_ => NULL);
      registered, next, readers, openCount := 0, 0, 0, 0;
      new;
      NoneOccupied(slots[..]);
    }

    /** Gives a pipe the slot next names and finds the next free slot. No live pipe loses its
      * slot. The result is the error code whatever happens. */
    method RegisterPipe(pipe: nat) returns (r: int)
      requires Valid() && registered < MAX_READERS
      requires pipe != NULL && !Live(pipe)
      modifies this`registered, this`next, slots
      ensures Valid() && registered == old(registered) + 1
      ensures forall p :: Live(p) <==> old(Live(p)) || p == pipe
      ensures r == -1
    {
      var occupied := 1;
      OccupiedUpdate(slots[..], next, pipe);
      ghost var before := slots[..];
      slots[next] := pipe;
      assert slots[..] == before[next := pipe];
      registered := registered + 1;
      forall p | p != NULL
        ensures Live(p) <==> old(Live(p)) || p == pipe
      {
        Stored(before, next, pipe, p);
      }
      FullIffNoneFree(slots[..]);
      for i := 0 to MAX_READERS
        invariant slots[..] == before[old(next) := pipe] && next == old(next)
        invariant forall k :: 0 <= k < i ==> slots[k] != NULL
      {
        if slots[i] == NULL {
          next := i;
          occupied := 1;
          break;
        }
      }
      return if occupied != 0 then -1 else 0;
    }

    /** Frees the slot of a pipe. Asked to free no pipe at all, it takes a free slot for that
      * pipe's: the state then stays consistent exactly if no slot is free. */
    method UnregisterPipe(pipe: nat) returns (r: int)
      requires Valid()
      modifies this`registered, this`next, slots
      ensures Valid() <==> pipe != NULL || old(registered) == MAX_READERS
      ensures r == if pipe in old(slots[..]) then 0 else -1
      ensures registered == old(registered) - (if r == 0 then 1 else 0)
      ensures forall p :: Live(p) <==> old(Live(p)) && p != pipe
    {
      var i := 0;
      var found := false;
      while i < MAX_READERS
        invariant i <= MAX_READERS && !found
        invariant forall k :: 0 <= k < i ==> slots[k] != pipe
      {
        if slots[i] == pipe {
          found := true;
          break;
        }
        i := i + 1;
      }
      FullIffNoneFree(slots[..]);
      if !found {
        return -1;
      }
      OccupiedUpdate(slots[..], i, NULL);
      ghost var before := slots[..];
      registered := registered - 1;
      slots[i] := NULL;
      assert slots[..] == before[i := NULL];
      forall p | p != NULL
        ensures Live(p) <==> old(Live(p)) && p != pipe
      {
        Freed(before, i, p);
      }
      next := i;
      return 0;
    }

    /** Opens the device, given the address the allocator returns, if any: an address of no
      * live pipe. At most sixteen files are open at a time. */
    method Open(write: bool, pipe: nat) returns (r: OpenResult)
      requires Balanced() && !Live(pipe)
      modifies this, slots
      ensures Balanced()
      ensures r == if write then NotPermitted
                   else if old(registered) == 16 then Busy
                   else if pipe == NULL then NoMemory
                   else Opened
      ensures r == Opened ==> registered == old(registered) + 1
                              && forall p :: Live(p) <==> old(Live(p)) || p == pipe
      ensures r != Opened ==> registered == old(registered) && slots[..] == old(slots[..])
    {
      if write {
        return NotPermitted;
      }
      if registered < MAX_READERS {
        if pipe == NULL {
          return NoMemory;
        }
        var code := RegisterPipe(pipe);
      } else {
        return Busy;
      }
      readers := readers + 1;
      openCount := openCount + 1;
      return Opened;
    }

    /** Closes a file: its pipe, and no other, stops being live. */
    method Release(pipe: nat)
      requires Balanced() && Live(pipe)
      modifies this, slots
      ensures Balanced() && registered == old(registered) - 1
      ensures forall p :: Live(p) <==> old(Live(p)) && p != pipe
    {
      var code := UnregisterPipe(pipe);
      openCount := openCount - 1;
      readers := readers - 1;
    }
  }

  lemma NoneOccupied(slots: seq<nat>)
    requires forall i :: 0 <= i < |slots| ==> slots[i] == NULL
    ensures Occupied(slots) == 0
  {
  }
}

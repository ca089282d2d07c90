/** The device driver as the allocator sees it: which allocation handles are live, what is mapped where,
    and which mappings may be accessed.  Every call may fail; a failing call changes nothing. */
module Device {
  import opened ChunkPlan

  type Handle = nat
  type Address = nat
  type Status = int

  const NO_ERROR: Status := 0

  datatype Region = Region(size: nat, handle: Handle, accessible: bool)

  type Maps = map<Address, Region>

  /** Live handles with their sizes, and mappings by start address. */
  datatype State = State(live: map<Handle, nat>, maps: Maps)

  /** Give access to all that is mapped from `address` on, for `size` bytes. */
  function Grant(maps: Maps, address: Address, size: nat): Maps {
    map a | a in maps :: if address <= a < address + size then maps[a].(accessible := true) else maps[a]
  }

  datatype Call =
    | Create(handle: Handle, size: nat)
    | Map(address: Address, size: nat, handle: Handle)
    | Unmap(address: Address, size: nat)
    | Release(handle: Handle)
    | SetAccess(address: Address, size: nat)

  datatype Event = Event(call: Call, status: Status)

  function Effect(s: State, e: Event): State {
    if e.status != NO_ERROR then s
    else match e.call
      case Create(handle, size) => s.(live := s.live[handle := size])
      case Map(address, size, handle) => s.(maps := s.maps[address := Region(size, handle, false)])
      case Unmap(address, _) => s.(maps := s.maps - {address})
      case Release(handle) => s.(live := s.live - {handle})
      case SetAccess(address, size) => s.(maps := Grant(s.maps, address, size))
  }

  function Replay(s: State, events: seq<Event>): State {
    if events == [] then s
    else Effect(Replay(s, events[..|events| - 1]), events[|events| - 1])
  }

  lemma {:induction false} ReplayConcat(s: State, a: seq<Event>, b: seq<Event>)
    ensures Replay(s, a + b) == Replay(Replay(s, a), b)
  {
    if b == [] {
      assert a + b == a;
    } else {
      assert (a + b)[..|a + b| - 1] == a + b[..|b| - 1];
      ReplayConcat(s, a, b[..|b| - 1]);
    }
  }

  lemma FreshHandleExists(live: set<Handle>)
    ensures exists h: Handle :: h !in live
  {
    if live != {} {
      var top := Largest(live);
      assert top + 1 !in live;
    } else {
      assert 0 !in live;
    }
  }

  lemma {:induction false} Largest(s: set<nat>) returns (top: nat)
    requires s != {}
    ensures forall x | x in s :: x <= top
  {
    var x :| x in s;
    if s == {x} {
      top := x;
    } else {
      var rest := Largest(s - {x});
      top := if rest < x then x else rest;
      assert forall y | y in s :: y == x || y in s - {x};
    }
  }

  /** The driver.  `trace` records every call with its status. */
  class Driver {
    var state: State
    ghost var trace: seq<Event>

    constructor ()
      ensures state == State(map[], map[]) && trace == []
    {
      state, trace := State(map[], map[]), [];
    }

    /** cuMemCreate */
    method Create(size: nat) returns (status: Status, handle: Handle)
      modifies this
      ensures trace == old(trace) + [Event(Call.Create(handle, size), status)]
      ensures state == Effect(old(state), Event(Call.Create(handle, size), status))
      ensures status == NO_ERROR ==> handle !in old(state).live
    {
      FreshHandleExists(state.live.Keys);
      handle :| handle !in state.live;
      status := *;
      Record(Call.Create(handle, size), status);
    }

    /** cuMemMap: succeeds only where nothing is mapped. */
    method Map(address: Address, size: nat, handle: Handle) returns (status: Status)
      modifies this
      ensures trace == old(trace) + [Event(Call.Map(address, size, handle), status)]
      ensures state == Effect(old(state), Event(Call.Map(address, size, handle), status))
      ensures status == NO_ERROR ==> address !in old(state).maps
    {
      status := *;
      if address in state.maps {
        status := 1;
      }
      Record(Call.Map(address, size, handle), status);
    }

    /** cuMemUnmap */
    method Unmap(address: Address, size: nat) returns (status: Status)
      modifies this
      ensures trace == old(trace) + [Event(Call.Unmap(address, size), status)]
      ensures state == Effect(old(state), Event(Call.Unmap(address, size), status))
    {
      status := *;
      Record(Call.Unmap(address, size), status);
    }

    /** cuMemRelease */
    method Release(handle: Handle) returns (status: Status)
      modifies this
      ensures trace == old(trace) + [Event(Call.Release(handle), status)]
      ensures state == Effect(old(state), Event(Call.Release(handle), status))
    {
      status := *;
      Record(Call.Release(handle), status);
    }

    /** cuMemSetAccess */
    method SetAccess(address: Address, size: nat) returns (status: Status)
      modifies this
      ensures trace == old(trace) + [Event(Call.SetAccess(address, size), status)]
      ensures state == Effect(old(state), Event(Call.SetAccess(address, size), status))
    {
      status := *;
      Record(Call.SetAccess(address, size), status);
    }

    method Record(call: Call, status: Status)
      modifies this
      ensures trace == old(trace) + [Event(call, status)]
      ensures state == Effect(old(state), Event(call, status))
    {
      state := Effect(state, Event(call, status));
      trace := trace + [Event(call, status)];
    }
  }
}

/** The chunked sleep-mode allocator on ROCm, csrc/cumem_allocator.cpp: creating, mapping, unmapping
    and releasing the chunks of one allocation against a driver whose calls may fail.

    `errorCode` is the global latch that CUDA_CHECK sets and only the Python entry points clear.
    Addresses and sizes are natural numbers, so `d_mem + allocated_size` does not wrap. */
module Allocator {
  import opened Wrappers
  import opened ChunkPlan
  import opened Device

  // ----- what a run of driver calls did

  /** The earliest failing status, or NO_ERROR. */
  function FirstFailure(events: seq<Event>): Status {
    if events == [] then NO_ERROR
    else
      var earlier := FirstFailure(events[..|events| - 1]);
      if earlier != NO_ERROR then earlier else events[|events| - 1].status
  }

  function UnmappedBy(events: seq<Event>): set<Address> {
    set e | e in events && e.call.Unmap? && e.status == NO_ERROR :: e.call.address
  }

  function ReleasedBy(events: seq<Event>): set<Handle> {
    set e | e in events && e.call.Release? && e.status == NO_ERROR :: e.call.handle
  }

  /** No call that gives memory back failed. */
  predicate CleanupSucceeds(events: seq<Event>) {
    forall e | e in events :: e.call.Unmap? || e.call.Release? ==> e.status == NO_ERROR
  }

  /** One unmap per chunk, in order. */
  predicate AreUnmaps(events: seq<Event>, at: seq<Address>, chunks: seq<nat>)
    requires |at| == |chunks|
  {
    |events| == |at| && forall i | 0 <= i < |at| :: events[i].call == Unmap(at[i], chunks[i])
  }

  /** One release per handle, in order. */
  predicate AreReleases(events: seq<Event>, handles: seq<Handle>) {
    |events| == |handles| && forall i | 0 <= i < |handles| :: events[i].call == Release(handles[i])
  }

  lemma {:induction false} ReplayGivesBack(s: State, events: seq<Event>)
    requires forall e | e in events :: e.call.Unmap? || e.call.Release?
    ensures Replay(s, events) == State(s.live - ReleasedBy(events), s.maps - UnmappedBy(events))
  {
    if events != [] {
      var init, last := events[..|events| - 1], events[|events| - 1];
      assert events == init + [last];
      ReplayGivesBack(s, init);
      assert ReleasedBy(events) == ReleasedBy(init) + ReleasedBy([last]);
      assert UnmappedBy(events) == UnmappedBy(init) + UnmappedBy([last]);
      GivesBackOne(State(s.live - ReleasedBy(init), s.maps - UnmappedBy(init)), last);
      RemoveTwice(s.live, ReleasedBy(init), ReleasedBy([last]));
      RemoveTwice(s.maps, UnmappedBy(init), UnmappedBy([last]));
    }
  }

  lemma GivesBackOne(s: State, e: Event)
    requires e.call.Unmap? || e.call.Release?
    ensures Effect(s, e) == State(s.live - ReleasedBy([e]), s.maps - UnmappedBy([e]))
  {
    assert [e][0] == e;
    assert ReleasedBy([e]) == if e.call.Release? && e.status == NO_ERROR then {e.call.handle} else {};
    assert UnmappedBy([e]) == if e.call.Unmap? && e.status == NO_ERROR then {e.call.address} else {};
    assert s.live - {} == s.live && s.maps - {} == s.maps;
  }

  lemma RemoveTwice<K, V>(m: map<K, V>, a: set<K>, b: set<K>)
    ensures m - a - b == m - (a + b)
  {}

  /** What was added is removed again. */
  lemma RemoveAdded<K, V>(m: map<K, V>, n: map<K, V>, keys: set<K>)
    requires n.Keys == keys && keys !! m.Keys
    ensures m + n - keys == m
  {}

  // ----- mapped chunks

  /** The running map address of every chunk. */
  function MapAddresses(dMem: Address, chunks: seq<nat>): (at: seq<Address>)
    ensures |at| == |chunks|
  {
    seq(|chunks|, i requires 0 <= i < |chunks| => dMem + Offset(chunks, i))
  }

  function Regions(at: seq<Address>, handles: seq<Handle>, chunks: seq<nat>): map<Address, Region>
    requires |at| == |handles| == |chunks|
  {
    if at == [] then map[]
    else
      var n := |at| - 1;
      Regions(at[..n], handles[..n], chunks[..n])[at[n] := Region(chunks[n], handles[n], false)]
  }

  /** One handle per chunk, of its size. */
  function Sizes(handles: seq<Handle>, chunks: seq<nat>): map<Handle, nat>
    requires |handles| == |chunks|
  {
    if handles == [] then map[]
    else
      var n := |handles| - 1;
      Sizes(handles[..n], chunks[..n])[handles[n] := chunks[n]]
  }

  lemma {:induction false} SizesKeys(handles: seq<Handle>, chunks: seq<nat>)
    requires |handles| == |chunks|
    ensures Sizes(handles, chunks).Keys == Elements(handles)
  {
    if handles != [] {
      var n := |handles| - 1;
      SizesKeys(handles[..n], chunks[..n]);
      assert handles == handles[..n] + [handles[n]];
    }
  }

  function Elements<T>(s: seq<T>): set<T> {
    set x | x in s
  }

  lemma {:induction false} RegionsKeys(at: seq<Address>, handles: seq<Handle>, chunks: seq<nat>)
    requires |at| == |handles| == |chunks|
    ensures Regions(at, handles, chunks).Keys == Elements(at)
  {
    if at != [] {
      var n := |at| - 1;
      RegionsKeys(at[..n], handles[..n], chunks[..n]);
      assert at == at[..n] + [at[n]];
    }
  }

  /** The device with one more allocation: every chunk has its own handle and is mapped. */
  function WithAllocation(s: State, at: seq<Address>, handles: seq<Handle>, chunks: seq<nat>): State
    requires |at| == |handles| == |chunks|
  {
    State(s.live + Sizes(handles, chunks), s.maps + Regions(at, handles, chunks))
  }

  predicate Distinct<T(==)>(s: seq<T>) {
    forall i, j | 0 <= i < j < |s| :: s[i] != s[j]
  }

  /** Giving back, when every call succeeds, restores the device, also if only the first chunks were
      mapped. */
  lemma GiveBackRestores(
    s: State, at: seq<Address>, handles: seq<Handle>, chunks: seq<nat>, unmaps: seq<Event>, releases: seq<Event>)
    requires |at| <= |handles| == |chunks|
    requires Elements(handles) !! s.live.Keys && Elements(at) !! s.maps.Keys
    requires AreUnmaps(unmaps, at, chunks[..|at|]) && AreReleases(releases, handles)
    requires CleanupSucceeds(unmaps + releases)
    ensures Replay(PartlyMapped(s, at, handles, chunks), unmaps + releases) == s
  {
    var n := |at|;
    var regions, sizes := Regions(at, handles[..n], chunks[..n]), Sizes(handles, chunks);
    UnmapsCover(at, handles, chunks[..n], unmaps, releases);
    ReleasesCover(at, handles, chunks[..n], unmaps, releases);
    RegionsKeys(at, handles[..n], chunks[..n]);
    SizesKeys(handles, chunks);
    ReplayGivesBack(State(s.live + sizes, s.maps + regions), unmaps + releases);
    RemoveAdded(s.maps, regions, Elements(at));
    RemoveAdded(s.live, sizes, Elements(handles));
  }

  /** The device with all handles created and the first chunks mapped. */
  function PartlyMapped(s: State, at: seq<Address>, handles: seq<Handle>, chunks: seq<nat>): State
    requires |at| <= |handles| == |chunks|
  {
    State(s.live + Sizes(handles, chunks), s.maps + Regions(at, handles[..|at|], chunks[..|at|]))
  }

  // ----- access

  /** The device with access to all that is mapped in the range. */
  function Granted(s: State, address: Address, size: nat): State {
    s.(maps := Grant(s.maps, address, size))
  }

  /** Giving back an allocation that was granted access leaves nothing but that access to what others
      have mapped in the range. */
  lemma GiveBackGranted(
    s: State, at: seq<Address>, handles: seq<Handle>, chunks: seq<nat>, address: Address, size: nat,
    unmaps: seq<Event>, releases: seq<Event>)
    requires |at| == |handles| == |chunks|
    requires Elements(handles) !! s.live.Keys && Elements(at) !! s.maps.Keys
    requires AreUnmaps(unmaps, at, chunks) && AreReleases(releases, handles)
    requires CleanupSucceeds(unmaps + releases)
    ensures Replay(Granted(WithAllocation(s, at, handles, chunks), address, size), unmaps + releases) ==
            Granted(s, address, size)
  {
    var with := WithAllocation(s, at, handles, chunks);
    UnmapsCover(at, handles, chunks, unmaps, releases);
    ReleasesCover(at, handles, chunks, unmaps, releases);
    RegionsKeys(at, handles, chunks);
    SizesKeys(handles, chunks);
    ReplayGivesBack(Granted(with, address, size), unmaps + releases);
    RemoveAdded(s.live, Sizes(handles, chunks), Elements(handles));
    GrantThenRemove(s.maps, Regions(at, handles, chunks), Elements(at), address, size);
  }

  lemma GrantThenRemove(maps: Maps, regions: Maps, keys: set<Address>, address: Address, size: nat)
    requires regions.Keys == keys && keys !! maps.Keys
    ensures Grant(maps + regions, address, size) - keys == Grant(maps, address, size)
  {}

  lemma GrantTwice(maps: Maps, address: Address, size: nat)
    ensures Grant(Grant(maps, address, size), address, size) == Grant(maps, address, size)
  {}

  /** Nobody else has a mapping in the range that may not be accessed yet. */
  predicate Undisturbed(s: State, address: Address, size: nat) {
    forall a | a in s.maps && address <= a < address + size :: s.maps[a].accessible
  }

  lemma GrantedExactly(s: State, address: Address, size: nat)
    ensures Granted(s, address, size) == s <==> Undisturbed(s, address, size)
  {
    if Granted(s, address, size) == s {
      forall a | a in s.maps && address <= a < address + size ensures s.maps[a].accessible {
        assert Grant(s.maps, address, size)[a].accessible;
      }
    }
    assert Undisturbed(s, address, size) ==> Grant(s.maps, address, size) == s.maps;
  }

  /** Every chunk that starts inside the granted range may be accessed afterwards; if the chunks make up
      the size and none is empty, that is all of them. */
  lemma ChunksAreAccessible(s: State, dMem: Address, handles: seq<Handle>, chunks: seq<nat>, size: nat, i: nat)
    requires i < |handles| == |chunks| && Sum(chunks) <= size && chunks[i] > 0
    ensures
      var at := MapAddresses(dMem, chunks);
      var now := Granted(WithAllocation(s, at, handles, chunks), dMem, size);
      at[i] in now.maps && now.maps[at[i]].accessible
  {
    var at := MapAddresses(dMem, chunks);
    RegionsKeys(at, handles, chunks);
    assert at[i] in Elements(at);
    OffsetStep(chunks, i);
    OffsetInSum(chunks, i + 1);
  }

  lemma {:induction false} OffsetInSum(chunks: seq<nat>, i: nat)
    requires i <= |chunks|
    ensures Offset(chunks, i) <= Sum(chunks)
    decreases |chunks| - i
  {
    if i == |chunks| {
      assert chunks[..i] == chunks;
    } else {
      OffsetStep(chunks, i);
      OffsetInSum(chunks, i + 1);
    }
  }

  lemma UnmapsCover(
    at: seq<Address>, handles: seq<Handle>, chunks: seq<nat>, unmaps: seq<Event>, releases: seq<Event>)
    requires |at| == |chunks| && CleanupSucceeds(unmaps + releases)
    requires AreUnmaps(unmaps, at, chunks) && AreReleases(releases, handles)
    ensures forall e | e in unmaps + releases :: e.call.Unmap? || e.call.Release?
    ensures UnmappedBy(unmaps + releases) == Elements(at)
  {
    var events := unmaps + releases;
    forall i | 0 <= i < |at| ensures at[i] in UnmappedBy(events) {
      assert events[i] == unmaps[i] && unmaps[i] in events;
    }
  }

  lemma ReleasesCover(
    at: seq<Address>, handles: seq<Handle>, chunks: seq<nat>, unmaps: seq<Event>, releases: seq<Event>)
    requires |at| == |chunks| && CleanupSucceeds(unmaps + releases)
    requires AreUnmaps(unmaps, at, chunks) && AreReleases(releases, handles)
    ensures ReleasedBy(unmaps + releases) == Elements(handles)
  {
    var events := unmaps + releases;
    forall i | 0 <= i < |handles| ensures handles[i] in ReleasedBy(events) {
      assert events[|at| + i] == releases[i] && releases[i] in events;
    }
  }

  lemma EventsStep(s: State, events: seq<Event>, e: Event)
    ensures Replay(s, events + [e]) == Effect(Replay(s, events), e)
    ensures FirstFailure(events + [e]) ==
            if FirstFailure(events) != NO_ERROR then FirstFailure(events) else e.status
  {
    assert (events + [e])[..|events|] == events;
  }

  lemma UnmapsSnoc(events: seq<Event>, at: seq<Address>, chunks: seq<nat>, i: nat, status: Status)
    requires i < |at| == |chunks| && AreUnmaps(events, at[..i], chunks[..i])
    ensures AreUnmaps(events + [Event(Unmap(at[i], chunks[i]), status)], at[..i + 1], chunks[..i + 1])
  {}

  lemma RegionsStep(at: seq<Address>, handles: seq<Handle>, chunks: seq<nat>, n: nat)
    requires n < |at| == |handles| == |chunks|
    ensures Regions(at[..n + 1], handles[..n + 1], chunks[..n + 1]) ==
            Regions(at[..n], handles[..n], chunks[..n])[at[n] := Region(chunks[n], handles[n], false)]
  {
    assert at[..n + 1][..n] == at[..n] && handles[..n + 1][..n] == handles[..n] && chunks[..n + 1][..n] == chunks[..n];
  }

  predicate SetsNoAccess(events: seq<Event>) {
    forall e | e in events :: !e.call.SetAccess?
  }

  /** What the calls answered leaves memory behind after an error: a handle was created under a latch that
      was already set, or setting the access rights failed on mapped chunks. */
  predicate LeavesMemory(context: Status, events: seq<Event>) {
    && events != []
    && if context != NO_ERROR then events[0].status == NO_ERROR
       else events[|events| - 1].call.SetAccess? && events[|events| - 1].status != NO_ERROR
  }

  class CumemAllocator {
    const driver: Driver
    var errorCode: Status

    constructor (driver: Driver)
      ensures this.driver == driver && errorCode == NO_ERROR
    {
      this.driver, errorCode := driver, NO_ERROR;
    }

    /** CUDA_CHECK */
    method Check(status: Status)
      modifies `errorCode
      ensures errorCode == if status != NO_ERROR then status else old(errorCode)
    {
      if status != NO_ERROR {
        errorCode := status;
      }
    }

    /** `ensure_context`: up to three context calls, each of which may set the latch. */
    method EnsureContext()
      modifies `errorCode
      ensures errorCode == NO_ERROR ==> old(errorCode) == NO_ERROR
      ensures errorCode == old(errorCode) || errorCode != NO_ERROR
    {
      var status: Status := *;
      Check(status);
      if * {
        status := *;
        Check(status);
        status := *;
        Check(status);
      }
    }

    /** Unmap the first `n` chunks, whatever the calls answer. */
    method UnmapChunks(dMem: Address, chunks: seq<nat>, n: nat) returns (firstError: Status, ghost events: seq<Event>)
      requires n <= |chunks|
      modifies driver
      ensures AreUnmaps(events, MapAddresses(dMem, chunks)[..n], chunks[..n])
      ensures firstError == FirstFailure(events)
      ensures driver.trace == old(driver.trace) + events && driver.state == Replay(old(driver.state), events)
    {
      var allocatedSize := 0;
      ghost var at := MapAddresses(dMem, chunks);
      firstError, events := NO_ERROR, [];
      for i := 0 to n
        invariant allocatedSize == Offset(chunks, i)
        invariant AreUnmaps(events, at[..i], chunks[..i])
        invariant firstError == FirstFailure(events)
        invariant driver.trace == old(driver.trace) + events && driver.state == Replay(old(driver.state), events)
      {
        assert at[i] == dMem + allocatedSize;
        var status := driver.Unmap(dMem + allocatedSize, chunks[i]);
        if status != NO_ERROR && firstError == NO_ERROR {
          firstError := status;
        }
        OffsetStep(chunks, i);
        UnmapsSnoc(events, at, chunks, i, status);
        EventsStep(old(driver.state), events, Event(Unmap(at[i], chunks[i]), status));
        events := events + [Event(Unmap(at[i], chunks[i]), status)];
        allocatedSize := allocatedSize + chunks[i];
      }
    }

    /** Release the first `n` handles, whatever the calls answer. */
    method ReleaseHandles(handles: array<Handle>, n: nat) returns (firstError: Status, ghost events: seq<Event>)
      requires n <= handles.Length
      modifies driver
      ensures AreReleases(events, handles[..n])
      ensures firstError == FirstFailure(events)
      ensures driver.trace == old(driver.trace) + events && driver.state == Replay(old(driver.state), events)
    {
      firstError, events := NO_ERROR, [];
      for i := 0 to n
        invariant AreReleases(events, handles[..i])
        invariant firstError == FirstFailure(events)
        invariant driver.trace == old(driver.trace) + events && driver.state == Replay(old(driver.state), events)
      {
        var status := driver.Release(handles[i]);
        if status != NO_ERROR && firstError == NO_ERROR {
          firstError := status;
        }
        EventsStep(old(driver.state), events, Event(Release(handles[i]), status));
        events := events + [Event(Release(handles[i]), status)];
      }
    }

    /** `unmap_and_release`: every chunk is unmapped and every handle released, in order and whatever
        fails; the latch ends up with the earliest failing status, else as the context left it. */
    method UnmapAndRelease(dMem: Address, handles: array<Handle>, chunks: seq<nat>)
      returns (ghost context: Status, ghost unmaps: seq<Event>, ghost releases: seq<Event>)
      requires handles.Length == |chunks|
      modifies `errorCode, driver
      ensures context == old(errorCode) || context != NO_ERROR
      ensures AreUnmaps(unmaps, MapAddresses(dMem, chunks), chunks) && AreReleases(releases, handles[..])
      ensures driver.trace == old(driver.trace) + unmaps + releases
      ensures driver.state == Replay(old(driver.state), unmaps + releases)
      ensures errorCode ==
              if FirstFailure(unmaps) != NO_ERROR then FirstFailure(unmaps)
              else if FirstFailure(releases) != NO_ERROR then FirstFailure(releases)
              else context
    {
      EnsureContext();
      context := errorCode;
      var firstError, status;
      firstError, unmaps := UnmapChunks(dMem, chunks, |chunks|);
      status, releases := ReleaseHandles(handles, handles.Length);
      if status != NO_ERROR && firstError == NO_ERROR {
        firstError := status;
      }
      if firstError != NO_ERROR {
        Check(firstError);
      }
      ReplayConcat(old(driver.state), unmaps, releases);
      assert MapAddresses(dMem, chunks)[..|chunks|] == MapAddresses(dMem, chunks) && chunks[..|chunks|] == chunks;
      assert handles[..handles.Length] == handles[..];
    }

    /** Undo what `done` records: unmap the first `m` chunks, release the first `n` handles, and
        ignore what the calls answer. */
    method Rollback(
      dMem: Address, handles: array<Handle>, n: nat, chunks: seq<nat>, m: nat, ghost before: State, ghost done: seq<Event>)
      returns (ghost cleanup: seq<Event>)
      requires m <= n <= handles.Length == |chunks|
      requires driver.state == Replay(before, done)
      modifies driver
      ensures driver.trace == old(driver.trace) + cleanup && driver.state == Replay(before, done + cleanup)
      ensures |cleanup| == m + n && SetsNoAccess(cleanup)
      ensures FirstFailure(done) != NO_ERROR ==> FirstFailure(done + cleanup) == FirstFailure(done)
      ensures
        var undoable := RollsBack(before, MapAddresses(dMem, chunks)[..m], handles[..n], chunks[..n], old(driver.state));
        undoable && CleanupSucceeds(done + cleanup) ==> driver.state == before
    {
      var ignored, unmaps := UnmapChunks(dMem, chunks, m);
      var alsoIgnored, releases := ReleaseHandles(handles, n);
      cleanup := unmaps + releases;
      ReplayConcat(old(driver.state), unmaps, releases);
      assert chunks[..n][..m] == chunks[..m];
      RollbackRestores(before, MapAddresses(dMem, chunks)[..m], handles[..n], chunks[..n], done, unmaps, releases);
    }

    /** First loop of `create_and_map`: one handle per chunk, or none. */
    method CreateHandles(handles: array<Handle>, chunks: seq<nat>) returns (ghost events: seq<Event>)
      requires handles.Length == |chunks|
      modifies `errorCode, driver, handles
      ensures driver.trace == old(driver.trace) + events && driver.state == Replay(old(driver.state), events)
      ensures chunks == [] ==> events == [] && errorCode == old(errorCode)
      ensures SetsNoAccess(events)
      ensures old(errorCode) == NO_ERROR ==> errorCode == FirstFailure(events)
      ensures old(errorCode) == NO_ERROR && errorCode == NO_ERROR ==>
        && Distinct(handles[..])
        && Elements(handles[..]) !! old(driver.state).live.Keys
        && driver.state == old(driver.state).(live := old(driver.state).live + Sizes(handles[..], chunks))
      ensures old(errorCode) == NO_ERROR && errorCode != NO_ERROR && CleanupSucceeds(events) ==>
        driver.state == old(driver.state)
      ensures old(errorCode) != NO_ERROR && chunks != [] ==>
        && errorCode != NO_ERROR
        && |events| == 1
        && events[0].call == Create(handles[0], chunks[0])
        && (events[0].status == NO_ERROR ==> handles[0] !in old(driver.state).live)
    {
      events := [];
      ghost var before := driver.state;
      for i := 0 to handles.Length
        invariant driver.trace == old(driver.trace) + events && driver.state == Replay(before, events)
        invariant errorCode == old(errorCode)
        invariant errorCode != NO_ERROR ==> i == 0
        invariant i == 0 ==> events == []
        invariant SetsNoAccess(events)
        invariant FirstFailure(events) == NO_ERROR
        invariant Distinct(handles[..i]) && Elements(handles[..i]) !! before.live.Keys
        invariant driver.state == before.(live := before.live + Sizes(handles[..i], chunks[..i]))
      {
        SizesKeys(handles[..i], chunks[..i]);
        var status, handle := driver.Create(chunks[i]);
        handles[i] := handle;
        ghost var created := Event(Create(handle, chunks[i]), status);
        EventsStep(before, events, created);
        events := events + [created];
        Check(status);
        if errorCode != NO_ERROR {
          ghost var cleanup := Rollback(0, handles, i, chunks, 0, before, events);
          events := events + cleanup;
          return;
        }
        assert handles[..i + 1] == handles[..i] + [handle] && chunks[..i + 1] == chunks[..i] + [chunks[i]];
        SizesStep(before.live, handles[..i], chunks[..i], handle, chunks[i]);
      }
      assert handles[..handles.Length] == handles[..] && chunks[..|chunks|] == chunks;
    }

    /** Body of the second loop: map chunk `i`, or undo everything. */
    method MapChunk(
      dMem: Address, allocatedSize: nat, handles: array<Handle>, chunks: seq<nat>, i: nat,
      ghost before: State, ghost done: seq<Event>)
      returns (ghost events: seq<Event>)
      requires i < handles.Length == |chunks| && errorCode == NO_ERROR && FirstFailure(done) == NO_ERROR
      requires dMem + allocatedSize == MapAddresses(dMem, chunks)[i] && driver.state == Replay(before, done)
      requires RollsBack(before, MapAddresses(dMem, chunks)[..i], handles[..], chunks, driver.state)
      modifies `errorCode, driver
      ensures driver.trace == old(driver.trace) + events && driver.state == Replay(before, done + events)
      ensures errorCode == FirstFailure(done + events) && SetsNoAccess(events)
      ensures errorCode == NO_ERROR ==>
        RollsBack(before, MapAddresses(dMem, chunks)[..i + 1], handles[..], chunks, driver.state)
      ensures errorCode != NO_ERROR && CleanupSucceeds(done + events) ==> driver.state == before
    {
      ghost var at, now := MapAddresses(dMem, chunks), driver.state;
      var status := driver.Map(dMem + allocatedSize, chunks[i], handles[i]);
      ghost var mapped := Event(Map(at[i], chunks[i], handles[i]), status);
      EventsStep(before, done, mapped);
      events := [mapped];
      Check(status);
      if errorCode != NO_ERROR {
        assert handles[..handles.Length] == handles[..] && chunks[..|chunks|] == chunks;
        ghost var cleanup := Rollback(dMem, handles, handles.Length, chunks, i, before, done + events);
        assert done + events + cleanup == done + (events + cleanup);
        events := events + cleanup;
      } else {
        MappedOneMore(before, at, handles[..], chunks, i, now);
      }
    }

    /** Second loop of `create_and_map`: all chunks mapped, or neither mapped nor created. */
    method MapChunks(
      dMem: Address, handles: array<Handle>, chunks: seq<nat>, ghost before: State, ghost done: seq<Event>)
      returns (ghost events: seq<Event>)
      requires handles.Length == |chunks| && errorCode == NO_ERROR && FirstFailure(done) == NO_ERROR
      requires driver.state == Replay(before, done)
      requires RollsBack(before, [], handles[..], chunks, driver.state)
      modifies `errorCode, driver
      ensures driver.trace == old(driver.trace) + events && driver.state == Replay(before, done + events)
      ensures errorCode == FirstFailure(done + events) && SetsNoAccess(events)
      ensures errorCode == NO_ERROR ==>
        && Elements(MapAddresses(dMem, chunks)) !! before.maps.Keys
        && driver.state == WithAllocation(before, MapAddresses(dMem, chunks), handles[..], chunks)
      ensures errorCode != NO_ERROR && CleanupSucceeds(done + events) ==> driver.state == before
    {
      var allocatedSize := 0;
      ghost var at := MapAddresses(dMem, chunks);
      events := [];
      assert handles[..][..0] == [] && done + [] == done;
      for i := 0 to |chunks|
        invariant errorCode == NO_ERROR && FirstFailure(done + events) == NO_ERROR && SetsNoAccess(events)
        invariant allocatedSize == Offset(chunks, i)
        invariant driver.trace == old(driver.trace) + events && driver.state == Replay(before, done + events)
        invariant RollsBack(before, at[..i], handles[..], chunks, driver.state)
      {
        assert at[i] == dMem + allocatedSize;
        ghost var more := MapChunk(dMem, allocatedSize, handles, chunks, i, before, done + events);
        assert done + events + more == done + (events + more);
        events := events + more;
        if errorCode != NO_ERROR {
          return;
        }
        OffsetStep(chunks, i);
        allocatedSize := allocatedSize + chunks[i];
      }
      assert at[..|chunks|] == at && chunks[..|chunks|] == chunks && handles[..][..|at|] == handles[..];
    }

    /** Both loops of `create_and_map`. */
    method CreateThenMap(dMem: Address, handles: array<Handle>, chunks: seq<nat>) returns (ghost events: seq<Event>)
      requires handles.Length == |chunks|
      modifies `errorCode, driver, handles
      ensures driver.trace == old(driver.trace) + events && driver.state == Replay(old(driver.state), events)
      ensures chunks == [] ==> events == [] && errorCode == old(errorCode)
      ensures SetsNoAccess(events)
      ensures old(errorCode) == NO_ERROR ==> errorCode == FirstFailure(events)
      ensures old(errorCode) == NO_ERROR && errorCode == NO_ERROR ==>
        Allocated(old(driver.state), MapAddresses(dMem, chunks), handles[..], chunks, driver.state)
      ensures old(errorCode) == NO_ERROR && errorCode != NO_ERROR && CleanupSucceeds(events) ==>
        driver.state == old(driver.state)
      ensures old(errorCode) != NO_ERROR && chunks != [] ==>
        && errorCode != NO_ERROR
        && |events| == 1
        && events[0].call == Create(handles[0], chunks[0])
        && (events[0].status == NO_ERROR ==> handles[0] !in old(driver.state).live)
    {
      ghost var before := driver.state;
      events := CreateHandles(handles, chunks);
      assert before.maps + map[] == before.maps && handles[..][..0] == [];
      if chunks == [] || errorCode != NO_ERROR {
        return;
      }
      ghost var maps := MapChunks(dMem, handles, chunks, before, events);
      events := events + maps;
    }

    /** `create_and_map`.  All or nothing, once the context left the latch clear and if no call that
        gives memory back fails: an error restores the device, unless it came from setting the access
        rights, which is not undone.  A latch that is already set stops the first loop after its first
        call, and a handle created by that call stays live.  Those two are the only ways in which an error
        changes the device. */
    method CreateAndMap(size: nat, dMem: Address, handles: array<Handle>, chunks: seq<nat>)
      returns (ghost context: Status, ghost events: seq<Event>)
      requires handles.Length == |chunks|
      modifies `errorCode, driver, handles
      ensures context == old(errorCode) || context != NO_ERROR
      ensures driver.trace == old(driver.trace) + events && driver.state == Replay(old(driver.state), events)
      ensures context == NO_ERROR ==> errorCode == FirstFailure(events)
      ensures context == NO_ERROR && errorCode == NO_ERROR ==>
        Ready(old(driver.state), dMem, size, handles[..], chunks, driver.state)
      ensures context == NO_ERROR && errorCode != NO_ERROR && CleanupSucceeds(events) ==>
        || driver.state == old(driver.state)
        || (&& events != []
            && events[|events| - 1] == Event(SetAccess(dMem, size), errorCode)
            && Allocated(old(driver.state), MapAddresses(dMem, chunks), handles[..], chunks, driver.state))
      ensures context != NO_ERROR ==> errorCode != NO_ERROR
      ensures context != NO_ERROR && chunks != [] ==>
        && |events| == 1
        && events[0].call == Create(handles[0], chunks[0])
        && (events[0].status == NO_ERROR ==> handles[0] !in old(driver.state).live)
      ensures chunks != [] && CleanupSucceeds(events) ==>
        ((errorCode != NO_ERROR ==> driver.state == old(driver.state)) <==> !LeavesMemory(context, events))
      ensures chunks == [] ==> |events| == 1 && events[0].call == SetAccess(dMem, size)
    {
      ghost var before := driver.state;
      EnsureContext();
      context := errorCode;
      events := CreateThenMap(dMem, handles, chunks);
      if chunks != [] && errorCode != NO_ERROR {
        assert events != [] ==> events[|events| - 1] in events;
        return;
      }
      var status := driver.SetAccess(dMem, size);
      EventsStep(before, events, Event(SetAccess(dMem, size), status));
      events := events + [Event(SetAccess(dMem, size), status)];
      Check(status);
      SizesKeys(handles[..], chunks);
      assert chunks != [] ==> handles[0] in Elements(handles[..]);
    }

    /** `python_create_and_map`: reports the latch and clears it. */
    method PythonCreateAndMap(size: nat, dMem: Address, handles: array<Handle>, chunks: seq<nat>)
      returns (r: Status, ghost context: Status, ghost events: seq<Event>)
      requires handles.Length == |chunks|
      modifies `errorCode, driver, handles
      ensures errorCode == NO_ERROR
      ensures driver.state == Replay(old(driver.state), events)
      ensures context == old(errorCode) || context != NO_ERROR
      ensures if context == NO_ERROR then r == FirstFailure(events) else r != NO_ERROR
      ensures r == NO_ERROR ==> Ready(old(driver.state), dMem, size, handles[..], chunks, driver.state)
      ensures chunks != [] && CleanupSucceeds(events) ==>
        ((r != NO_ERROR ==> driver.state == old(driver.state)) <==> !LeavesMemory(context, events))
      ensures chunks == [] ==> |events| == 1 && events[0].call == SetAccess(dMem, size)
    {
      context, events := CreateAndMap(size, dMem, handles, chunks);
      r := errorCode;
      if errorCode != NO_ERROR {
        errorCode := NO_ERROR;
      }
    }

    /** `python_unmap_and_release`: reports the latch and clears it. */
    method PythonUnmapAndRelease(dMem: Address, handles: array<Handle>, chunks: seq<nat>)
      returns (r: Status, ghost context: Status, ghost unmaps: seq<Event>, ghost releases: seq<Event>)
      requires handles.Length == |chunks|
      modifies `errorCode, driver
      ensures errorCode == NO_ERROR
      ensures context == old(errorCode) || context != NO_ERROR
      ensures AreUnmaps(unmaps, MapAddresses(dMem, chunks), chunks) && AreReleases(releases, handles[..])
      ensures driver.state == Replay(old(driver.state), unmaps + releases)
      ensures r == var first := FirstFailure(unmaps + releases); if first != NO_ERROR then first else context
    {
      context, unmaps, releases := UnmapAndRelease(dMem, handles, chunks);
      FirstFailureConcat(unmaps, releases);
      r := errorCode;
      if errorCode != NO_ERROR {
        errorCode := NO_ERROR;
      }
    }

    /** Waking up and going back to sleep, any number of times, restores the device.  Each round uses
        new handles, written into the same cells. */
    method WakeAndSleep(times: nat, size: nat, dMem: Address, handles: array<Handle>, chunks: seq<nat>)
      returns (r: Status)
      requires handles.Length == |chunks|
      modifies `errorCode, driver, handles
      ensures times > 0 ==> errorCode == NO_ERROR
      ensures r == NO_ERROR && times > 0 ==>
        && driver.state == Granted(old(driver.state), dMem, size)
        && (driver.state == old(driver.state) <==> Undisturbed(old(driver.state), dMem, size))
      ensures times == 0 ==> driver.state == old(driver.state)
    {
      r := NO_ERROR;
      ghost var before := driver.state;
      GrantedExactly(before, dMem, size);
      GrantTwice(before.maps, dMem, size);
      for k := 0 to times
        invariant k > 0 ==> errorCode == NO_ERROR
        invariant driver.state == if k == 0 then before else Granted(before, dMem, size)
      {
        ghost var now := driver.state;
        ghost var context, events, unmaps, releases;
        r, context, events := PythonCreateAndMap(size, dMem, handles, chunks);
        if r != NO_ERROR { return; }
        r, context, unmaps, releases := PythonUnmapAndRelease(dMem, handles, chunks);
        if r != NO_ERROR { return; }
        NoFailure(unmaps + releases);
        GiveBackGranted(now, MapAddresses(dMem, chunks), handles[..], chunks, dMem, size, unmaps, releases);
      }
    }
  }

  lemma SizesStep(live: map<Handle, nat>, handles: seq<Handle>, chunks: seq<nat>, handle: Handle, size: nat)
    requires |handles| == |chunks|
    ensures live + Sizes(handles + [handle], chunks + [size]) == (live + Sizes(handles, chunks))[handle := size]
  {
    assert (handles + [handle])[..|handles|] == handles && (chunks + [size])[..|chunks|] == chunks;
  }

  lemma {:induction false} NoFailure(events: seq<Event>)
    requires FirstFailure(events) == NO_ERROR
    ensures forall e | e in events :: e.status == NO_ERROR
  {
    if events != [] {
      NoFailure(events[..|events| - 1]);
      assert events == events[..|events| - 1] + [events[|events| - 1]];
    }
  }

  /** `now` is `s` plus one complete allocation on new handles at unmapped addresses. */
  predicate Allocated(s: State, at: seq<Address>, handles: seq<Handle>, chunks: seq<nat>, now: State) {
    && |at| == |handles| == |chunks|
    && Distinct(handles)
    && Elements(handles) !! s.live.Keys
    && Elements(at) !! s.maps.Keys
    && now == WithAllocation(s, at, handles, chunks)
  }

  /** `now` is `s` plus one complete allocation, with access to the whole range. */
  predicate Ready(s: State, dMem: Address, size: nat, handles: seq<Handle>, chunks: seq<nat>, now: State) {
    && |handles| == |chunks|
    && Distinct(handles)
    && Elements(handles) !! s.live.Keys
    && Elements(MapAddresses(dMem, chunks)) !! s.maps.Keys
    && now == Granted(WithAllocation(s, MapAddresses(dMem, chunks), handles, chunks), dMem, size)
  }

  lemma MappedOneMore(s: State, at: seq<Address>, handles: seq<Handle>, chunks: seq<nat>, i: nat, now: State)
    requires i < |at| == |handles| == |chunks|
    requires RollsBack(s, at[..i], handles, chunks, now) && at[i] !in now.maps
    ensures RollsBack(s, at[..i + 1], handles, chunks,
              Effect(now, Event(Map(at[i], chunks[i], handles[i]), NO_ERROR)))
  {
    assert at[..i + 1] == at[..i] + [at[i]];
    RegionsStep(at, handles, chunks, i);
    var regions := Regions(at[..i], handles[..i], chunks[..i]);
    var region := Region(chunks[i], handles[i], false);
    assert (s.maps + regions)[at[i] := region] == s.maps + regions[at[i] := region];
  }

  lemma {:induction false} FirstFailureConcat(a: seq<Event>, b: seq<Event>)
    ensures FirstFailure(a + b) == if FirstFailure(a) != NO_ERROR then FirstFailure(a) else FirstFailure(b)
  {
    if b == [] {
      assert a + b == a;
    } else {
      assert (a + b)[..|a + b| - 1] == a + b[..|b| - 1];
      FirstFailureConcat(a, b[..|b| - 1]);
    }
  }

  /** `now` is `s` with `handles` created and the chunks `at` mapped. */
  predicate RollsBack(s: State, at: seq<Address>, handles: seq<Handle>, chunks: seq<nat>, now: State) {
    && |at| <= |handles| == |chunks|
    && Elements(handles) !! s.live.Keys
    && Elements(at) !! s.maps.Keys
    && now == PartlyMapped(s, at, handles, chunks)
  }

  lemma RollbackRestores(
    s: State, at: seq<Address>, handles: seq<Handle>, chunks: seq<nat>,
    done: seq<Event>, unmaps: seq<Event>, releases: seq<Event>)
    requires |at| <= |handles| == |chunks| && AreUnmaps(unmaps, at, chunks[..|at|]) && AreReleases(releases, handles)
    ensures Replay(s, done + (unmaps + releases)) == Replay(Replay(s, done), unmaps + releases)
    ensures FirstFailure(done) != NO_ERROR ==> FirstFailure(done + (unmaps + releases)) == FirstFailure(done)
    ensures RollsBack(s, at, handles, chunks, Replay(s, done)) && CleanupSucceeds(done + (unmaps + releases)) ==>
            Replay(s, done + (unmaps + releases)) == s
  {
    var cleanup := unmaps + releases;
    ReplayConcat(s, done, cleanup);
    FirstFailureConcat(done, cleanup);
    if RollsBack(s, at, handles, chunks, Replay(s, done)) && CleanupSucceeds(done + cleanup) {
      assert forall e | e in cleanup :: e in done + cleanup;
      GiveBackRestores(s, at, handles, chunks, unmaps, releases);
    }
  }
}

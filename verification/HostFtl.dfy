// The host translation layer itself (host_ftl/src), and the three workers that
// share it in the stress program (main.rs).
module HostFtl {
  import opened Flash
  import opened HostFtlModel

  // The simulator as seen through the sockets.
  class Backend {
    var bytes: Bytes

    constructor (contents: Bytes)
      ensures bytes == contents
    {
      bytes := contents;
    }

    method Write(from: nat, data: Bytes, reply: nat) returns (errorCode: nat)
      modifies this
      ensures errorCode == 0 <==> reply == 0 && from + |data| <= |old(bytes)|
      ensures bytes == if errorCode == 0 then Overlay(old(bytes), from, data) else old(bytes)
    {
      if reply != 0 {
        errorCode := reply;
      } else if from + |data| > |bytes| {
        errorCode := 28;
      } else {
        bytes := Overlay(bytes, from, data);
        errorCode := 0;
      }
    }

    method Read(from: nat) returns (data: Bytes)
      requires PageFits(bytes, from)
      ensures data == PageAt(bytes, from)
    {
      data := bytes[from..from + PAGE_SIZE];
    }

    method ZoneReset(zone: nat, ok: bool, wiped: Bytes) returns (acknowledged: bool)
      requires (zone + 1) * ZONE_SIZE_BYTES <= |bytes| && |wiped| == ZONE_SIZE_BYTES
      modifies this
      ensures acknowledged == ok
      ensures bytes == if ok then Overlay(old(bytes), zone * ZONE_SIZE_BYTES, wiped) else old(bytes)
    {
      acknowledged := ok;
      if ok {
        bytes := Overlay(bytes, zone * ZONE_SIZE_BYTES, wiped);
      }
    }
  }

  class L2pTable {
    const table: array<Option<PhysicalAddress>>

    constructor ()
      ensures fresh(table) && table.Length == LOGICAL_PAGES && forall i :: 0 <= i < LOGICAL_PAGES ==> table[i] == None
    {
      table := new Option<PhysicalAddress>[LOGICAL_PAGES](_ => None);
    }

    method Get(logicalPageId: nat) returns (entry: Option<PhysicalAddress>)
      ensures entry == if logicalPageId < table.Length then table[logicalPageId] else None
    {
      entry := if logicalPageId < table.Length then table[logicalPageId] else None;
    }

    method Set(logicalPageId: nat, paddr: PhysicalAddress)
      modifies table
      ensures table[..] == if logicalPageId < table.Length then old(table[..])[logicalPageId := Some(paddr)]
          else old(table[..])
    {
      if logicalPageId < table.Length {
        table[logicalPageId] := Some(paddr);
      }
    }

    method InvalidateZone(zoneId: nat)
      modifies table
      ensures table[..] == Invalidated(old(table[..]), zoneId)
    {
      for i := 0 to table.Length
        invariant forall k :: 0 <= k < i ==> table[k] == Invalidated(old(table[..]), zoneId)[k]
        invariant forall k :: i <= k < table.Length ==> table[k] == old(table[k])
      {
        if table[i].Some? {
          if table[i].value.zoneId == zoneId {
            table[i] := None;
          }
        }
      }
    }
  }

  class HostManagedFtl {
    const netStream: Backend
    const zones: array<Zone>
    const l2pTable: L2pTable
    var currentWriteZone: nat

    ghost function Value(): State
      reads this, netStream, zones, l2pTable.table
    {
      State(zones[..], l2pTable.table[..], currentWriteZone, netStream.bytes)
    }

    ghost predicate Valid()
      reads this, netStream, zones, l2pTable.table
    {
      Sized(Value())
    }

    constructor (stream: Backend)
      requires |stream.bytes| == STORE_SIZE
      ensures netStream == stream && fresh(zones) && fresh(l2pTable) && fresh(l2pTable.table)
      ensures Valid() && Inv(Value()) && Represents(Value(), map[])
      ensures forall z :: 0 <= z < NUM_ZONES ==> zones[z].writePointer == 0
    {
      netStream := stream;
      zones := new Zone[NUM_ZONES](_ => Zone(0, false));
      l2pTable := new L2pTable();
      currentWriteZone := 0;
      new;
      StartsEmpty(Value());
    }

    method AppendToZone(zoneId: nat, data: Bytes, reply: nat) returns (ok: bool)
      requires Valid() && zoneId < NUM_ZONES
      modifies netStream, zones
      ensures Value() == Append(old(Value()), zoneId, data, reply)
      ensures ok == AppendSucceeds(old(Value()), zoneId, data, reply)
    {
      var zone := zones[zoneId];
      var globalOffset := zoneId * ZONE_SIZE_BYTES + zone.writePointer;
      var errorCode := netStream.Write(globalOffset, data, reply);
      if errorCode != 0 {
        return false;
      }
      zone := zone.(writePointer := zone.writePointer + |data|);
      if zone.writePointer >= ZONE_SIZE_BYTES {
        zone := zone.(isFull := true);
      }
      zones[zoneId] := zone;
      return true;
    }

    method ZoneReset(zoneId: nat, ok: bool, wiped: Bytes) returns (success: bool)
      requires Valid() && |wiped| == ZONE_SIZE_BYTES
      modifies netStream, zones, l2pTable.table
      ensures success == (zoneId < NUM_ZONES && ok)
      ensures Value() == if success then Reset(old(Value()), zoneId, wiped) else old(Value())
    {
      if zoneId >= NUM_ZONES {
        return false;
      }
      success := netStream.ZoneReset(zoneId, ok, wiped);
      if success {
        zones[zoneId] := zones[zoneId].(writePointer := 0);
        zones[zoneId] := zones[zoneId].(isFull := false);
        l2pTable.InvalidateZone(zoneId);
      }
    }

    method LogicalWrite(logicalPageId: nat, data: Bytes, replies: Replies) returns (result: Result)
      requires Valid() && |replies.wiped| == ZONE_SIZE_BYTES
      modifies this, netStream, zones, l2pTable.table
      ensures (Value(), result) == Write(old(Value()), logicalPageId, data, replies)
      ensures result.Ok? <==>
                logicalPageId < LOGICAL_PAGES && exists zone :: LandsIn(old(Value()), zone, data, replies)
    {
      WriteSucceedsIff(Value(), logicalPageId, data, replies);
      hide Overlay, Invalidated, LandsIn;
      if logicalPageId >= l2pTable.table.Length {
        return Err(InvalidInput);
      }
      var zoneId := currentWriteZone;
      while zones[zoneId].isFull
        invariant currentWriteZone <= zoneId < NUM_ZONES
        invariant FirstWritable(zones[..], zoneId) == FirstWritable(zones[..], currentWriteZone)
        decreases NUM_ZONES - zoneId
      {
        zoneId := zoneId + 1;
        if zoneId >= NUM_ZONES {
          return Err(StorageFull);
        }
      }
      currentWriteZone := zoneId;
      var pageOffset := zones[zoneId].writePointer / PAGE_SIZE;
      var accepted := AppendToZone(zoneId, data, replies.first);
      if !accepted {
        var reset := ZoneReset(zoneId, replies.resetOk, replies.wiped);
        if !reset {
          return Err(Refused);
        }
        accepted := AppendToZone(zoneId, data, replies.second);
        if !accepted {
          return Err(Refused);
        }
      }
      l2pTable.Set(logicalPageId, PhysicalAddress(zoneId, pageOffset));
      return Ok(data);
    }

    method LogicalRead(logicalPageId: nat) returns (result: Result)
      requires Valid() && Readable(Value(), logicalPageId)
      ensures result == if logicalPageId < LOGICAL_PAGES then Ok(Content(Value(), logicalPageId)) else Err(InvalidInput)
      ensures logicalPageId < LOGICAL_PAGES ==> result.Ok? && |result.buffer| == PAGE_SIZE
      ensures logicalPageId < LOGICAL_PAGES && l2pTable.table[logicalPageId].None? ==>
                forall i :: 0 <= i < PAGE_SIZE ==> result.buffer[i] == 0
      ensures logicalPageId < LOGICAL_PAGES && l2pTable.table[logicalPageId].Some? ==>
                var a := l2pTable.table[logicalPageId].value;
                forall i :: 0 <= i < PAGE_SIZE ==>
                  result.buffer[i] == netStream.bytes[a.zoneId * ZONE_SIZE_BYTES + a.pageOffset * PAGE_SIZE + i]
    {
      if logicalPageId >= l2pTable.table.Length {
        return Err(InvalidInput);
      }
      var paddr := l2pTable.Get(logicalPageId);
      if paddr.None? {
        return Ok(seq(PAGE_SIZE, _ => 0));
      }
      var globalOffset := paddr.value.zoneId * ZONE_SIZE_BYTES + paddr.value.pageOffset * PAGE_SIZE;
      var readData := netStream.Read(globalOffset);
      return Ok(readData);
    }
  }
}

// Three threads, each with the lock held for one write or one read at a time.
module StressTest {
  import opened Flash
  import opened HostFtlModel
  import opened HostFtl

  const WORKERS := 3

  datatype Worker = Worker(pageIdx: nat, verifying: bool, failed: bool)

  function WriteBuffer(workerId: nat): Bytes
    requires workerId < WORKERS
  {
    seq(PAGE_SIZE, _ => (workerId + 1) as Byte)
  }

  function TargetLba(workerId: nat, pageIdx: nat): nat {
    workerId * 100 + pageIdx
  }

  // Pages a worker has written so far.
  function Written(worker: Worker): nat {
    worker.pageIdx + (if worker.verifying then 1 else 0)
  }

  predicate Finished(worker: Worker) {
    worker.failed || worker.pageIdx >= ZONE_SIZE_PAGES
  }

  // Worker w's j-th page sits at zone w, page j, and holds w's bytes.
  ghost predicate Placed(s: State, workerId: nat, page: nat)
    requires workerId < WORKERS
  {
    var lba := TargetLba(workerId, page);
    Mapped(s, lba) && s.table[lba] == Some(PhysicalAddress(workerId, page)) && Readable(s, lba)
    && Content(s, lba) == WriteBuffer(workerId)
  }

  ghost predicate OnTrack(s: State, workerId: nat, worker: Worker)
    requires workerId < WORKERS
  {
    && !worker.failed && Written(worker) <= ZONE_SIZE_PAGES && Sized(s)
    && s.zones[workerId].writePointer == Written(worker) * PAGE_SIZE
    && forall j :: 0 <= j < Written(worker) ==> Placed(s, workerId, j)
  }

  function Enter(s: State, workerId: nat): State {
    s.(current := workerId)
  }

  // A worker's write goes to its own zone, to its next page.
  lemma WriteOnTrack(s: State, workerId: nat, worker: Worker)
    requires Inv(s) && workerId < WORKERS && OnTrack(s, workerId, worker) && !worker.verifying &&
        worker.pageIdx < ZONE_SIZE_PAGES
    ensures var (s', result) :=
        Write(Enter(s, workerId), TargetLba(workerId, worker.pageIdx), WriteBuffer(workerId), NoErrors());
            && result.Ok? && Inv(s') && OnTrack(s', workerId, worker.(verifying := true))
  {
    var at, lba := Enter(s, workerId), TargetLba(workerId, worker.pageIdx);
    var s' := Write(at, lba, WriteBuffer(workerId), NoErrors()).0;
    assert Inv(at) && !s.zones[workerId].isFull;
    assert Target(at) == workerId && AppendAddress(at) == PhysicalAddress(workerId, worker.pageIdx);
    AcceptedWriteStep(at, lba, WriteBuffer(workerId), NoErrors());
    AcceptedWrite(at, lba, WriteBuffer(workerId), NoErrors());
    assert s'.table[lba] == Some(PhysicalAddress(workerId, worker.pageIdx)) && Mapped(s', lba);
    assert s'.zones[workerId].writePointer == (worker.pageIdx + 1) * PAGE_SIZE;
    hide Write, Inv, Content, WriteBuffer, Mapped, Readable;
    forall j | 0 <= j < worker.pageIdx
      ensures Placed(s', workerId, j)
    {
      assert Placed(s, workerId, j);
      OthersStay(at, lba, workerId, TargetLba(workerId, j));
    }
  }

  lemma OthersStay(s: State, lba: nat, workerId: nat, other: nat)
    requires Inv(s) && workerId < WORKERS && lba < LOGICAL_PAGES && other != lba && Target(s) < NUM_ZONES &&
        Mapped(s, other)
    ensures var s' := Write(s, lba, WriteBuffer(workerId), NoErrors()).0;
            && Mapped(s', other) && s'.table[other] == s.table[other] && Readable(s', other) && Readable(s, other)
            && Content(s', other) == Content(s, other)
  {
    AcceptedWrite(s, lba, WriteBuffer(workerId), NoErrors());
    OthersKeepContent(s, lba, WriteBuffer(workerId), NoErrors(), other);
    hide Write, Inv, Content, WriteBuffer;
  }

  // It does not disturb another worker.
  lemma OtherStaysOnTrack(s: State, workerId: nat, worker: Worker, otherId: nat, other: Worker)
    requires Inv(s) && workerId < WORKERS && OnTrack(s, workerId, worker) && !worker.verifying &&
        worker.pageIdx < ZONE_SIZE_PAGES
    requires otherId < WORKERS && otherId != workerId && OnTrack(s, otherId, other)
    ensures OnTrack(Write(Enter(s, workerId), TargetLba(workerId, worker.pageIdx), WriteBuffer(workerId), NoErrors()).0,
        otherId, other)
  {
    var at, lba := Enter(s, workerId), TargetLba(workerId, worker.pageIdx);
    var s' := Write(at, lba, WriteBuffer(workerId), NoErrors()).0;
    assert Inv(at) && !s.zones[workerId].isFull && Target(at) == workerId;
    AcceptedWriteStep(at, lba, WriteBuffer(workerId), NoErrors());
    hide Write, Inv, Content, WriteBuffer, Mapped, Readable;
    forall j | 0 <= j < Written(other)
      ensures Placed(s', otherId, j)
    {
      assert Placed(s, otherId, j);
      OthersStay(at, lba, workerId, TargetLba(otherId, j));
    }
  }

  // ---------- schedules ----------

  // A worker after its turn, when nothing goes wrong.
  function AfterTurn(worker: Worker): Worker {
    if worker.pageIdx >= ZONE_SIZE_PAGES then worker
    else if worker.verifying then Worker(worker.pageIdx + 1, false, false)
    else Worker(worker.pageIdx, true, false)
  }

  function AfterTurns(workers: seq<Worker>, schedule: seq<nat>): (after: seq<Worker>)
    requires |workers| == WORKERS && forall i :: 0 <= i < |schedule| ==> schedule[i] < WORKERS
    ensures |after| == WORKERS
  {
    if |schedule| == 0 then workers
    else
      var before, w := AfterTurns(workers, schedule[..|schedule| - 1]), schedule[|schedule| - 1];
      before[w := AfterTurn(before[w])]
  }

  function TurnsOf(schedule: seq<nat>, workerId: nat): nat {
    if |schedule| == 0 then 0
    else TurnsOf(schedule[..|schedule| - 1], workerId) + (if schedule[|schedule| - 1] == workerId then 1 else 0)
  }

  // Turns used so far: two for each page, one write and one check.
  function Progress(worker: Worker): nat {
    2 * worker.pageIdx + (if worker.verifying then 1 else 0)
  }

  // A worker's progress depends on how many turns it got, not on when: after
  // 128 of them its zone is full and checked.
  lemma {:induction false} ProgressIsTurns(schedule: seq<nat>, workerId: nat)
    requires workerId < WORKERS && forall i :: 0 <= i < |schedule| ==> schedule[i] < WORKERS
    ensures var worker := AfterTurns(seq(WORKERS, _ => Worker(0, false, false)), schedule)[workerId];
            && Progress(worker) == (if TurnsOf(schedule, workerId) < 128 then TurnsOf(schedule, workerId) else 128)
            && (worker.pageIdx >= ZONE_SIZE_PAGES <==> TurnsOf(schedule, workerId) >= 128)
  {
    if |schedule| > 0 {
      ProgressIsTurns(schedule[..|schedule| - 1], workerId);
    }
  }

  class Workers {
    const ftl: HostManagedFtl
    var workers: seq<Worker>

    // Everyone is on track, whatever turns were taken.
    ghost predicate Valid()
      reads this, ftl, ftl.netStream, ftl.zones, ftl.l2pTable.table
    {
      && |workers| == WORKERS && Inv(ftl.Value())
      && forall w :: 0 <= w < WORKERS ==> OnTrack(ftl.Value(), w, workers[w])
    }

    constructor (shared: HostManagedFtl)
      requires Inv(shared.Value()) && forall w :: 0 <= w < WORKERS ==> shared.zones[w].writePointer == 0
      ensures ftl == shared && Valid() && workers == seq(WORKERS, _ => Worker(0, false, false))
    {
      ftl := shared;
      workers := seq(WORKERS, _ => Worker(0, false, false));
    }

    // One critical section of one worker: its next write, or the check of the
    // page it wrote last. No turn ever makes a worker give up.
    method Turn(workerId: nat)
      requires Valid() && workerId < WORKERS
      modifies this, ftl, ftl.netStream, ftl.zones, ftl.l2pTable.table
      ensures Valid()
      ensures workers == old(workers)[workerId := AfterTurn(old(workers)[workerId])]
    {
      hide Inv, Write, Content;
      var worker := workers[workerId];
      if Finished(worker) {
        return;
      }
      var targetLba := TargetLba(workerId, worker.pageIdx);
      ghost var s := ftl.Value();
      assert Sized(s) && OnTrack(s, workerId, worker);
      if !worker.verifying {
        ftl.currentWriteZone := workerId;
        assert ftl.Value() == Enter(s, workerId);
        var result := ftl.LogicalWrite(targetLba, WriteBuffer(workerId), NoErrors());
        WriteOnTrack(s, workerId, worker);
        worker := if result.Err? then worker.(failed := true) else worker.(verifying := true);
        forall w | 0 <= w < WORKERS && w != workerId
          ensures OnTrack(ftl.Value(), w, workers[w])
        {
          OtherStaysOnTrack(s, workerId, workers[workerId], w, workers[w]);
        }
        hide OnTrack;
        workers := workers[workerId := worker];
      } else {
        assert Placed(s, workerId, worker.pageIdx);
        var result := ftl.LogicalRead(targetLba);
        var matches := result.Ok?;
        if matches {
          matches := Matches(result.buffer, workerId);
        }
        worker := if matches then Worker(worker.pageIdx + 1, false, false) else worker.(failed := true);
        assert OnTrack(s, workerId, worker);
        hide OnTrack;
        workers := workers[workerId := worker];
      }
    }

    method Matches(readBuffer: Bytes, workerId: nat) returns (matches: bool)
      requires workerId < WORKERS && |readBuffer| == PAGE_SIZE
      ensures matches <==> readBuffer == WriteBuffer(workerId)
    {
      matches := true;
      for i := 0 to PAGE_SIZE
        invariant matches ==> readBuffer[..i] == WriteBuffer(workerId)[..i]
        invariant !matches ==> readBuffer != WriteBuffer(workerId)
      {
        if readBuffer[i] != (workerId + 1) as Byte {
          assert readBuffer[i] != WriteBuffer(workerId)[i];
          matches := false;
          break;
        }
      }
    }

    // Any interleaving of the three threads.
    method Interleave(schedule: seq<nat>)
      requires Valid() && forall i :: 0 <= i < |schedule| ==> schedule[i] < WORKERS
      modifies this, ftl, ftl.netStream, ftl.zones, ftl.l2pTable.table
      ensures Valid() && workers == AfterTurns(old(workers), schedule)
    {
      hide Inv, OnTrack;
      ghost var start := workers;
      for i := 0 to |schedule|
        invariant Valid() && |start| == WORKERS && workers == AfterTurns(start, schedule[..i])
      {
        assert schedule[..i + 1][..i] == schedule[..i];
        Turn(schedule[i]);
      }
      assert schedule[..|schedule|] == schedule;
    }
  }

  // The whole program: a new layer, the three zones reset, and the workers in
  // any order. Once each has had 128 turns, all 64 pages of worker w are at zone
  // w, in order and with its bytes, and its zone is full.
  method FillZones(stream: Backend, wiped: Bytes, schedule: seq<nat>) returns (ftl: HostManagedFtl)
    requires |stream.bytes| == STORE_SIZE && |wiped| == ZONE_SIZE_BYTES
    requires forall i :: 0 <= i < |schedule| ==> schedule[i] < WORKERS
    requires forall w :: 0 <= w < WORKERS ==> TurnsOf(schedule, w) >= 2 * ZONE_SIZE_PAGES
    modifies stream
    ensures Inv(ftl.Value())
    ensures forall w, j :: 0 <= w < WORKERS && 0 <= j < ZONE_SIZE_PAGES ==> Placed(ftl.Value(), w, j)
    ensures forall w :: 0 <= w < WORKERS ==> ftl.zones[w] == Zone(ZONE_SIZE_BYTES, true)
  {
    hide Represents, Placed, Overlay, Invalidated, TurnsOf;
    ftl := new HostManagedFtl(stream);
    ResetFirst(ftl, wiped);
    var workers := new Workers(ftl);
    workers.Interleave(schedule);
    forall w | 0 <= w < WORKERS ensures workers.workers[w].pageIdx >= ZONE_SIZE_PAGES {
      ProgressIsTurns(schedule, w);
    }
    ghost var s := ftl.Value();
    forall w, j | 0 <= w < WORKERS && 0 <= j < ZONE_SIZE_PAGES ensures Placed(s, w, j) {
      AllPlaced(s, w, workers.workers[w], j);
    }
    forall w | 0 <= w < WORKERS ensures ftl.zones[w] == Zone(ZONE_SIZE_BYTES, true) {
      AllPlaced(s, w, workers.workers[w], 0);
      assert ftl.zones[w] == s.zones[w];
    }
  }

  lemma AllPlaced(s: State, workerId: nat, worker: Worker, j: nat)
    requires j < ZONE_SIZE_PAGES && Inv(s) && workerId < WORKERS && OnTrack(s, workerId, worker) &&
        worker.pageIdx >= ZONE_SIZE_PAGES
    ensures Placed(s, workerId, j)
    ensures s.zones[workerId] == Zone(ZONE_SIZE_BYTES, true)
  {
    hide Placed;
  }

  // The zones the workers are about to fill.
  method ResetFirst(ftl: HostManagedFtl, wiped: Bytes)
    requires Inv(ftl.Value()) && |wiped| == ZONE_SIZE_BYTES
    modifies ftl.netStream, ftl.zones, ftl.l2pTable.table
    ensures Inv(ftl.Value())
    ensures forall w :: 0 <= w < WORKERS ==> ftl.zones[w].writePointer == 0
  {
    hide Overlay, Invalidated, ZonesOk, AllBelow, Injective;
    for zone := 0 to WORKERS
      invariant Inv(ftl.Value()) && forall w :: 0 <= w < zone ==> ftl.zones[w].writePointer == 0
    {
      ResetKeepsInv(ftl.Value(), zone, wiped);
      var success := ftl.ZoneReset(zone, true, wiped);
      assert ftl.Value().zones[zone] == Zone(0, false);
    }
  }
}

// The software model of the zone rules (zns_manager.cpp), which counts open
// zones by scanning, and its agreement with the validator's running counter.
module ZnsManager {
  import opened ZnsRtl
  import opened ZnsSystem

  datatype ZnsZone = ZnsZone(wptr: nat, isFull: bool)

  datatype EventType = READ | WRITE

  function HardBlockSize(blockSize: nat): (size: nat)
    ensures size > 0
  {
    if blockSize > 0 then blockSize else 64
  }

  predicate Open(zone: ZnsZone) {
    zone.wptr > 0 && !zone.isFull
  }

  ghost function OpenZones(zones: seq<ZnsZone>): nat {
    if |zones| == 0 then 0
    else OpenZones(zones[..|zones| - 1]) + (if Open(zones[|zones| - 1]) then 1 else 0)
  }

  // When the model admits a write.
  ghost predicate Admits(zones: seq<ZnsZone>, size: nat, lba: nat)
    requires size > 0
  {
    lba / size < |zones| &&
    var zone := zones[lba / size];
    !zone.isFull && lba % size == zone.wptr && (zone.wptr == 0 ==> OpenZones(zones) < 4)
  }

  function Advanced(zone: ZnsZone, size: nat): ZnsZone {
    ZnsZone(zone.wptr + 1, zone.wptr + 1 >= size)
  }

  ghost function AfterWrite(zones: seq<ZnsZone>, size: nat, lba: nat): seq<ZnsZone>
    requires size > 0
  {
    if Admits(zones, size, lba) then zones[lba / size := Advanced(zones[lba / size], size)] else zones
  }

  // A table of zones the model can reach: pointers stay in their zone, full
  // means written to the end, and at most four zones are open.
  ghost predicate ZonesOk(zones: seq<ZnsZone>, size: nat) {
    && (forall i :: 0 <= i < |zones| ==> zones[i].wptr <= size && (zones[i].isFull <==> zones[i].wptr == size))
    && OpenZones(zones) <= 4
  }

  lemma {:induction false} OpenZonesUpdate(zones: seq<ZnsZone>, i: nat, zone: ZnsZone)
    requires i < |zones|
    ensures OpenZones(zones[i := zone])
         == OpenZones(zones) - (if Open(zones[i]) then 1 else 0) + (if Open(zone) then 1 else 0)
  {
    var last := |zones| - 1;
    if i == last {
      assert zones[i := zone][..last] == zones[..last];
    } else {
      assert zones[i := zone][..last] == zones[..last][i := zone];
      OpenZonesUpdate(zones[..last], i, zone);
    }
  }

  // For any zone size and any number of zones.
  lemma WriteKeepsZonesOk(zones: seq<ZnsZone>, size: nat, lba: nat)
    requires size > 0 && ZonesOk(zones, size)
    ensures ZonesOk(AfterWrite(zones, size, lba), size)
  {
    if Admits(zones, size, lba) {
      OpenZonesUpdate(zones, lba / size, Advanced(zones[lba / size], size));
    }
  }

  class Controller {
    const ftlImplementation: nat
    const blockSize: nat
    const znsZones: array<ZnsZone>

    constructor (implementation: nat, size: nat, totalZnsZones: nat)
      ensures ftlImplementation == implementation && blockSize == size && fresh(znsZones)
      ensures znsZones[..] == seq(totalZnsZones, _ => ZnsZone(0, false))
    {
      ftlImplementation, blockSize := implementation, size;
      znsZones := new ZnsZone[totalZnsZones](_ => ZnsZone(0, false));
    }

    method OpenZonesCountCheck() returns (count: nat)
      ensures count == OpenZones(znsZones[..])
    {
      count := 0;
      for i := 0 to znsZones.Length
        invariant count == OpenZones(znsZones[..i])
      {
        assert znsZones[..i + 1][..i] == znsZones[..i];
        if znsZones[i].wptr > 0 && !znsZones[i].isFull {
          count := count + 1;
        }
      }
      assert znsZones[..znsZones.Length] == znsZones[..];
    }

    method ValidateAndAdvanceZns(eventType: EventType, logicalAddress: nat) returns (ok: bool)
      modifies znsZones
      ensures ftlImplementation != 5 ==> ok && znsZones[..] == old(znsZones[..])
      ensures ftlImplementation == 5 ==>
        var size, zones := HardBlockSize(blockSize), old(znsZones[..]);
        match eventType
        case READ => (ok <==> logicalAddress / size < |zones|) && znsZones[..] == zones
        case WRITE =>
          && (ok <==> Admits(zones, size, logicalAddress))
          && znsZones[..] == AfterWrite(zones, size, logicalAddress)
    {
      if ftlImplementation != 5 {
        return true;
      }
      var hardBlockSize := HardBlockSize(blockSize);
      var zoneId := logicalAddress / hardBlockSize;
      if zoneId >= znsZones.Length {
        return false;
      }
      ghost var zones := znsZones[..];
      if eventType == WRITE {
        if znsZones[zoneId].isFull {
          return false;
        }
        var targetPage := logicalAddress % hardBlockSize;
        if targetPage != znsZones[zoneId].wptr {
          return false;
        }
        if znsZones[zoneId].wptr == 0 {
          var openZones := OpenZonesCountCheck();
          if openZones >= 4 {
            return false;
          }
        }
        znsZones[zoneId] := znsZones[zoneId].(wptr := znsZones[zoneId].wptr + 1);
        if znsZones[zoneId].wptr >= hardBlockSize {
          znsZones[zoneId] := znsZones[zoneId].(isFull := true);
        }
        assert znsZones[..] == zones[zoneId := Advanced(zones[zoneId], hardBlockSize)];
      }
      return true;
    }
  }

  // ---------- agreement with the validator ----------

  // Zone by zone, the table and the RAM hold the same pointer and full flag.
  ghost predicate Agree(zones: seq<ZnsZone>, ram: seq<nat>) {
    |zones| == |ram| && forall i :: 0 <= i < |ram| ==> zones[i] == ZnsZone(Wptr(ram[i]), IsFull(ram[i]))
  }

  // The scan and the count of partly written zones are the same number.
  lemma {:induction false} ScanIsCount(zones: seq<ZnsZone>, ram: seq<nat>)
    requires Agree(zones, ram) && forall i :: 0 <= i < |ram| ==> WordOk(ram[i])
    ensures OpenZones(zones) == OpenCount(ram)
  {
    if |ram| > 0 {
      var last := |ram| - 1;
      ScanIsCount(zones[..last], ram[..last]);
      assert Open(zones[last]) <==> IsOpen(ram[last]);
    }
  }

  function WriteCommand(lba: nat): Command {
    Command(CMD_WRITE, lba % 64, lba / 64, false)
  }

  function WritePorts(lba: nat): Ports {
    Ports(true, CMD_WRITE, lba % 64, lba / 64, false, false)
  }

  // The validator accepts a write exactly when the model admits it, unless the
  // write opens a zone past the last one, which only the model refuses.
  lemma VerdictsAgree(zones: seq<ZnsZone>, s: System, lba: nat)
    requires Inv(s) && Agree(zones, s.ram)
    ensures (Accepted(s, WriteCommand(lba)) <==> Admits(zones, 64, lba)) <==> !OpensNothing(s, WriteCommand(lba))
    ensures lba / 64 < ZONES ==> !OpensNothing(s, WriteCommand(lba))
  {
    ScanIsCount(zones, s.ram);
    hide OpenZones, OpenCount;
    var c := WriteCommand(lba);
    assert Accepted(s, c) <==> Check(Start(s, c).ports, Word(s, lba / 64), s.regs.openZones) == 0;
    if lba / 64 < ZONES {
      assert zones[lba / 64] == ZnsZone(Wptr(s.ram[lba / 64]), IsFull(s.ram[lba / 64]));
    }
  }

  lemma CommittedAdvances(lba: nat, word: nat, wdata: nat, openZones: nat)
    requires WordOk(word) && Check(WritePorts(lba), word, openZones) == 0
    ensures var committed := Committed(WritePorts(lba), word, wdata);
            ZnsZone(Wptr(committed), IsFull(committed)) == Advanced(ZnsZone(Wptr(word), IsFull(word)), 64)
  {
    PackFields(EraseCount(word), Wptr(word) == 63, Wptr(word) + 1);
  }

  // And then both move the same pointer.
  lemma WriteInLockstep(zones: seq<ZnsZone>, s: System, lba: nat)
    requires Inv(s) && Agree(zones, s.ram) && lba / 64 < ZONES
    ensures var s' := RunCommand(s, WriteCommand(lba)); Inv(s') && Agree(AfterWrite(zones, 64, lba), s'.ram)
  {
    var c, word := WriteCommand(lba), s.ram[lba / 64];
    VerdictsAgree(zones, s, lba);
    CommandEffect(s, c);
    CommandKeepsInvariant(s, c);
    assert Start(s, c).ports == WritePorts(lba);
    if Accepted(s, c) {
      assert Check(WritePorts(lba), word, s.regs.openZones) == 0;
      CommittedAdvances(lba, word, s.regs.wdata, s.regs.openZones);
    }
    hide RunCommand, OpenZones, OpenCount, Admits, Accepted, Inv, Check, Committed, Wptr, IsFull, Advanced, Tracked;
  }

  ghost function AfterWrites(zones: seq<ZnsZone>, lbas: seq<nat>): seq<ZnsZone> {
    if |lbas| == 0 then zones
    else AfterWrite(AfterWrites(zones, lbas[..|lbas| - 1]), 64, lbas[|lbas| - 1])
  }

  function WriteCommands(lbas: seq<nat>): (cs: seq<Command>)
    ensures |cs| == |lbas| && forall i :: 0 <= i < |cs| ==> cs[i] == WriteCommand(lbas[i])
  {
    if |lbas| == 0 then [] else WriteCommands(lbas[..|lbas| - 1]) + [WriteCommand(lbas[|lbas| - 1])]
  }

  // Over any run of writes the two never part.
  lemma {:induction false} WritesInLockstep(zones: seq<ZnsZone>, s: System, lbas: seq<nat>)
    requires Inv(s) && Agree(zones, s.ram) && forall i :: 0 <= i < |lbas| ==> lbas[i] / 64 < ZONES
    ensures var s' := Run(s, WriteCommands(lbas)); Inv(s') && Agree(AfterWrites(zones, lbas), s'.ram)
  {
    if |lbas| > 0 {
      var last := |lbas| - 1;
      WritesInLockstep(zones, s, lbas[..last]);
      assert WriteCommands(lbas)[..last] == WriteCommands(lbas[..last]);
      assert Run(s, WriteCommands(lbas)) == RunCommand(Run(s, WriteCommands(lbas[..last])), WriteCommand(lbas[last]));
      hide Inv, Agree, AfterWrite, RunCommand, Run;
      WriteInLockstep(AfterWrites(zones, lbas[..last]), Run(s, WriteCommands(lbas[..last])), lbas[last]);
    }
  }

  // Every write of the run gets the same verdict from both.
  lemma SameVerdicts(zones: seq<ZnsZone>, s: System, lbas: seq<nat>, i: nat)
    requires Inv(s) && Agree(zones, s.ram) && forall i :: 0 <= i < |lbas| ==> lbas[i] / 64 < ZONES
    requires i < |lbas|
    ensures Accepted(Run(s, WriteCommands(lbas)[..i]), WriteCommand(lbas[i])) <==>
        Admits(AfterWrites(zones, lbas[..i]), 64, lbas[i])
  {
    WritesInLockstep(zones, s, lbas[..i]);
    assert WriteCommands(lbas)[..i] == WriteCommands(lbas[..i]);
    hide Agree, Accepted, Admits, Run, AfterWrites;
    VerdictsAgree(AfterWrites(zones, lbas[..i]), Run(s, WriteCommands(lbas[..i])), lbas[i]);
  }
}

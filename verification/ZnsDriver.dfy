// The simulated hardware around the validator (hardware_bridge.cpp) and the
// firmware that drives it (zns_driver.c).
module HardwareBridge {
  import opened ZnsRtl
  import opened ZnsSystem

  class Bridge {
    const top: ZnsFsmValidator
    const mockBramStorage: array<nat>
    var bramRdataLatch: nat
    var bramAddr: nat
    var ioTrigger: bool
    var ioCmd: nat
    var validatedTargetPage: nat
    var validatedZoneId: nat
    // What Controller::check_thermal_shutdown answers.
    var overheated: bool

    ghost predicate Valid() {
      mockBramStorage.Length == ZONES
    }

    ghost function Inputs(): Ports
      reads this
    {
      Ports(ioTrigger, ioCmd, validatedTargetPage, validatedZoneId, overheated, false)
    }

    ghost function Value(): System
      reads this, top, mockBramStorage
    {
      System(top.Value(), Inputs(), bramAddr, bramRdataLatch, mockBramStorage[..])
    }

    constructor (tooHot: bool)
      ensures Valid() && fresh(top) && fresh(mockBramStorage)
      ensures Inv(Value()) && !ioTrigger && overheated == tooHot
      ensures mockBramStorage[..] == seq(ZONES, _ => 0)
    {
      top := new ZnsFsmValidator();
      mockBramStorage := new nat[ZONES](_ => 0);
      bramRdataLatch, bramAddr := 0, 0;
      ioTrigger, ioCmd, validatedTargetPage, validatedZoneId, overheated := false, 0, 0, 0, tooHot;
      new;
      assert mockBramStorage[..] == seq(ZONES, _ => 0);
      PoweredUp(Inputs(), 0);
    }

    method VerilatorTickHardware()
      requires Valid()
      modifies this`bramRdataLatch, this`bramAddr, top, mockBramStorage
      ensures Value() == Tick(old(Value()))
    {
      var currentAddr := bramAddr;
      var bramRdata := if currentAddr < 1024 then bramRdataLatch else 0;
      var ports := Ports(ioTrigger, ioCmd, validatedTargetPage, validatedZoneId, overheated, false);
      top.PosEdge(ports, bramRdata);
      if currentAddr < 1024 {
        bramRdataLatch := mockBramStorage[currentAddr];
      }
      if top.bramWe && currentAddr < 1024 {
        mockBramStorage[currentAddr] := top.bramWdata;
      }
      bramAddr := BramAddr(top.state, ports);
    }

    method SimGetOutStatus() returns (status: nat)
      requires Valid()
      modifies this`bramRdataLatch, this`bramAddr, top, mockBramStorage
      ensures Value() == Tick(old(Value())) && status == Value().regs.status
    {
      VerilatorTickHardware();
      status := top.outStatus;
    }
  }
}

module ZnsDriver {
  import opened ZnsRtl
  import opened ZnsSystem
  import opened HardwareBridge

  const NVME_CMD_WRITE := 0x01
  const NVME_CMD_READ := 0x02
  const NVME_CMD_ZONE_MGMT := 0x79
  const NVME_ZONE_ACTION_RESET := 0x04
  const WORD := 0x1_0000_0000

  datatype Register =
    | TRIGGER | NVME_OPCODE | NVME_LBA_LO | NVME_LBA_HI | NVME_BLOCKS
    | SQ_TAIL_DB | CQ_HEAD_DB | OUT_STATUS | ERR_CODE

  datatype Sqe = Sqe(opcode: nat, cid: nat, slba: nat, zsa: nat)
  datatype Cqe = Cqe(cid: nat, cdw0: nat, status: nat)

  function NvmeStatus(statusCode: nat): nat {
    512 + 2 * statusCode
  }

  datatype Decoding = Run(cmd: nat) | Refuse(statusCode: nat)

  function Decode(sqe: Sqe): Decoding {
    if sqe.opcode == NVME_CMD_READ then Run(CMD_READ)
    else if sqe.opcode == NVME_CMD_WRITE then Run(CMD_WRITE)
    else if sqe.opcode == NVME_CMD_ZONE_MGMT then
      if sqe.zsa % 256 == NVME_ZONE_ACTION_RESET then Run(CMD_RESET) else Refuse(0x02)
    else Refuse(0x01)
  }

  // The NVMe status code for an error of the rule checker.
  function StatusCode(hwError: nat): nat {
    match hwError
    case 0x01 => 0x82
    case 0x02 => 0x81
    case 0x03 => 0x80
    case 0x05 => 0x24
    case 0x07 => 0x83
    case 0x08 => 0x24
    case _ => 0x06
  }

  // The host learns from the status which rule refused a command, except that
  // wear-out and overheating look the same.
  lemma StatusTellsRule(ports: Ports, word: nat, openZones: nat, ports': Ports, word': nat, openZones': nat)
    requires Check(ports, word, openZones) != 0 && Check(ports', word', openZones') != 0
    ensures var code, code' := Check(ports, word, openZones), Check(ports', word', openZones');
            NvmeStatus(StatusCode(code)) == NvmeStatus(StatusCode(code')) <==> code == code' || {code, code'} == {5, 8}
  {
    var code, code' := Check(ports, word, openZones), Check(ports', word', openZones');
    assert code in {1, 2, 3, 5, 6, 7, 8} && code' in {1, 2, 3, 5, 6, 7, 8};
    assert 5 in {5, 8} && 8 in {5, 8};
    if {code, code'} == {5, 8} {
      assert code in {5, 8} && code' in {5, 8};
    }
  }

  // What the host is told of a command refused: with the drive hot, 0x24; an
  // out-of-order write is 0x82, a fifth open zone 0x81, a write to a full zone
  // 0x83, a read past the write pointer 0x80, a reset of a worn zone 0x24.
  lemma RefusalsReported(page: nat, zone: nat, word: nat, openZones: nat)
    requires WordOk(word)
    ensures var code := StatusCode(Check(Ports(true, CMD_WRITE, page, zone, false, false), word, openZones));
            && (Wptr(word) == 64 <==> code == 0x83)
            && (Wptr(word) < 64 && page != Wptr(word) <==> code == 0x82)
            && (Wptr(word) == 0 == page && openZones >= 4 <==> code == 0x81)
    ensures StatusCode(Check(Ports(true, CMD_READ, page, zone, false, false), word, openZones)) == 0x80 <==>
        page >= Wptr(word)
    ensures StatusCode(Check(Ports(true, CMD_RESET, page, zone, false, false), word, openZones)) == 0x24 <==>
        EraseCount(word) == 10
  {}

  // The NVMe opcodes: 0x01 writes, 0x02 reads, 0x79 with action 4 resets, and
  // everything else is refused.
  lemma OpcodesDecoded(sqe: Sqe, thermal: bool)
    ensures sqe.opcode == 0x01 ==> Decode(sqe) == Run(1) && CommandOf(sqe, thermal).cmd == CMD_WRITE
    ensures sqe.opcode == 0x02 ==> Decode(sqe) == Run(0) && CommandOf(sqe, thermal).cmd == CMD_READ
    ensures sqe.opcode == 0x79 && sqe.zsa % 256 == 4 ==>
        Decode(sqe) == Run(2) && CommandOf(sqe, thermal).cmd == CMD_RESET
    ensures Decode(sqe).Refuse? <==> sqe.opcode !in {0x01, 0x02, 0x79} || (sqe.opcode == 0x79 && sqe.zsa % 256 != 4)
  {}

  // The page and zone the two halves of an address select, as the register
  // writes compute them.
  function PageOf(lba: nat): nat { lba % 64 }

  function ZoneOf(lba: nat): nat { lba / 64 % WORD }

  // The zone is the one the address names unless the address has more than 38
  // bits; the driver then wraps around to a lower zone.
  lemma AddressesNamedZone(lba: nat)
    ensures 64 * ZoneOf(lba) + PageOf(lba) == lba <==> lba < 64 * WORD
    ensures PageOf(lba) < 64 && ZoneOf(lba) < WORD
  {
    if lba < 64 * WORD {
      assert lba / 64 < WORD;
    }
  }

  // The two halves, written high first, replace the old contents entirely.
  lemma HalvesMakeWhole(accumulator: nat, lba: nat)
    requires lba < WORD * WORD
    ensures (accumulator % WORD + lba / WORD % WORD * WORD) / WORD * WORD + lba % WORD == lba
  {}

  // What the command asks of the validator.
  function CommandOf(sqe: Sqe, thermal: bool): Command
    requires Decode(sqe).Run?
  {
    Command(Decode(sqe).cmd, PageOf(sqe.slba), ZoneOf(sqe.slba), thermal)
  }

  // Every poll before the last sees a busy status, the last one does not.
  lemma PollsEnd(s: System, n: nat)
    requires Idle(s) && s.ports.trigger
    requires 1 <= n <= Polls(s)
    ensures Ticks(s, n).regs.status in {0, 2} <==> n < Polls(s)
    ensures n == Polls(s) && Error(s) != 0 ==> Ticks(s, n).regs.status == 1
    ensures n == Polls(s) && Error(s) == 0 ==> Ticks(s, n).regs.status == 3
    ensures n == Polls(s) ==> Ticks(s, n).regs.errCode == Error(s)
  {
    hide Ticks, Error;
    CommandRuns(s);
  }

  class ZnsDriver {
    const bridge: Bridge
    var currentLbaAccumulator: nat
    // The doorbells have no port on the validator.
    var stubSqTail: nat
    var stubCqHead: nat

    ghost predicate Valid() {
      bridge.Valid()
    }

    constructor (hardware: Bridge)
      requires hardware.Valid()
      ensures bridge == hardware && Valid() && currentLbaAccumulator == 0
    {
      bridge := hardware;
      currentLbaAccumulator, stubSqTail, stubCqHead := 0, 0, 0;
    }

    method CsrWrite32(val: nat, register: Register)
      requires val < WORD
      modifies this, bridge`ioTrigger, bridge`ioCmd, bridge`validatedTargetPage, bridge`validatedZoneId
      ensures stubSqTail == if register.SQ_TAIL_DB? then val else old(stubSqTail)
      ensures stubCqHead == if register.CQ_HEAD_DB? then val else old(stubCqHead)
      ensures bridge.ioTrigger == if register.TRIGGER? then val % 2 == 1 else old(bridge.ioTrigger)
      ensures bridge.ioCmd == if register.NVME_OPCODE? then val % 256 else old(bridge.ioCmd)
      ensures currentLbaAccumulator
           == match register
              case NVME_LBA_LO => old(currentLbaAccumulator) / WORD * WORD + val
              case NVME_LBA_HI => old(currentLbaAccumulator) % WORD + val * WORD
              case _ => old(currentLbaAccumulator)
      ensures bridge.validatedTargetPage
           == if register.NVME_LBA_LO? || register.NVME_LBA_HI? then PageOf(currentLbaAccumulator)
             else old(bridge.validatedTargetPage)
      ensures bridge.validatedZoneId
           == if register.NVME_LBA_LO? || register.NVME_LBA_HI? then ZoneOf(currentLbaAccumulator)
             else old(bridge.validatedZoneId)
    {
      match register {
        case TRIGGER =>
          bridge.ioTrigger := val % 2 == 1;
        case NVME_LBA_LO =>
          currentLbaAccumulator := currentLbaAccumulator / WORD * WORD + val;
          bridge.validatedTargetPage := currentLbaAccumulator % 64;
          bridge.validatedZoneId := currentLbaAccumulator / 64 % WORD;
        case NVME_LBA_HI =>
          currentLbaAccumulator := currentLbaAccumulator % WORD + val * WORD;
          bridge.validatedTargetPage := currentLbaAccumulator % 64;
          bridge.validatedZoneId := currentLbaAccumulator / 64 % WORD;
        case NVME_OPCODE =>
          bridge.ioCmd := val % 256;
        case SQ_TAIL_DB =>
          stubSqTail := val;
        case CQ_HEAD_DB =>
          stubCqHead := val;
        case _ =>
      }
    }

    // Reading the status register clocks the hardware once.
    method CsrRead32(register: Register) returns (val: nat)
      requires Valid()
      modifies bridge`bramRdataLatch, bridge`bramAddr, bridge.top, bridge.mockBramStorage
      ensures bridge.Value() == if register.OUT_STATUS? then Tick(old(bridge.Value())) else old(bridge.Value())
      ensures register.OUT_STATUS? ==> val == bridge.Value().regs.status
      ensures register.ERR_CODE? ==> val == bridge.Value().regs.errCode
    {
      match register {
        case OUT_STATUS => val := bridge.SimGetOutStatus();
        case ERR_CODE => val := bridge.top.outErrCode;
        case _ => val := 0;
      }
    }

    // Whatever the accumulator held, both halves select the page and zone of
    // the address, and the validator sees the whole command at once.
    method StartCommand(slba: nat, hardwareCmd: nat)
      requires Valid() && slba < WORD * WORD && hardwareCmd < 256
      modifies this, bridge
      ensures bridge.Value() == Start(old(bridge.Value()),
          Command(hardwareCmd, PageOf(slba), ZoneOf(slba), old(bridge.overheated)))
      ensures currentLbaAccumulator == slba && bridge.overheated == old(bridge.overheated)
    {
      hide PageOf, ZoneOf;
      HalvesMakeWhole(currentLbaAccumulator, slba);
      CsrWrite32(slba / WORD % WORD, NVME_LBA_HI);
      CsrWrite32(slba % WORD, NVME_LBA_LO);
      CsrWrite32(hardwareCmd, NVME_OPCODE);
      CsrWrite32(0, NVME_BLOCKS);
      CsrWrite32(1, TRIGGER);
    }

    // The polling loop: it ends, and it ends when the command has finished.
    method Poll() returns (hwStatus: nat, ghost polls: nat)
      requires Valid() && Idle(bridge.Value()) && bridge.ioTrigger
      modifies bridge`bramRdataLatch, bridge`bramAddr, bridge.top, bridge.mockBramStorage
      ensures polls == Polls(old(bridge.Value())) <= 6
      ensures bridge.Value() == Ticks(old(bridge.Value()), polls)
      ensures hwStatus == (if Error(old(bridge.Value())) != 0 then 1 else 3)
      ensures bridge.Value().regs.errCode == Error(old(bridge.Value()))
    {
      hide Tick, Error, Idle, Finished;
      ghost var start := bridge.Value();
      hwStatus := CsrRead32(OUT_STATUS);
      polls := 1;
      PollsEnd(start, 1);
      while hwStatus == 2 || hwStatus == 0
        invariant 1 <= polls <= Polls(start)
        invariant bridge.Value() == Ticks(start, polls) && hwStatus == bridge.Value().regs.status
        invariant hwStatus in {0, 2} <==> polls < Polls(start)
        decreases Polls(start) - polls
      {
        hwStatus := CsrRead32(OUT_STATUS);
        polls := polls + 1;
        PollsEnd(start, polls);
      }
      PollsEnd(start, polls);
    }

    // A refused opcode leaves the hardware alone. Any other command runs to
    // completion; it succeeds exactly when the rules accept it, stores one word
    // if they do and the zone exists, and leaves the validator idle.
    method ZnsProcessNvmeCommand(sqe: Sqe) returns (cqe: Cqe)
      requires Valid() && Idle(bridge.Value())
      requires sqe.slba < WORD * WORD
      modifies this, bridge, bridge.top, bridge.mockBramStorage
      ensures Idle(bridge.Value()) && cqe.cid == sqe.cid && cqe.cdw0 == 0 && bridge.overheated == old(bridge.overheated)
      ensures sqe.opcode !in {0x01, 0x02, 0x79} ==> cqe.status == 0x202
      ensures sqe.opcode == 0x79 && sqe.zsa % 256 != 4 ==> cqe.status == 0x204
      ensures match Decode(sqe)
              case Refuse(code) => cqe.status == NvmeStatus(code) && bridge.Value() == old(bridge.Value())
              case Run(_) =>
                var s, c := old(bridge.Value()), CommandOf(sqe, old(bridge.overheated));
                && bridge.Value() == RunCommand(s, c)
                && (cqe.status == 0 <==> Accepted(s, c))
                && (!Accepted(s, c) ==> cqe.status == NvmeStatus(StatusCode(Error(Start(s, c)))))
                && bridge.mockBramStorage[..]
                     == (if Accepted(s, c) && c.zone < ZONES then s.ram[c.zone := bridge.top.bramWdata] else s.ram)
    {
      hide Tick, Check, Idle, Finished;
      var hardwareCmd := 0;
      cqe := Cqe(sqe.cid, 0, 0);
      if sqe.opcode == NVME_CMD_READ {
        hardwareCmd := 0;
      } else if sqe.opcode == NVME_CMD_WRITE {
        hardwareCmd := 1;
      } else if sqe.opcode == NVME_CMD_ZONE_MGMT {
        if sqe.zsa % 256 == NVME_ZONE_ACTION_RESET {
          hardwareCmd := 2;
        } else {
          return cqe.(status := NvmeStatus(0x02));
        }
      } else {
        return cqe.(status := NvmeStatus(0x01));
      }
      ghost var s, c := bridge.Value(), CommandOf(sqe, bridge.overheated);
      CommandEffect(s, c);
      StartCommand(sqe.slba, hardwareCmd);
      StartedIdle(s, c);
      var hwStatus, polls := Poll();
      var hwError := CsrRead32(ERR_CODE);
      if hwStatus == 3 {
        cqe := cqe.(status := 0);
      } else {
        cqe := cqe.(status := NvmeStatus(StatusCode(hwError)));
      }
      EndCommand();
    }

    // The trigger is dropped, and two clocks bring the validator back to idle.
    method EndCommand()
      requires Valid()
      modifies this, bridge, bridge.top, bridge.mockBramStorage
      ensures bridge.Value() == Ticks(old(bridge.Value()).(ports := old(bridge.Inputs()).(trigger := false)), 2)
      ensures bridge.overheated == old(bridge.overheated)
    {
      hide Tick;
      TwoTicks(bridge.Value().(ports := bridge.Inputs().(trigger := false)));
      CsrWrite32(0, TRIGGER);
      bridge.VerilatorTickHardware();
      bridge.VerilatorTickHardware();
    }
  }

  lemma StartedIdle(s: System, c: Command)
    requires Idle(s)
    ensures Idle(Start(s, c))
  {}

  lemma TwoTicks(s: System)
    requires |s.ram| == ZONES
    ensures Ticks(s, 2) == Tick(Tick(s))
  {
    assert Ticks(s, 1) == Tick(s);
  }
}

// The zone validator in hardware: rule checker (zns_rules_checker.v), open-zone
// counter (zns_resources_tracker.v) and command state machine
// (zns_fsm_validator.v). Words and registers are naturals; widths are written
// out where an operation could leave them.
module ZnsRtl {

  // ---------- zone words: {8'd0, erase[7:0], 8'd0, full, wptr[6:0]} ----------

  function Wptr(word: nat): nat { word % 128 }

  predicate IsFull(word: nat) { word / 128 % 2 == 1 }

  function EraseCount(word: nat): nat { word / 65536 % 256 }

  function Pack(erase: nat, full: bool, wptr: nat): nat {
    erase * 65536 + (if full then 128 else 0) + wptr
  }

  lemma PackFields(erase: nat, full: bool, wptr: nat)
    requires erase < 256 && wptr < 128
    ensures Wptr(Pack(erase, full, wptr)) == wptr
    ensures IsFull(Pack(erase, full, wptr)) == full
    ensures EraseCount(Pack(erase, full, wptr)) == erase
  {}

  // A zone holds an open resource while some but not all of its pages are written.
  predicate IsOpen(word: nat) { 0 < Wptr(word) < 64 }

  ghost predicate WordOk(word: nat) {
    Wptr(word) <= 64 && (IsFull(word) <==> Wptr(word) == 64) && EraseCount(word) <= 10
  }

  // ---------- rule checker ----------

  const CMD_READ := 0
  const CMD_WRITE := 1
  const CMD_RESET := 2

  // Inputs of the validator, held by the driver while a command runs.
  datatype Ports = Ports(trigger: bool, cmd: nat, page: nat, zone: nat, thermal: bool, addrBound: bool)

  // The error the checker reports, 0 for none. Earlier rules take precedence.
  function Check(ports: Ports, word: nat, openZones: nat): (code: nat) {
    if ports.thermal then 8
    else if ports.cmd == 99 then 6
    else if ports.cmd == CMD_WRITE && IsFull(word) then 7
    else if ports.cmd == CMD_WRITE && ports.page != Wptr(word) then 1
    else if ports.cmd == CMD_WRITE && Wptr(word) == 0 && !IsFull(word) && openZones >= 4 then 2
    else if ports.cmd == CMD_READ && ports.page >= Wptr(word) then 3
    else if ports.cmd == CMD_RESET && EraseCount(word) >= 10 then 5
    else if ports.addrBound then 7
    else 0
  }

  // ---------- state machine ----------

  datatype FsmState = IDLE | BRAM_READ | BRAM_WAIT | VALIDATE | EXECUTE | UPDATE_BRAM | ERROR

  datatype Regs = Regs(state: FsmState, status: nat, errCode: nat, we: bool, wdata: nat, openZones: nat)

  const PowerUp := Regs(IDLE, 0, 0, false, 0, 0)

  function NextState(r: Regs, ports: Ports, word: nat): FsmState {
    match r.state
    case IDLE => if ports.trigger then BRAM_READ else IDLE
    case BRAM_READ => BRAM_WAIT
    case BRAM_WAIT => VALIDATE
    case VALIDATE => if Check(ports, word, r.openZones) != 0 then ERROR else EXECUTE
    case EXECUTE => UPDATE_BRAM
    case UPDATE_BRAM => if ports.trigger then UPDATE_BRAM else IDLE
    case ERROR => if ports.trigger then ERROR else IDLE
  }

  function BramAddr(state: FsmState, ports: Ports): nat {
    if state != IDLE || ports.trigger then ports.zone else 0
  }

  // The word an accepted command commits. Only writes and resets compute one;
  // any other command commits whatever the register still holds.
  function Committed(ports: Ports, word: nat, wdata: nat): nat {
    if ports.cmd == CMD_WRITE then
      if Wptr(word) == 63 then Pack(EraseCount(word), true, 64)
      else Pack(EraseCount(word), false, (Wptr(word) + 1) % 128)
    else if ports.cmd == CMD_RESET then Pack((EraseCount(word) + 1) % 256, false, 0)
    else wdata
  }

  // The counter register is four bits wide; when both assignments are made in
  // one clock the later one wins.
  function Tracked(ports: Ports, word: nat, openZones: nat): nat {
    if ports.cmd == CMD_WRITE && Wptr(word) == 63 && openZones > 0 then openZones - 1
    else if ports.cmd == CMD_RESET && Wptr(word) > 0 && !IsFull(word) && openZones > 0 then openZones - 1
    else if ports.cmd == CMD_WRITE && Wptr(word) == 0 && !IsFull(word) then (openZones + 1) % 16
    else openZones
  }

  // One rising clock edge: every register from the values before the edge.
  function ClockEdge(r: Regs, ports: Ports, word: nat): Regs {
    var next := r.(state := NextState(r, ports, word));
    match r.state
    case IDLE => next.(status := 0, we := false)
    case BRAM_READ => next.(status := 2)
    case ERROR => next.(status := 1, errCode := Check(ports, word, r.openZones))
    case EXECUTE => next.(we := true, wdata := Committed(ports, word, r.wdata),
      openZones := Tracked(ports, word, r.openZones))
    case UPDATE_BRAM => next.(status := 3, errCode := 0, we := false)
    case BRAM_WAIT => next
    case VALIDATE => next
  }

  class ZnsFsmValidator {
    var state: FsmState
    var outStatus: nat
    var outErrCode: nat
    var bramWe: bool
    var bramWdata: nat
    var openZonesCount: nat

    ghost function Value(): Regs
      reads this
    {
      Regs(state, outStatus, outErrCode, bramWe, bramWdata, openZonesCount)
    }

    constructor ()
      ensures Value() == PowerUp
    {
      state, outStatus, outErrCode, bramWe, bramWdata, openZonesCount := IDLE, 0, 0, false, 0, 0;
    }

    // zns_resources_tracker: the two non-blocking assignments of its clocked block.
    method TrackResources(ports: Ports, word: nat, pulse: bool)
      modifies `openZonesCount
      ensures openZonesCount == if pulse then Tracked(ports, word, old(openZonesCount)) else old(openZonesCount)
    {
      var next := openZonesCount;
      if pulse {
        if ports.cmd == CMD_WRITE && Wptr(word) == 0 && !IsFull(word) {
          next := (openZonesCount + 1) % 16;
        }
        if ports.cmd == CMD_WRITE && Wptr(word) == 63 && openZonesCount > 0 {
          next := openZonesCount - 1;
        } else if ports.cmd == CMD_RESET && Wptr(word) > 0 && !IsFull(word) && openZonesCount > 0 {
          next := openZonesCount - 1;
        }
      }
      openZonesCount := next;
    }

    // The clocked blocks read the registers as they were before the edge.
    method PosEdge(ports: Ports, word: nat)
      modifies this
      ensures Value() == ClockEdge(old(Value()), ports, word)
    {
      var current := state;
      var code := Check(ports, word, openZonesCount);
      state := NextState(Regs(state, outStatus, outErrCode, bramWe, bramWdata, openZonesCount), ports, word);
      match current {
        case IDLE =>
          outStatus := 0;
          bramWe := false;
        case BRAM_READ =>
          outStatus := 2;
        case ERROR =>
          outStatus := 1;
          outErrCode := code;
        case EXECUTE =>
          bramWe := true;
          if ports.cmd == CMD_WRITE {
            if Wptr(word) == 63 {
              bramWdata := Pack(EraseCount(word), true, 64);
            } else {
              bramWdata := Pack(EraseCount(word), false, (Wptr(word) + 1) % 128);
            }
          } else if ports.cmd == CMD_RESET {
            bramWdata := Pack((EraseCount(word) + 1) % 256, false, 0);
          }
        case UPDATE_BRAM =>
          outStatus := 3;
          outErrCode := 0;
          bramWe := false;
        case BRAM_WAIT =>
        case VALIDATE =>
      }
      TrackResources(ports, word, current == EXECUTE);
    }
  }
}

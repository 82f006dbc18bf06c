// The validator wired to the block RAM of the FPGA (zns_metadata_bram.v), which
// writes one clock later than the simulator's array does, and stores 4096 words.
module ZnsBoard {
  import opened ZnsRtl
  import opened ZnsSystem

  const DEPTH := 4096

  class ZnsMetadataBram {
    const ram: array<nat>
    var rdata: nat

    constructor ()
      ensures fresh(ram) && ram[..] == seq(DEPTH, _ => 0)
    {
      ram := new nat[DEPTH];
      rdata := 0;
      new;
      for i := 0 to DEPTH
        invariant forall k :: 0 <= k < i ==> ram[k] == 0
      {
        ram[i] := 0;
      }
    }

    // The registered output gets the word from before the write.
    method PosEdge(addr: nat, wdata: nat, we: bool)
      requires addr < ram.Length
      modifies this, ram
      ensures rdata == old(ram[addr])
      ensures ram[..] == if we then old(ram[..])[addr := wdata] else old(ram[..])
    {
      rdata := ram[addr];
      if we {
        ram[addr] := wdata;
      }
    }
  }

  datatype Board = Board(regs: Regs, ports: Ports, rdata: nat, ram: seq<nat>)

  // Both clocked blocks see the wires as they were before the edge.
  function BoardTick(b: Board): Board
    requires |b.ram| == DEPTH
  {
    var addr := BramAddr(b.regs.state, b.ports) % DEPTH;
    b.(regs := ClockEdge(b.regs, b.ports, b.rdata),
       rdata := b.ram[addr],
       ram := if b.regs.we then b.ram[addr := b.regs.wdata] else b.ram)
  }

  function BoardTicks(b: Board, n: nat): (b': Board)
    requires |b.ram| == DEPTH
    ensures |b'.ram| == DEPTH
  {
    if n == 0 then b else BoardTick(BoardTicks(b, n - 1))
  }

  // The two machines idle with the same registers, inputs and words.
  predicate Mirrors(b: Board, s: System) {
    Idle(s) && |b.ram| == DEPTH && b.regs == s.regs && b.ports == s.ports && b.ram[..ZONES] == s.ram
  }

  lemma BoardRuns(b: Board, s: System)
    requires Mirrors(b, s) && s.ports.trigger && s.ports.zone < ZONES
    ensures var b', s' := BoardTicks(b, Polls(s)), Finished(s);
            && b'.regs == s'.regs && b'.ports == s'.ports && b'.ram[..ZONES] == s'.ram &&
              b'.ram[ZONES..] == b.ram[ZONES..]
            && (b'.regs.state == ERROR ==> b'.rdata == s'.latch)
  {
    var zone, word := s.ports.zone, s.ram[s.ports.zone];
    assert b.ram[zone] == b.ram[..ZONES][zone] == word;
    var b1 := BoardTick(b);
    assert BoardTicks(b, 1) == b1;
    assert b1 == b.(regs := b.regs.(state := BRAM_READ), rdata := word);
    var b2 := BoardTick(b1);
    assert BoardTicks(b, 2) == b2;
    var b3 := BoardTick(b2);
    assert BoardTicks(b, 3) == b3;
    assert b3 == b1.(regs := b1.regs.(state := VALIDATE, status := 2));
    var b4 := BoardTick(b3);
    assert BoardTicks(b, 4) == b4;
    assert b4 == b3.(regs := b3.regs.(state := if Error(s) != 0 then ERROR else EXECUTE));
    var b5 := BoardTick(b4);
    assert BoardTicks(b, 5) == b5;
    if Error(s) == 0 {
      assert BoardTicks(b, 6) == BoardTick(b5);
      StoreBelow(b.ram, zone, Finished(s).regs.wdata);
    }
  }

  lemma StoreBelow(ram: seq<nat>, zone: nat, word: nat)
    requires |ram| == DEPTH && zone < ZONES
    ensures ram[zone := word][..ZONES] == ram[..ZONES][zone := word] && ram[zone := word][ZONES..] == ram[ZONES..]
  {}

  // Two clocks after the trigger is dropped.
  lemma BoardEnds(b: Board, s: System)
    requires |b.ram| == DEPTH && |s.ram| == ZONES && b.regs == s.regs && b.ports == s.ports && b.ram[..ZONES] == s.ram
    requires !s.ports.trigger && s.ports.zone < ZONES && s.addr < ZONES && !s.regs.we
    requires s.regs.state == UPDATE_BRAM || (s.regs.state == ERROR && b.rdata == s.latch)
    ensures Mirrors(BoardTicks(b, 2), Ticks(s, 2)) && BoardTicks(b, 2).ram == b.ram
  {
    hide Check, Committed, Tracked;
    var b1, s1 := BoardTick(b), Tick(s);
    assert b1.regs == s1.regs && s1.regs.state == IDLE && !s1.regs.we;
    assert b1.ram == b.ram && s1.ram == s.ram && b1.ports == s1.ports == s.ports;
    SecondClock(b1, s1);
    assert BoardTicks(b, 1) == b1 && Ticks(s, 1) == s1;
    assert BoardTicks(b, 2) == BoardTick(b1) && Ticks(s, 2) == Tick(s1);
  }

  lemma SecondClock(b: Board, s: System)
    requires |b.ram| == DEPTH && |s.ram| == ZONES && b.regs == s.regs && b.ports == s.ports && b.ram[..ZONES] == s.ram
    requires !s.ports.trigger && s.regs.state == IDLE && !s.regs.we
    ensures Mirrors(BoardTick(b), Tick(s)) && BoardTick(b).ram == b.ram
  {
    hide Check, Committed, Tracked;
    assert BoardTick(b).ram == b.ram && Tick(s).ram == s.ram;
  }

  function BoardStart(b: Board, c: Command): Board {
    b.(ports := Ports(true, c.cmd, c.page, c.zone, c.thermal, false))
  }

  // One command on the board, clocked as often as the driver clocks the simulator.
  function BoardCommand(b: Board, c: Command, polls: nat): Board
    requires |b.ram| == DEPTH
  {
    var done := BoardTicks(BoardStart(b, c), polls);
    BoardTicks(done.(ports := done.ports.(trigger := false)), 2)
  }

  // The board and the simulator go through every command alike, and the words
  // past the last zone stay as they were.
  lemma CommandMirrors(b: Board, s: System, c: Command)
    requires Mirrors(b, s) && c.zone < ZONES
    ensures var b' := BoardCommand(b, c, Polls(Start(s, c)));
            Mirrors(b', RunCommand(s, c)) && b'.ram[ZONES..] == b.ram[ZONES..]
  {
    var started, board := Start(s, c), BoardStart(b, c);
    CommandRuns(started);
    BoardRuns(board, started);
    var b', s' := BoardTicks(board, Polls(started)), Finished(started);
    assert s'.addr == c.zone && (s'.regs.state == UPDATE_BRAM || s'.regs.state == ERROR) && !s'.regs.we &&
      |s'.ram| == ZONES;
    hide Ticks, BoardTicks, Finished, Error, Mirrors;
    BoardEnds(b'.(ports := b'.ports.(trigger := false)), s'.(ports := s'.ports.(trigger := false)));
  }
}

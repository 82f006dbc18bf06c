// The validator clocked against its block RAM (hardware_bridge.cpp): what one
// command does, and what every run of commands keeps.
module ZnsSystem {
  import opened Flash
  import opened ZnsRtl

  const ZONES := 1024

  // `addr` is the address the validator drove after the last clock; `latch` is
  // the registered read data of the RAM.
  datatype System = System(regs: Regs, ports: Ports, addr: nat, latch: nat, ram: seq<nat>)

  function Tick(s: System): System
    requires |s.ram| == ZONES
  {
    var word := if s.addr < ZONES then s.latch else 0;
    var regs := ClockEdge(s.regs, s.ports, word);
    s.(regs := regs,
       latch := if s.addr < ZONES then s.ram[s.addr] else s.latch,
       ram := if regs.we && s.addr < ZONES then s.ram[s.addr := regs.wdata] else s.ram,
       addr := BramAddr(regs.state, s.ports))
  }

  function Ticks(s: System, n: nat): (s': System)
    requires |s.ram| == ZONES
    ensures |s'.ram| == ZONES
  {
    if n == 0 then s else Tick(Ticks(s, n - 1))
  }

  predicate Idle(s: System) {
    |s.ram| == ZONES && s.regs.state == IDLE && s.regs.status == 0 && !s.regs.we
  }

  // The word the validator reads for the addressed zone: empty past the last one.
  function Word(s: System, zone: nat): nat
    requires |s.ram| == ZONES
  {
    if zone < ZONES then s.ram[zone] else 0
  }

  function Error(s: System): nat
    requires |s.ram| == ZONES
  {
    Check(s.ports, Word(s, s.ports.zone), s.regs.openZones)
  }

  // How many polls the driver needs before the status is 1 or 3.
  function Polls(s: System): nat
    requires |s.ram| == ZONES
  {
    if Error(s) != 0 then 5 else 6
  }

  // What the array's output latch holds once the addressed word has been read.
  function Latched(s: System): nat
    requires |s.ram| == ZONES
  {
    if s.ports.zone < ZONES then s.ram[s.ports.zone] else if s.addr < ZONES then s.ram[s.addr] else s.latch
  }

  // The system when the status becomes readable, counted from the trigger. A
  // zone past the last one has no word to store.
  function Finished(s: System): System
    requires |s.ram| == ZONES
  {
    var zone := s.ports.zone;
    if Error(s) != 0 then
      s.(regs := s.regs.(state := ERROR, status := 1, errCode := Error(s)), addr := zone, latch := Latched(s))
    else
      var word := Word(s, zone);
      var wdata := Committed(s.ports, word, s.regs.wdata);
      s.(regs := Regs(UPDATE_BRAM, 3, 0, false, wdata, Tracked(s.ports, word, s.regs.openZones)),
         addr := zone,
         latch := if zone < ZONES then wdata else Latched(s),
         ram := if zone < ZONES then s.ram[zone := wdata] else s.ram)
  }

  // From idle, with the inputs held: the polled status is 0, 2, 2, 2 and then
  // 1 with the checker's code, or 2 and 3 with one word committed.
  lemma CommandRuns(s: System)
    requires Idle(s) && s.ports.trigger
    ensures Ticks(s, 1).regs.status == 0 && Ticks(s, 2).regs.status == 2
    ensures Ticks(s, 3).regs.status == 2 && Ticks(s, 4).regs.status == 2
    ensures Error(s) == 0 ==> Ticks(s, 5).regs.status == 2
    ensures Ticks(s, Polls(s)) == Finished(s)
  {
    var zone := s.ports.zone;
    var s1 := Tick(s);
    assert Ticks(s, 1) == s1;
    assert s1 == s.(regs := s.regs.(state := BRAM_READ), addr := zone, latch := s1.latch);
    var s2 := Tick(s1);
    assert Ticks(s, 2) == s2;
    assert s2 == s.(regs := s.regs.(state := BRAM_WAIT, status := 2), addr := zone, latch := Latched(s));
    var s3 := Tick(s2);
    assert Ticks(s, 3) == s3;
    assert s3 == s2.(regs := s2.regs.(state := VALIDATE));
    var s4 := Tick(s3);
    assert Ticks(s, 4) == s4;
    assert s4 == s2.(regs := s2.regs.(state := if Error(s) != 0 then ERROR else EXECUTE));
    var s5 := Tick(s4);
    assert Ticks(s, 5) == s5;
    if Error(s) == 0 {
      assert Ticks(s, 6) == Tick(s5);
    }
  }

  // Two clocks after the trigger is dropped the machine is idle again.
  lemma CommandEnds(s: System)
    requires |s.ram| == ZONES && !s.ports.trigger
    requires s.regs.state == ERROR || s.regs.state == UPDATE_BRAM
    requires !s.regs.we
    ensures var s' := Ticks(s, 2);
            && Idle(s') && s'.ram == s.ram && s'.regs.wdata == s.regs.wdata
            && s'.regs.openZones == s.regs.openZones && s'.ports == s.ports
  {
    var s1 := Tick(s);
    assert Ticks(s, 1) == s1;
    assert Ticks(s, 2) == Tick(s1);
  }

  // ---------- runs of commands ----------

  datatype Command = Command(cmd: nat, page: nat, zone: nat, thermal: bool)

  function Start(s: System, c: Command): System {
    s.(ports := Ports(true, c.cmd, c.page, c.zone, c.thermal, false))
  }

  // One command from trigger to idle.
  function RunCommand(s: System, c: Command): System
    requires |s.ram| == ZONES
  {
    var done := Ticks(Start(s, c), Polls(Start(s, c)));
    Ticks(done.(ports := done.ports.(trigger := false)), 2)
  }

  predicate Accepted(s: System, c: Command)
    requires |s.ram| == ZONES
  {
    Error(Start(s, c)) == 0
  }

  // What a command leaves behind: nothing changed if rejected; if accepted, the
  // counter moved, and one word stored exactly when the zone exists.
  lemma CommandEffect(s: System, c: Command)
    requires Idle(s)
    ensures var s', word := RunCommand(s, c), Word(s, c.zone);
            && Idle(s')
            && (!Accepted(s, c) ==>
                  s'.ram == s.ram && s'.regs.openZones == s.regs.openZones && s'.regs.wdata == s.regs.wdata)
            && (Accepted(s, c) ==>
                  && s'.regs.wdata == Committed(Start(s, c).ports, word, s.regs.wdata)
                  && s'.ram == (if c.zone < ZONES then s.ram[c.zone := s'.regs.wdata] else s.ram)
                  && s'.regs.openZones == Tracked(Start(s, c).ports, word, s.regs.openZones))
  {
    var started := Start(s, c);
    CommandRuns(started);
    var done := Finished(started);
    CommandEnds(done.(ports := done.ports.(trigger := false)));
  }

  // An accepted write or reset is stored exactly when its zone is in the table:
  // past the last zone the word it computed differs from every word read there.
  lemma StoredIffInTable(s: System, c: Command)
    requires Inv(s) && Accepted(s, c) && (c.cmd == CMD_WRITE || c.cmd == CMD_RESET)
    ensures Word(RunCommand(s, c), c.zone) == RunCommand(s, c).regs.wdata <==> c.zone < ZONES
  {
    CommandEffect(s, c);
    if c.zone >= ZONES {
      PackFields(0, false, 1);
    }
  }

  function Counted(word: nat): nat {
    if IsOpen(word) then 1 else 0
  }

  ghost function OpenCount(ram: seq<nat>): nat {
    if |ram| == 0 then 0
    else OpenCount(ram[..|ram| - 1]) + Counted(ram[|ram| - 1])
  }

  lemma {:induction false} OpenCountUpdate(ram: seq<nat>, i: nat, word: nat)
    requires i < |ram|
    ensures OpenCount(ram[i := word]) == OpenCount(ram) - Counted(ram[i]) + Counted(word)
    ensures IsOpen(ram[i]) ==> OpenCount(ram) > 0
  {
    var last := |ram| - 1;
    if i == last {
      assert ram[i := word][..last] == ram[..last];
    } else {
      assert ram[i := word][..last] == ram[..last][i := word];
      OpenCountUpdate(ram[..last], i, word);
    }
  }

  // Between commands the counter is the number of partly written zones, at most
  // four; a zone is full exactly when its write pointer is 64; no zone has been
  // erased more than ten times.
  ghost predicate Inv(s: System) {
    && Idle(s) && (forall i :: 0 <= i < ZONES ==> WordOk(s.ram[i])) && WordOk(s.regs.wdata)
    && s.regs.openZones == OpenCount(s.ram) <= 4
  }

  lemma PoweredUp(ports: Ports, latch: nat)
    ensures Inv(System(PowerUp, ports, 0, latch, seq(ZONES, _ => 0)))
  {
    NoneOpen(seq(ZONES, _ => 0));
  }

  lemma {:induction false} NoneOpen(ram: seq<nat>)
    requires forall i :: 0 <= i < |ram| ==> ram[i] == 0
    ensures OpenCount(ram) == 0
  {
    if |ram| > 0 {
      NoneOpen(ram[..|ram| - 1]);
    }
  }

  // Neither a write nor a reset, yet accepted: it stores the word last
  // committed, wherever that was, into the zone it addresses.
  predicate Restores(s: System, c: Command)
    requires |s.ram| == ZONES
  {
    c.zone < ZONES && Accepted(s, c) && c.cmd != CMD_WRITE && c.cmd != CMD_RESET
  }

  // A write of page 0 past the last zone, with a resource left to take.
  predicate OpensNothing(s: System, c: Command) {
    c.zone >= ZONES && c.cmd == CMD_WRITE && !c.thermal && c.page == 0 && s.regs.openZones < 4
  }

  // An accepted write or reset commits a well-formed word, and the counter moves
  // exactly when the zone opens or closes.
  lemma CommittedIsCounted(ports: Ports, word: nat, wdata: nat, openZones: nat)
    requires WordOk(word) && openZones <= 4 && (IsOpen(word) ==> openZones > 0)
    requires ports.cmd == CMD_WRITE || ports.cmd == CMD_RESET
    requires Check(ports, word, openZones) == 0
    ensures WordOk(Committed(ports, word, wdata))
    ensures Tracked(ports, word, openZones)
         == openZones - Counted(word) + Counted(Committed(ports, word, wdata)) <= 4
  {
    if ports.cmd == CMD_WRITE {
      PackFields(EraseCount(word), Wptr(word) == 63, Wptr(word) + 1);
    } else {
      PackFields(EraseCount(word) + 1, false, 0);
    }
  }

  lemma CommandInTableKeepsInvariant(s: System, c: Command)
    requires Inv(s) && c.zone < ZONES
    ensures Inv(RunCommand(s, c)) <==> (Restores(s, c) ==> IsOpen(s.regs.wdata) == IsOpen(s.ram[c.zone]))
  {
    var s', word, ports := RunCommand(s, c), s.ram[c.zone], Start(s, c).ports;
    CommandEffect(s, c);
    OpenCountUpdate(s.ram, c.zone, s'.regs.wdata);
    assert Accepted(s, c) <==> Check(ports, word, s.regs.openZones) == 0;
    if Accepted(s, c) && !Restores(s, c) {
      CommittedIsCounted(ports, word, s.regs.wdata, s.regs.openZones);
    } else if Restores(s, c) {
      assert s'.regs.wdata == s.regs.wdata && s'.regs.openZones == s.regs.openZones;
    }
    hide Start, Accepted, Restores, RunCommand, OpenCount, Check, Committed, Tracked, WordOk, IsOpen;
  }

  // Past the last zone every word reads as empty: only a first-page write is
  // accepted and counted, and nothing is stored.
  lemma CommandPastTableKeepsInvariant(s: System, c: Command)
    requires Inv(s) && c.zone >= ZONES
    ensures Inv(RunCommand(s, c)) <==> !OpensNothing(s, c)
    ensures OpensNothing(s, c) <==> Accepted(s, c) && c.cmd == CMD_WRITE
    ensures RunCommand(s, c).ram == s.ram
    ensures RunCommand(s, c).regs.openZones == s.regs.openZones + (if OpensNothing(s, c) then 1 else 0)
  {
    var ports := Start(s, c).ports;
    CommandEffect(s, c);
    assert Accepted(s, c) <==> Check(ports, 0, s.regs.openZones) == 0;
    PackFields(1, false, 0);
    hide Start, Accepted, RunCommand, OpenCount;
  }

  predicate CountedRight(s: System, c: Command)
    requires |s.ram| == ZONES
  {
    (Restores(s, c) ==> IsOpen(s.regs.wdata) == IsOpen(s.ram[c.zone])) && !OpensNothing(s, c)
  }

  // The invariant survives a command unless the command stores a stale word
  // that is open where the zone is not, or the reverse, or opens a zone that is
  // not there; and then it does not.
  lemma CommandKeepsInvariant(s: System, c: Command)
    requires Inv(s)
    ensures Inv(RunCommand(s, c)) <==> CountedRight(s, c)
  {
    hide RunCommand, Inv, Accepted;
    if c.zone < ZONES {
      CommandInTableKeepsInvariant(s, c);
    } else {
      CommandPastTableKeepsInvariant(s, c);
    }
  }

  function ReadOf(zone: nat, page: nat): Command {
    Command(CMD_READ, page, zone, false)
  }

  // An accepted write makes its own page readable, in addition to what was.
  lemma WriteMakesReadable(s: System, c: Command, page: nat)
    requires Inv(s) && c.zone < ZONES && c.cmd == CMD_WRITE && Accepted(s, c)
    ensures Accepted(RunCommand(s, c), ReadOf(c.zone, page)) <==> Accepted(s, ReadOf(c.zone, page)) || page == c.page
  {
    var word := s.ram[c.zone];
    CommandEffect(s, c);
    assert Check(Start(s, c).ports, word, s.regs.openZones) == 0;
    PackFields(EraseCount(word), Wptr(word) == 63, Wptr(word) + 1);
    ReadableBelowPointer(s, c.zone, page);
    ReadableBelowPointer(RunCommand(s, c), c.zone, page);
    hide RunCommand, Accepted, OpenCount;
  }

  // After an accepted reset no page of the zone can be read.
  lemma ResetMakesUnreadable(s: System, c: Command, page: nat)
    requires Inv(s) && c.zone < ZONES && c.cmd == CMD_RESET && Accepted(s, c)
    ensures !Accepted(RunCommand(s, c), ReadOf(c.zone, page))
  {
    var word := s.ram[c.zone];
    CommandEffect(s, c);
    PackFields((EraseCount(word) + 1) % 256, false, 0);
    ReadableBelowPointer(RunCommand(s, c), c.zone, page);
    hide RunCommand, Accepted, OpenCount;
  }

  // An accepted write moves its zone's pointer on by one page and leaves the
  // erase count alone; the zone is full from the 64th page.
  lemma WriteAdvancesPointer(s: System, c: Command)
    requires Inv(s) && c.zone < ZONES && c.cmd == CMD_WRITE && Accepted(s, c)
    ensures var word, word' := s.ram[c.zone], Word(RunCommand(s, c), c.zone);
            && Wptr(word') == Wptr(word) + 1 == c.page + 1 && (IsFull(word') <==> Wptr(word') == 64)
            && EraseCount(word') == EraseCount(word)
  {
    var word := s.ram[c.zone];
    CommandEffect(s, c);
    assert Check(Start(s, c).ports, word, s.regs.openZones) == 0;
    PackFields(EraseCount(word), Wptr(word) == 63, Wptr(word) + 1);
    hide RunCommand, Accepted, OpenCount;
  }

  // An accepted reset empties its zone and adds one to its erase count.
  lemma ResetAddsErase(s: System, c: Command)
    requires Inv(s) && c.zone < ZONES && c.cmd == CMD_RESET && Accepted(s, c)
    ensures var word, word' := s.ram[c.zone], Word(RunCommand(s, c), c.zone);
            Wptr(word') == 0 && !IsFull(word') && EraseCount(word') == EraseCount(word) + 1 <= 10
  {
    var word := s.ram[c.zone];
    CommandEffect(s, c);
    assert Check(Start(s, c).ports, word, s.regs.openZones) == 0;
    PackFields(EraseCount(word) + 1, false, 0);
    hide RunCommand, Accepted, OpenCount;
  }

  // The verdict on a command to an existing zone.
  lemma AcceptedExactly(s: System, c: Command)
    requires Inv(s) && c.zone < ZONES
    ensures var word := s.ram[c.zone];
            && (c.thermal ==> !Accepted(s, c) && Error(Start(s, c)) == 8)
            && (!c.thermal && c.cmd == CMD_WRITE ==>
                  (Accepted(s, c) <==> c.page == Wptr(word) < 64 && (Wptr(word) == 0 ==> s.regs.openZones < 4)))
            && (!c.thermal && c.cmd == CMD_RESET ==> (Accepted(s, c) <==> EraseCount(word) < 10))
            && (!c.thermal && c.cmd == CMD_READ ==> (Accepted(s, c) <==> c.page < Wptr(word)))
            && (!c.thermal && c.cmd > CMD_RESET ==> (Accepted(s, c) <==> c.cmd != 99))
  {
    assert WordOk(s.ram[c.zone]);
    hide OpenCount;
  }

  lemma ReadableBelowPointer(s: System, zone: nat, page: nat)
    requires |s.ram| == ZONES && zone < ZONES
    ensures Accepted(s, ReadOf(zone, page)) <==> page < Wptr(s.ram[zone])
  {}

  // A command touches no other zone's word.
  lemma OtherZonesKept(s: System, c: Command, zone: nat)
    requires Idle(s) && zone < ZONES && zone != c.zone
    ensures |RunCommand(s, c).ram| == ZONES && RunCommand(s, c).ram[zone] == s.ram[zone]
  {
    CommandEffect(s, c);
    hide RunCommand, Accepted;
  }

  // ---------- runs ----------

  function Run(s: System, cs: seq<Command>): (s': System)
    requires |s.ram| == ZONES
    ensures |s'.ram| == ZONES
  {
    if |cs| == 0 then s else RunCommand(Run(s, cs[..|cs| - 1]), cs[|cs| - 1])
  }

  lemma RunOneMore(s: System, cs: seq<Command>, c: Command)
    requires |s.ram| == ZONES
    ensures Run(s, cs + [c]) == RunCommand(Run(s, cs), c)
  {
    assert (cs + [c])[..|cs|] == cs;
  }

  lemma RunPrefix(s: System, cs: seq<Command>, i: nat)
    requires |s.ram| == ZONES && i < |cs|
    ensures Run(s, cs[..i + 1]) == RunCommand(Run(s, cs[..i]), cs[i])
  {
    assert cs[..i + 1] == cs[..i] + [cs[i]];
    RunOneMore(s, cs[..i], cs[i]);
  }

  // No command of the run stores a stale word that counts differently, and none
  // opens a zone that is not there.
  ghost predicate AllCountedRight(s: System, cs: seq<Command>)
    requires |s.ram| == ZONES
  {
    forall i :: 0 <= i < |cs| ==> CountedRight(Run(s, cs[..i]), cs[i])
  }

  lemma {:induction false} PrefixKeepsInvariant(s: System, cs: seq<Command>, i: nat)
    requires Inv(s) && AllCountedRight(s, cs) && i <= |cs|
    ensures Inv(Run(s, cs[..i]))
  {
    if i > 0 {
      PrefixKeepsInvariant(s, cs, i - 1);
      RunPrefix(s, cs, i - 1);
      assert CountedRight(Run(s, cs[..i - 1]), cs[i - 1]);
      hide Inv, CountedRight, RunCommand, Run;
      CommandKeepsInvariant(Run(s, cs[..i - 1]), cs[i - 1]);
    }
  }

  // The invariant holds after every command of a run exactly when each command
  // is counted right.
  lemma RunKeepsInvariant(s: System, cs: seq<Command>)
    requires Inv(s)
    ensures AllCountedRight(s, cs) <==> forall i :: 0 <= i <= |cs| ==> Inv(Run(s, cs[..i]))
  {
    if AllCountedRight(s, cs) {
      forall i | 0 <= i <= |cs| ensures Inv(Run(s, cs[..i])) {
        PrefixKeepsInvariant(s, cs, i);
      }
    }
    if forall i :: 0 <= i <= |cs| ==> Inv(Run(s, cs[..i])) {
      hide Inv, CountedRight, RunCommand, Run;
      forall i | 0 <= i < |cs| ensures CountedRight(Run(s, cs[..i]), cs[i]) {
        assert Inv(Run(s, cs[..i])) && Inv(Run(s, cs[..i + 1]));
        RunPrefix(s, cs, i);
        CommandKeepsInvariant(Run(s, cs[..i]), cs[i]);
      }
    }
  }

  // A command that is neither a write nor a reset changes no word exactly when
  // it is refused or the word it stores is the one there.
  lemma RereadChangesNothing(s: System, c: Command)
    requires Idle(s) && c.zone < ZONES && c.cmd != CMD_WRITE && c.cmd != CMD_RESET
    ensures RunCommand(s, c).ram == s.ram <==> (Accepted(s, c) ==> s.regs.wdata == s.ram[c.zone])
    ensures RunCommand(s, c).regs.openZones == s.regs.openZones && RunCommand(s, c).regs.wdata == s.regs.wdata
  {
    CommandEffect(s, c);
    hide RunCommand;
  }

  // ---------- runs as the host sees them ----------

  // The verdict on every command, which the driver reports.
  function Verdicts(s: System, cs: seq<Command>): (oks: seq<bool>)
    requires |s.ram| == ZONES
    ensures |oks| == |cs|
  {
    if |cs| == 0 then []
    else Verdicts(s, cs[..|cs| - 1]) + [Accepted(Run(s, cs[..|cs| - 1]), cs[|cs| - 1])]
  }

  // The zone last committed, from the commands and their verdicts alone. An
  // accepted write or reset past the last zone leaves none.
  function LastCommitted(cs: seq<Command>, oks: seq<bool>, last: Option<nat>): Option<nat>
    requires |oks| == |cs|
  {
    if |cs| == 0 then last
    else
      var n := |cs| - 1;
      if !oks[n] then LastCommitted(cs[..n], oks[..n], last)
      else if cs[n].zone < ZONES then Some(cs[n].zone)
      else if cs[n].cmd == CMD_WRITE || cs[n].cmd == CMD_RESET then None
      else LastCommitted(cs[..n], oks[..n], last)
  }

  // Commands other than writes and resets are refused or address the zone last
  // committed, and no accepted write goes past the last zone.
  ghost predicate Disciplined(cs: seq<Command>, oks: seq<bool>, last: Option<nat>)
    requires |oks| == |cs|
  {
    forall i :: 0 <= i < |cs| && oks[i] ==> DisciplinedAt(cs[i], LastCommitted(cs[..i], oks[..i], last))
  }

  predicate DisciplinedAt(c: Command, last: Option<nat>) {
    && (c.cmd == CMD_WRITE ==> c.zone < ZONES)
    && (c.cmd != CMD_WRITE && c.cmd != CMD_RESET && c.zone < ZONES ==> last == Some(c.zone))
  }

  // The register holds the word of the zone last committed.
  predicate Holds(s: System, last: Option<nat>)
    requires |s.ram| == ZONES
  {
    last.Some? ==> last.value < ZONES && s.regs.wdata == s.ram[last.value]
  }

  lemma DisciplinedStep(s: System, c: Command, last: Option<nat>)
    requires Inv(s) && Holds(s, last) && (Accepted(s, c) ==> DisciplinedAt(c, last))
    ensures Inv(RunCommand(s, c))
    ensures Holds(RunCommand(s, c), LastCommitted([c], [Accepted(s, c)], last))
    ensures c.cmd != CMD_WRITE && c.cmd != CMD_RESET ==> RunCommand(s, c).ram == s.ram
  {
    CommandEffect(s, c);
    CommandKeepsInvariant(s, c);
    if c.zone >= ZONES {
      CommandPastTableKeepsInvariant(s, c);
    }
    assert LastCommitted([c][..0], [Accepted(s, c)][..0], last) == last;
    hide RunCommand, Inv, Accepted;
  }

  lemma LastCommittedPrefix(cs: seq<Command>, oks: seq<bool>, last: Option<nat>, i: nat)
    requires i < |cs| == |oks|
    ensures LastCommitted(cs[..i + 1], oks[..i + 1], last)
         == LastCommitted([cs[i]], [oks[i]], LastCommitted(cs[..i], oks[..i], last))
  {
    assert cs[..i + 1][..i] == cs[..i] && oks[..i + 1][..i] == oks[..i];
    assert LastCommitted([cs[i]][..0], [oks[i]][..0], LastCommitted(cs[..i], oks[..i], last))
        == LastCommitted(cs[..i], oks[..i], last);
  }

  lemma {:induction false} VerdictAt(s: System, cs: seq<Command>, i: nat)
    requires |s.ram| == ZONES && i < |cs|
    ensures Verdicts(s, cs)[i] == Accepted(Run(s, cs[..i]), cs[i])
  {
    if i < |cs| - 1 {
      VerdictAt(s, cs[..|cs| - 1], i);
      assert cs[..|cs| - 1][..i] == cs[..i];
    }
  }

  lemma {:induction false} DisciplinedPrefix(s: System, cs: seq<Command>, last: Option<nat>, i: nat)
    requires Inv(s) && Holds(s, last) && Disciplined(cs, Verdicts(s, cs), last) && i <= |cs|
    ensures Inv(Run(s, cs[..i]))
    ensures Holds(Run(s, cs[..i]), LastCommitted(cs[..i], Verdicts(s, cs)[..i], last))
  {
    if i > 0 {
      DisciplinedPrefix(s, cs, last, i - 1);
      hide Inv, Holds, RunCommand, Run, Verdicts, Accepted, LastCommitted, DisciplinedAt;
      RunPrefix(s, cs, i - 1);
      VerdictAt(s, cs, i - 1);
      LastCommittedPrefix(cs, Verdicts(s, cs), last, i - 1);
      DisciplinedStep(Run(s, cs[..i - 1]), cs[i - 1], LastCommitted(cs[..i - 1], Verdicts(s, cs)[..i - 1], last));
    }
  }

  // Every disciplined run keeps the invariant throughout, and only its writes
  // and resets ever change a word.
  lemma DisciplinedRun(s: System, cs: seq<Command>, last: Option<nat>, i: nat)
    requires Inv(s) && Holds(s, last) && Disciplined(cs, Verdicts(s, cs), last) && i < |cs|
    ensures Inv(Run(s, cs[..i])) && Inv(Run(s, cs[..i + 1]))
    ensures cs[i].cmd != CMD_WRITE && cs[i].cmd != CMD_RESET ==> Run(s, cs[..i + 1]).ram == Run(s, cs[..i]).ram
  {
    DisciplinedPrefix(s, cs, last, i);
    hide Inv, Holds, RunCommand, Run, Verdicts, Accepted, LastCommitted, DisciplinedAt;
    RunPrefix(s, cs, i);
    VerdictAt(s, cs, i);
    DisciplinedStep(Run(s, cs[..i]), cs[i], LastCommitted(cs[..i], Verdicts(s, cs)[..i], last));
  }

  // ---------- what the host can reckon from the verdicts ----------

  predicate Did(c: Command, ok: bool, cmd: nat, zone: nat) {
    ok && c.cmd == cmd && c.zone == zone
  }

  // Accepted resets of a zone.
  function Resets(cs: seq<Command>, oks: seq<bool>, zone: nat): nat
    requires |oks| == |cs|
  {
    if |cs| == 0 then 0
    else
      var n := |cs| - 1;
      Resets(cs[..n], oks[..n], zone) + (if Did(cs[n], oks[n], CMD_RESET, zone) then 1 else 0)
  }

  // Accepted writes to a zone since its last accepted reset.
  function PagesWritten(cs: seq<Command>, oks: seq<bool>, zone: nat): nat
    requires |oks| == |cs|
  {
    if |cs| == 0 then 0
    else
      var n := |cs| - 1;
      if Did(cs[n], oks[n], CMD_RESET, zone) then 0
      else PagesWritten(cs[..n], oks[..n], zone) + (if Did(cs[n], oks[n], CMD_WRITE, zone) then 1 else 0)
  }

  // Zones with some but not all of their pages written.
  ghost function ReckonedOpen(cs: seq<Command>, oks: seq<bool>): set<nat>
    requires |oks| == |cs|
  {
    set zone | 0 <= zone < ZONES && 0 < PagesWritten(cs, oks, zone) < 64
  }

  lemma ReckonedMore(cs: seq<Command>, oks: seq<bool>, i: nat, zone: nat)
    requires i < |cs| == |oks|
    ensures Resets(cs[..i + 1], oks[..i + 1], zone)
         == Resets(cs[..i], oks[..i], zone) + (if Did(cs[i], oks[i], CMD_RESET, zone) then 1 else 0)
    ensures PagesWritten(cs[..i + 1], oks[..i + 1], zone)
         == if Did(cs[i], oks[i], CMD_RESET, zone) then 0
            else PagesWritten(cs[..i], oks[..i], zone) + (if Did(cs[i], oks[i], CMD_WRITE, zone) then 1 else 0)
  {
    assert cs[..i + 1][..i] == cs[..i] && oks[..i + 1][..i] == oks[..i];
  }

  ghost predicate Blank(s: System) {
    Inv(s) && s.regs.wdata == 0 && forall i :: 0 <= i < ZONES ==> s.ram[i] == 0
  }

  lemma StepReckoned(s: System, c: Command, last: Option<nat>, zone: nat)
    requires Inv(s) && Holds(s, last) && (Accepted(s, c) ==> DisciplinedAt(c, last)) && zone < ZONES
    ensures |RunCommand(s, c).ram| == ZONES
    ensures EraseCount(RunCommand(s, c).ram[zone])
         == EraseCount(s.ram[zone]) + (if Did(c, Accepted(s, c), CMD_RESET, zone) then 1 else 0)
    ensures Wptr(RunCommand(s, c).ram[zone])
         == if Did(c, Accepted(s, c), CMD_RESET, zone) then 0
            else Wptr(s.ram[zone]) + (if Did(c, Accepted(s, c), CMD_WRITE, zone) then 1 else 0)
  {
    DisciplinedStep(s, c, last);
    if c.zone != zone {
      OtherZonesKept(s, c, zone);
    } else if Accepted(s, c) && c.cmd == CMD_WRITE {
      WriteAdvancesPointer(s, c);
    } else if Accepted(s, c) && c.cmd == CMD_RESET {
      ResetAddsErase(s, c);
    } else {
      CommandEffect(s, c);
    }
    hide Inv, Holds, RunCommand, Accepted, Wptr, EraseCount;
  }

  ghost predicate AsReckoned(ram: seq<nat>, cs: seq<Command>, oks: seq<bool>, zone: nat)
    requires |oks| == |cs|
  {
    zone < |ram| && EraseCount(ram[zone]) == Resets(cs, oks, zone) && Wptr(ram[zone]) == PagesWritten(cs, oks, zone)
  }

  lemma OneMoreReckoned(s: System, cs: seq<Command>, oks: seq<bool>, i: nat, last: Option<nat>, zone: nat)
    requires i < |cs| == |oks| && Inv(s) && Holds(s, last) && oks[i] == Accepted(s, cs[i]) && zone < ZONES
    requires (oks[i] ==> DisciplinedAt(cs[i], last)) && AsReckoned(s.ram, cs[..i], oks[..i], zone)
    ensures AsReckoned(RunCommand(s, cs[i]).ram, cs[..i + 1], oks[..i + 1], zone)
  {
    hide Inv, Holds, RunCommand, Accepted, DisciplinedAt, Resets, PagesWritten, Wptr, EraseCount;
    StepReckoned(s, cs[i], last, zone);
    ReckonedMore(cs, oks, i, zone);
  }

  // From power-up, after any disciplined run, a zone's erase count is the number
  // of its accepted resets, and its write pointer the number of writes accepted
  // since the last of them.
  lemma {:induction false} ZonesAreReckoned(s: System, cs: seq<Command>, i: nat, zone: nat)
    requires Blank(s) && Disciplined(cs, Verdicts(s, cs), Some(0)) && i <= |cs| && zone < ZONES
    ensures AsReckoned(Run(s, cs[..i]).ram, cs[..i], Verdicts(s, cs)[..i], zone)
  {
    var oks := Verdicts(s, cs);
    if i == 0 {
      assert Run(s, cs[..0]) == s;
    } else {
      ZonesAreReckoned(s, cs, i - 1, zone);
      DisciplinedPrefix(s, cs, Some(0), i - 1);
      hide Inv, Holds, RunCommand, Run, Verdicts, Accepted, LastCommitted, DisciplinedAt, AsReckoned;
      RunPrefix(s, cs, i - 1);
      VerdictAt(s, cs, i - 1);
      OneMoreReckoned(Run(s, cs[..i - 1]), cs, oks, i - 1, LastCommitted(cs[..i - 1], oks[..i - 1], Some(0)), zone);
    }
  }

  ghost function OpenSet(ram: seq<nat>): set<nat> {
    set i | 0 <= i < |ram| && IsOpen(ram[i])
  }

  lemma {:induction false} OpenCountIsSize(ram: seq<nat>)
    ensures OpenCount(ram) == |OpenSet(ram)|
  {
    if |ram| > 0 {
      var last := |ram| - 1;
      OpenCountIsSize(ram[..last]);
      assert OpenSet(ram) == OpenSet(ram[..last]) + (if IsOpen(ram[last]) then {last} else {});
    } else {
      assert OpenSet(ram) == {};
    }
  }

  // So every verdict on a zone can be told from the verdicts before it: a write
  // is accepted exactly at the next page of a zone with room, if it opens none
  // or fewer than four are open; a reset exactly when fewer than ten went
  // before; a read exactly of a page written since the last reset.
  lemma VerdictsAreReckoned(s: System, cs: seq<Command>, i: nat)
    requires Blank(s) && Disciplined(cs, Verdicts(s, cs), Some(0)) && i < |cs| && cs[i].zone < ZONES
    ensures var oks, c := Verdicts(s, cs), cs[i];
            var pages := PagesWritten(cs[..i], oks[..i], c.zone);
            && (c.thermal ==> !oks[i])
            && (!c.thermal && c.cmd == CMD_WRITE ==>
                  (oks[i] <==> c.page == pages < 64 && (pages == 0 ==> |ReckonedOpen(cs[..i], oks[..i])| < 4)))
            && (!c.thermal && c.cmd == CMD_RESET ==> (oks[i] <==> Resets(cs[..i], oks[..i], c.zone) < 10))
            && (!c.thermal && c.cmd == CMD_READ ==> (oks[i] <==> c.page < pages))
  {
    var before := Run(s, cs[..i]);
    VerdictAt(s, cs, i);
    DisciplinedPrefix(s, cs, Some(0), i);
    ZonesAreReckoned(s, cs, i, cs[i].zone);
    OpenIsReckoned(s, cs, i);
    assert before.regs.openZones == OpenCount(before.ram);
    hide Inv, Run, Verdicts, Accepted, Resets, PagesWritten, Wptr, EraseCount, ReckonedOpen, OpenCount;
    AcceptedExactly(before, cs[i]);
  }

  lemma OpenIsReckoned(s: System, cs: seq<Command>, i: nat)
    requires Blank(s) && Disciplined(cs, Verdicts(s, cs), Some(0)) && i <= |cs|
    ensures OpenCount(Run(s, cs[..i]).ram) == |ReckonedOpen(cs[..i], Verdicts(s, cs)[..i])|
  {
    var ram, oks := Run(s, cs[..i]).ram, Verdicts(s, cs);
    OpenCountIsSize(ram);
    hide Run, Verdicts, PagesWritten, Wptr, OpenCount, Inv;
    forall zone | 0 <= zone < ZONES ensures IsOpen(ram[zone]) <==> 0 < PagesWritten(cs[..i], oks[..i], zone) < 64 {
      ZonesAreReckoned(s, cs, i, zone);
    }
    assert OpenSet(ram) == ReckonedOpen(cs[..i], oks[..i]);
  }

  lemma PowerUpIsBlank(ports: Ports, latch: nat)
    ensures Blank(System(PowerUp, ports, 0, latch, seq(ZONES, _ => 0)))
  {
    PoweredUp(ports, latch);
  }

  // In particular writes and resets of existing zones, in any order.
  lemma WritesAndResetsDisciplined(cs: seq<Command>, oks: seq<bool>, last: Option<nat>)
    requires |oks| == |cs|
    requires forall i :: 0 <= i < |cs| ==> (cs[i].cmd == CMD_WRITE || cs[i].cmd == CMD_RESET) && cs[i].zone < ZONES
    ensures Disciplined(cs, oks, last)
  {}

  lemma FirstPage(s: System, zone: nat)
    requires Idle(s) && zone < ZONES && s.ram[zone] == 0 && s.regs.openZones < 4
    ensures var s' := RunCommand(s, Command(CMD_WRITE, 0, zone, false));
            Idle(s') && s'.ram == s.ram[zone := 1] && s'.regs.openZones == s.regs.openZones + 1
            && OpenCount(s'.ram) == OpenCount(s.ram) + 1
  {
    CommandEffect(s, Command(CMD_WRITE, 0, zone, false));
    OpenCountUpdate(s.ram, zone, 1);
  }

  lemma ResetOnePage(s: System, zone: nat)
    requires Idle(s) && zone < ZONES && s.ram[zone] == 1 && s.regs.openZones > 0
    ensures var s' := RunCommand(s, Command(CMD_RESET, 0, zone, false));
            Idle(s') && s'.ram == s.ram[zone := 65536] && s'.regs.wdata == 65536 &&
              s'.regs.openZones == s.regs.openZones - 1
            && OpenCount(s'.ram) == OpenCount(s.ram) - 1
  {
    CommandEffect(s, Command(CMD_RESET, 0, zone, false));
    OpenCountUpdate(s.ram, zone, 65536);
  }

  lemma ReadStale(s: System, zone: nat)
    requires Idle(s) && zone < ZONES && s.ram[zone] == 1 && s.regs.wdata == 65536
    ensures var s' := RunCommand(s, Command(CMD_READ, 0, zone, false));
            s'.ram == s.ram[zone := 65536] && s'.regs.openZones == s.regs.openZones &&
              OpenCount(s'.ram) == OpenCount(s.ram) - 1
  {
    CommandEffect(s, Command(CMD_READ, 0, zone, false));
    OpenCountUpdate(s.ram, zone, 65536);
  }

  // Three commands after which zone 0 holds one page, zone 1 has been
  // reset, and the word last committed is that of zone 1.
  const StalePrefix := [Command(CMD_WRITE, 0, 0, false), Command(CMD_WRITE, 0, 1, false),
    Command(CMD_RESET, 0, 1, false)]

  lemma StalePrefixRuns(s: System)
    requires Inv(s) && s.ram[0] == 0 && s.ram[1] == 0 && s.regs.openZones == 0
    ensures var s' := Run(s, StalePrefix);
            Inv(s') && s'.ram[0] == 1 && s'.regs.wdata == 65536 && s'.regs.openZones == 1
  {
    assert Run(s, []) == s;
    hide RunCommand, OpenCount, Run, WordOk;
    var w0, w1, r1 := StalePrefix[0], StalePrefix[1], StalePrefix[2];
    RunOneMore(s, [], w0);
    RunOneMore(s, [w0], w1);
    RunOneMore(s, [w0, w1], r1);
    assert [] + [w0] == [w0] && [w0] + [w1] == [w0, w1] && [w0, w1] + [r1] == StalePrefix;
    CommandKeepsInvariant(s, w0);
    FirstPage(s, 0);
    CommandKeepsInvariant(Run(s, [w0]), w1);
    FirstPage(Run(s, [w0]), 1);
    CommandKeepsInvariant(Run(s, [w0, w1]), r1);
    ResetOnePage(Run(s, [w0, w1]), 1);
  }

  // A read of another zone does: reading zone 0 now wipes its write pointer, and
  // the counter still counts it.
  lemma StaleReadLosesPages(s: System)
    requires Inv(s) && s.ram[0] == 0 && s.ram[1] == 0 && s.regs.openZones == 0
    ensures var s', s'' := Run(s, StalePrefix), Run(s, StalePrefix + [Command(CMD_READ, 0, 0, false)]);
            Inv(s') && Wptr(s'.ram[0]) == 1 && Wptr(s''.ram[0]) == 0 && s''.regs.openZones == 1 &&
              OpenCount(s''.ram) == 0
  {
    hide RunCommand, Run, OpenCount, WordOk;
    StalePrefixRuns(s);
    ReadStale(Run(s, StalePrefix), 0);
    RunOneMore(s, StalePrefix, Command(CMD_READ, 0, 0, false));
  }
  // Counting right is not keeping the data: a stale word that is open like the
  // one it overwrites keeps the invariant and loses pages.
  lemma CountedRightMayLosePages(s: System, zone: nat)
    requires Inv(s) && zone < ZONES && s.ram[zone] == 40 && s.regs.wdata == 1
    ensures CountedRight(s, ReadOf(zone, 3)) && Inv(RunCommand(s, ReadOf(zone, 3)))
    ensures Accepted(s, ReadOf(zone, 39)) && !Accepted(RunCommand(s, ReadOf(zone, 3)), ReadOf(zone, 39))
  {
    CommandEffect(s, ReadOf(zone, 3));
    CommandKeepsInvariant(s, ReadOf(zone, 3));
    ReadableBelowPointer(RunCommand(s, ReadOf(zone, 3)), zone, 39);
    hide RunCommand, Inv;
  }

  // A write of page 0 past the last zone is accepted, no word is stored, and an
  // open resource is counted for nothing.
  lemma WriteBeyondLastZoneLeaksResource(s: System)
    requires Idle(s) && s.ports.trigger && !s.ports.thermal && !s.ports.addrBound && s.regs.openZones < 4
    requires s.ports.zone >= ZONES && s.ports.cmd == CMD_WRITE && s.ports.page == 0
    ensures Ticks(s, 6).regs.status == 3 && Ticks(s, 6).ram == s.ram
    ensures Ticks(s, 6).regs.openZones == s.regs.openZones + 1
  {
    hide Ticks;
    CommandRuns(s);
  }
}

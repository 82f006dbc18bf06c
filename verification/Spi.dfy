// The power-loss dump of one telemetry word over SPI (zns_eeprom_controller.v),
// and a receiver on the other end of the wires.
module Spi {
  const BITS := 32

  // Most significant bit first.
  type Word = w: seq<bool> | |w| == BITS witness seq(BITS, _ => false)

  datatype SpiState = SPI_IDLE | SPI_START | SPI_TRANSFER | SPI_DONE

  datatype Regs = Regs(state: SpiState, shift: Word, bitCounter: nat, divider: nat,
                       sck: bool, mosi: bool, csN: bool, busy: bool, done: bool)

  datatype Input = Input(plpTrigger: bool, smartData: Word)

  const ResetRegs := Regs(SPI_IDLE, seq(BITS, _ => false), 0, 0, false, false, true, false, false)

  function Clock(r: Regs, input: Input): Regs {
    var next := (r.divider + 1) % 8;
    match r.state
    case SPI_IDLE =>
      var quiet := r.(sck := false, mosi := false, csN := true, done := false, divider := 0);
      if input.plpTrigger then quiet.(state := SPI_START, shift := input.smartData, busy := true)
      else quiet.(busy := false)
    case SPI_START =>
      var selected := r.(csN := false, divider := next, mosi := r.shift[0]);
      if r.divider == 7 then selected.(state := SPI_TRANSFER, bitCounter := 0, divider := 0) else selected
    case SPI_TRANSFER =>
      if r.divider == 7 then
        var low := r.(sck := false, divider := 0);
        if r.bitCounter == 31 then low.(state := SPI_DONE, mosi := false)
        else low.(shift := r.shift[1..] + [false], bitCounter := (r.bitCounter + 1) % 64, mosi := r.shift[1])
      else r.(divider := next, sck := r.sck || r.divider == 3)
    case SPI_DONE =>
      r.(csN := true, busy := false, done := true, state := if input.plpTrigger then SPI_DONE else SPI_IDLE)
  }

  class ZnsEepromController {
    var spiState: SpiState
    var shiftReg: Word
    var bitCounter: nat
    var clkDivider: nat
    var spiSck: bool
    var spiMosi: bool
    var spiCsN: bool
    var outEepromBusy: bool
    var outEepromDone: bool

    ghost function Value(): Regs
      reads this
    {
      Regs(spiState, shiftReg, bitCounter, clkDivider, spiSck, spiMosi, spiCsN, outEepromBusy, outEepromDone)
    }

    constructor ()
      ensures Value() == ResetRegs
    {
      spiState, shiftReg, bitCounter, clkDivider := SPI_IDLE, seq(BITS, _ => false), 0, 0;
      spiSck, spiMosi, spiCsN, outEepromBusy, outEepromDone := false, false, true, false, false;
    }

    method PosEdge(plpTrigger: bool, smartData: Word)
      modifies this
      ensures Value() == Clock(old(Value()), Input(plpTrigger, smartData))
    {
      var sckTick, bitTick := clkDivider == 3, clkDivider == 7;
      match spiState {
        case SPI_IDLE =>
          spiSck, spiMosi, spiCsN, outEepromDone, clkDivider := false, false, true, false, 0;
          if plpTrigger {
            spiState := SPI_START;
            shiftReg := smartData;
            outEepromBusy := true;
          } else {
            outEepromBusy := false;
          }
        case SPI_START =>
          spiCsN := false;
          clkDivider := (clkDivider + 1) % 8;
          spiMosi := shiftReg[0];
          if bitTick {
            spiState, bitCounter, clkDivider := SPI_TRANSFER, 0, 0;
          }
        case SPI_TRANSFER =>
          clkDivider := (clkDivider + 1) % 8;
          if sckTick {
            spiSck := true;
          }
          if bitTick {
            spiSck := false;
            if bitCounter == 31 {
              spiState := SPI_DONE;
              spiMosi := false;
            } else {
              spiMosi := shiftReg[1];
              shiftReg := shiftReg[1..] + [false];
              bitCounter := (bitCounter + 1) % 64;
            }
            clkDivider := 0;
          }
        case SPI_DONE =>
          spiCsN, outEepromBusy, outEepromDone := true, false, true;
          if !plpTrigger {
            spiState := SPI_IDLE;
          }
      }
    }
  }

  // ---------- the receiver ----------

  // A receiver that samples MOSI when SCK rises while selected; beside it, the
  // words captured so far and the clocks since the last capture.
  datatype Bench = Bench(regs: Regs, received: seq<bool>, words: seq<Word>, clocks: nat)

  function Sampled(before: Regs, after: Regs): seq<bool> {
    if !before.sck && after.sck && !after.csN then [after.mosi] else []
  }

  predicate Captures(r: Regs, input: Input) {
    r.state == SPI_IDLE && input.plpTrigger
  }

  function Step(b: Bench, input: Input): Bench {
    var after := Clock(b.regs, input);
    Bench(after, b.received + Sampled(b.regs, after),
          if Captures(b.regs, input) then b.words + [input.smartData] else b.words,
          if Captures(b.regs, input) then 1 else b.clocks + 1)
  }

  function Run(b: Bench, inputs: seq<Input>): Bench {
    if |inputs| == 0 then b else Step(Run(b, inputs[..|inputs| - 1]), inputs[|inputs| - 1])
  }

  function Flatten(words: seq<Word>): seq<bool> {
    if |words| == 0 then [] else Flatten(words[..|words| - 1]) + words[|words| - 1]
  }

  // What has arrived of the word in flight after `sent` whole bits, with the
  // next one sampled or not.
  function Arrived(word: Word, sent: nat, sampled: bool): seq<bool>
    requires sent < BITS
  {
    if sampled then word[..sent + 1] else word[..sent]
  }

  // Clocks from capture until the last bit has been shifted out.
  const TRANSFER_CLOCKS := 265

  ghost predicate Starting(b: Bench) {
    var r := b.regs;
    && |b.words| > 0 && r.divider < 8 && b.clocks == 1 + r.divider && !r.sck && r.busy && !r.done
    && (r.csN <==> r.divider == 0)
    && r.shift == b.words[|b.words| - 1]
    && b.received == Flatten(b.words[..|b.words| - 1])
  }

  ghost predicate Shifting(b: Bench) {
    var r := b.regs;
    && |b.words| > 0 && r.divider < 8 && r.bitCounter < BITS && b.clocks == 9 + 8 * r.bitCounter + r.divider
    && !r.csN && r.busy && !r.done && (r.sck <==> r.divider >= 4)
    && var word := b.words[|b.words| - 1];
       && r.shift[..BITS - r.bitCounter] == word[r.bitCounter..]
       && r.mosi == word[r.bitCounter]
       && b.received == Flatten(b.words[..|b.words| - 1]) + Arrived(word, r.bitCounter, r.sck)
  }

  ghost predicate Sent(b: Bench) {
    && !b.regs.sck && !b.regs.mosi && b.received == Flatten(b.words) && b.clocks >= TRANSFER_CLOCKS
    && (b.clocks > TRANSFER_CLOCKS ==> b.regs.csN && b.regs.done && !b.regs.busy)
  }

  ghost predicate Inv(b: Bench) {
    match b.regs.state
    case SPI_IDLE => !b.regs.sck && b.received == Flatten(b.words)
    case SPI_START => Starting(b)
    case SPI_TRANSFER => Shifting(b)
    case SPI_DONE => Sent(b)
  }

  lemma StartingStep(b: Bench, input: Input)
    requires b.regs.state == SPI_START && Starting(b)
    ensures Inv(Step(b, input))
  {
    hide Flatten;
    var word := b.words[|b.words| - 1];
    assert word[..32] == word[0..];
    assert word[..0] == [];
  }

  lemma WithinBit(b: Bench, input: Input)
    requires b.regs.state == SPI_TRANSFER && Shifting(b) && b.regs.divider < 7
    ensures Shifting(Step(b, input)) && Step(b, input).regs.state == SPI_TRANSFER
  {
    hide Flatten;
    var word, n := b.words[|b.words| - 1], b.regs.bitCounter;
    assert word[..n + 1] == word[..n] + [word[n]];
  }

  lemma NextBit(b: Bench, input: Input)
    requires b.regs.state == SPI_TRANSFER && Shifting(b) && b.regs.divider == 7 && b.regs.bitCounter < 31
    ensures Shifting(Step(b, input)) && Step(b, input).regs.state == SPI_TRANSFER
  {
    hide Flatten;
    ShiftedSuffix(b.words[|b.words| - 1], b.regs.bitCounter, b.regs.shift);
    var r := b.regs;
    assert Step(b, input) == Bench(
      r.(sck := false, divider := 0, shift := r.shift[1..] + [false], bitCounter := r.bitCounter + 1,
        mosi := r.shift[1]),
      b.received, b.words, b.clocks + 1);
  }

  lemma ShiftedSuffix(word: Word, n: nat, shift: Word)
    requires n < 31 && shift[..BITS - n] == word[n..]
    ensures shift[1] == word[n + 1] && (shift[1..] + [false])[..BITS - (n + 1)] == word[n + 1..]
  {
    assert shift[1] == shift[..BITS - n][1] == word[n..][1];
    assert (shift[1..] + [false])[..BITS - (n + 1)] == shift[..BITS - n][1..];
  }

  lemma LastBit(b: Bench, input: Input)
    requires b.regs.state == SPI_TRANSFER && Shifting(b) && b.regs.divider == 7 && b.regs.bitCounter == 31
    ensures Sent(Step(b, input)) && Step(b, input).regs.state == SPI_DONE
  {
    var word := b.words[|b.words| - 1];
    assert word[..32] == word;
  }

  lemma StepKeepsInv(b: Bench, input: Input)
    requires Inv(b)
    ensures Inv(Step(b, input))
  {
    match b.regs.state
    case SPI_IDLE =>
      if input.plpTrigger {
        assert Step(b, input).words[..|b.words|] == b.words;
      }
    case SPI_START => StartingStep(b, input);
    case SPI_TRANSFER =>
      hide Shifting, Step, Sent;
      if b.regs.divider == 7 {
        if b.regs.bitCounter == 31 {
          LastBit(b, input);
        } else {
          BitsLeft(b);
          NextBit(b, input);
        }
      } else {
        BitsLeft(b);
        WithinBit(b, input);
      }
    case SPI_DONE =>
  }

  lemma BitsLeft(b: Bench)
    requires Shifting(b)
    ensures b.regs.divider < 8 && b.regs.bitCounter < BITS
  {}

  // From reset, under any triggers and any data on the input, the receiver has
  // the captured words, in order and bit for bit, up to the one in flight.
  lemma {:induction false} RunKeepsInv(inputs: seq<Input>)
    ensures Inv(Run(Bench(ResetRegs, [], [], 0), inputs))
  {
    if |inputs| > 0 {
      RunKeepsInv(inputs[..|inputs| - 1]);
      StepKeepsInv(Run(Bench(ResetRegs, [], [], 0), inputs[..|inputs| - 1]), inputs[|inputs| - 1]);
    }
  }

  lemma StepStaysBusy(b: Bench, input: Input)
    requires Inv(b) && b.regs.state != SPI_IDLE && b.clocks < TRANSFER_CLOCKS
    ensures var b' := Step(b, input); b'.regs.state != SPI_IDLE && b'.words == b.words && b'.clocks == b.clocks + 1
  {
    assert b.regs.state != SPI_DONE;
  }

  // After a capture, later inputs are ignored while the word is on its way.
  lemma {:induction false} InFlight(b: Bench, inputs: seq<Input>)
    requires Inv(b) && 1 <= |inputs| <= TRANSFER_CLOCKS && Captures(b.regs, inputs[0])
    ensures var b' := Run(b, inputs);
            && Inv(b') && b'.clocks == |inputs| && b'.words == b.words + [inputs[0].smartData]
            && b'.regs.state != SPI_IDLE
  {
    var last := |inputs| - 1;
    var front := Run(b, inputs[..last]);
    assert Run(b, inputs) == Step(front, inputs[last]);
    if last == 0 {
      assert front == b;
      StepKeepsInv(b, inputs[0]);
    } else {
      InFlight(b, inputs[..last]);
      hide Inv, Run, Step;
      StepKeepsInv(front, inputs[last]);
      StepStaysBusy(front, inputs[last]);
    }
  }

  // The round trip: 265 clocks after a capture the receiver has exactly the 32
  // bits of the captured word, whatever the trigger and the data input did
  // meanwhile, and not before.
  lemma TransferDelivers(b: Bench, inputs: seq<Input>)
    requires Inv(b) && 1 <= |inputs| <= TRANSFER_CLOCKS && Captures(b.regs, inputs[0])
    ensures var b' := Run(b, inputs);
            && (b'.regs.state == SPI_DONE <==> |inputs| == TRANSFER_CLOCKS)
            && (|inputs| == TRANSFER_CLOCKS ==> b'.received == b.received + inputs[0].smartData)
            && (|inputs| < TRANSFER_CLOCKS ==> b'.regs.busy && !b'.regs.done)
  {
    InFlight(b, inputs);
    var b' := Run(b, inputs);
    assert b'.words[..|b.words|] == b.words;
    hide Run;
  }

  // While the trigger is held after a word is out, nothing is captured or sent.
  lemma {:induction false} HeldAfterSent(b: Bench, inputs: seq<Input>)
    requires Inv(b) && b.regs.state == SPI_DONE && forall i :: 0 <= i < |inputs| ==> inputs[i].plpTrigger
    ensures var b' := Run(b, inputs);
            && Inv(b') && b'.regs.state == SPI_DONE && b'.words == b.words && b'.clocks == b.clocks + |inputs|
  {
    if |inputs| > 0 {
      var last := |inputs| - 1;
      HeldAfterSent(b, inputs[..last]);
      StepKeepsInv(Run(b, inputs[..last]), inputs[last]);
      assert Run(b, inputs) == Step(Run(b, inputs[..last]), inputs[last]);
      hide Inv, Run;
    }
  }

  lemma {:induction false} RunSplit(b: Bench, first: seq<Input>, rest: seq<Input>)
    ensures Run(b, first + rest) == Run(Run(b, first), rest)
  {
    if |rest| == 0 {
      assert first + rest == first;
    } else {
      var last := |rest| - 1;
      assert (first + rest)[..|first + rest| - 1] == first + rest[..last];
      RunSplit(b, first, rest[..last]);
    }
  }

  // A trigger that is held sends its word once, however long it is held.
  lemma HeldTriggerSendsOnce(b: Bench, inputs: seq<Input>)
    requires Inv(b) && |inputs| >= TRANSFER_CLOCKS && Captures(b.regs, inputs[0])
    requires forall i :: 0 <= i < |inputs| ==> inputs[i].plpTrigger
    ensures var b' := Run(b, inputs);
            && b'.regs.state == SPI_DONE && b'.words == b.words + [inputs[0].smartData]
            && b'.received == Flatten(b.words + [inputs[0].smartData])
            && (|inputs| > TRANSFER_CLOCKS ==> b'.regs.csN && b'.regs.done && !b'.regs.busy)
  {
    var first, rest := inputs[..TRANSFER_CLOCKS], inputs[TRANSFER_CLOCKS..];
    InFlight(b, first);
    TransferDelivers(b, first);
    HeldAfterSent(Run(b, first), rest);
    RunSplit(b, first, rest);
    assert inputs == first + rest;
    hide Run, Flatten;
  }

  // An idle clock leaves the wires at rest, and starts a word exactly when it
  // sees the trigger.
  lemma IdleWires(b: Bench, input: Input)
    requires b.regs.state == SPI_IDLE
    ensures var after := Step(b, input).regs;
            && after.csN && !after.sck && !after.mosi && !after.done && Step(b, input).received == b.received
            && (after.busy <==> input.plpTrigger) && (after.state == SPI_START <==> input.plpTrigger)
            && (after.state == SPI_IDLE <==> !input.plpTrigger)
  {}

  // Only a clock that sees the trigger low after the word is out makes the
  // machine ready for another.
  lemma ReadyAgainIff(b: Bench, input: Input)
    requires Inv(b) && b.regs.state == SPI_DONE
    ensures Step(b, input).regs.state == SPI_IDLE <==> !input.plpTrigger
    ensures Step(b, input).received == b.received && Step(b, input).words == b.words
  {}
}

/** The SPI link seen from the driver: a chip-select line, a full-duplex byte
    transfer, and the MCP23S17 behind them, modelled as the register store of
    module Protocol. Each frame (the MOSI bytes between CS falling and CS rising)
    is recorded in a ghost log. */
module Spi {

  import opened Bits
  import opened Registers
  import opened Protocol

  class SpiBus {
    /** The device's 22 registers. */
    var chip: seq<Byte>
    /** Chip select is low. */
    var selected: bool
    /** MOSI bytes clocked out since chip select fell. */
    var sent: seq<Byte>
    /** Every completed frame, oldest first. */
    ghost var frames: seq<Frame>

    ghost predicate Valid()
      reads this
    {
      |chip| == NumRegisters && (!selected ==> sent == [])
    }

    constructor (registers: seq<Byte>)
      requires |registers| == NumRegisters
      ensures Valid() && !selected
      ensures chip == registers && frames == []
    {
      chip := registers;
      selected := false;
      sent := [];
      frames := [];
    }

    /** Chip select low: a frame begins. */
    method Select()
      requires Valid() && !selected
      modifies this
      ensures Valid() && selected
      ensures chip == old(chip) && sent == [] && frames == old(frames)
    {
      selected := true;
    }

    /** Clock out `b` and clock in the device's answer `r`, as `Step` says. */
    method Transfer(b: Byte) returns (r: Byte)
      requires Valid() && selected
      modifies this
      ensures Valid() && selected
      ensures (chip, r) == Step(old(chip), old(sent), b)
      ensures sent == old(sent) + [b] && frames == old(frames)
    {
      var (m, out) := Step(chip, sent, b);
      chip, r := m, out;
      sent := sent + [b];
    }

    /** Chip select high: the frame ends and is logged. */
    method Deselect()
      requires Valid() && selected
      modifies this
      ensures Valid() && !selected
      ensures chip == old(chip) && frames == old(frames) + [old(sent)]
    {
      frames := frames + [sent];
      selected := false;
      sent := [];
    }
  }
}

/** The MCP23S17 driver object: the host-side mirror `_reg[22]` of the chip's
    registers, the device address and the chip-select pin, talking to the chip
    through an `SpiBus`. Every public operation edits mirror entries in place and
    then pushes or pulls them with chip-select-bracketed frames. */
module Driver {

  import opened Bits
  import opened Registers
  import opened Protocol
  import opened PinLogic
  import opened Spi

  /** The chip and the mirror agree on every register except IOCONB, which the
      driver updates in the mirror but only ever writes through IOCONA. */
  ghost predicate Synced(chip: seq<Byte>, regs: seq<Byte>)
    requires |chip| == NumRegisters && |regs| == NumRegisters
  {
    forall i :: 0 <= i < NumRegisters && i != IOCONB ==> chip[i] == regs[i]
  }

  /** Writing three updated registers out keeps the chip and the mirror in step. */
  lemma SyncAfterThreeWrites(chip: seq<Byte>, regs: seq<Byte>, a: RegIndex, b: RegIndex, c: RegIndex, x: Byte, y: Byte, z: Byte)
    requires |chip| == NumRegisters && |regs| == NumRegisters && Synced(chip, regs)
    ensures var regs' := regs[a := x][b := y][c := z];
      Synced(chip[a := regs'[a]][b := regs'[b]][c := regs'[c]], regs')
  {
  }

  /** One more data byte of a sequential write: the store now holds the first
      `i + 1` mirror bytes. */
  lemma OverwriteNext(regs: seq<Byte>, chip0: seq<Byte>, i: nat)
    requires i < |regs| == |chip0|
    ensures (regs[..i] + chip0[i..])[i := regs[i]] == regs[..i + 1] + chip0[i + 1..]
    ensures regs[..i] + [regs[i]] == regs[..i + 1]
  {
  }

  class MCP23S17 {
    /** The SPI link (and, through it, the chip). */
    const spi: SpiBus
    /** Chip-select pin number; chip select itself is `spi.Select`/`spi.Deselect`. */
    const cs: Uint8
    /** Device address; only its low three bits reach the opcode. */
    const addr: Byte
    /** The mirror `_reg[22]`. */
    const reg: array<Byte>

    ghost predicate Valid()
      reads this, spi
    {
      reg.Length == NumRegisters && spi.Valid() && !spi.selected
    }

    /** The mirror agrees with the chip, IOCONB aside. */
    ghost predicate InSync()
      requires Valid()
      reads this, spi, reg
    {
      Synced(spi.chip, reg[..])
    }

    /** The mirror holds the same IOCON value for both banks. */
    ghost predicate IoconPaired()
      requires Valid()
      reads this, spi, reg
    {
      reg[IOCONA] == reg[IOCONB]
    }

    /** The constructor: bind the bus, pin and address and load the power-on
        defaults into the mirror. Nothing is sent. */
    constructor (spi: SpiBus, cs: Uint8, addr: Byte)
      requires spi.Valid() && !spi.selected
      ensures Valid() && fresh(reg)
      ensures this.spi == spi && this.cs == cs && this.addr == addr
      ensures reg[..] == PowerOnDefaults()
      ensures IoconPaired()
    {
      this.spi := spi;
      this.cs := cs;
      this.addr := addr;
      this.reg := new Byte[NumRegisters][
        0xFF, 0xFF,                   // IODIRA, IODIRB: every pin an input
        0x00, 0x00,                   // IPOLA, IPOLB
        0x00, 0x00,                   // GPINTENA, GPINTENB
        0x00, 0x00,                   // DEFVALA, DEFVALB
        0x00, 0x00,                   // INTCONA, INTCONB
        IoconDefault, IoconDefault,   // IOCONA, IOCONB
        0x00, 0x00,                   // GPPUA, GPPUB
        0x00, 0x00,                   // INTFA, INTFB
        0x00, 0x00,                   // INTCAPA, INTCAPB
        0x00, 0x00,                   // GPIOA, GPIOB
        0x00, 0x00];                  // OLATA, OLATB
    }

    /** `begin`: IOCONA := 0x18 with address bits 000 in a frame of its own, then
        `writeAll`. Afterwards the chip holds exactly the mirror. */
    method Begin()
      requires Valid()
      modifies spi
      ensures Valid()
      ensures spi.frames == old(spi.frames) + [InitFrame(), BulkWriteFrame(addr, reg[..])]
      ensures spi.chip == reg[..]
      ensures InSync()
    {
      spi.Select();
      var miso := spi.Transfer(0x40);
      miso := spi.Transfer(IOCONA as Byte);
      miso := spi.Transfer(IoconDefault);
      assert spi.sent == InitFrame();
      spi.Deselect();
      ghost var configured := spi.frames;
      WriteAll();
      assert spi.frames == configured + [BulkWriteFrame(addr, reg[..])];
    }

    /** `readRegister(i)`: for a valid index, one frame `rop, i, 0xFF` whose third
        MISO byte overwrites `reg[i]`; an index above 21 does nothing. */
    method ReadRegister(i: Uint8)
      requires Valid()
      modifies reg, spi
      ensures Valid() && spi.chip == old(spi.chip)
      ensures i > 21 ==> reg[..] == old(reg[..]) && spi.frames == old(spi.frames)
      ensures i <= 21 ==> reg[..] == old(reg[..])[i := spi.chip[i]]
      ensures i <= 21 ==> spi.frames == old(spi.frames) + [ReadFrame(addr, i)]
      ensures old(InSync()) ==> InSync()
    {
      if i > 21 {
        return;
      }
      IndexByte(i);
      var op := Opcode(addr, true);
      spi.Select();
      var miso := spi.Transfer(op);
      miso := spi.Transfer(i as Byte);
      reg[i] := spi.Transfer(ReadFiller);
      assert spi.sent == ReadFrame(addr, i);
      spi.Deselect();
    }

    /** `writeRegister(i)`: for a valid index, one frame `wop, i, reg[i]`, after
        which the chip's register `i` equals the mirror's; an index above 21 does
        nothing. The mirror is never changed. */
    method WriteRegister(i: Uint8)
      requires Valid()
      modifies spi
      ensures Valid()
      ensures i > 21 ==> spi.frames == old(spi.frames) && spi.chip == old(spi.chip)
      ensures i <= 21 ==> spi.frames == old(spi.frames) + [WriteFrame(addr, i, reg[i])]
      ensures i <= 21 ==> spi.chip == old(spi.chip)[i := reg[i]]
    {
      if i > 21 {
        return;
      }
      IndexByte(i);
      var op := Opcode(addr, false);
      spi.Select();
      var miso := spi.Transfer(op);
      miso := spi.Transfer(i as Byte);
      miso := spi.Transfer(reg[i]);
      assert spi.sent == WriteFrame(addr, i, reg[i]);
      spi.Deselect();
    }

    /** `readAll`: one frame `rop, 0, 0xFF x 22`; with sequential addressing the
        k-th data byte received is register k and goes to `reg[k]`, so the mirror
        becomes a copy of the chip, as `Run` gives for that frame. */
    method ReadAll()
      requires Valid()
      modifies reg, spi
      ensures Valid()
      ensures reg[..] == spi.chip && spi.chip == old(spi.chip)
      ensures spi.frames == old(spi.frames) + [BulkReadFrame(addr)]
      ensures Run(old(spi.chip), BulkReadFrame(addr)) == Exchange(spi.chip, [0, 0] + reg[..])
      ensures InSync()
    {
      var op := Opcode(addr, true);
      spi.Select();
      var miso := spi.Transfer(op);
      miso := spi.Transfer(0);
      for i := 0 to NumRegisters
        invariant spi.Valid() && spi.selected
        invariant spi.chip == old(spi.chip) && spi.frames == old(spi.frames)
        invariant spi.sent == [op, 0] + Fillers(i)
        invariant reg[..i] == spi.chip[..i]
      {
        StepSequential(spi.chip, op, Fillers(i), ReadFiller);
        FillersSnoc(i + 1);
        reg[i] := spi.Transfer(ReadFiller);
        assert reg[..i + 1] == reg[..i] + [reg[i]];
      }
      assert reg[..] == reg[..NumRegisters];
      spi.Deselect();
      RunBulkRead(spi.chip, addr);
    }

    /** `writeAll`: one frame `wop, 0, reg[0], .., reg[21]`; with sequential
        addressing data byte k lands in register k, so the chip then holds exactly
        the mirror, as `Run` gives for that frame. */
    method WriteAll()
      requires Valid()
      modifies spi
      ensures Valid()
      ensures spi.frames == old(spi.frames) + [BulkWriteFrame(addr, reg[..])]
      ensures spi.chip == reg[..]
      ensures spi.chip == Run(old(spi.chip), BulkWriteFrame(addr, reg[..])).mem
      ensures InSync()
    {
      ghost var chip0 := spi.chip;
      var op := Opcode(addr, false);
      spi.Select();
      var miso := spi.Transfer(op);
      miso := spi.Transfer(0);
      for i := 0 to NumRegisters
        invariant spi.Valid() && spi.selected
        invariant spi.frames == old(spi.frames)
        invariant spi.sent == [op, 0] + reg[..i]
        invariant spi.chip == reg[..i] + chip0[i..]
      {
        StepSequential(spi.chip, op, reg[..i], reg[i]);
        OverwriteNext(reg[..], chip0, i);
        miso := spi.Transfer(reg[i]);
      }
      assert reg[..NumRegisters] == reg[..];
      spi.Deselect();
      RunBulkWrite(chip0, addr, reg[..]);
    }

    /** The driver's recurring step: assign bit `k` of `reg[t]` (set it when `on`,
        clear it otherwise), then `writeRegister(t)`. */
    method AssignAndWrite(t: RegIndex, k: BitIndex, on: bool)
      requires Valid()
      modifies reg, spi
      ensures Valid()
      ensures reg[..] == old(reg[..])[t := AssignBit(old(reg[t]), k, on)]
      ensures spi.frames == old(spi.frames) + [WriteFrame(addr, t, reg[t])]
      ensures spi.chip == old(spi.chip)[t := reg[t]]
      ensures old(InSync()) ==> InSync()
    {
      if on {
        reg[t] := SetBit(reg[t], k);
      } else {
        reg[t] := ClearBit(reg[t], k);
      }
      WriteRegister(t);
    }

    /** `pinMode(pin, mode)`: OUTPUT clears the pin's IODIR bit and writes IODIR;
        INPUT and INPUT_PULLUP set it, write IODIR, then assign the GPPU bit (set
        exactly for INPUT_PULLUP) and write GPPU. Invalid pins and unknown modes are
        ignored. */
    method PinMode(pin: Uint8, mode: Mode)
      requires Valid()
      modifies reg, spi
      ensures Valid()
      ensures reg[..] == AfterPinMode(old(reg[..]), pin, mode)
      ensures spi.frames == old(spi.frames) + WriteFrames(addr, reg[..], PinModeTargets(pin, mode))
      ensures spi.chip == CopyAt(old(spi.chip), reg[..], PinModeTargets(pin, mode))
      ensures old(InSync()) ==> InSync()
    {
      if pin >= 16 {
        return;
      }
      ghost var chip0, regs0, frames0 := spi.chip, reg[..], spi.frames;
      var dirReg, puReg, bit := IODIRA, GPPUA, pin;
      if pin >= 8 {
        bit := pin - 8;
        dirReg := IODIRB;
        puReg := GPPUB;
      }
      assert dirReg == DirReg(pin) && puReg == PullupReg(pin) && bit == PinBit(pin);
      match mode {
        case Output =>
          AssignAndWrite(dirReg, bit, false);
          PinModeOutputCase(regs0, pin);
          WriteFramesOne(addr, reg[..], dirReg);
          CopyAtOne(chip0, reg[..], dirReg);
          assert reg[..] == AfterPinMode(regs0, pin, mode);
          assert spi.frames == frames0 + WriteFrames(addr, reg[..], PinModeTargets(pin, mode));
          assert spi.chip == CopyAt(chip0, reg[..], PinModeTargets(pin, mode));
        case Input =>
          AssignAndWrite(dirReg, bit, true);
          ghost var regs1 := reg[..];
          AssignAndWrite(puReg, bit, false);
          WriteFramesAppendTwo(frames0, addr, regs1, reg[..], dirReg, puReg);
          PinModeInputCase(regs0, pin, false);
          WriteFramesTwo(addr, reg[..], dirReg, puReg);
          CopyAtTwo(chip0, reg[..], dirReg, puReg);
          assert reg[..] == AfterPinMode(regs0, pin, mode);
          assert spi.frames == frames0 + WriteFrames(addr, reg[..], PinModeTargets(pin, mode));
          assert spi.chip == CopyAt(chip0, reg[..], PinModeTargets(pin, mode));
        case InputPullup =>
          AssignAndWrite(dirReg, bit, true);
          ghost var regs1 := reg[..];
          AssignAndWrite(puReg, bit, true);
          WriteFramesAppendTwo(frames0, addr, regs1, reg[..], dirReg, puReg);
          PinModeInputCase(regs0, pin, true);
          WriteFramesTwo(addr, reg[..], dirReg, puReg);
          CopyAtTwo(chip0, reg[..], dirReg, puReg);
          assert reg[..] == AfterPinMode(regs0, pin, mode);
          assert spi.frames == frames0 + WriteFrames(addr, reg[..], PinModeTargets(pin, mode));
          assert spi.chip == CopyAt(chip0, reg[..], PinModeTargets(pin, mode));
        case OtherMode =>
      }
    }

    /** `digitalWrite(pin, value)`: for an output pin, bit `pin % 8` of the bank's
        OLAT becomes `value != 0` and OLAT is written; for an input pin the same is
        done to GPPU (the pre-1.0 Arduino way of switching the pull-up). Invalid
        pins are ignored. */
    method DigitalWrite(pin: Uint8, value: Byte)
      requires Valid()
      modifies reg, spi
      ensures Valid()
      ensures reg[..] == AfterDigitalWrite(old(reg[..]), pin, value)
      ensures spi.frames == old(spi.frames) + WriteFrames(addr, reg[..], DigitalWriteTargets(old(reg[..]), pin))
      ensures spi.chip == CopyAt(old(spi.chip), reg[..], DigitalWriteTargets(old(reg[..]), pin))
      ensures old(InSync()) ==> InSync()
    {
      if pin >= 16 {
        return;
      }
      ghost var chip0, regs0 := spi.chip, reg[..];
      var dirReg, puReg, latReg, bit := IODIRA, GPPUA, OLATA, pin;
      if pin >= 8 {
        bit := pin - 8;
        dirReg := IODIRB;
        puReg := GPPUB;
        latReg := OLATB;
      }
      assert dirReg == DirReg(pin) && puReg == PullupReg(pin) && latReg == LatchReg(pin) && bit == PinBit(pin);
      var t := if reg[dirReg] & Mask(bit) == 0 then latReg else puReg;
      assert DigitalWriteTargets(regs0, pin) == [t];
      AssignAndWrite(t, bit, value != 0);
      assert reg[..] == AfterDigitalWrite(regs0, pin, value);
      WriteFramesOne(addr, reg[..], t);
      CopyAtOne(chip0, reg[..], t);
    }

    /** `digitalRead(pin)`: an input pin is refreshed from the chip with
        `readRegister(GPIO)` and its bit returned; an output pin returns its latched
        OLAT bit without any transfer; an invalid pin returns 0. The result is
        always HIGH or LOW. */
    method DigitalRead(pin: Uint8) returns (v: Byte)
      requires Valid()
      modifies reg, spi
      ensures Valid() && spi.chip == old(spi.chip)
      ensures v == HIGH || v == LOW
      ensures ReadsDevice(old(reg[..]), pin) ==>
        reg[..] == old(reg[..])[PortReg(pin) := spi.chip[PortReg(pin)]] &&
        spi.frames == old(spi.frames) + [ReadFrame(addr, PortReg(pin))] &&
        v == Level(spi.chip[PortReg(pin)], PinBit(pin))
      ensures !ReadsDevice(old(reg[..]), pin) ==>
        reg[..] == old(reg[..]) && spi.frames == old(spi.frames) && v == CachedLevel(old(reg[..]), pin)
      ensures old(InSync()) ==> InSync()
    {
      if pin >= 16 {
        return 0;
      }
      var dirReg, portReg, latReg, bit := IODIRA, GPIOA, OLATA, pin;
      if pin >= 8 {
        bit := pin - 8;
        dirReg := IODIRB;
        portReg := GPIOB;
        latReg := OLATB;
      }
      assert dirReg == DirReg(pin) && portReg == PortReg(pin) && latReg == LatchReg(pin) && bit == PinBit(pin);
      if reg[dirReg] & Mask(bit) == 0 {
        assert !ReadsDevice(reg[..], pin);
        return if reg[latReg] & Mask(bit) != 0 then HIGH else LOW;
      }
      assert ReadsDevice(reg[..], pin);
      ReadRegister(portReg);
      return if reg[portReg] & Mask(bit) != 0 then HIGH else LOW;
    }

    /** `readPort(port)`: refresh GPIOA (port 0) or GPIOB (any other port) from the
        chip and return it. */
    method ReadPort(port: Byte) returns (v: Byte)
      requires Valid()
      modifies reg, spi
      ensures Valid() && spi.chip == old(spi.chip)
      ensures var g := if port == 0 then GPIOA else GPIOB;
        v == spi.chip[g] &&
        reg[..] == old(reg[..])[g := v] &&
        spi.frames == old(spi.frames) + [ReadFrame(addr, g)]
      ensures old(InSync()) ==> InSync()
    {
      if port == 0 {
        ReadRegister(GPIOA);
        return reg[GPIOA];
      } else {
        ReadRegister(GPIOB);
        return reg[GPIOB];
      }
    }

    /** Refresh the bank-A register `a` and its bank-B partner, in that order, and
        return them joined with bank B in the high byte: the shared shape of the
        16-bit `readPort`, `getInterruptPins` and `getInterruptValue`. */
    method ReadPair(a: RegIndex) returns (v: Word)
      requires Valid() && IsBankA(a)
      modifies reg, spi
      ensures Valid() && spi.chip == old(spi.chip)
      ensures var b := BankReg(a, B);
        v == Combine(spi.chip[b], spi.chip[a]) &&
        reg[..] == old(reg[..])[a := spi.chip[a]][b := spi.chip[b]] &&
        spi.frames == old(spi.frames) + ReadFrames(addr, [a, b])
      ensures old(InSync()) ==> InSync()
    {
      var b := BankReg(a, B);
      ghost var frames0 := spi.frames;
      ReadRegister(a);
      ghost var frames1 := spi.frames;
      ReadRegister(b);
      assert spi.frames == frames0 + [ReadFrame(addr, a), ReadFrame(addr, b)];
      v := Combine(reg[b], reg[a]);
    }

    /** The 16-bit `readPort()`: GPIOB in the high byte, GPIOA in the low. */
    method ReadPortWord() returns (v: Word)
      requires Valid()
      modifies reg, spi
      ensures Valid() && spi.chip == old(spi.chip)
      ensures v == Combine(spi.chip[GPIOB], spi.chip[GPIOA])
      ensures HighByte(v) == spi.chip[GPIOB] && LowByte(v) == spi.chip[GPIOA]
      ensures reg[..] == old(reg[..])[GPIOA := spi.chip[GPIOA]][GPIOB := spi.chip[GPIOB]]
      ensures spi.frames == old(spi.frames) + ReadFrames(addr, [GPIOA, GPIOB])
      ensures old(InSync()) ==> InSync()
    {
      v := ReadPair(GPIOA);
    }

    /** `writePort(port, val)`: OLATA (port 0) or OLATB (any other port) := `val`,
        then written. */
    method WritePort(port: Byte, val: Byte)
      requires Valid()
      modifies reg, spi
      ensures Valid()
      ensures reg[..] == AfterWritePort(old(reg[..]), port, val)
      ensures var t := if port == 0 then OLATA else OLATB;
        spi.frames == old(spi.frames) + [WriteFrame(addr, t, val)] &&
        spi.chip == old(spi.chip)[t := val]
      ensures old(InSync()) ==> InSync()
    {
      if port == 0 {
        reg[OLATA] := val;
        WriteRegister(OLATA);
      } else {
        reg[OLATB] := val;
        WriteRegister(OLATB);
      }
    }

    /** The 16-bit `writePort(val)`: OLATB := high byte, OLATA := low byte, then
        OLATA and OLATB are written in that order. */
    method WritePortWord(val: Word)
      requires Valid()
      modifies reg, spi
      ensures Valid()
      ensures reg[..] == AfterWritePortWord(old(reg[..]), val)
      ensures spi.frames == old(spi.frames) + WriteFrames(addr, reg[..], [OLATA, OLATB])
      ensures spi.chip == CopyAt(old(spi.chip), reg[..], [OLATA, OLATB])
      ensures Combine(spi.chip[OLATB], spi.chip[OLATA]) == val
      ensures old(InSync()) ==> InSync()
    {
      ghost var chip0 := spi.chip;
      reg[OLATB] := HighByte(val);
      reg[OLATA] := LowByte(val);
      WriteRegister(OLATA);
      WriteRegister(OLATB);
      CopyAtTwo(chip0, reg[..], OLATA, OLATB);
    }

    /** `enableInterrupt(pin, trigger)`: the INTCON and DEFVAL bits are set for the
        trigger as `TriggerBits` says, the GPINTEN bit is set, and INTCON, DEFVAL and
        GPINTEN are written in that order (even for an unknown trigger). Invalid
        pins are ignored. */
    method EnableInterrupt(pin: Uint8, trigger: Trigger)
      requires Valid()
      modifies reg, spi
      ensures Valid()
      ensures reg[..] == AfterEnableInterrupt(old(reg[..]), pin, trigger)
      ensures spi.frames == old(spi.frames) + WriteFrames(addr, reg[..], EnableInterruptTargets(pin))
      ensures spi.chip == CopyAt(old(spi.chip), reg[..], EnableInterruptTargets(pin))
      ensures old(InSync()) ==> InSync()
    {
      if pin >= 16 {
        return;
      }
      ghost var chip0 := spi.chip;
      var intcon, defval, gpinten, bit := INTCONA, DEFVALA, GPINTENA, pin;
      if pin >= 8 {
        bit := pin - 8;
        intcon := INTCONB;
        defval := DEFVALB;
        gpinten := GPINTENB;
      }
      assert intcon == IntconReg(pin) && defval == DefvalReg(pin) && gpinten == IntEnableReg(pin);
      assert bit == PinBit(pin);
      ghost var regs0 := reg[..];
      var (ic, dv) := TriggerBits(reg[intcon], reg[defval], bit, trigger);
      reg[intcon] := ic;
      reg[defval] := dv;
      reg[gpinten] := SetBit(reg[gpinten], bit);
      assert reg[..] == regs0[intcon := ic][defval := dv][gpinten := SetBit(regs0[gpinten], bit)];
      assert reg[..] == AfterEnableInterrupt(regs0, pin, trigger);
      assert EnableInterruptTargets(pin) == [intcon, defval, gpinten];
      ghost var regs1, frames0 := reg[..], spi.frames;
      WriteRegister(intcon);
      WriteRegister(defval);
      WriteRegister(gpinten);
      WriteFramesAppendThree(frames0, addr, regs1, intcon, defval, gpinten);
      CopyAtThree(chip0, regs1, intcon, defval, gpinten);
      if old(InSync()) {
        SyncAfterThreeWrites(chip0, regs0, intcon, defval, gpinten, ic, dv, SetBit(regs0[gpinten], bit));
      }
    }

    /** `disableInterrupt(pin)`: the GPINTEN bit is cleared and GPINTEN written.
        Invalid pins are ignored. */
    method DisableInterrupt(pin: Uint8)
      requires Valid()
      modifies reg, spi
      ensures Valid()
      ensures reg[..] == AfterDisableInterrupt(old(reg[..]), pin)
      ensures spi.frames == old(spi.frames) + WriteFrames(addr, reg[..], DisableInterruptTargets(pin))
      ensures spi.chip == CopyAt(old(spi.chip), reg[..], DisableInterruptTargets(pin))
      ensures old(InSync()) ==> InSync()
    {
      if pin >= 16 {
        return;
      }
      ghost var chip0 := spi.chip;
      var gpinten, bit := GPINTENA, pin;
      if pin >= 8 {
        bit := pin - 8;
        gpinten := GPINTENB;
      }
      assert gpinten == IntEnableReg(pin) && bit == PinBit(pin);
      AssignAndWrite(gpinten, bit, false);
      WriteFramesOne(addr, reg[..], gpinten);
      CopyAtOne(chip0, reg[..], gpinten);
    }

    /** The shared shape of `setMirror`, `setInterruptLevel` and `setInterruptOD`:
        assign bit `k` of both IOCON mirror entries, then write IOCONA only. */
    method SetIoconBit(k: BitIndex, on: bool)
      requires Valid()
      modifies reg, spi
      ensures Valid()
      ensures reg[..] == AfterSetIoconBit(old(reg[..]), k, on)
      ensures spi.frames == old(spi.frames) + [WriteFrame(addr, IOCONA, reg[IOCONA])]
      ensures spi.chip == old(spi.chip)[IOCONA := reg[IOCONA]]
      ensures old(InSync()) ==> InSync()
      ensures old(IoconPaired()) ==> IoconPaired()
    {
      if on {
        reg[IOCONA] := SetBit(reg[IOCONA], k);
        reg[IOCONB] := SetBit(reg[IOCONB], k);
      } else {
        reg[IOCONA] := ClearBit(reg[IOCONA], k);
        reg[IOCONB] := ClearBit(reg[IOCONB], k);
      }
      WriteRegister(IOCONA);
    }

    /** `setMirror(m)`: IOCON.MIRROR (bit 6) := `m`. */
    method SetMirror(m: bool)
      requires Valid()
      modifies reg, spi
      ensures Valid()
      ensures reg[..] == AfterSetIoconBit(old(reg[..]), MIRROR, m)
      ensures spi.frames == old(spi.frames) + [WriteFrame(addr, IOCONA, reg[IOCONA])]
      ensures spi.chip == old(spi.chip)[IOCONA := reg[IOCONA]]
      ensures old(InSync()) ==> InSync()
      ensures old(IoconPaired()) ==> IoconPaired()
    {
      SetIoconBit(MIRROR, m);
    }

    /** `setInterruptLevel(level)`: IOCON.INTPOL (bit 1) := `level != LOW`, so the
        INT pins are active-high unless `level` is LOW. */
    method SetInterruptLevel(level: Byte)
      requires Valid()
      modifies reg, spi
      ensures Valid()
      ensures reg[..] == AfterSetIoconBit(old(reg[..]), INTPOL, level != LOW)
      ensures spi.frames == old(spi.frames) + [WriteFrame(addr, IOCONA, reg[IOCONA])]
      ensures spi.chip == old(spi.chip)[IOCONA := reg[IOCONA]]
      ensures old(InSync()) ==> InSync()
      ensures old(IoconPaired()) ==> IoconPaired()
    {
      SetIoconBit(INTPOL, level != LOW);
    }

    /** `setInterruptOD(openDrain)`: IOCON.ODR (bit 2) := `openDrain`. */
    method SetInterruptOD(openDrain: bool)
      requires Valid()
      modifies reg, spi
      ensures Valid()
      ensures reg[..] == AfterSetIoconBit(old(reg[..]), ODR, openDrain)
      ensures spi.frames == old(spi.frames) + [WriteFrame(addr, IOCONA, reg[IOCONA])]
      ensures spi.chip == old(spi.chip)[IOCONA := reg[IOCONA]]
      ensures old(InSync()) ==> InSync()
      ensures old(IoconPaired()) ==> IoconPaired()
    {
      SetIoconBit(ODR, openDrain);
    }

    /** `getInterruptPins`: INTFB in the high byte, INTFA in the low, both refreshed
        from the chip first. */
    method GetInterruptPins() returns (v: Word)
      requires Valid()
      modifies reg, spi
      ensures Valid() && spi.chip == old(spi.chip)
      ensures v == Combine(spi.chip[INTFB], spi.chip[INTFA])
      ensures HighByte(v) == spi.chip[INTFB] && LowByte(v) == spi.chip[INTFA]
      ensures reg[..] == old(reg[..])[INTFA := spi.chip[INTFA]][INTFB := spi.chip[INTFB]]
      ensures spi.frames == old(spi.frames) + ReadFrames(addr, [INTFA, INTFB])
      ensures old(InSync()) ==> InSync()
    {
      v := ReadPair(INTFA);
    }

    /** `getInterruptValue`: INTCAPB in the high byte, INTCAPA in the low, both
        refreshed from the chip first. */
    method GetInterruptValue() returns (v: Word)
      requires Valid()
      modifies reg, spi
      ensures Valid() && spi.chip == old(spi.chip)
      ensures v == Combine(spi.chip[INTCAPB], spi.chip[INTCAPA])
      ensures HighByte(v) == spi.chip[INTCAPB] && LowByte(v) == spi.chip[INTCAPA]
      ensures reg[..] == old(reg[..])[INTCAPA := spi.chip[INTCAPA]][INTCAPB := spi.chip[INTCAPB]]
      ensures spi.frames == old(spi.frames) + ReadFrames(addr, [INTCAPA, INTCAPB])
      ensures old(InSync()) ==> InSync()
    {
      v := ReadPair(INTCAPA);
    }
  }
}

# MCP23S17 driver: register mirror and SPI framing

This project models the host side of the MCP23S17 Arduino/chipKIT driver, a 16-bit
I/O expander reached over SPI, and proves what its operations do.

The driver object keeps `_reg[22]`, a byte-per-register mirror of the chip's 22
registers, together with the chip's 3-bit address and its chip-select pin. Every
public operation does the same few things:

- it edits bits or bytes of mirror entries in place;
- it sends them to the chip, or fetches them from it, with chip-select-bracketed
  SPI frames;
- each frame is an opcode `0b0100_AAA_R`, a register index, and data bytes.

The model is split into modules:

- `Bits` covers the `uint8_t`/`uint16_t` bit idioms the driver uses: `x |= 1 << k`,
  `x &= ~(1 << k)`, `(hi << 8) | lo`, `v >> 8` and `v & 0xFF`. Bytes are `bv8` and
  words are `bv16`.
- `Registers` holds the register enum of `src/MCP23S17.h` as constants 0..21. It
  also has the pin → bank/bit resolution, the port → bank choice, and the
  power-on mirror.
- `Protocol` covers the opcode and the frames the driver sends. It also models the
  device the driver relies on: a 22-byte register store with sequential
  addressing, driven byte by byte by `Step` and over a whole frame by `Run`.
- `Spi` has class `SpiBus`: chip select, one full-duplex byte `Transfer`, the
  device store `chip`, and a ghost log of every frame sent.
- `PinLogic` has pure functions. They give each operation's new mirror as a
  function of the old one (`AfterPinMode`, `AfterDigitalWrite`, ...) and list the
  registers it writes, in order (`PinModeTargets`, ...). The lemmas next to them
  prove what the source promises about those effects.
- `Driver` has class `MCP23S17`, with the mirror as `reg: array<Byte>` that the
  methods mutate in place. Each method is proved against the `PinLogic` functions
  for:
  - the new mirror;
  - the exact frames logged;
  - the new chip store;
  - keeping the chip and the mirror agreeing on every register except IOCONB
    (`InSync`), with the chip taken as a store that changes only when written.

The legacy `MCP23S17.cpp` at the repository root has the same logic for the
operations it has. It differs only in lacking SPI transactions, in its register
names, and in its `begin` also calling `_spi->begin()`, so the same class models both files. The table below cites the files under `src/`. The legacy counterparts are:

- the constructor at lines 36-64, with the mirror defaults at 42-63;
- `begin` at 66-77;
- `readRegister` at 79-89 and `writeRegister` at 91-101;
- `readAll` at 103-112 and `writeAll` at 114-123;
- `pinMode` at 125-155, `digitalWrite` at 157-192 and `digitalRead` at 194-218.

These are modelled by `Registers.PowerOnDefaults` and by the `Driver.MCP23S17` member of the same name.

The 0x18 that the constructor and `begin` load into IOCON sets bits 3 (HAEN) and 4
(DISSLW). It leaves bit 5 (SEQOP) clear, which is what makes the chip's register
pointer auto-increment within a frame. It also leaves bit 6 (MIRROR) clear.
`Registers.PowerOnDefaults` states both.

## Model

| member | source | states |
|---|---|---|
| Registers.PowerOnDefaults | src/MCP23S17.cpp:56-77 | The 22 power-on mirror bytes: IODIRA/B are 0xFF, IOCONA/B are 0x18, every other entry is 0x00. In 0x18, SEQOP and MIRROR are clear, and both IOCON entries are equal. |
| Registers.BankReg | src/MCP23S17.h:64-76 | A bank's register is the A index plus 0 for bank A or 1 for bank B, so it stays in the same A/B pair and its parity names the bank. |
| Registers.BankPairs | src/MCP23S17.h:64-76 | Every named A register has an even index, and its B partner is the next index. |
| Registers.PinBank | src/MCP23S17.cpp:224-228 | Pin `p` belongs to bank B exactly when `p / 8 == 1`, matching the `pin >= 8` test. |
| Registers.PinBit | src/MCP23S17.cpp:224-228 | The bit used for pin `p` is `p % 8`, matching `pin -= 8` for bank B. |
| Registers.PinResolutionInjective | src/MCP23S17.cpp:224-228 | Two valid pins have the same bank and bit exactly when they are the same pin. |
| Registers.PortBank | src/MCP23S17.cpp:340-348 | Port argument 0 selects bank A, and every other value selects bank B. |
| Bits.SetBit | src/MCP23S17.cpp:239 | `x \| (1 << k)` sets bit k and keeps the other seven bits. |
| Bits.ClearBit | src/MCP23S17.cpp:233 | `x & ~(1 << k)` clears bit k and keeps the other seven bits. |
| Bits.AssignBit | src/MCP23S17.cpp:241-245 | The set-or-clear idiom makes bit k equal to the flag and keeps the other bits. |
| Bits.SameOtherBitsMeaning | src/MCP23S17.cpp:233 | "Only bit k differs" holds exactly when every other bit agrees, in both directions. |
| Bits.AssignBitIdempotent | src/MCP23S17.cpp:466 | Assigning a bit twice to the same value is the same as assigning it once. |
| Bits.ClearUndoesSet | src/MCP23S17.cpp:466 | Clearing a bit that was just set restores a byte in which that bit was clear. |
| Bits.Combine | src/MCP23S17.cpp:361 | `(hi << 8) \| lo` has `hi` as its high byte and `lo` as its low byte. |
| Bits.SplitCombine | src/MCP23S17.cpp:391-396 | Splitting a word into `v >> 8` and `v & 0xFF` and joining them again gives the word back. |
| Protocol.Opcode | src/MCP23S17.cpp:144 | The command byte always has top nibble 0100. Its bit 0 is set exactly for a read, and bits 1..3 are the address's low three bits. |
| Protocol.OpcodeOnlyLowAddressBits | src/MCP23S17.cpp:161 | Two addresses give the same opcode exactly when their low three bits agree. |
| Protocol.InitFrame | src/MCP23S17.cpp:126-131 | `begin`'s first frame is the IOCONA := 0x18 write sent to address 000. It differs from the same write to any address whose low three bits are not 000. |
| Protocol.Fillers | src/MCP23S17.cpp:180-182 | There are exactly n filler bytes, each 0xFF. |
| Protocol.WriteFramesMeaning | src/MCP23S17.cpp:444-446 | Frame k of a series of single-register writes writes register `targets[k]` with its mirror value. |
| Protocol.CopyAtMeaning | src/MCP23S17.cpp:444-446 | After a series of single-register writes, the chip holds the mirror's value at each target and its previous value everywhere else. |
| Protocol.RunWriteFrame | src/MCP23S17.cpp:157-169 | The frame `wop, i, v` sets register i of the device to v, changes nothing else, and clocks back three zeros. |
| Protocol.RunReadFrame | src/MCP23S17.cpp:140-152 | The frame `rop, i, 0xFF` changes nothing, and its third MISO byte is register i. |
| Protocol.WriteThenReadRegister | src/MCP23S17.cpp:154-155 | Reading a register right after writing it returns the written value. |
| Protocol.RunSequentialWrite | src/MCP23S17.cpp:191-202 | A write frame whose index byte is 0 stores its data bytes in registers 0, 1, ... in order and leaves the rest untouched. |
| Protocol.RunSequentialRead | src/MCP23S17.cpp:174-185 | A read frame whose index byte is 0, followed by k fillers, returns two zeros and then registers 0..k-1, and changes nothing. |
| Protocol.RunBulkWrite | src/MCP23S17.cpp:191-202 | The `writeAll` frame leaves the device holding exactly the 22 mirror bytes it streamed. |
| Protocol.RunBulkRead | src/MCP23S17.cpp:171-185 | The `readAll` frame returns every register in index order, after two leading bytes, and changes nothing. |
| Protocol.BulkWriteThenRead | src/MCP23S17.cpp:174-202 | A bulk read right after a bulk write returns the written mirror. |
| Spi.SpiBus.Select | src/MCP23S17.cpp:146 | Chip select low starts an empty frame and leaves the device alone. |
| Spi.SpiBus.Transfer | src/MCP23S17.cpp:147-149 | One byte exchange behaves as the device's `Step` and is appended to the current frame. |
| Spi.SpiBus.Deselect | src/MCP23S17.cpp:150 | Chip select high appends the finished frame to the log. |
| PinLogic.PinModeEffect | src/MCP23S17.cpp:219-249 | An invalid pin or an unknown mode changes nothing. Otherwise only bit `p % 8` of the bank's IODIR changes (cleared for OUTPUT, set for the inputs). For the inputs only, the same bit of GPPU also changes, set exactly for INPUT_PULLUP. No other register changes. |
| PinLogic.PinModeKeepsOtherPins | src/MCP23S17.cpp:219-249 | `pinMode` on one pin leaves every other pin's direction as it was. |
| PinLogic.InputModeReadsDevice | src/MCP23S17.cpp:237-326 | After INPUT or INPUT_PULLUP, `digitalRead` of that pin goes to the chip. |
| PinLogic.DigitalWriteEffect | src/MCP23S17.cpp:261-296 | An invalid pin changes nothing. Otherwise bit `p % 8` of OLAT (output pin) or GPPU (input pin) becomes `value != 0`, nothing else changes, and the pin's direction is kept. |
| PinLogic.OutputReadsBackWrite | src/MCP23S17.cpp:261-329 | After `pinMode(p, OUTPUT)`, `digitalWrite(p, v)` writes OLAT only. `digitalRead(p)` then returns HIGH exactly when `v != 0`, without any transfer. |
| PinLogic.Level | src/MCP23S17.cpp:323-326 | `x & (1 << k) ? HIGH : LOW` is 1 or 0, and it is HIGH exactly when bit k is set. |
| PinLogic.CachedLevel | src/MCP23S17.cpp:306-323 | The value `digitalRead` returns without a transfer is HIGH or LOW, and 0 for an invalid pin. |
| PinLogic.AfterWritePort | src/MCP23S17.cpp:373-381 | `writePort(port, v)` stores v in OLATA for port 0 and in OLATB otherwise, and changes nothing else. |
| PinLogic.AfterWritePortWord | src/MCP23S17.cpp:391-396 | `writePort(v)` leaves OLATB and OLATA joining back to v, and changes nothing else. |
| PinLogic.TriggerBits | src/MCP23S17.cpp:427-441 | CHANGE clears the INTCON bit and keeps DEFVAL. RISING sets the INTCON bit and clears the DEFVAL bit. FALLING sets both. An unknown trigger changes neither. |
| PinLogic.EnableInterruptEffect | src/MCP23S17.cpp:412-447 | An invalid pin changes nothing. Otherwise the GPINTEN bit is set, INTCON and DEFVAL are as `TriggerBits` says, and nothing else changes. |
| PinLogic.AfterDisableInterrupt | src/MCP23S17.cpp:455-468 | An invalid pin changes nothing. Otherwise only the pin's GPINTEN bit changes, and it is cleared. |
| PinLogic.DisableInterruptIdempotent | src/MCP23S17.cpp:455-468 | Disabling a pin's interrupt twice gives the same mirror as disabling it once. |
| PinLogic.DisableUndoesEnable | src/MCP23S17.cpp:412-468 | If a pin's interrupt was off, enabling and then disabling it restores its GPINTEN register, whatever the trigger. |
| PinLogic.AfterSetIoconBit | src/MCP23S17.cpp:480-489 | The same bit of IOCONA and IOCONB gets the new value, nothing else changes, and `IOCONA == IOCONB` is preserved. |
| Driver.MCP23S17.constructor | src/MCP23S17.cpp:50-78 | Binds the bus, pin and address, and loads `PowerOnDefaults` into a fresh mirror. Nothing is sent. |
| Driver.MCP23S17.Begin | src/MCP23S17.cpp:123-135 | Logs exactly the init frame and then the bulk write frame. Afterwards the chip holds exactly the mirror. |
| Driver.MCP23S17.ReadRegister | src/MCP23S17.cpp:140-152 | An index above 21 sends nothing and changes nothing. Otherwise it logs `rop, i, 0xFF`, sets only `reg[i]` to the chip's register i, and leaves the chip alone. |
| Driver.MCP23S17.WriteRegister | src/MCP23S17.cpp:157-169 | An index above 21 sends nothing. Otherwise it logs `wop, i, reg[i]` and sets only the chip's register i to `reg[i]`. The mirror is never changed. |
| Driver.MCP23S17.ReadAll | src/MCP23S17.cpp:174-185 | Logs the one bulk read frame and makes the mirror a copy of the chip. The MISO bytes are those `Run` gives for that frame. |
| Driver.MCP23S17.WriteAll | src/MCP23S17.cpp:191-202 | Logs the one bulk write frame of the unchanged mirror. The chip then equals the mirror, which is the store `Run` gives for that frame. |
| Driver.MCP23S17.PinMode | src/MCP23S17.cpp:219-249 | The mirror becomes `AfterPinMode`. The frames are the writes of `PinModeTargets`: IODIR, then GPPU for the inputs. The chip receives exactly those registers, and `InSync` is kept. |
| Driver.MCP23S17.DigitalWrite | src/MCP23S17.cpp:261-296 | The mirror becomes `AfterDigitalWrite`. Exactly one frame is sent, writing OLAT (output pin) or GPPU (input pin). The chip receives that register, and `InSync` is kept. |
| Driver.MCP23S17.DigitalRead | src/MCP23S17.cpp:305-329 | Returns only HIGH or LOW. For an input pin it logs a read of the pin's GPIO, refreshes only that entry, and returns the chip's bit. Otherwise it sends nothing, changes nothing, and returns the cached level (OLAT bit, or 0 for an invalid pin). |
| Driver.MCP23S17.ReadPort | src/MCP23S17.cpp:340-348 | Refreshes GPIOA (port 0) or GPIOB (other ports) from the chip with one read frame and returns it. |
| Driver.MCP23S17.ReadPortWord | src/MCP23S17.cpp:358-362 | Reads GPIOA, then GPIOB. Returns the word whose high byte is the chip's GPIOB and whose low byte is its GPIOA. |
| Driver.MCP23S17.WritePort | src/MCP23S17.cpp:373-381 | The mirror becomes `AfterWritePort`. One frame writes the value to OLATA or OLATB, and the chip receives it. |
| Driver.MCP23S17.WritePortWord | src/MCP23S17.cpp:391-396 | The mirror becomes `AfterWritePortWord`. OLATA is written, then OLATB, and the chip's OLATB/OLATA join back to the argument. |
| Driver.MCP23S17.EnableInterrupt | src/MCP23S17.cpp:412-447 | The mirror becomes `AfterEnableInterrupt`. INTCON, DEFVAL and GPINTEN are written in that order, the chip receives those three, and `InSync` is kept. |
| Driver.MCP23S17.DisableInterrupt | src/MCP23S17.cpp:455-468 | The mirror becomes `AfterDisableInterrupt`. Only GPINTEN is written. |
| Driver.MCP23S17.SetMirror | src/MCP23S17.cpp:480-489 | Bit 6 of both IOCON entries becomes `m`. Only IOCONA is written, and `IOCONA == IOCONB` is kept. |
| Driver.MCP23S17.SetInterruptLevel | src/MCP23S17.cpp:527-536 | Bit 1 of both IOCON entries becomes `level != LOW`. Only IOCONA is written, and `IOCONA == IOCONB` is kept. |
| Driver.MCP23S17.SetInterruptOD | src/MCP23S17.cpp:547-556 | Bit 2 of both IOCON entries becomes `openDrain`. Only IOCONA is written, and `IOCONA == IOCONB` is kept. |
| Driver.MCP23S17.GetInterruptPins | src/MCP23S17.cpp:497-502 | Reads INTFA, then INTFB. Returns the word with the chip's INTFB high and INTFA low. |
| Driver.MCP23S17.GetInterruptValue | src/MCP23S17.cpp:513-518 | Reads INTCAPA, then INTCAPB. Returns the word with the chip's INTCAPB high and INTCAPA low. |

## Left out

- SPI bus settings and transactions (`SPI_MCP23S17_SETTINGS`, `beginTransaction`/`endTransaction`): clock, mode and locking belong to the SPI library, not to this logic. Chip select is modelled only as the start and end of a logged frame.
- The chip-select pin set-up in `begin` (`::pinMode(_cs, OUTPUT)` and the initial `::digitalWrite(_cs, HIGH)`), and the legacy `_spi->begin()`: hardware initialisation that carries no state of the model. The `cs` field is kept but never used.
- The `__PIC32MX__` DSPI/SPIClass variants and the pointer/reference constructor overloads: their bodies are identical, so there is one constructor taking an `SpiBus`.
- Device-side behaviour beyond a 22-byte store with sequential addressing:
  - input pins changing on their own;
  - reads of INTCAP or GPIO clearing a pending interrupt;
  - address filtering under IOCON.HAEN;
  - the chip's aliasing of IOCONB to IOCONA;
  - bits the chip refuses to store.

  The model assumes a register pointer that stops at 21 (bytes past the end are ignored), and zero MISO bytes during the opcode and index.
- Driver.MCP23S17.InSync: the mirror and the chip are only proved to agree outside IOCONB. The real chip mirrors IOCONB into IOCONA, and the model's plain store does not. Their agreement on GPIOA/B, INTFA/B and INTCAPA/B also rests on the model's static store: on a real chip those six registers change by themselves between and during calls, so the mirror's copies of them are only as fresh as the last read.
- Arduino macro values: the numeric values of OUTPUT, INPUT, INPUT_PULLUP, CHANGE, RISING and FALLING come from Arduino headers that are not part of this model. Modes and triggers are datatypes with an extra "other" case, which the driver's `switch` ignores. HIGH and LOW are taken as 1 and 0.
- Timing, blocking and concurrent access from interrupt handlers: the model is sequential.

/** What the pin, port and interrupt operations do to the register mirror, as
    functions of the mirror before the call, and which registers each of them
    then writes to the chip, in order. The driver's methods are proved to follow
    these functions. */
module PinLogic {

  import opened Bits
  import opened Registers

  /** Arduino's logic levels. */
  const LOW: Byte := 0
  const HIGH: Byte := 1

  /** The `mode` argument of `pinMode`; any value other than the three Arduino
      modes is `OtherMode`, which the driver's `switch` ignores. */
  datatype Mode = Output | Input | InputPullup | OtherMode

  /** The `type` argument of `enableInterrupt`. */
  datatype Trigger = Change | Rising | Falling | OtherTrigger

  /** `after` differs from `before` at most at the indices in `targets`. */
  ghost predicate ChangedOnlyAt(before: seq<Byte>, after: seq<Byte>, targets: set<int>)
    requires |before| == NumRegisters && |after| == NumRegisters
  {
    forall i :: 0 <= i < NumRegisters && i !in targets ==> after[i] == before[i]
  }

  /** Bit `k` of `after` is `on` and its other bits are those of `before`. */
  ghost predicate BitBecomes(before: Byte, after: Byte, k: BitIndex, on: bool)
  {
    IsSet(after, k) == on && SameOtherBits(before, after, k)
  }

  // Per-pin register resolution, shared by every operation below.

  function DirReg(pin: Uint8): RegIndex requires IsPin(pin) { BankReg(IODIRA, PinBank(pin)) }
  function PullupReg(pin: Uint8): RegIndex requires IsPin(pin) { BankReg(GPPUA, PinBank(pin)) }
  function LatchReg(pin: Uint8): RegIndex requires IsPin(pin) { BankReg(OLATA, PinBank(pin)) }
  function PortReg(pin: Uint8): RegIndex requires IsPin(pin) { BankReg(GPIOA, PinBank(pin)) }
  function IntconReg(pin: Uint8): RegIndex requires IsPin(pin) { BankReg(INTCONA, PinBank(pin)) }
  function DefvalReg(pin: Uint8): RegIndex requires IsPin(pin) { BankReg(DEFVALA, PinBank(pin)) }
  function IntEnableReg(pin: Uint8): RegIndex requires IsPin(pin) { BankReg(GPINTENA, PinBank(pin)) }

  /** A pin is an output exactly when its IODIR bit is clear. */
  predicate IsOutput(regs: seq<Byte>, pin: Uint8)
    requires |regs| == NumRegisters && IsPin(pin)
  {
    !IsSet(regs[DirReg(pin)], PinBit(pin))
  }

  // pinMode

  /** The mirror after `pinMode(pin, mode)`. */
  function AfterPinMode(regs: seq<Byte>, pin: Uint8, mode: Mode): (r: seq<Byte>)
    requires |regs| == NumRegisters
    ensures |r| == NumRegisters
  {
    if !IsPin(pin) then regs
    else
      var dir, pu, k := DirReg(pin), PullupReg(pin), PinBit(pin);
      match mode
      case Output => regs[dir := ClearBit(regs[dir], k)]
      case Input => regs[dir := SetBit(regs[dir], k)][pu := ClearBit(regs[pu], k)]
      case InputPullup => regs[dir := SetBit(regs[dir], k)][pu := SetBit(regs[pu], k)]
      case OtherMode => regs
  }

  /** `pinMode` ignores invalid pins and unknown modes. Otherwise it changes only
      bit `pin % 8` of the bank's IODIR (cleared for OUTPUT, set for the inputs)
      and, for the inputs only, the same bit of the bank's GPPU (set exactly for
      INPUT_PULLUP). */
  lemma PinModeEffect(regs: seq<Byte>, pin: Uint8, mode: Mode)
    requires |regs| == NumRegisters
    ensures var r := AfterPinMode(regs, pin, mode);
      (!IsPin(pin) || mode == OtherMode ==> r == regs) &&
      (IsPin(pin) && mode != OtherMode ==>
        var dir, pu, k := DirReg(pin), PullupReg(pin), PinBit(pin);
        BitBecomes(regs[dir], r[dir], k, mode != Output) &&
        (if mode == Output then r[pu] == regs[pu]
         else BitBecomes(regs[pu], r[pu], k, mode == InputPullup)) &&
        ChangedOnlyAt(regs, r, {dir, pu}))
  {
    if IsPin(pin) {
      var dir, pu, k := DirReg(pin), PullupReg(pin), PinBit(pin);
      assert dir != pu;
      var r := AfterPinMode(regs, pin, mode);
      match mode
      case Output =>
        assert r == regs[dir := ClearBit(regs[dir], k)];
      case Input =>
        assert r == regs[dir := SetBit(regs[dir], k)][pu := ClearBit(regs[pu], k)];
      case InputPullup =>
        assert r == regs[dir := SetBit(regs[dir], k)][pu := SetBit(regs[pu], k)];
      case OtherMode =>
    }
  }

  /** The registers `pinMode` writes, in order: direction, then pull-up for inputs. */
  function PinModeTargets(pin: Uint8, mode: Mode): seq<RegIndex>
  {
    if !IsPin(pin) then []
    else match mode
      case Output => [DirReg(pin)]
      case Input => [DirReg(pin), PullupReg(pin)]
      case InputPullup => [DirReg(pin), PullupReg(pin)]
      case OtherMode => []
  }

  /** `pinMode(pin, OUTPUT)` as one bit assignment, and what it writes. */
  lemma PinModeOutputCase(regs: seq<Byte>, pin: Uint8)
    requires |regs| == NumRegisters && IsPin(pin)
    ensures var d := DirReg(pin);
      AfterPinMode(regs, pin, Output) == regs[d := AssignBit(regs[d], PinBit(pin), false)] &&
      PinModeTargets(pin, Output) == [d]
  {
  }

  /** `pinMode(pin, INPUT)` and `pinMode(pin, INPUT_PULLUP)` as two bit
      assignments, and what they write. */
  lemma PinModeInputCase(regs: seq<Byte>, pin: Uint8, pullup: bool)
    requires |regs| == NumRegisters && IsPin(pin)
    ensures var mode := if pullup then InputPullup else Input;
      var d, u, k := DirReg(pin), PullupReg(pin), PinBit(pin);
      var r1 := regs[d := AssignBit(regs[d], k, true)];
      AfterPinMode(regs, pin, mode) == r1[u := AssignBit(r1[u], k, pullup)] &&
      PinModeTargets(pin, mode) == [d, u]
  {
    assert DirReg(pin) != PullupReg(pin);
  }

  /** `pinMode` on one pin leaves the direction of every other pin as it was. */
  lemma PinModeKeepsOtherPins(regs: seq<Byte>, p: Uint8, q: Uint8, mode: Mode)
    requires |regs| == NumRegisters && IsPin(p) && IsPin(q) && p != q
    ensures IsOutput(AfterPinMode(regs, p, mode), q) == IsOutput(regs, q)
  {
    if DirReg(q) == DirReg(p) {
      PinModeSameBank(regs, p, q, mode);
    } else {
      PinModeOtherBank(regs, p, q, mode);
    }
  }

  lemma PinModeSameBank(regs: seq<Byte>, p: Uint8, q: Uint8, mode: Mode)
    requires |regs| == NumRegisters && IsPin(p) && IsPin(q) && p != q
    requires DirReg(q) == DirReg(p)
    ensures IsOutput(AfterPinMode(regs, p, mode), q) == IsOutput(regs, q)
  {
    var r, d := AfterPinMode(regs, p, mode), DirReg(p);
    PinModeEffect(regs, p, mode);
    if mode != OtherMode {
      PinResolutionInjective(p, q);
      SameOtherBitsAt(regs[d], r[d], PinBit(p), PinBit(q));
    }
  }

  lemma PinModeOtherBank(regs: seq<Byte>, p: Uint8, q: Uint8, mode: Mode)
    requires |regs| == NumRegisters && IsPin(p) && IsPin(q)
    requires DirReg(q) != DirReg(p)
    ensures AfterPinMode(regs, p, mode)[DirReg(q)] == regs[DirReg(q)]
  {
    assert DirReg(q) != PullupReg(p);
  }

  // digitalWrite

  /** The register `digitalWrite` changes: the output latch of an output pin, the
      pull-up register of an input pin. */
  function DigitalWriteReg(regs: seq<Byte>, pin: Uint8): RegIndex
    requires |regs| == NumRegisters && IsPin(pin)
  {
    if IsOutput(regs, pin) then LatchReg(pin) else PullupReg(pin)
  }

  /** The mirror after `digitalWrite(pin, value)`. */
  function AfterDigitalWrite(regs: seq<Byte>, pin: Uint8, value: Byte): (r: seq<Byte>)
    requires |regs| == NumRegisters
    ensures |r| == NumRegisters
  {
    if !IsPin(pin) then regs
    else
      var t := DigitalWriteReg(regs, pin);
      regs[t := AssignBit(regs[t], PinBit(pin), value != 0)]
  }

  /** `digitalWrite` ignores invalid pins. Otherwise it assigns bit `pin % 8` of
      the pin's OLAT (output pin) or GPPU (input pin) to `value != 0`, changes
      nothing else, and so leaves the pin's direction as it was. */
  lemma DigitalWriteEffect(regs: seq<Byte>, pin: Uint8, value: Byte)
    requires |regs| == NumRegisters
    ensures var r := AfterDigitalWrite(regs, pin, value);
      (!IsPin(pin) ==> r == regs) &&
      (IsPin(pin) ==>
        var t, k := (if IsOutput(regs, pin) then LatchReg(pin) else PullupReg(pin)), PinBit(pin);
        BitBecomes(regs[t], r[t], k, value != 0) && ChangedOnlyAt(regs, r, {t}) &&
        IsOutput(r, pin) == IsOutput(regs, pin))
  {
    if IsPin(pin) {
      assert LatchReg(pin) != DirReg(pin) && PullupReg(pin) != DirReg(pin);
    }
  }

  /** The register `digitalWrite` writes (none for an invalid pin). */
  function DigitalWriteTargets(regs: seq<Byte>, pin: Uint8): seq<RegIndex>
    requires |regs| == NumRegisters
  {
    if IsPin(pin) then [DigitalWriteReg(regs, pin)] else []
  }

  // digitalRead

  /** `x & (1 << k) ? HIGH : LOW`. */
  function Level(x: Byte, k: BitIndex): (v: Byte)
    ensures v == HIGH || v == LOW
    ensures v == HIGH <==> IsSet(x, k)
  {
    if IsSet(x, k) then HIGH else LOW
  }

  /** `digitalRead` asks the device only for a valid input pin. */
  predicate ReadsDevice(regs: seq<Byte>, pin: Uint8)
    requires |regs| == NumRegisters
  {
    IsPin(pin) && !IsOutput(regs, pin)
  }

  /** What `digitalRead` returns without a transfer: the latched bit of an output
      pin, 0 for an invalid pin. */
  function CachedLevel(regs: seq<Byte>, pin: Uint8): (v: Byte)
    requires |regs| == NumRegisters
    ensures v == HIGH || v == LOW
    ensures !IsPin(pin) ==> v == 0
  {
    if IsPin(pin) then Level(regs[LatchReg(pin)], PinBit(pin)) else 0
  }

  /** An output pin reads back, without any transfer, the level last written to it. */
  lemma OutputReadsBackWrite(regs: seq<Byte>, pin: Uint8, value: Byte)
    requires |regs| == NumRegisters && IsPin(pin)
    ensures var out := AfterPinMode(regs, pin, Output);
            var written := AfterDigitalWrite(out, pin, value);
            DigitalWriteTargets(out, pin) == [LatchReg(pin)] &&
            !ReadsDevice(written, pin) &&
            CachedLevel(written, pin) == (if value != 0 then HIGH else LOW)
  {
    PinModeEffect(regs, pin, Output);
    var out := AfterPinMode(regs, pin, Output);
    DigitalWriteEffect(out, pin, value);
    var written := AfterDigitalWrite(out, pin, value);
    assert LatchReg(pin) != DirReg(pin);
    assert written[DirReg(pin)] == out[DirReg(pin)];
  }

  /** After `pinMode(pin, INPUT)` or `INPUT_PULLUP`, `digitalRead(pin)` reads the device. */
  lemma InputModeReadsDevice(regs: seq<Byte>, pin: Uint8, mode: Mode)
    requires |regs| == NumRegisters && IsPin(pin) && (mode == Input || mode == InputPullup)
    ensures ReadsDevice(AfterPinMode(regs, pin, mode), pin)
  {
    PinModeEffect(regs, pin, mode);
  }

  // Ports

  /** The mirror after `writePort(port, v)`. */
  function AfterWritePort(regs: seq<Byte>, port: Byte, v: Byte): (r: seq<Byte>)
    requires |regs| == NumRegisters
    ensures |r| == NumRegisters
    ensures var t := if port == 0 then OLATA else OLATB;
            r[t] == v && ChangedOnlyAt(regs, r, {t})
  {
    regs[BankReg(OLATA, PortBank(port)) := v]
  }

  /** The mirror after the 16-bit `writePort(v)`: OLATB holds the high byte and
      OLATA the low byte, so joining them gives `v` back. */
  function AfterWritePortWord(regs: seq<Byte>, v: Word): (r: seq<Byte>)
    requires |regs| == NumRegisters
    ensures |r| == NumRegisters
    ensures Combine(r[OLATB], r[OLATA]) == v
    ensures ChangedOnlyAt(regs, r, {OLATA, OLATB})
  {
    SplitCombine(v);
    regs[OLATB := HighByte(v)][OLATA := LowByte(v)]
  }

  // Interrupts

  /** The INTCON and DEFVAL bytes after configuring bit `k` for `trigger`:
      CHANGE clears the INTCON bit (compare with the previous value), RISING sets
      it and clears the DEFVAL bit (compare with 0), FALLING sets both (compare
      with 1); an unknown trigger changes neither. */
  function TriggerBits(intcon: Byte, defval: Byte, k: BitIndex, trigger: Trigger): (r: (Byte, Byte))
    ensures match trigger
      case Change => BitBecomes(intcon, r.0, k, false) && r.1 == defval
      case Rising => BitBecomes(intcon, r.0, k, true) && BitBecomes(defval, r.1, k, false)
      case Falling => BitBecomes(intcon, r.0, k, true) && BitBecomes(defval, r.1, k, true)
      case OtherTrigger => r == (intcon, defval)
  {
    match trigger
    case Change => (ClearBit(intcon, k), defval)
    case Rising => (SetBit(intcon, k), ClearBit(defval, k))
    case Falling => (SetBit(intcon, k), SetBit(defval, k))
    case OtherTrigger => (intcon, defval)
  }

  /** The mirror after `enableInterrupt(pin, trigger)`. */
  function AfterEnableInterrupt(regs: seq<Byte>, pin: Uint8, trigger: Trigger): (r: seq<Byte>)
    requires |regs| == NumRegisters
    ensures |r| == NumRegisters
  {
    if !IsPin(pin) then regs
    else
      var ic, dv, ie, k := IntconReg(pin), DefvalReg(pin), IntEnableReg(pin), PinBit(pin);
      var (intcon, defval) := TriggerBits(regs[ic], regs[dv], k, trigger);
      regs[ic := intcon][dv := defval][ie := SetBit(regs[ie], k)]
  }

  /** `enableInterrupt` ignores invalid pins. Otherwise it sets the pin's GPINTEN
      bit, configures its INTCON and DEFVAL bits as `TriggerBits` says, and changes
      nothing else. */
  lemma EnableInterruptEffect(regs: seq<Byte>, pin: Uint8, trigger: Trigger)
    requires |regs| == NumRegisters
    ensures var r := AfterEnableInterrupt(regs, pin, trigger);
      (!IsPin(pin) ==> r == regs) &&
      (IsPin(pin) ==>
        var ic, dv, ie, k := IntconReg(pin), DefvalReg(pin), IntEnableReg(pin), PinBit(pin);
        BitBecomes(regs[ie], r[ie], k, true) &&
        (r[ic], r[dv]) == TriggerBits(regs[ic], regs[dv], k, trigger) &&
        ChangedOnlyAt(regs, r, {ic, dv, ie}))
  {
    if IsPin(pin) {
      var ic, dv, ie, k := IntconReg(pin), DefvalReg(pin), IntEnableReg(pin), PinBit(pin);
      var (intcon, defval) := TriggerBits(regs[ic], regs[dv], k, trigger);
      UpdateThree(regs, ic, dv, ie, intcon, defval, SetBit(regs[ie], k));
    }
  }

  /** The registers `enableInterrupt` writes, in order: INTCON, DEFVAL, GPINTEN. */
  function EnableInterruptTargets(pin: Uint8): seq<RegIndex>
  {
    if IsPin(pin) then [IntconReg(pin), DefvalReg(pin), IntEnableReg(pin)] else []
  }

  /** Three updates at distinct indices change those three entries only. */
  lemma UpdateThree(regs: seq<Byte>, i: RegIndex, j: RegIndex, l: RegIndex, a: Byte, b: Byte, c: Byte)
    requires |regs| == NumRegisters && i != j && j != l && i != l
    ensures var r := regs[i := a][j := b][l := c];
      r[i] == a && r[j] == b && r[l] == c && ChangedOnlyAt(regs, r, {i, j, l})
  {
  }

  /** The mirror after `disableInterrupt(pin)`. */
  function AfterDisableInterrupt(regs: seq<Byte>, pin: Uint8): (r: seq<Byte>)
    requires |regs| == NumRegisters
    ensures |r| == NumRegisters
    ensures !IsPin(pin) ==> r == regs
    ensures IsPin(pin) ==>
      BitBecomes(regs[IntEnableReg(pin)], r[IntEnableReg(pin)], PinBit(pin), false) &&
      ChangedOnlyAt(regs, r, {IntEnableReg(pin)})
  {
    if !IsPin(pin) then regs
    else regs[IntEnableReg(pin) := ClearBit(regs[IntEnableReg(pin)], PinBit(pin))]
  }

  /** The register `disableInterrupt` writes. */
  function DisableInterruptTargets(pin: Uint8): seq<RegIndex>
  {
    if IsPin(pin) then [IntEnableReg(pin)] else []
  }

  /** Disabling a pin's interrupt twice leaves the same mirror as disabling it once. */
  lemma DisableInterruptIdempotent(regs: seq<Byte>, pin: Uint8)
    requires |regs| == NumRegisters
    ensures AfterDisableInterrupt(AfterDisableInterrupt(regs, pin), pin) == AfterDisableInterrupt(regs, pin)
  {
    if IsPin(pin) {
      var ie, k := IntEnableReg(pin), PinBit(pin);
      AssignBitIdempotent(regs[ie], k, false);
    }
  }

  /** Disabling the interrupt of a pin whose interrupt was off restores its GPINTEN
      register after `enableInterrupt`, whatever the trigger. */
  lemma DisableUndoesEnable(regs: seq<Byte>, pin: Uint8, trigger: Trigger)
    requires |regs| == NumRegisters && IsPin(pin) && !IsSet(regs[IntEnableReg(pin)], PinBit(pin))
    ensures var ie := IntEnableReg(pin);
      AfterDisableInterrupt(AfterEnableInterrupt(regs, pin, trigger), pin)[ie] == regs[ie]
  {
    var ie, k := IntEnableReg(pin), PinBit(pin);
    assert AfterEnableInterrupt(regs, pin, trigger)[ie] == SetBit(regs[ie], k);
    ClearUndoesSet(regs[ie], k);
  }

  /** The mirror after `setMirror`, `setInterruptLevel` or `setInterruptOD`: the
      same bit of IOCONA and IOCONB is assigned. */
  function AfterSetIoconBit(regs: seq<Byte>, k: BitIndex, on: bool): (r: seq<Byte>)
    requires |regs| == NumRegisters
    ensures |r| == NumRegisters
    ensures BitBecomes(regs[IOCONA], r[IOCONA], k, on) && BitBecomes(regs[IOCONB], r[IOCONB], k, on)
    ensures ChangedOnlyAt(regs, r, {IOCONA, IOCONB})
    ensures regs[IOCONA] == regs[IOCONB] ==> r[IOCONA] == r[IOCONB]
  {
    regs[IOCONA := AssignBit(regs[IOCONA], k, on)][IOCONB := AssignBit(regs[IOCONB], k, on)]
  }
}

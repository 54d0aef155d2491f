/** The chip's register file as the driver sees it: 22 one-byte registers in the
    interleaved order of the header's enum (`MCP_IODIRA` .. `MCP_OLATB`), two banks
    of eight pins, and the power-on contents of the host-side mirror. */
module Registers {

  import opened Bits

  /** Number of entries of the mirror `_reg[22]`. */
  const NumRegisters: nat := 22

  /** A valid register index: 0 .. 21. */
  type RegIndex = i: int | 0 <= i < 22

  const IODIRA: RegIndex := 0
  const IODIRB: RegIndex := 1
  const IPOLA: RegIndex := 2
  const IPOLB: RegIndex := 3
  const GPINTENA: RegIndex := 4
  const GPINTENB: RegIndex := 5
  const DEFVALA: RegIndex := 6
  const DEFVALB: RegIndex := 7
  const INTCONA: RegIndex := 8
  const INTCONB: RegIndex := 9
  const IOCONA: RegIndex := 10
  const IOCONB: RegIndex := 11
  const GPPUA: RegIndex := 12
  const GPPUB: RegIndex := 13
  const INTFA: RegIndex := 14
  const INTFB: RegIndex := 15
  const INTCAPA: RegIndex := 16
  const INTCAPB: RegIndex := 17
  const GPIOA: RegIndex := 18
  const GPIOB: RegIndex := 19
  const OLATA: RegIndex := 20
  const OLATB: RegIndex := 21

  /** IOCON bits the driver touches or relies on. */
  const INTPOL: BitIndex := 1
  const ODR: BitIndex := 2
  const SEQOP: BitIndex := 5
  const MIRROR: BitIndex := 6

  /** The IOCON value that construction puts in the mirror and `begin` sends first. */
  const IoconDefault: Byte := 0x18

  /** The two 8-pin banks. */
  datatype Bank = A | B

  /** The bank-A register of a register pair (the even index of the pair). */
  predicate IsBankA(a: int)
  {
    0 <= a < 22 && a % 2 == 0
  }

  /** The register of kind `a` (given by its bank-A index) in bank `bank`. */
  function BankReg(a: int, bank: Bank): (r: RegIndex)
    requires IsBankA(a)
    ensures r / 2 == a / 2
    ensures r % 2 == (if bank == A then 0 else 1)
  {
    if bank == A then a else a + 1
  }

  /** Every named A register is the even member of its pair and its B partner
      follows it directly. */
  lemma BankPairs()
    ensures forall a: int :: IsBankA(a) ==> BankReg(a, A) == a && BankReg(a, B) == a + 1
    ensures IsBankA(IODIRA) && BankReg(IODIRA, B) == IODIRB
    ensures IsBankA(IPOLA) && BankReg(IPOLA, B) == IPOLB
    ensures IsBankA(GPINTENA) && BankReg(GPINTENA, B) == GPINTENB
    ensures IsBankA(DEFVALA) && BankReg(DEFVALA, B) == DEFVALB
    ensures IsBankA(INTCONA) && BankReg(INTCONA, B) == INTCONB
    ensures IsBankA(IOCONA) && BankReg(IOCONA, B) == IOCONB
    ensures IsBankA(GPPUA) && BankReg(GPPUA, B) == GPPUB
    ensures IsBankA(INTFA) && BankReg(INTFA, B) == INTFB
    ensures IsBankA(INTCAPA) && BankReg(INTCAPA, B) == INTCAPB
    ensures IsBankA(GPIOA) && BankReg(GPIOA, B) == GPIOB
    ensures IsBankA(OLATA) && BankReg(OLATA, B) == OLATB
  {
  }

  /** A pin number is valid below 16. */
  predicate IsPin(pin: Uint8)
  {
    pin < 16
  }

  /** The bank of pin `pin`: B when `pin >= 8`. */
  function PinBank(pin: Uint8): (bank: Bank)
    requires IsPin(pin)
    ensures bank == (if pin / 8 == 0 then A else B)
  {
    if pin >= 8 then B else A
  }

  /** The bit of pin `pin` inside its bank's registers (`pin -= 8` for bank B). */
  function PinBit(pin: Uint8): (k: BitIndex)
    requires IsPin(pin)
    ensures k == pin % 8
  {
    if pin >= 8 then pin - 8 else pin
  }

  /** The bank and bit of a pin determine the pin: the mapping is one-to-one. */
  lemma PinResolutionInjective(p: Uint8, q: Uint8)
    requires IsPin(p) && IsPin(q)
    ensures (PinBank(p) == PinBank(q) && PinBit(p) == PinBit(q)) <==> p == q
  {
  }

  /** The bank selected by a port argument: A exactly when it is 0. */
  function PortBank(port: Byte): (bank: Bank)
    ensures bank == A <==> port == 0
  {
    if port == 0 then A else B
  }

  /** The mirror right after construction: IODIRA/B all ones (every pin an input),
      IOCONA/B 0x18, everything else zero. */
  function PowerOnDefaults(): (r: seq<Byte>)
    ensures |r| == NumRegisters
    ensures forall i :: 0 <= i < |r| ==>
      r[i] == (if i == IODIRA || i == IODIRB then 0xFF
               else if i == IOCONA || i == IOCONB then IoconDefault
               else 0x00)
    ensures !IsSet(r[IOCONA], SEQOP) && !IsSet(r[IOCONA], MIRROR) && r[IOCONA] == r[IOCONB]
  {
    [0xFF, 0xFF, 0x00, 0x00, 0x00, 0x00, 0x00, 0x00, 0x00, 0x00, 0x18,
     0x18, 0x00, 0x00, 0x00, 0x00, 0x00, 0x00, 0x00, 0x00, 0x00, 0x00]
  }
}

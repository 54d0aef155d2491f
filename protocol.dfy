/** SPI framing of the driver and the device side it relies on.

    A frame is the list of bytes the host clocks out (MOSI) between one falling
    and the next rising edge of chip select: an opcode `0b0100_AAA_R`, a register
    index, then data bytes. The device is modelled as a 22-byte register store
    with sequential addressing (IOCON.SEQOP clear): the n-th data byte of a frame
    goes to, or comes from, register `index + n`. */
module Protocol {

  import opened Bits
  import opened Registers

  type Frame = seq<Byte>

  /** The byte clocked out while a register is being read. */
  const ReadFiller: Byte := 0xFF

  /** The command byte `0b0100_AAA_R`: fixed top nibble 0100, the low three bits
      of the device address in bits 1..3, bit 0 set for a read. */
  function Opcode(addr: Byte, read: bool): (op: Byte)
    ensures op & 0xF0 == 0x40
    ensures IsSet(op, 0) <==> read
    ensures (op >> 1) & 7 == addr & 7
  {
    (if read then 0x41 else 0x40) | ((addr & 7) << 1)
  }

  /** Two addresses give the same opcode exactly when their low three bits agree. */
  lemma OpcodeOnlyLowAddressBits(a1: Byte, a2: Byte, read: bool)
    ensures Opcode(a1, read) == Opcode(a2, read) <==> a1 & 7 == a2 & 7
  {
    var o1, o2 := Opcode(a1, read), Opcode(a2, read);
    if o1 == o2 {
      assert (o1 >> 1) & 7 == (o2 >> 1) & 7;
    }
  }

  predicate IsReadOpcode(op: Byte)
  {
    IsSet(op, 0)
  }

  /** A register index sent as a byte is read back by the device as the same
      number. */
  lemma IndexByte(i: RegIndex)
    ensures (i as Byte) as int == i
  {
  }

  /** `op, i, v`: write `v` to register `i`. */
  function WriteFrame(addr: Byte, i: RegIndex, v: Byte): Frame
  {
    [Opcode(addr, false), i as Byte, v]
  }

  /** `op, i, 0xFF`: read register `i`. */
  function ReadFrame(addr: Byte, i: RegIndex): Frame
  {
    [Opcode(addr, true), i as Byte, ReadFiller]
  }

  /** The first frame of `begin`: IOCONA := 0x18, sent with address bits 000. */
  function InitFrame(): (f: Frame)
    ensures f == WriteFrame(0, IOCONA, IoconDefault)
    ensures forall addr: Byte :: addr & 7 != 0 ==> f != WriteFrame(addr, IOCONA, IoconDefault)
  {
    [0x40, IOCONA as Byte, IoconDefault]
  }

  /** `op, 0, regs[0], .., regs[21]`: one sequential write of the whole mirror. */
  function BulkWriteFrame(addr: Byte, regs: seq<Byte>): Frame
  {
    [Opcode(addr, false), 0] + regs
  }

  /** `n` filler bytes. */
  function Fillers(n: nat): (s: seq<Byte>)
    ensures |s| == n && forall k :: 0 <= k < n ==> s[k] == ReadFiller
  {
    if n == 0 then [] else Fillers(n - 1) + [ReadFiller]
  }

  /** `op, 0, 0xFF x 22`: one sequential read of every register. */
  function BulkReadFrame(addr: Byte): Frame
  {
    [Opcode(addr, true), 0] + Fillers(NumRegisters)
  }

  /** The frames of a series of single-register writes of `regs` at `targets`, in order. */
  function WriteFrames(addr: Byte, regs: seq<Byte>, targets: seq<RegIndex>): (fs: seq<Frame>)
    requires |regs| == NumRegisters
    ensures |fs| == |targets|
  {
    if targets == [] then []
    else [WriteFrame(addr, targets[0], regs[targets[0]])] + WriteFrames(addr, regs, targets[1..])
  }

  /** Frame k of `WriteFrames` writes the mirror's value of register `targets[k]`. */
  lemma {:induction false} WriteFramesMeaning(addr: Byte, regs: seq<Byte>, targets: seq<RegIndex>)
    requires |regs| == NumRegisters
    ensures forall k :: 0 <= k < |targets| ==>
      WriteFrames(addr, regs, targets)[k] == WriteFrame(addr, targets[k], regs[targets[k]])
    decreases targets
  {
    if targets != [] {
      WriteFramesMeaning(addr, regs, targets[1..]);
    }
  }

  /** The frames of a series of single-register reads of `targets`, in order. */
  function ReadFrames(addr: Byte, targets: seq<RegIndex>): (fs: seq<Frame>)
    ensures |fs| == |targets|
    ensures forall k :: 0 <= k < |targets| ==> fs[k] == ReadFrame(addr, targets[k])
  {
    if targets == [] then [] else [ReadFrame(addr, targets[0])] + ReadFrames(addr, targets[1..])
  }

  /** `WriteFrames` over one, two or three literal targets. */
  lemma WriteFramesOne(addr: Byte, regs: seq<Byte>, t: RegIndex)
    requires |regs| == NumRegisters
    ensures WriteFrames(addr, regs, [t]) == [WriteFrame(addr, t, regs[t])]
  {
  }

  lemma WriteFramesTwo(addr: Byte, regs: seq<Byte>, t: RegIndex, u: RegIndex)
    requires |regs| == NumRegisters
    ensures WriteFrames(addr, regs, [t, u]) == [WriteFrame(addr, t, regs[t]), WriteFrame(addr, u, regs[u])]
  {
  }

  /** Two single-register writes in a row, the second of which left the first
      register alone, are the frames `WriteFrames` gives for both. */
  lemma WriteFramesAppendTwo(log: seq<Frame>, addr: Byte, r1: seq<Byte>, r2: seq<Byte>, t: RegIndex, u: RegIndex)
    requires |r1| == NumRegisters && |r2| == NumRegisters && r2[t] == r1[t]
    ensures log + [WriteFrame(addr, t, r1[t])] + [WriteFrame(addr, u, r2[u])] == log + WriteFrames(addr, r2, [t, u])
  {
    WriteFramesTwo(addr, r2, t, u);
  }

  lemma WriteFramesThree(addr: Byte, regs: seq<Byte>, t: RegIndex, u: RegIndex, w: RegIndex)
    requires |regs| == NumRegisters
    ensures WriteFrames(addr, regs, [t, u, w]) ==
      [WriteFrame(addr, t, regs[t]), WriteFrame(addr, u, regs[u]), WriteFrame(addr, w, regs[w])]
  {
    assert [t, u, w][1..] == [u, w];
    WriteFramesTwo(addr, regs, u, w);
  }

  /** Three single-register writes in a row are the frames `WriteFrames` gives
      for all three. */
  lemma WriteFramesAppendThree(log: seq<Frame>, addr: Byte, regs: seq<Byte>, t: RegIndex, u: RegIndex, w: RegIndex)
    requires |regs| == NumRegisters
    ensures log + [WriteFrame(addr, t, regs[t])] + [WriteFrame(addr, u, regs[u])] + [WriteFrame(addr, w, regs[w])] ==
      log + WriteFrames(addr, regs, [t, u, w])
  {
    WriteFramesThree(addr, regs, t, u, w);
  }

  /** `dst` with the entries at `targets` replaced by those of `src`. */
  function CopyAt(dst: seq<Byte>, src: seq<Byte>, targets: seq<RegIndex>): (r: seq<Byte>)
    requires |dst| == NumRegisters && |src| == NumRegisters
    ensures |r| == NumRegisters
    decreases targets
  {
    if targets == [] then dst
    else CopyAt(dst[targets[0] := src[targets[0]]], src, targets[1..])
  }

  /** `CopyAt` over one, two or three literal targets is a chain of single updates. */
  lemma CopyAtOne(dst: seq<Byte>, src: seq<Byte>, t: RegIndex)
    requires |dst| == NumRegisters && |src| == NumRegisters
    ensures CopyAt(dst, src, [t]) == dst[t := src[t]]
  {
    assert [t][1..] == [];
  }

  lemma CopyAtTwo(dst: seq<Byte>, src: seq<Byte>, t: RegIndex, u: RegIndex)
    requires |dst| == NumRegisters && |src| == NumRegisters
    ensures CopyAt(dst, src, [t, u]) == dst[t := src[t]][u := src[u]]
  {
    assert [t, u][1..] == [u];
    CopyAtOne(dst[t := src[t]], src, u);
  }

  lemma CopyAtThree(dst: seq<Byte>, src: seq<Byte>, t: RegIndex, u: RegIndex, w: RegIndex)
    requires |dst| == NumRegisters && |src| == NumRegisters
    ensures CopyAt(dst, src, [t, u, w]) == dst[t := src[t]][u := src[u]][w := src[w]]
  {
    assert [t, u, w][1..] == [u, w];
    CopyAtTwo(dst[t := src[t]], src, u, w);
  }

  /** `CopyAt` takes the entries listed in `targets` from `src` and keeps all
      others from `dst`. */
  lemma {:induction false} CopyAtMeaning(dst: seq<Byte>, src: seq<Byte>, targets: seq<RegIndex>)
    requires |dst| == NumRegisters && |src| == NumRegisters
    ensures forall i: RegIndex :: CopyAt(dst, src, targets)[i] == (if i in targets then src[i] else dst[i])
    decreases targets
  {
    if targets != [] {
      var t := targets[0];
      CopyAtMeaning(dst[t := src[t]], src, targets[1..]);
      forall i: RegIndex
        ensures CopyAt(dst, src, targets)[i] == (if i in targets then src[i] else dst[i])
      {
        assert i in targets <==> i == t || i in targets[1..];
      }
    }
  }

  /** What the device does with MOSI byte `b` when `sent` holds the bytes before it
      in the same frame: the new register store and the MISO byte. The opcode and
      the index byte clock back 0; data byte n addresses register `index + n`. */
  function Step(mem: seq<Byte>, sent: Frame, b: Byte): (seq<Byte>, Byte)
  {
    if |sent| < 2 then (mem, 0)
    else
      var ptr := sent[1] as int + (|sent| - 2);
      if ptr >= |mem| then (mem, 0)
      else if IsReadOpcode(sent[0]) then (mem, mem[ptr])
      else (mem[ptr := b], 0)
  }

  /** The outcome of a whole frame: the register store after it and the MISO bytes. */
  datatype Exchange = Exchange(mem: seq<Byte>, miso: seq<Byte>)

  /** The device run over all bytes of `frame`, one `Step` at a time. */
  function Run(mem: seq<Byte>, frame: Frame): (x: Exchange)
    ensures |x.mem| == |mem| && |x.miso| == |frame|
    decreases |frame|
  {
    if frame == [] then Exchange(mem, [])
    else
      var front := frame[..|frame| - 1];
      var x := Run(mem, front);
      var (m, out) := Step(x.mem, front, frame[|frame| - 1]);
      Exchange(m, x.miso + [out])
  }

  /** Appending one byte to a frame runs one more `Step`. */
  lemma RunSnoc(mem: seq<Byte>, frame: Frame, b: Byte)
    ensures Run(mem, frame + [b]).mem == Step(Run(mem, frame).mem, frame, b).0
    ensures Run(mem, frame + [b]).miso == Run(mem, frame).miso + [Step(Run(mem, frame).mem, frame, b).1]
  {
    assert (frame + [b])[..|frame|] == frame;
  }

  /** A single write frame stores its data byte in the addressed register only. */
  lemma RunWriteFrame(mem: seq<Byte>, addr: Byte, i: RegIndex, v: Byte)
    requires |mem| == NumRegisters
    ensures Run(mem, WriteFrame(addr, i, v)) == Exchange(mem[i := v], [0, 0, 0])
  {
    var op, ib := Opcode(addr, false), i as Byte;
    IndexByte(i);
    RunSnoc(mem, [], op);
    RunSnoc(mem, [op], ib);
    RunSnoc(mem, [op, ib], v);
    assert [op] + [ib] == [op, ib];
    assert [op, ib] + [v] == WriteFrame(addr, i, v);
  }

  /** A single read frame returns the addressed register as its third byte and
      changes nothing. */
  lemma RunReadFrame(mem: seq<Byte>, addr: Byte, i: RegIndex)
    requires |mem| == NumRegisters
    ensures Run(mem, ReadFrame(addr, i)) == Exchange(mem, [0, 0, mem[i]])
  {
    var op, ib := Opcode(addr, true), i as Byte;
    IndexByte(i);
    RunSnoc(mem, [], op);
    RunSnoc(mem, [op], ib);
    RunSnoc(mem, [op, ib], ReadFiller);
    assert [op] + [ib] == [op, ib];
    assert [op, ib] + [ReadFiller] == ReadFrame(addr, i);
  }

  /** Reading a register right after writing it returns the written value. */
  lemma WriteThenReadRegister(mem: seq<Byte>, addr: Byte, i: RegIndex, v: Byte)
    requires |mem| == NumRegisters
    ensures Run(Run(mem, WriteFrame(addr, i, v)).mem, ReadFrame(addr, i)).miso[2] == v
  {
    RunWriteFrame(mem, addr, i, v);
    RunReadFrame(mem[i := v], addr, i);
  }

  /** The opcode and index bytes clock back zeros and change nothing. */
  lemma RunHeader(mem: seq<Byte>, op: Byte)
    ensures Run(mem, [op, 0]) == Exchange(mem, [0, 0])
  {
    RunSnoc(mem, [], op);
    RunSnoc(mem, [op], 0);
    assert [op] + [0] == [op, 0];
  }

  /** A write frame whose pointer byte is 0 stores its data bytes in registers
      0, 1, ... in order (sequential addressing) and leaves the rest untouched. */
  lemma {:induction false} RunSequentialWrite(mem: seq<Byte>, f: Frame)
    requires 2 <= |f| && !IsReadOpcode(f[0]) && f[1] == 0 && |f| - 2 <= |mem|
    ensures Run(mem, f).mem == f[2..] + mem[|f| - 2..]
    decreases |f|
  {
    if |f| == 2 {
      assert f == [f[0], 0];
      RunHeader(mem, f[0]);
    } else {
      var front, b := f[..|f| - 1], f[|f| - 1];
      assert front + [b] == f;
      RunSequentialWrite(mem, front);
      RunSnoc(mem, front, b);
      StoreShift(mem, f);
    }
  }

  /** After the first `k` filler bytes of a sequential read from index 0, the MISO
      bytes are two zeros followed by registers 0 .. k-1, and nothing has changed. */
  lemma {:induction false} RunSequentialRead(mem: seq<Byte>, op: Byte, k: nat)
    requires IsReadOpcode(op) && k <= |mem|
    ensures Run(mem, [op, 0] + Fillers(k)) == Exchange(mem, [0, 0] + mem[..k])
  {
    if k == 0 {
      assert [op, 0] + Fillers(0) == [op, 0];
      RunHeader(mem, op);
    } else {
      RunSequentialRead(mem, op, k - 1);
      SequentialReadStep(mem, op, k);
    }
  }

  /** One more filler byte of a sequential read returns the next register. */
  lemma SequentialReadStep(mem: seq<Byte>, op: Byte, k: nat)
    requires IsReadOpcode(op) && 0 < k <= |mem|
    requires Run(mem, [op, 0] + Fillers(k - 1)) == Exchange(mem, [0, 0] + mem[..k - 1])
    ensures Run(mem, [op, 0] + Fillers(k)) == Exchange(mem, [0, 0] + mem[..k])
  {
    var front := [op, 0] + Fillers(k - 1);
    FillersSnoc(k);
    FrameSnoc(op, Fillers(k - 1), ReadFiller, Fillers(k));
    RunSnocExchange(mem, front, ReadFiller);
    StepSequential(mem, op, Fillers(k - 1), ReadFiller);
    PrefixSnoc(mem, k);
  }

  /** `RunSnoc` as one equation on the whole exchange. */
  lemma RunSnocExchange(mem: seq<Byte>, frame: Frame, b: Byte)
    ensures Run(mem, frame + [b]) ==
      Exchange(Step(Run(mem, frame).mem, frame, b).0, Run(mem, frame).miso + [Step(Run(mem, frame).mem, frame, b).1])
  {
    RunSnoc(mem, frame, b);
  }

  /** Data byte n of a frame that starts at index 0 addresses register n. */
  lemma StepSequential(mem: seq<Byte>, op: Byte, data: seq<Byte>, b: Byte)
    requires |data| < |mem|
    ensures Step(mem, [op, 0] + data, b) ==
      if IsReadOpcode(op) then (mem, mem[|data|]) else (mem[|data| := b], 0)
  {
    var sent := [op, 0] + data;
    assert |sent| == |data| + 2 && sent[0] == op && sent[1] == 0;
  }

  // Sequence identities used by the two step lemmas above.

  lemma FillersSnoc(k: nat)
    requires 0 < k
    ensures Fillers(k - 1) + [ReadFiller] == Fillers(k)
  {
  }

  lemma FrameSnoc(op: Byte, data: seq<Byte>, b: Byte, data': seq<Byte>)
    requires data' == data + [b]
    ensures ([op, 0] + data) + [b] == [op, 0] + data'
  {
  }

  lemma PrefixSnoc(mem: seq<Byte>, k: nat)
    requires 0 < k <= |mem|
    ensures [0, 0] + mem[..k - 1] + [mem[k - 1]] == [0, 0] + mem[..k]
  {
    assert mem[..k - 1] + [mem[k - 1]] == mem[..k];
  }

  lemma StoreShift(mem: seq<Byte>, f: Frame)
    requires 3 <= |f| && |f| - 2 <= |mem|
    ensures (f[..|f| - 1][2..] + mem[|f| - 3..])[|f| - 3 := f[|f| - 1]] == f[2..] + mem[|f| - 2..]
  {
  }

  /** The bulk write frame leaves the device holding exactly the mirror it streamed. */
  lemma RunBulkWrite(mem: seq<Byte>, addr: Byte, regs: seq<Byte>)
    requires |mem| == NumRegisters && |regs| == NumRegisters
    ensures Run(mem, BulkWriteFrame(addr, regs)).mem == regs
  {
    var f := BulkWriteFrame(addr, regs);
    RunSequentialWrite(mem, f);
    assert f[2..] == regs;
    assert mem[|regs|..] == [];
  }

  /** The bulk read frame returns every register, in index order, after two leading
      bytes, and changes nothing. */
  lemma RunBulkRead(mem: seq<Byte>, addr: Byte)
    requires |mem| == NumRegisters
    ensures Run(mem, BulkReadFrame(addr)) == Exchange(mem, [0, 0] + mem)
  {
    RunSequentialRead(mem, Opcode(addr, true), |mem|);
    assert mem[..|mem|] == mem;
  }

  /** A bulk write followed by a bulk read returns the written mirror. */
  lemma BulkWriteThenRead(mem: seq<Byte>, addr: Byte, regs: seq<Byte>)
    requires |mem| == NumRegisters && |regs| == NumRegisters
    ensures Run(Run(mem, BulkWriteFrame(addr, regs)).mem, BulkReadFrame(addr)).miso[2..] == regs
  {
    RunBulkWrite(mem, addr, regs);
    RunBulkRead(regs, addr);
  }
}

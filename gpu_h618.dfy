/**
 * The H618 GPU register interface: the fixed register offsets, the
 * memory-mapped register window a device points at, the device record,
 * and the two 32-bit register accessors.
 */
module GpuH618 {

  /** A register word: every register is a `uint32_t`, read and written whole. */
  type Word = bv32

  /** A `uint32_t` byte offset into the register window. */
  type Offset = x: int | 0 <= x < 0x1_0000_0000

  /** The C `int` used for the interrupt line. */
  newtype int32 = x: int | -0x8000_0000 <= x < 0x8000_0000

  // Register byte offsets from the mapped base.
  const CtrlReg: Offset := 0x000
  const StatusReg: Offset := 0x034
  const CmdReg: Offset := 0x030
  const IrqStatus: Offset := 0x02C
  const IrqClear: Offset := 0x024
  const IrqMask: Offset := 0x028
  const MmuBase: Offset := 0x2000
  const As0Base: Offset := 0x2400
  const Js0Base: Offset := 0x1800
  const PwrKey: Offset := 0x050
  const PwrOverride: Offset := 0x054

  /** The offsets the accessors may be given: the defined register constants. */
  const RegisterOffsets: set<Offset> :=
    {CtrlReg, StatusReg, CmdReg, IrqStatus, IrqClear, IrqMask,
     MmuBase, As0Base, Js0Base, PwrKey, PwrOverride}

  /** One access to the register window, in the order it was issued. */
  datatype Access = Write(offset: Offset, value: Word) | Read(offset: Offset, value: Word)

  /** The register contents after the accesses of `log` are applied to `words`, in order. */
  function Replay(words: map<Offset, Word>, log: seq<Access>): map<Offset, Word>
    decreases |log|
  {
    if log == [] then words
    else
      var last := log[|log| - 1];
      var before := Replay(words, log[..|log| - 1]);
      if last.Write? then before[last.offset := last.value] else before
  }

  /** Appending one access: a write stores its word, a read changes nothing. */
  lemma ReplayStep(words: map<Offset, Word>, log: seq<Access>, a: Access)
    ensures Replay(words, log + [a]) ==
            if a.Write? then Replay(words, log)[a.offset := a.value] else Replay(words, log)
  {
    assert (log + [a])[..|log|] == log;
  }

  /** Replaying a log in two pieces is replaying it whole. */
  lemma {:induction false} ReplayConcat(words: map<Offset, Word>, a: seq<Access>, b: seq<Access>)
    ensures Replay(words, a + b) == Replay(Replay(words, a), b)
    decreases |b|
  {
    if b == [] {
      assert a + b == a;
    } else {
      var front, last := b[..|b| - 1], b[|b| - 1];
      assert b == front + [last];
      assert a + b == (a + front) + [last];
      ReplayConcat(words, a, front);
      ReplayStep(words, a + front, last);
      ReplayStep(Replay(words, a), front, last);
    }
  }

  /** True when no access of `log` writes the register at `off`. */
  predicate NotWritten(log: seq<Access>, off: Offset)
  {
    forall k :: 0 <= k < |log| ==> !(log[k].Write? && log[k].offset == off)
  }

  /** A register that no access of the log writes keeps its word. */
  lemma {:induction false} ReplayUnwritten(words: map<Offset, Word>, log: seq<Access>, off: Offset)
    requires off in words
    requires NotWritten(log, off)
    ensures off in Replay(words, log) && Replay(words, log)[off] == words[off]
    decreases |log|
  {
    if log != [] {
      var front, last := log[..|log| - 1], log[|log| - 1];
      assert NotWritten(front, off) by {
        forall k | 0 <= k < |front| ensures !(front[k].Write? && front[k].offset == off) {
          assert front[k] == log[k];
        }
      }
      assert !(last.Write? && last.offset == off);
      ReplayUnwritten(words, front, off);
    }
  }

  /**
   * The memory-mapped register window behind a device's `regs` pointer.
   * `words` holds what software last stored at each offset. The status
   * register is driven by the hardware: its k-th read returns `status(k)`.
   * `trace` records every access in order.
   */
  class RegisterWindow {
    ghost const initialWords: map<Offset, Word>
    const status: nat -> Word
    var words: map<Offset, Word>
    var statusReads: nat
    ghost var trace: seq<Access>

    /** Every register offset is backed, and the words are the replay of the log. */
    ghost predicate Valid()
      reads this
    {
      RegisterOffsets <= words.Keys && words == Replay(initialWords, trace)
    }

    constructor (contents: map<Offset, Word>, status: nat -> Word)
      requires RegisterOffsets <= contents.Keys
      ensures Valid()
      ensures initialWords == contents && words == contents && this.status == status
      ensures statusReads == 0 && trace == []
    {
      initialWords := contents;
      words := contents;
      this.status := status;
      statusReads := 0;
      trace := [];
    }

    /** The value a read of `off` returns now. */
    function Current(off: Offset): Word
      reads this
      requires off in words
    {
      if off == StatusReg then status(statusReads) else words[off]
    }

    /** The values the next `n` reads of the status register will return. */
    ghost function Upcoming(n: nat): seq<Word>
      reads this
    {
      var first, hw := statusReads, status;
      seq(n, k requires 0 <= k < n => hw(first + k))
    }
  }

  /** The driver's record of one GPU. */
  class GpuDevice {
    var regs: RegisterWindow?
    var irq: int32
    var initialized: bool
    var features: Word

    /** An initialized device has a valid register window. */
    ghost predicate Valid()
      reads this, regs
    {
      initialized ==> regs != null && regs.Valid()
    }

    /** A zero-filled record, as a caller allocates before initialization. */
    constructor ()
      ensures Valid()
      ensures regs == null && irq == 0 && !initialized && features == 0
    {
      regs := null;
      irq := 0;
      initialized := false;
      features := 0;
    }
  }

  /** Reads the 32-bit register at `off`; no field of `dev` changes. */
  method Read32(dev: GpuDevice, off: Offset) returns (v: Word)
    requires dev.regs != null && dev.regs.Valid()
    requires off in RegisterOffsets
    modifies dev.regs
    ensures dev.regs.Valid()
    ensures v == old(dev.regs.Current(off))
    ensures dev.regs.words == old(dev.regs.words)
    ensures dev.regs.statusReads == old(dev.regs.statusReads) + (if off == StatusReg then 1 else 0)
    ensures dev.regs.trace == old(dev.regs.trace) + [Read(off, v)]
  {
    var w := dev.regs;
    v := w.Current(off);
    ReplayStep(w.initialWords, w.trace, Read(off, v));
    w.trace := w.trace + [Read(off, v)];
    if off == StatusReg {
      w.statusReads := w.statusReads + 1;
    }
  }

  /** Stores exactly `value` in the 32-bit register at `off`; no other word changes. */
  method Write32(dev: GpuDevice, off: Offset, value: Word)
    requires dev.regs != null && dev.regs.Valid()
    requires off in RegisterOffsets
    modifies dev.regs
    ensures dev.regs.Valid()
    ensures dev.regs.words == old(dev.regs.words)[off := value]
    ensures dev.regs.statusReads == old(dev.regs.statusReads)
    ensures dev.regs.trace == old(dev.regs.trace) + [Write(off, value)]
  {
    var w := dev.regs;
    ReplayStep(w.initialWords, w.trace, Write(off, value));
    w.words := w.words[off := value];
    w.trace := w.trace + [Write(off, value)];
  }
}

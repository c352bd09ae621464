/**
 * The lifecycle of the H618 GPU: initialization, the bounded reset
 * handshake, teardown and the job-submission readiness gate.
 *
 * Every operation is a method over a possibly-null device, proved against
 * pure definitions of what it does to the register window: the access log
 * it appends (`ResetTrace`, `InitWrites`, `CleanupWrites`) and the outcome
 * of the status poll (`FirstClear`, `PollCount`, `ResetResult`).
 */
module GpuInit {
  import opened GpuH618

  /** Every lifecycle call returns 0 on success and -1 on any failure. */
  const Ok: int := 0
  const Failed: int := -1

  /** The number of status reads the reset handshake makes before giving up. */
  const ResetTimeout: nat := 1000

  const AllOnes: Word := 0xFFFF_FFFF

  /** Bit 0 of the status register: the reset is still in progress. */
  predicate Busy(status: Word)
  {
    status & 1 != 0
  }

  /** The index of the first status value with bit 0 clear, or |obs| if there is none. */
  function FirstClear(obs: seq<Word>): (i: nat)
    ensures i <= |obs|
    ensures forall k :: 0 <= k < i ==> Busy(obs[k])
    ensures i < |obs| ==> !Busy(obs[i])
  {
    if obs == [] then 0
    else if !Busy(obs[0]) then 0
    else 1 + FirstClear(obs[1..])
  }

  /** How many status reads the reset handshake makes when the hardware presents `obs`. */
  function PollCount(obs: seq<Word>): nat
  {
    if FirstClear(obs) < |obs| then FirstClear(obs) + 1 else |obs|
  }

  /** The return code of the reset handshake when the hardware presents `obs`. */
  function ResetResult(obs: seq<Word>): int
  {
    if FirstClear(obs) < |obs| then Ok else Failed
  }

  /** A log of reads of the status register that returned `vals`, in order. */
  function StatusReads(vals: seq<Word>): seq<Access>
  {
    seq(|vals|, k requires 0 <= k < |vals| => Read(StatusReg, vals[k]))
  }

  /** The accesses of the reset handshake: the reset command, then the status polls. */
  function ResetTrace(obs: seq<Word>): seq<Access>
  {
    [Write(CmdReg, 1)] + StatusReads(obs[..PollCount(obs)])
  }

  /** The writes initialization makes once the reset has succeeded. */
  const InitWrites: seq<Access> :=
    [Write(IrqClear, AllOnes), Write(IrqMask, 1), Write(PwrOverride, AllOnes)]

  /** The writes teardown makes on an initialized device. */
  const CleanupWrites: seq<Access> :=
    [Write(IrqMask, 0), Write(IrqClear, AllOnes), Write(PwrOverride, 0)]

  /** The offsets the lifecycle touches. */
  const LifecycleOffsets: seq<Offset> := [IrqClear, IrqMask, CmdReg, StatusReg, PwrOverride]

  // ---------------------------------------------------------------------------
  // Properties of the reset handshake

  /**
   * The handshake succeeds exactly when some polled value has bit 0 clear; it
   * then stops at the first such value, having seen only busy values before it.
   */
  lemma ResetSucceedsOnFirstClear(obs: seq<Word>)
    ensures ResetResult(obs) == Ok <==> exists k :: 0 <= k < |obs| && !Busy(obs[k])
    ensures ResetResult(obs) == Ok ==>
              1 <= PollCount(obs) <= |obs| && !Busy(obs[PollCount(obs) - 1])
    ensures forall k :: 0 <= k < PollCount(obs) - 1 ==> Busy(obs[k])
  {
    if ResetResult(obs) == Ok {
      assert !Busy(obs[FirstClear(obs)]);
    }
  }

  /** When bit 0 never clears, the handshake fails after polling exactly |obs| times. */
  lemma ResetTimesOut(obs: seq<Word>)
    requires forall k :: 0 <= k < |obs| ==> Busy(obs[k])
    ensures ResetResult(obs) == Failed
    ensures PollCount(obs) == |obs|
  {
  }

  /** With the 1000-read budget, a never-clearing status bit costs exactly 1000 reads. */
  lemma ResetBudgetIsExact(obs: seq<Word>)
    requires |obs| == ResetTimeout
    requires forall k :: 0 <= k < |obs| ==> Busy(obs[k])
    ensures ResetResult(obs) == Failed && PollCount(obs) == 1000
  {
    ResetTimesOut(obs);
  }

  /** The reset command is written once, first; every later access is a status read. */
  lemma ResetTraceShape(obs: seq<Word>)
    ensures |ResetTrace(obs)| == 1 + PollCount(obs)
    ensures ResetTrace(obs)[0] == Write(CmdReg, 1)
    ensures forall k :: 1 <= k < |ResetTrace(obs)| ==> ResetTrace(obs)[k] == Read(StatusReg, obs[k - 1])
  {
  }

  /** One more status read appends one read to the log of status reads. */
  lemma StatusReadsSnoc(vals: seq<Word>, v: Word)
    ensures StatusReads(vals + [v]) == StatusReads(vals) + [Read(StatusReg, v)]
  {
  }

  /** One more poll extends the log of status reads by one read. */
  lemma StatusReadsGrow(before: seq<Access>, obs: seq<Word>, n: nat)
    requires n < |obs|
    ensures before + StatusReads(obs[..n + 1]) == before + StatusReads(obs[..n]) + [Read(StatusReg, obs[n])]
  {
    assert obs[..n + 1] == obs[..n] + [obs[n]];
    StatusReadsSnoc(obs[..n], obs[n]);
  }

  /** FirstClear is the index of the first clear value: only busy values before it. */
  lemma FirstClearAt(obs: seq<Word>, i: nat)
    requires i <= |obs|
    requires forall k :: 0 <= k < i ==> Busy(obs[k])
    requires i < |obs| ==> !Busy(obs[i])
    ensures FirstClear(obs) == i
  {
  }

  /** Reads leave the register words as they were. */
  lemma {:induction false} ReplayStatusReads(words: map<Offset, Word>, vals: seq<Word>)
    ensures Replay(words, StatusReads(vals)) == words
    decreases |vals|
  {
    if vals != [] {
      var front := vals[..|vals| - 1];
      assert vals == front + [vals[|vals| - 1]];
      StatusReadsSnoc(front, vals[|vals| - 1]);
      ReplayStatusReads(words, front);
      ReplayStep(words, StatusReads(front), Read(StatusReg, vals[|vals| - 1]));
    }
  }

  /** The only register the handshake changes is the command register, set to 1. */
  lemma ResetRegisters(words: map<Offset, Word>, obs: seq<Word>)
    ensures Replay(words, ResetTrace(obs)) == words[CmdReg := 1]
  {
    var polls := StatusReads(obs[..PollCount(obs)]);
    ReplayConcat(words, [Write(CmdReg, 1)], polls);
    ReplayStep(words, [], Write(CmdReg, 1));
    ReplayStatusReads(words[CmdReg := 1], obs[..PollCount(obs)]);
  }

  /** After initialization's writes, interrupts are cleared, bit 0 alone is unmasked and power is forced on. */
  lemma InitRegisters(words: map<Offset, Word>)
    ensures var after := Replay(words, InitWrites);
            after == words[IrqClear := AllOnes][IrqMask := 1][PwrOverride := AllOnes] &&
            after[IrqClear] == AllOnes && after[IrqMask] == 1 && after[PwrOverride] == AllOnes
  {
    ReplayStep(words, [], InitWrites[0]);
    ReplayStep(words, InitWrites[..1], InitWrites[1]);
    ReplayStep(words, InitWrites[..2], InitWrites[2]);
    assert InitWrites[..1] == [] + [InitWrites[0]];
    assert InitWrites[..2] == InitWrites[..1] + [InitWrites[1]];
    assert InitWrites == InitWrites[..2] + [InitWrites[2]];
  }

  /** After teardown's writes, every interrupt is masked, pending ones are cleared and power is off. */
  lemma CleanupRegisters(words: map<Offset, Word>)
    ensures var after := Replay(words, CleanupWrites);
            after == words[IrqMask := 0][IrqClear := AllOnes][PwrOverride := 0] &&
            after[IrqMask] == 0 && after[IrqClear] == AllOnes && after[PwrOverride] == 0
  {
    ReplayStep(words, [], CleanupWrites[0]);
    ReplayStep(words, CleanupWrites[..1], CleanupWrites[1]);
    ReplayStep(words, CleanupWrites[..2], CleanupWrites[2]);
    assert CleanupWrites[..1] == [] + [CleanupWrites[0]];
    assert CleanupWrites[..2] == CleanupWrites[..1] + [CleanupWrites[1]];
    assert CleanupWrites == CleanupWrites[..2] + [CleanupWrites[2]];
  }

  /** The lifecycle's registers are distinct, word aligned and defined, so no write aliases another. */
  lemma LifecycleOffsetsDistinctAndAligned()
    ensures forall i, j :: 0 <= i < j < |LifecycleOffsets| ==> LifecycleOffsets[i] != LifecycleOffsets[j]
    ensures forall i :: 0 <= i < |LifecycleOffsets| ==>
              LifecycleOffsets[i] % 4 == 0 && LifecycleOffsets[i] in RegisterOffsets
  {
  }

  // ---------------------------------------------------------------------------
  // The lifecycle operations

  /**
   * The reset handshake: write 1 to the command register, then poll the
   * status register at most ResetTimeout times for bit 0 to clear.
   * The device record itself is never changed.
   */
  method Reset(dev: GpuDevice?) returns (rc: int)
    requires dev != null ==> dev.regs != null && dev.regs.Valid()
    modifies if dev != null then {dev.regs} else {}
    ensures dev == null ==> rc == Failed
    ensures dev != null ==> unchanged(dev) && dev.regs.Valid()
    ensures dev != null ==> rc == ResetResult(old(dev.regs.Upcoming(ResetTimeout)))
    ensures dev != null ==>
              dev.regs.statusReads == old(dev.regs.statusReads) + PollCount(old(dev.regs.Upcoming(ResetTimeout)))
    ensures dev != null ==>
              dev.regs.trace == old(dev.regs.trace) + ResetTrace(old(dev.regs.Upcoming(ResetTimeout)))
    ensures dev != null ==> dev.regs.words == old(dev.regs.words)[CmdReg := 1]
  {
    if dev == null {
      return Failed;
    }
    Write32(dev, CmdReg, 1);
    rc := AwaitResetDone(dev);
  }

  /**
   * The polling half of the handshake: at most ResetTimeout status reads,
   * stopping at the first whose bit 0 is clear.
   */
  method AwaitResetDone(dev: GpuDevice) returns (rc: int)
    requires dev.regs != null && dev.regs.Valid()
    modifies dev.regs
    ensures dev.regs.Valid()
    ensures rc == ResetResult(old(dev.regs.Upcoming(ResetTimeout)))
    ensures dev.regs.statusReads == old(dev.regs.statusReads) + PollCount(old(dev.regs.Upcoming(ResetTimeout)))
    ensures dev.regs.trace ==
              old(dev.regs.trace) + StatusReads(old(dev.regs.Upcoming(ResetTimeout))[..PollCount(old(dev.regs.Upcoming(ResetTimeout)))])
    ensures dev.regs.words == old(dev.regs.words)
  {
    var w := dev.regs;
    ghost var obs, reads0, trace0 := w.Upcoming(ResetTimeout), w.statusReads, w.trace;
    ghost var polled := 0;
    var timeout := ResetTimeout;
    while timeout > 0
      invariant polled + timeout == ResetTimeout
      invariant w.Valid() && w.words == old(w.words)
      invariant w.statusReads == reads0 + polled
      invariant forall k :: 0 <= k < polled ==> Busy(obs[k])
      invariant w.trace == trace0 + StatusReads(obs[..polled])
      decreases timeout
    {
      timeout := timeout - 1;
      var status := Read32(dev, StatusReg);
      assert status == obs[polled];
      StatusReadsGrow(trace0, obs, polled);
      if status & 1 == 0 {
        FirstClearAt(obs, polled);
        return Ok;
      }
      polled := polled + 1;
    }
    FirstClearAt(obs, polled);
    return Failed;
  }

  /**
   * Initialization: record the window and interrupt line, run the reset
   * handshake, then clear interrupts, unmask bit 0 and force power on.
   * A null device or base fails before anything is touched.
   */
  method Init(dev: GpuDevice?, base: RegisterWindow?, irq: int32) returns (rc: int)
    requires base != null ==> base.Valid()
    modifies dev, base
    ensures dev == null || base == null ==> rc == Failed
    ensures dev != null && base == null ==> unchanged(dev)
    ensures dev == null && base != null ==> unchanged(base)
    ensures dev != null && base != null ==>
              dev.Valid() && base.Valid() && dev.regs == base && dev.irq == irq && dev.features == old(dev.features)
    ensures dev != null && base != null ==>
              rc == ResetResult(old(base.Upcoming(ResetTimeout))) && dev.initialized == (rc == Ok)
    ensures dev != null && base != null ==>
              base.statusReads == old(base.statusReads) + PollCount(old(base.Upcoming(ResetTimeout)))
    ensures dev != null && base != null ==>
              base.trace == old(base.trace) + ResetTrace(old(base.Upcoming(ResetTimeout)))
                            + (if rc == Ok then InitWrites else [])
    ensures dev != null && base != null && rc == Failed ==>
              base.words == old(base.words)[CmdReg := 1]
    ensures dev != null && base != null && rc == Ok ==>
              base.words == old(base.words)[CmdReg := 1][IrqClear := AllOnes][IrqMask := 1][PwrOverride := AllOnes]
  {
    if dev == null || base == null {
      return Failed;
    }
    dev.regs := base;
    dev.irq := irq;
    dev.initialized := false;

    rc := Reset(dev);
    if rc != Ok {
      return Failed;
    }

    Write32(dev, IrqClear, AllOnes);
    Write32(dev, IrqMask, 1);
    Write32(dev, PwrOverride, AllOnes);

    dev.initialized := true;
    return Ok;
  }

  /**
   * Teardown: on an initialized device, mask all interrupts, clear pending
   * ones, power down and mark the device uninitialized. On a null or
   * uninitialized device it does nothing.
   */
  method Cleanup(dev: GpuDevice?)
    requires dev != null ==> dev.Valid()
    modifies dev, if dev != null then {dev.regs} else {}
    ensures dev != null ==> dev.Valid() && !dev.initialized
    ensures dev != null && !old(dev.initialized) ==>
              unchanged(dev) && (dev.regs != null ==> unchanged(dev.regs))
    ensures dev != null && old(dev.initialized) ==>
              dev.regs == old(dev.regs) && dev.regs.Valid() && dev.irq == old(dev.irq) && dev.features == old(dev.features)
    ensures dev != null && old(dev.initialized) ==>
              dev.regs.trace == old(dev.regs.trace) + CleanupWrites &&
              dev.regs.words == old(dev.regs.words)[IrqMask := 0][IrqClear := AllOnes][PwrOverride := 0] &&
              dev.regs.statusReads == old(dev.regs.statusReads)
  {
    if dev == null || !dev.initialized {
      return;
    }

    Write32(dev, IrqMask, 0);
    Write32(dev, IrqClear, AllOnes);
    Write32(dev, PwrOverride, 0);

    dev.initialized := false;
  }

  /**
   * The submission gate: fails exactly when the device is null, not
   * initialized, or the job is null. Nothing is written and no field changes.
   */
  method SubmitJob(dev: GpuDevice?, job: object?) returns (rc: int)
    ensures rc == Ok || rc == Failed
    ensures rc == Failed <==> dev == null || !dev.initialized || job == null
  {
    if dev == null || !dev.initialized || job == null {
      return Failed;
    }
    return Ok;
  }

  // ---------------------------------------------------------------------------
  // Consequences for callers

  /** Teardown is idempotent: two consecutive calls have exactly the effect of one. */
  method CleanupTwice(dev: GpuDevice?)
    requires dev != null ==> dev.Valid()
    modifies dev, if dev != null then {dev.regs} else {}
    ensures dev != null ==> dev.Valid() && !dev.initialized
    ensures dev != null && !old(dev.initialized) ==>
              unchanged(dev) && (dev.regs != null ==> unchanged(dev.regs))
    ensures dev != null && old(dev.initialized) ==>
              dev.regs == old(dev.regs) && dev.regs.Valid() && dev.irq == old(dev.irq) && dev.features == old(dev.features)
    ensures dev != null && old(dev.initialized) ==>
              dev.regs.trace == old(dev.regs.trace) + CleanupWrites &&
              dev.regs.words == old(dev.regs.words)[IrqMask := 0][IrqClear := AllOnes][PwrOverride := 0] &&
              dev.regs.statusReads == old(dev.regs.statusReads)
  {
    Cleanup(dev);
    Cleanup(dev);
  }

  /** A successful initialization lets any non-null job through the gate. */
  method InitThenSubmit(dev: GpuDevice, base: RegisterWindow, irq: int32, job: object)
    returns (initRc: int, submitRc: int)
    requires base.Valid()
    modifies dev, base
    ensures dev.regs == base && dev.irq == irq && dev.features == old(dev.features)
    ensures initRc == Ok ==> submitRc == Ok && dev.initialized
    ensures initRc != Ok ==> submitRc == Failed && !dev.initialized
  {
    initRc := Init(dev, base, irq);
    submitRc := SubmitJob(dev, job);
  }

  /**
   * Teardown followed by initialization on the same window: the window
   * stays valid through teardown, so the device can be brought up again,
   * and the second bring-up sees the status values teardown left unread.
   */
  method Restart(dev: GpuDevice, irq: int32) returns (rc: int)
    requires dev.Valid() && dev.initialized
    modifies dev, dev.regs
    ensures dev.Valid() && dev.regs == old(dev.regs) && dev.regs.Valid()
    ensures dev.irq == irq && dev.features == old(dev.features)
    ensures rc == ResetResult(old(dev.regs.Upcoming(ResetTimeout))) && dev.initialized == (rc == Ok)
    ensures dev.regs.trace == old(dev.regs.trace) + CleanupWrites
                              + ResetTrace(old(dev.regs.Upcoming(ResetTimeout)))
                              + (if rc == Ok then InitWrites else [])
  {
    var base := dev.regs;
    ghost var obs := base.Upcoming(ResetTimeout);
    Cleanup(dev);
    assert base.Upcoming(ResetTimeout) == obs;
    rc := Init(dev, base, irq);
  }

  /**
   * A device whose status register reads 0 at once: initialization
   * succeeds and configures the interrupt and power registers, a job is
   * accepted, and teardown masks interrupts and powers down.
   */
  method PowerCycle() returns (initRc: int, initMask: Word, initPower: Word, initClear: Word,
                               submitRc: int, finalMask: Word, finalPower: Word, finalReady: bool)
    ensures initRc == Ok && initMask == 1 && initPower == AllOnes && initClear == AllOnes
    ensures submitRc == Ok
    ensures finalMask == 0 && finalPower == 0 && !finalReady
  {
    var contents := map o | o in RegisterOffsets :: 0 as Word;
    var hw := new RegisterWindow(contents, (k: nat) => 0 as Word);
    var dev := new GpuDevice();
    initRc := Init(dev, hw, 97);
    assert !Busy(hw.status(0));
    initMask, initPower, initClear := hw.words[IrqMask], hw.words[PwrOverride], hw.words[IrqClear];
    var job := new object;
    submitRc := SubmitJob(dev, job);
    Cleanup(dev);
    finalMask, finalPower, finalReady := hw.words[IrqMask], hw.words[PwrOverride], dev.initialized;
  }
}

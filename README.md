# H618 GPU lifecycle controller — a Dafny model

This project models the lifecycle controller of the H618 GPU driver skeleton:
the device record (`struct gpu_device`), its 32-bit register accessors, and
the four lifecycle calls `gpu_init`, `gpu_reset`, `gpu_cleanup` and
`gpu_submit_job`.

Files:

- `gpu_h618.dfy`, module `GpuH618`, follows `include/gpu_h618.h`. It holds:
  - the register offsets;
  - the log entry `Access`, which is one read or write of the register window;
  - `Replay`, the register contents after a log of accesses;
  - the class `RegisterWindow`, the memory-mapped window that `regs` points at;
  - the class `GpuDevice`, the driver's record;
  - the accessors `Read32` and `Write32`.
- `gpu_init.dfy`, module `GpuInit`, follows `src/gpu_init.c`. It holds:
  - pure definitions of the reset handshake: `FirstClear`, `PollCount`, `ResetResult` and `ResetTrace`;
  - the write sequences of initialization and teardown: `InitWrites` and `CleanupWrites`;
  - the lemmas about these definitions;
  - the lifecycle methods, proved against them;
  - four client methods: idempotent teardown, init-then-submit, restart after teardown, and a full power cycle.

How the model is built:

- **Null handles.** The device, the base and the job are nullable references: `GpuDevice?`, `RegisterWindow?` and `object?`.
- **Return codes.** Each call returns the C integer, 0 or -1. Every failure returns -1; there are no named error kinds.
- **Device state.** `GpuDevice` has the fields `regs`, `irq` (a 32-bit `int32`), `initialized` and `features`. `features` is never read or written. Every method leaves it unchanged, either by its frame or by an explicit postcondition.
- **Register window.**
  - `RegisterWindow.words` maps each offset to a 32-bit word (`bv32`). It starts as the window's initial contents and is updated by every write. Offsets are `uint32` values.
  - The status register is driven by the hardware. Its k-th read returns `status(k)`, a function given when the window is created. `statusReads` counts the reads so far.
  - The ghost `trace` logs every access in order. The window invariant `Valid()` says that `words` is the replay of `trace` over the window's initial contents. So what a method appends to the log fully determines its effect on the registers.
- **The poll loop.** `Reset` writes the reset command and then runs its countdown loop in `AwaitResetDone`. The loop has a separate method only so that each proof stays small. Together the two are `gpu_reset` (lines 50-69).
- **One state flag.** There is no separate shut-down state. Teardown sets `initialized` to false, so a torn-down device cannot be told apart from one that was never initialized.
- **Power override register.** Initialization and teardown write the power override register `GPU_PWR_OVERRIDE` at offset `0x054`. `GPU_PWR_KEY` (`0x050`) is defined but never used.
- **`gpu_init` arguments.** It fails, touching nothing, when either the device or the base is null.
- **Failed reset in `gpu_init`.** `regs` and `irq` are recorded and `initialized` is cleared before the reset. A failed reset therefore leaves a previously initialized device uninitialized, with its window and interrupt line replaced. The window stays valid, so the device can be initialized again.

## Model

| member | source | states |
|---|---|---|
| `GpuH618.GpuDevice.constructor` | drivers/gpu-h618/include/gpu_h618.h:32-37 | a fresh record has no register window, irq 0, is not initialized and has no features |
| `GpuH618.RegisterWindow.constructor` | drivers/gpu-h618/include/gpu_h618.h:33 | a window starts with the given contents, has an empty access log and has seen no status read |
| `GpuH618.Read32` | drivers/gpu-h618/include/gpu_h618.h:46-49 | returns the word currently at the offset (the hardware's next status value for the status register); changes no register word and no field of the device; logs one read |
| `GpuH618.Write32` | drivers/gpu-h618/include/gpu_h618.h:51-54 | the word at the offset becomes exactly the value and no other word changes; logs one write; the window invariant is kept |
| `GpuH618.ReplayStep` | drivers/gpu-h618/include/gpu_h618.h:46-54 | appending a write stores its value at its offset; appending a read changes no word |
| `GpuH618.ReplayConcat` | drivers/gpu-h618/include/gpu_h618.h:51-54 | replaying a log in two consecutive pieces gives the same registers as replaying it whole |
| `GpuH618.ReplayUnwritten` | drivers/gpu-h618/include/gpu_h618.h:51-54 | a register that no access in a log writes keeps its word |
| `GpuInit.LifecycleOffsetsDistinctAndAligned` | drivers/gpu-h618/include/gpu_h618.h:14-29 | the five registers the lifecycle uses are pairwise distinct, 4-byte aligned and defined offsets, so no write aliases another |
| `GpuInit.FirstClear` | drivers/gpu-h618/src/gpu_init.c:61-65 | the index it returns is within bounds, every status value before it has bit 0 set, and the value at it (if any) has bit 0 clear |
| `GpuInit.FirstClearAt` | drivers/gpu-h618/src/gpu_init.c:61-65 | the first clear index is unique: any index with only busy values before it and a clear value at it is FirstClear |
| `GpuInit.ResetSucceedsOnFirstClear` | drivers/gpu-h618/src/gpu_init.c:60-65 | the handshake returns 0 if and only if some polled value has bit 0 clear; it then stops at the first such read, with only busy reads before it |
| `GpuInit.ResetTimesOut` | drivers/gpu-h618/src/gpu_init.c:60-68 | if bit 0 is set on every polled value, the handshake returns -1 after reading every one of them |
| `GpuInit.ResetBudgetIsExact` | drivers/gpu-h618/src/gpu_init.c:60-68 | with the 1000-read budget and a status bit that never clears, the handshake fails after exactly 1000 reads |
| `GpuInit.ResetTraceShape` | drivers/gpu-h618/src/gpu_init.c:57-62 | the handshake's first access is the single write of 1 to the command register, and every later access is a status read, in polling order |
| `GpuInit.ReplayStatusReads` | drivers/gpu-h618/src/gpu_init.c:62 | status reads change no register word |
| `GpuInit.ResetRegisters` | drivers/gpu-h618/src/gpu_init.c:57-65 | the only register the handshake changes is the command register, which ends at 1 |
| `GpuInit.InitRegisters` | drivers/gpu-h618/src/gpu_init.c:19-26 | initialization's writes leave IRQ clear at 0xFFFFFFFF, IRQ mask at 0x01 and power override at 0xFFFFFFFF, and change nothing else |
| `GpuInit.CleanupRegisters` | drivers/gpu-h618/src/gpu_init.c:38-45 | teardown's writes leave IRQ mask at 0, IRQ clear at 0xFFFFFFFF and power override at 0, and change nothing else |
| `GpuInit.Reset` | drivers/gpu-h618/src/gpu_init.c:50-69 | a null device gets -1 and nothing changes; otherwise exactly one command write comes before any status read, the result and the number of reads are those of the handshake on the hardware's next 1000 status values, and the device record is unchanged |
| `GpuInit.AwaitResetDone` | drivers/gpu-h618/src/gpu_init.c:59-68 | the countdown loop reads the status register until bit 0 clears or 1000 reads are spent; the result, the number of reads and the logged reads match the handshake's definition; the register words are unchanged |
| `GpuInit.Init` | drivers/gpu-h618/src/gpu_init.c:4-30 | a null device or base gives -1 with nothing changed; otherwise regs and irq are recorded, the reset runs, and then either -1 with the device uninitialized and no further writes, or 0 with the device initialized after exactly IRQ clear := 0xFFFFFFFF, IRQ mask := 0x01 and power override := 0xFFFFFFFF, in that order; features are unchanged and the window stays valid in every case, so a failed or repeated initialization can be followed by another |
| `GpuInit.Cleanup` | drivers/gpu-h618/src/gpu_init.c:32-48 | a null or uninitialized device is left unchanged with no register access; an initialized one gets exactly IRQ mask := 0, IRQ clear := 0xFFFFFFFF and power override := 0, in that order, and becomes uninitialized with regs, irq and features unchanged and the window still valid |
| `GpuInit.SubmitJob` | drivers/gpu-h618/src/gpu_init.c:71-81 | returns -1 exactly when the device is null, not initialized, or the job is null, and 0 otherwise; writes nothing and changes no field |
| `GpuInit.CleanupTwice` | drivers/gpu-h618/src/gpu_init.c:34-36 | two consecutive teardowns have exactly the effect of one: the second is a no-op, and the window stays valid |
| `GpuInit.InitThenSubmit` | drivers/gpu-h618/src/gpu_init.c:73-75 | after a successful initialization any non-null job is accepted; after a failed one every submission is refused; either way regs and irq are the given ones and features are unchanged |
| `GpuInit.Restart` | drivers/gpu-h618/src/gpu_init.c:4-48 | an initialized device can be torn down and initialized again on the same window: the log is teardown's three writes, then the handshake on the status values still unread, then (on success) initialization's three writes; the result and the state flag are those of the handshake, the window stays valid, and features are unchanged |
| `GpuInit.PowerCycle` | drivers/gpu-h618/src/gpu_init.c:4-48 | with a status register that reads 0 at once: initialization returns 0 with IRQ mask 0x01, power override and IRQ clear 0xFFFFFFFF; a job is accepted; teardown leaves IRQ mask 0, power override 0 and the device uninitialized |

## Left out

- **Volatile memory-mapped I/O.** Ordering, caching and hardware side effects of a register access are not modelled. The window is a map plus an access log. The status register's values come from a function supplied when the window is created.
- **Word at the status offset.** The word stored at the status offset in `words` is never what a status read returns. The hardware function decides the read value. The code never writes that register.
- **Pointer arithmetic.** `regs + off` is not modelled. A register is addressed by its offset into the window. The accessors require a defined offset, because the code does no bounds checking.
- **Constants that are not offsets.** `GPU_BASE_ADDR` and `GPU_IRQ_NUM` are not modelled, because no operation uses them. The other offset constants are declared only so that the accessor precondition can name them; no lifecycle call uses them.
- **Job descriptors.** The job is an opaque non-null token, because the code only checks that it is not null.
- **Interrupts.** Interrupt delivery and dispatch are not modelled, and neither is any check of `irq`. The code only stores the interrupt line.
- **Concurrency.** Concurrent calls on one device are not modelled. The code has no locking and assumes a single caller.
- **The loop counter's last value.** After the loop's final test, the post-decrement leaves `timeout` at -1. That value is never observed, so the model's countdown stops at 0.
- **Uninitialized memory.** C leaves a caller-allocated record with undefined fields. `GpuDevice.constructor` gives it a null window and zero fields. Calls that dereference `regs` require a non-null, valid window, because a null one is undefined behaviour in the code.

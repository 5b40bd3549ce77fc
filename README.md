# Pipelined frame dispatch for TIDL (YOLO on the BeagleBone AI), modelled in Dafny

The two host programs (`approach_1.cpp`, one execution object per frame;
`approach_2.cpp`, two EVEs per frame through execution-object pipelines)
send a stream of frames to TI's TIDL accelerators. Both work the same way.
They build a fixed pool of P slots (EOs or EOPs), bind an input and an output
buffer into each slot, and then run a round-robin loop. The loop runs
`numFrames + P` iterations. Iteration `frame_idx` visits
`pool[frame_idx % P]`, waits on that slot's previous job, may compare its
output with a reference output, then reads the next frame and starts it on
the same slot.

This project models that host-side logic:

- `tidl.dfy`, module `Tidl`: what the dispatch code sees of the runtime.
  This covers device types, EOs, executors, two-stage pipelines, the buffer
  sizes a slot reports and the per-slot job state (`Idle`/`Issued`).
- `dispatch.dfy`, module `Dispatch`: the loop. `Iterate` is a pure
  specification of its first n iterations. The class `Scheduler` holds the
  array of slot states and the `status` flag. Its method `Run` is the loop,
  proved equal to `Iterate`. The lemmas prove what the loop guarantees about
  `Iterate`.
- `buffers.dfy`, module `Buffers`: `AllocateMemory` as a map from slot
  position to the bound (input size, output size).
- `approach_one.dfy`, module `ApproachOne`: `CreateExecutor`, `CollectEOs`,
  the pool of `Run`, `Run` itself and `main`'s device-count and exit-status
  decision.
- `approach_two.dfy`, module `ApproachTwo`: the EOP pool builder (as written
  and corrected), `main`'s guard (as written and corrected), `Run` and `main`.

Collaborators whose code is not part of this model are parameters of
type `Dispatch.Frames`, each a function of `frame_idx`:
- `input`: whether the input file still holds a frame. `ReadFrame(k)` is
  `k < numFrames && input(k)`. Its body is not part of this model; the only
  thing assumed about it is that it returns false once
  `frame_idx >= numFrames`.
- `check`: the verdict of `CheckFrame`.
- `fault`: whether the runtime raises `tidl::Exception` in that iteration.

The device counts, the configuration read and the per-slot buffer sizes are
parameters too. `ProcessFrameWait` returns true exactly when the slot has an
outstanding job, and clears it. `ProcessFrameStartAsync` requires an Idle
slot and marks it Issued.

Where the code and its comments disagree, or the code evidently
misbehaves, the model keeps both versions and records the difference under
"## Findings". The top-level `Run` and `Program` methods take the version as
a parameter:
- approach 1: the reference-check guard `v`. `FirstVisit` is the guard as
  written; `FirstCompletion` is the window the comments describe.
- approach 2: a `Revision`, `AsWritten` or `Corrected`. It selects the pool
  builder (`BuildPipelinesAsWritten` or `BuildPipelines`), main's guard
  (`SourceAdmits` or `Admits`) and the check window.

As written, approach 2's guard lets one EVE through to an empty pool. The
loop's first `frame_idx % 0` then has no defined outcome in C++. `Run`
reports this as `ModuloByZero` and `Program` as the exit outcome `Undefined`.

## Model

| member | source | states |
|---|---|---|
| `Dispatch.Step` | approach_1.cpp:131-149 | one iteration: an exception ends the run with status false and changes no slot and no history; otherwise it appends exactly one event, keeps the earlier history, and changes no slot other than frame_idx % P |
| `Dispatch.Iterate` | approach_1.cpp:130-149 | the pool size is fixed for the run: after n iterations there are still exactly P slot states; without an exception the history has n events, and an aborted run stopped earlier, at an iteration that raised the exception |
| `Dispatch.Pipelined` | approach_1.cpp:128-158 | the whole run of numFrames + P iterations: P slot states; numFrames + P events unless an exception stopped it earlier, at the iteration that raised it |
| `Dispatch.IterateConsistent` | approach_2.cpp:147-168 | the loop invariant: iteration k visits slot k % P; it starts a job exactly when ReadFrame yields frame k; its wait succeeds exactly when iteration k - P started a job; CheckFrame runs exactly when the wait succeeded inside the window; status is false exactly after an exception or a failed check; the last P visits decide every slot's state |
| `Dispatch.IterationCount` | approach_1.cpp:130-133 | without an exception the loop runs exactly numFrames + P iterations, and iteration k uses slot k % P; an exception stops it after k iterations, k being the first iteration that raises one |
| `Dispatch.RoundRobin` | approach_1.cpp:130-133 | two iterations use the same slot if and only if their indices differ by a multiple of P (P > 0) |
| `Dispatch.WaitCompletesEarlierStart` | approach_1.cpp:135-149 | the wait in iteration k succeeds exactly when iteration k - P, the same slot's previous visit, started a frame |
| `Dispatch.NoDoubleIssue` | approach_1.cpp:135-149 | a job started on a slot in iteration i is waited on in iteration i + P, before any later iteration on that slot can start another, so no slot ever has two outstanding jobs |
| `Dispatch.DrainedAtExit` | approach_1.cpp:128-150 | unless an exception ends the loop, every slot is Idle at exit, even when the input ends before numFrames |
| `Dispatch.StatusMeaning` | approach_1.cpp:114-163 | status is true exactly when no exception was raised and every CheckFrame that ran accepted; a failed check does not shorten the loop |
| `Dispatch.FirstVisitNeverValidates` | approach_1.cpp:136-143 | with the guard `frame_idx < P` as written, CheckFrame never runs and status is true unless an exception was raised |
| `Dispatch.FirstVisitStatus` | approach_1.cpp:140-142 | with the guard `frame_idx < P` as written, a run passes exactly when none of its numFrames + P iterations raises an exception, whatever CheckFrame would say |
| `Dispatch.FirstCompletionValidatesOncePerSlot` | approach_2.cpp:153-163 | with the window P <= frame_idx < 2P, CheckFrame runs exactly on the wait of iteration P + s that completes frame s (sent to slot s in iteration s) when frame s was read, so at most once per slot |
| `Dispatch.FirstCompletionStatus` | approach_2.cpp:158-162 | without an exception, status with the corrected window is true exactly when CheckFrame accepts the output of frame s on slot s for every s < P whose frame was read |
| `Dispatch.Scheduler.ProcessFrameWait` | approach_1.cpp:135-136 | the wait reports whether the slot had an outstanding job and leaves it Idle, touching no other slot |
| `Dispatch.Scheduler.ProcessFrameStartAsync` | approach_1.cpp:148-149 | a job is started only on an Idle slot, which becomes Issued |
| `Dispatch.Scheduler.Visit` | approach_1.cpp:132-148 | one iteration without an exception takes the slot states, status and history of the first k iterations of the specification to those of the first k + 1 |
| `Dispatch.Scheduler.Abort` | approach_1.cpp:154-158 | an exception in iteration k sets status false and ends the loop; the resulting state is the specification's final outcome of the whole run |
| `Dispatch.Scheduler.Run` | approach_2.cpp:145-168 | the loop leaves exactly the slot states, status and iteration history of the specification `Pipelined` (numFrames + P iterations); every start it makes is on an Idle slot |
| `Buffers.Arena.SetInputOutputBuffer` | approach_2.cpp:195-197 | binding changes the buffers of that slot only |
| `Buffers.Arena.AllocateMemory` | approach_1.cpp:189-204 | every slot of the pool gets buffers of exactly the input and output sizes it reports; bindings of other positions are untouched and nothing else is bound |
| `ApproachOne.CreateExecutor` | approach_1.cpp:167-177 | no executor for zero devices; otherwise one whose device ids are exactly {0, ..., num-1}, with num execution objects |
| `ApproachOne.CollectEOs` | approach_1.cpp:180-186 | a missing executor leaves the list unchanged; otherwise the executor's EOs are appended in index order after the existing entries, which are kept |
| `ApproachOne.CollectPool` | approach_1.cpp:117-124 | the pool has num_eve + num_dsp EOs: EVE 0..num_eve-1, then DSP 0..num_dsp-1, so every EVE EO precedes every DSP EO |
| `ApproachOne.Run` | approach_1.cpp:94-164 | a failed config read returns false before any frame work; otherwise the result is the status of the numFrames + P loop over the collected pool. With the guard as written it is true exactly when the config is read and no exception is raised. With the corrected window and no exception, it is true exactly when frame s's output on slot s passes CheckFrame for every s < P whose frame was read |
| `ApproachOne.Program` | approach_1.cpp:57-92 | no devices at all: exit success without running; otherwise exit failure exactly when Run returns false. With the guard as written, exit success exactly when the config is read and no exception is raised; the exit is always defined |
| `ApproachTwo.GroupPool` | approach_2.cpp:129-141 | a pool of g device groups has PipelineDepth * g EOPs, and EOP k is {EVE 2(k/2), EVE 2(k/2)+1}, so each group is pushed twice in a row with identical membership |
| `ApproachTwo.BuildPipelinesAsWritten` | approach_2.cpp:135-141 | the loop as written builds one group per even i < num_eve/2, so 2 * ((num_eve/2 + 1)/2) EOPs, and both indices of every EOP are below num_eve, so the `% num_eve` never wraps |
| `ApproachTwo.BuildPipelines` | approach_2.cpp:129-133 | the intended loop builds one group per pair of EVEs, 2 * (num_eve/2) EOPs, with indices below num_eve |
| `ApproachTwo.GroupPoolCopies` | approach_2.cpp:138-141 | two EOPs are equal exactly when they were pushed for the same group, and EOPs of different groups share no EVE |
| `ApproachTwo.AsWrittenFourEves` | approach_2.cpp:137-141 | as written, four EVEs give two EOPs, both {EVE0, EVE1} |
| `ApproachTwo.FourEves` | approach_2.cpp:129-133 | the intended pool for four EVEs: {EVE0, EVE1} twice, then {EVE2, EVE3} twice |
| `ApproachTwo.EmptyPool` | approach_2.cpp:137-141 | both builders give an empty pool exactly when num_eve < 2 |
| `ApproachTwo.SourceAdmitsEmptyPool` | approach_2.cpp:62-68 | the guard as written admits num_eve = 1 with any DSP, whose pool is empty |
| `ApproachTwo.AdmitsIffPool` | approach_2.cpp:62-68 | the corrected guard admits exactly the device counts that have a DSP and give a non-empty pool |
| `ApproachTwo.PoolSize` | approach_2.cpp:135-141 | either builder gives a non-empty pool exactly when there are at least two EVEs |
| `ApproachTwo.Run` | approach_2.cpp:92-182 | a failed config read returns false before any frame work. With fewer than two EVEs the pool is empty and the loop reaches frame_idx % 0. Otherwise the result is the status of the numFrames + P loop over the revision's EOPs. As written, that status is true exactly when no exception is raised. Corrected, with no exception, it is true exactly when frame s's output on EOP s passes CheckFrame for every s < P whose frame was read |
| `ApproachTwo.Program` | approach_2.cpp:55-90 | device counts the revision's guard rejects exit success without running. As written, one EVE with a DSP and a readable config reaches the modulo by zero (exit `Undefined`). With at least two EVEs, as written, the exit is success exactly when the config is read and no exception is raised. In general, exit failure exactly when Run returns false. The corrected program's exit is always defined |

## Left out

- File and console I/O and logging are not modelled: the input file stream, `ReadReferenceOutput`, `EnableTimeStamps`, `ReportTime`, `std::cout`/`std::cerr` and `input.close()`. They produce no state the dispatch logic reads.
- The bodies of `ReadFrame`, `CheckFrame` and `FreeMemory` are not part of this model. `ReadFrame` and `CheckFrame` are the `input` and `check` functions of `Dispatch.Frames`, assumed only to make `ReadFrame` false once `frame_idx >= numFrames`. `FreeMemory` is not modelled. Note that the source calls it inside the `try`, so an exception skips it.
- The TIDL runtime internals are not modelled: `Executor`, `ExecutionObject`, `ExecutionObjectPipeline`, real asynchronous device execution and `GetNumDevices`. Device counts are parameters. An executor is assumed to hold one execution object per device id.
- Device parallelism is not modelled. A slot's job is the host-visible Issued/Idle flag, and the order in which devices finish is not modelled.
- `signal(SIGABRT/SIGTERM, exit)`: process-level signal handling is outside a sequential model.
- `malloc` and `assert` are not modelled: allocation is taken to succeed.
- `Buffers.Arena.AllocateMemory`: records only the sizes bound into each slot. It does not model buffer addresses, so it does not state that no two slots share a buffer.
- The `Configuration` heap-size settings and `showHeapStats` are not modelled: they are plain assignments the dispatch logic never reads.
- `tidl::Exception` is modelled only inside the loop, raised at the start of an iteration, before it changes any slot. An exception from executor or pipeline construction or from buffer binding is not modelled. The slot states after a wait that fails half-way are not modelled either.
- Integer widths are not modelled (`uint32_t` device counts, `int` frame indices). With 30 frames and a handful of devices nothing overflows.
- approach_2.cpp does not compile as shown, so its evident intent is modelled. `config_file` is out of scope at line 95, so the configuration read is the `configOk` parameter, as in approach 1. The 4-argument `CreateExecutor` is not defined, so it is modelled by `ApproachOne.CreateExecutor` and the layer-group id is dropped. `AllocateMemory` is used before it is declared; it is `Buffers.Arena.AllocateMemory`. approach_1.cpp:55 lacks a semicolon.
- `ApproachTwo.Program`: the outcome of the modulo by zero is not modelled beyond `Undefined`. C++ gives it no meaning, and the target CPU's behaviour on it is outside this model.

## Findings

| source | as written | input that shows it | evidently intended | confidence | as-written member | corrected member |
|---|---|---|---|---|---|---|
| approach_1.cpp:142 | `frame_idx < num_eos && !CheckFrame(...)` guards the reference check. The same guard is at approach_2.cpp:161. | Any run with P >= 1, when the wait contract holds (`ProcessFrameWait` true only for an outstanding job). Iteration k < P is slot k's first visit, so its wait returns false and CheckFrame never runs. | Check the output of frame s on slot s, the frame sent to slot s in iteration s, i.e. the waits of iterations P..2P-1, as the comment at approach_2.cpp:159-160 says. | medium (depends on the wait contract); not executed | `Dispatch.FirstVisitNeverValidates` | `Dispatch.FirstCompletionValidatesOncePerSlot` |
| approach_2.cpp:137-141 | `num_pipe = num_eve/2`; `for (i = 0; i < num_pipe; i = i+2)` | num_eve = 4: the loop runs only for i = 0 and builds two EOPs, both {EVE0, EVE1}. | Four EOPs {EVE0, EVE1}, {EVE0, EVE1}, {EVE2, EVE3}, {EVE2, EVE3}, as listed at approach_2.cpp:129-133. | high; not executed | `ApproachTwo.AsWrittenFourEves` | `ApproachTwo.FourEves` |
| approach_2.cpp:64 | `if (num_eve == 0 \|\| num_dsp == 0)` is the only guard before the pool is built | num_eve = 1, num_dsp >= 1: the guard passes and the pool is empty. approach_2.cpp:150 then computes `frame_idx % 0`. | Reject device counts that give no pipeline (num_eve < 2). | high; not executed | `ApproachTwo.SourceAdmitsEmptyPool` | `ApproachTwo.AdmitsIffPool` |

/** approach_1.cpp: one EO per frame. All EVE and DSP cores get one executor
    per device type; their execution objects form the slot pool that the
    dispatch loop visits round-robin. */
module ApproachOne {
  import opened Tidl
  import opened Dispatch
  import Buffers

  /** c.numFrames: the program processes the first 30 frames. */
  const NumFrames: nat := 30

  /** CreateExecutor: no executor for zero devices; otherwise one over the
      device ids 0 .. num-1, with one execution object per device id. */
  method CreateExecutor(dt: DeviceType, num: nat) returns (e: Option<Executor>)
    ensures e.None? <==> num == 0
    ensures e.Some? ==> e.value.device == dt && e.value.numEOs == num
    ensures e.Some? ==> forall d: nat :: d in e.value.ids <==> d < num
  {
    if num == 0 {
      return None;
    }
    var ids: set<nat> := {};
    var i := 0;
    while i < num
      invariant i <= num
      invariant forall d: nat :: d in ids <==> d < i
      invariant |ids| == i
    {
      ids := ids + {i};
      i := i + 1;
    }
    e := Some(Executor(dt, ids, |ids|));
  }

  /** CollectEOs: appends the executor's execution objects, in index order,
      after the entries already collected; a missing executor adds nothing. */
  method CollectEOs(e: Option<Executor>, eos: seq<EO>) returns (r: seq<EO>)
    ensures e.None? ==> r == eos
    ensures e.Some? ==> |r| == |eos| + e.value.numEOs
    ensures |eos| <= |r| && r[..|eos|] == eos
    ensures forall i :: |eos| <= i < |r| ==> e.Some? && r[i] == EO(e.value.device, i - |eos|)
  {
    r := eos;
    if e.None? {
      return;
    }
    var i := 0;
    while i < e.value.numEOs
      invariant i <= e.value.numEOs
      invariant |r| == |eos| + i && r[..|eos|] == eos
      invariant forall j :: |eos| <= j < |r| ==> r[j] == EO(e.value.device, j - |eos|)
    {
      r := r + [EO(e.value.device, i)];
      i := i + 1;
    }
  }

  /** The slot pool of Run: executors for DSP and EVE, then the EVE EOs
      followed by the DSP EOs. */
  method CollectPool(numEve: nat, numDsp: nat) returns (eos: seq<EO>)
    ensures |eos| == numEve + numDsp
    ensures forall i :: 0 <= i < numEve ==> eos[i] == EO(EVE, i)
    ensures forall i :: numEve <= i < |eos| ==> eos[i] == EO(DSP, i - numEve)
    ensures forall i, j :: 0 <= i < j < |eos| && eos[j].device == EVE ==> eos[i].device == EVE
  {
    var dsp := CreateExecutor(DSP, numDsp);
    var eve := CreateExecutor(EVE, numEve);
    eos := CollectEOs(eve, []);
    eos := CollectEOs(dsp, eos);
  }

  /** Run: a failed configuration read returns false before any frame work;
      otherwise the pool is built, buffers are bound and the dispatch loop
      runs numFrames + P iterations; the result is the loop's status. `v` is
      the reference-check guard: FirstVisit is `frame_idx < num_eos` as
      written, FirstCompletion the window the comments describe. */
  method Run(configOk: bool, numEve: nat, numDsp: nat, v: Validation, f: Frames, sizeOf: EO -> BufferSizes)
    returns (status: bool)
    requires numEve > 0 || numDsp > 0
    ensures !configOk ==> !status
    ensures configOk ==> status == Pipelined(numEve + numDsp, NumFrames, f, v).status
    ensures v == FirstVisit ==>
      (status <==> configOk && NoFaultBefore(NumFrames + numEve + numDsp, f))
    ensures v == FirstCompletion && configOk && NoFaultBefore(NumFrames + numEve + numDsp, f) ==>
      (status <==> forall s :: 0 <= s < numEve + numDsp && ReadFrame(f, s, NumFrames) ==>
                     f.check(numEve + numDsp + s))
  {
    if !configOk {
      return false;
    }
    var eos := CollectPool(numEve, numDsp);
    var arena := new Buffers.Arena();
    arena.AllocateMemory(seq(|eos|, k requires 0 <= k < |eos| => sizeOf(eos[k])));
    var scheduler := new Scheduler(|eos|);
    scheduler.Run(NumFrames, f, v);
    status := scheduler.status;
    FirstVisitStatus(|eos|, NumFrames, f);
    FirstCompletionStatus(|eos|, NumFrames, f);
  }

  /** main: with neither EVE nor DSP devices the program exits successfully
      without running; otherwise it exits with failure exactly when Run
      reports false. As written (FirstVisit) that is exactly when the
      configuration cannot be read or an exception is raised. */
  method Program(numEve: nat, numDsp: nat, configOk: bool, v: Validation, f: Frames, sizeOf: EO -> BufferSizes)
    returns (code: ExitCode)
    ensures numEve == 0 && numDsp == 0 ==> code == ExitSuccess
    ensures code != Undefined
    ensures numEve > 0 || numDsp > 0 ==>
      (code == ExitSuccess <==> configOk && Pipelined(numEve + numDsp, NumFrames, f, v).status)
    ensures numEve > 0 || numDsp > 0 ==> v == FirstVisit ==>
      (code == ExitSuccess <==> configOk && NoFaultBefore(NumFrames + numEve + numDsp, f))
  {
    if numEve == 0 && numDsp == 0 {
      return ExitSuccess;
    }
    var status := Run(configOk, numEve, numDsp, v, f, sizeOf);
    code := if status then ExitSuccess else ExitFailure;
  }
}

/** approach_2.cpp: two EVEs per frame. Execution-object pipelines (EOPs) of
    two EVE execution objects each form the slot pool; every device group is
    instantiated PipelineDepth times so that one copy computes while the
    other is being issued. */
module ApproachTwo {
  import opened Tidl
  import opened Dispatch
  import Buffers
  import ApproachOne

  /** c.numFrames: the program processes 30 frames. */
  const NumFrames: nat := 30

  /** pipeline_depth: each device group is pushed this many times in a row. */
  const PipelineDepth: nat := 2

  /** A pool of `groups` device groups, group g being { EVE 2g, EVE 2g+1 },
      each pushed PipelineDepth times in a row. */
  function GroupPool(groups: nat): (r: seq<Pipeline>)
    ensures |r| == PipelineDepth * groups
    ensures forall k :: 0 <= k < |r| ==>
      r[k] == Pipeline(2 * (k / PipelineDepth), 2 * (k / PipelineDepth) + 1)
  {
    if groups == 0 then []
    else
      var g := groups - 1;
      GroupPool(g) + seq(PipelineDepth, _ => Pipeline(2 * g, 2 * g + 1))
  }

  /** The number of groups the loop as written builds: the even i below
      num_eve / 2. */
  function AsWrittenGroups(numEve: nat): nat
  {
    (numEve / 2 + 1) / 2
  }

  /** The number of groups intended: one per pair of EVEs. */
  function Groups(numEve: nat): nat
  {
    numEve / 2
  }

  /** The pool-building loop as written: for even i < num_eve / 2, push the
      pipeline { EVE i % num_eve, EVE (i+1) % num_eve } pipeline_depth times.
      The modulo never wraps. */
  method BuildPipelinesAsWritten(numEve: nat) returns (eops: seq<Pipeline>)
    ensures eops == GroupPool(AsWrittenGroups(numEve))
    ensures forall k :: 0 <= k < |eops| ==> eops[k].first < eops[k].second < numEve
  {
    eops := [];
    var numPipe := numEve / 2;
    var i := 0;
    while i < numPipe
      invariant i % 2 == 0 && i <= numPipe + 1
      invariant eops == GroupPool(i / 2)
    {
      ModSmall(i, numEve);
      ModSmall(i + 1, numEve);
      var j := 0;
      while j < PipelineDepth
        invariant j <= PipelineDepth
        invariant eops == GroupPool(i / 2) + seq(j, _ => Pipeline(i, i + 1))
      {
        eops := eops + [Pipeline(i % numEve, (i + 1) % numEve)];
        j := j + 1;
      }
      i := i + 2;
    }
  }

  /** The intended loop: one group per pair of EVEs, i.e. for even i with
      i + 1 < num_eve, pushed pipeline_depth times. */
  method BuildPipelines(numEve: nat) returns (eops: seq<Pipeline>)
    ensures eops == GroupPool(Groups(numEve))
    ensures forall k :: 0 <= k < |eops| ==> eops[k].first < eops[k].second < numEve
  {
    eops := [];
    var i := 0;
    while i + 1 < numEve
      invariant i % 2 == 0 && i <= numEve
      invariant eops == GroupPool(i / 2)
    {
      ModSmall(i, numEve);
      ModSmall(i + 1, numEve);
      var j := 0;
      while j < PipelineDepth
        invariant j <= PipelineDepth
        invariant eops == GroupPool(i / 2) + seq(j, _ => Pipeline(i, i + 1))
      {
        eops := eops + [Pipeline(i % numEve, (i + 1) % numEve)];
        j := j + 1;
      }
      i := i + 2;
    }
  }

  /** Two slots of a pool are copies of one device group exactly when they
      are pushed in the same round; slots of different groups share no EVE. */
  lemma {:induction false} GroupPoolCopies(groups: nat)
    ensures var r := GroupPool(groups);
      forall k, m :: 0 <= k < |r| && 0 <= m < |r| ==>
        (r[k] == r[m] <==> k / PipelineDepth == m / PipelineDepth)
    ensures var r := GroupPool(groups);
      forall k, m :: 0 <= k < |r| && 0 <= m < |r| && k / PipelineDepth != m / PipelineDepth ==>
        r[k].first != r[m].first && r[k].first != r[m].second &&
        r[k].second != r[m].first && r[k].second != r[m].second
  {
    var r := GroupPool(groups);
    forall k, m | 0 <= k < |r| && 0 <= m < |r|
      ensures r[k] == r[m] <==> k / PipelineDepth == m / PipelineDepth
    {
      assert r[k].first == 2 * (k / PipelineDepth) && r[m].first == 2 * (m / PipelineDepth);
    }
  }

  /** As written, four EVEs give two pipelines, both { EVE0, EVE1 }. */
  lemma AsWrittenFourEves()
    ensures GroupPool(AsWrittenGroups(4)) == [Pipeline(0, 1), Pipeline(0, 1)]
  {
    assert AsWrittenGroups(4) == 1;
    assert |GroupPool(1)| == 2;
  }

  /** Intended: four EVEs give { EVE0, EVE1 } twice, then { EVE2, EVE3 } twice. */
  lemma FourEves()
    ensures GroupPool(Groups(4)) ==
      [Pipeline(0, 1), Pipeline(0, 1), Pipeline(2, 3), Pipeline(2, 3)]
  {
    assert Groups(4) == 2;
    assert |GroupPool(2)| == 4;
  }

  /** Either builder gives an empty pool exactly when there are fewer than two EVEs. */
  lemma EmptyPool(numEve: nat)
    ensures |GroupPool(AsWrittenGroups(numEve))| == 0 <==> numEve < 2
    ensures |GroupPool(Groups(numEve))| == 0 <==> numEve < 2
  {
  }

  /** main's guard as written: it rejects only zero EVEs or zero DSPs. */
  predicate SourceAdmits(numEve: nat, numDsp: nat)
  {
    !(numEve == 0 || numDsp == 0)
  }

  /** One EVE passes the guard as written yet yields an empty pool, so the
      loop would compute frame_idx % 0. */
  lemma SourceAdmitsEmptyPool(numDsp: nat)
    requires numDsp > 0
    ensures SourceAdmits(1, numDsp)
    ensures |GroupPool(AsWrittenGroups(1))| == 0 && |GroupPool(Groups(1))| == 0
  {
    EmptyPool(1);
  }

  /** main's guard, corrected: it also rejects a pool without a pipeline. */
  predicate Admits(numEve: nat, numDsp: nat)
  {
    !(numEve < 2 || numDsp == 0)
  }

  /** The corrected guard admits exactly the device counts that have DSPs and
      give a non-empty pool. */
  lemma AdmitsIffPool(numEve: nat, numDsp: nat)
    ensures Admits(numEve, numDsp) <==> numDsp > 0 && |GroupPool(Groups(numEve))| > 0
  {
    EmptyPool(numEve);
  }

  /** The program as written, or with its three defects corrected: the pool
      builder, main's guard and the reference-check window. */
  datatype Revision = AsWritten | Corrected

  /** The number of EOPs the revision's builder makes from numEve EVEs. */
  function PoolSize(rev: Revision, numEve: nat): (n: nat)
    ensures n > 0 <==> numEve >= 2
  {
    PipelineDepth * (if rev == AsWritten then AsWrittenGroups(numEve) else Groups(numEve))
  }

  /** The reference-check guard of the revision: `frame_idx < num_eops` as
      written, the first completion on each EOP when corrected. */
  function CheckWindow(rev: Revision): Validation
  {
    if rev == AsWritten then FirstVisit else FirstCompletion
  }

  /** The guard main applies to the device counts. */
  predicate MainAdmits(rev: Revision, numEve: nat, numDsp: nat)
  {
    if rev == AsWritten then SourceAdmits(numEve, numDsp) else Admits(numEve, numDsp)
  }

  /** How Run ends: with a status, or at the first `frame_idx % num_eops`
      over an empty pool, which C++ leaves undefined. */
  datatype RunOutcome = Completed(status: bool) | ModuloByZero

  /** Run: a failed configuration read returns false before any frame work;
      otherwise the EVE executor and the pipelines are built, buffers are
      bound and the dispatch loop runs numFrames + P iterations over the P
      EOPs; with fewer than two EVEs the pool is empty and the loop's first
      iteration computes frame_idx % 0. num_dsp is not used. */
  method Run(configOk: bool, numEve: nat, numDsp: nat, rev: Revision, f: Frames, sizeOf: Pipeline -> BufferSizes)
    returns (r: RunOutcome)
    ensures !configOk ==> r == Completed(false)
    ensures configOk && numEve < 2 ==> r == ModuloByZero
    ensures configOk && numEve >= 2 ==>
      r == Completed(Pipelined(PoolSize(rev, numEve), NumFrames, f, CheckWindow(rev)).status)
    ensures rev == AsWritten && configOk && numEve >= 2 ==>
      (r.status <==> NoFaultBefore(NumFrames + PoolSize(rev, numEve), f))
    ensures rev == Corrected && configOk && numEve >= 2 && NoFaultBefore(NumFrames + PoolSize(rev, numEve), f) ==>
      (r.status <==> forall s :: 0 <= s < PoolSize(rev, numEve) && ReadFrame(f, s, NumFrames) ==>
                       f.check(PoolSize(rev, numEve) + s))
  {
    if !configOk {
      return Completed(false);
    }
    var eve := ApproachOne.CreateExecutor(EVE, numEve);
    var eops;
    if rev == AsWritten {
      eops := BuildPipelinesAsWritten(numEve);
    } else {
      eops := BuildPipelines(numEve);
    }
    assert forall k :: 0 <= k < |eops| ==> eops[k].second < eve.value.numEOs;
    var arena := new Buffers.Arena();
    arena.AllocateMemory(seq(|eops|, k requires 0 <= k < |eops| => sizeOf(eops[k])));
    if |eops| == 0 {
      return ModuloByZero;
    }
    var scheduler := new Scheduler(|eops|);
    scheduler.Run(NumFrames, f, CheckWindow(rev));
    r := Completed(scheduler.status);
    FirstVisitStatus(|eops|, NumFrames, f);
    FirstCompletionStatus(|eops|, NumFrames, f);
  }

  /** main: device counts the revision's guard rejects exit successfully
      without running; otherwise the exit status is failure exactly when Run
      reports false. As written, one EVE with a DSP passes the guard and
      reaches the modulo by zero. */
  method Program(numEve: nat, numDsp: nat, configOk: bool, rev: Revision, f: Frames, sizeOf: Pipeline -> BufferSizes)
    returns (code: ExitCode)
    ensures !MainAdmits(rev, numEve, numDsp) ==> code == ExitSuccess
    ensures MainAdmits(rev, numEve, numDsp) && configOk && numEve < 2 ==> code == Undefined
    ensures MainAdmits(rev, numEve, numDsp) && (configOk ==> numEve >= 2) ==>
      (code == ExitSuccess <==>
         configOk && Pipelined(PoolSize(rev, numEve), NumFrames, f, CheckWindow(rev)).status)
    ensures rev == AsWritten && MainAdmits(rev, numEve, numDsp) && numEve >= 2 ==>
      (code == ExitSuccess <==> configOk && NoFaultBefore(NumFrames + PoolSize(rev, numEve), f))
    ensures rev == Corrected ==> code != Undefined
  {
    var admitted;
    match rev {
      case AsWritten => admitted := !(numEve == 0 || numDsp == 0);
      case Corrected => admitted := !(numEve < 2 || numDsp == 0);
    }
    if !admitted {
      return ExitSuccess;
    }
    var r := Run(configOk, numEve, numDsp, rev, f, sizeOf);
    match r {
      case Completed(status) => code := if status then ExitSuccess else ExitFailure;
      case ModuloByZero => code := Undefined;
    }
  }
}

/** The pipelined frame-dispatch loop shared by both programs: a fixed pool of
    P slots (EOs or EOPs) is visited as pool[frame_idx % P] for
    numFrames + P iterations; each visit waits on the slot's previous job,
    may compare its output with the reference, then reads the next frame and
    starts it on the same slot.

    The loop is the method `Scheduler.Run`, proved equal to the pure
    specification `Iterate`; what the loop guarantees (iteration count,
    round-robin mapping, one job per slot, drain at exit, when validation
    runs, what the status means) is proved about `Iterate`. */
module Dispatch {
  import opened Tidl

  /** Which iterations compare a completed job's output with the reference. */
  datatype Validation =
    | FirstVisit       // frame_idx < P: the guard of approach_1.cpp:142 and approach_2.cpp:161
    | FirstCompletion  // P <= frame_idx < 2P: the waits that complete frame s, sent to slot s in iteration s

  predicate InWindow(v: Validation, k: nat, p: nat)
  {
    match v
    case FirstVisit => k < p
    case FirstCompletion => p <= k < 2 * p
  }

  /** The collaborators the loop calls but whose bodies are not part of this
      model, each as a function of frame_idx: whether the input stream still
      holds a frame, whether CheckFrame accepts the slot's output, and whether
      the runtime raises tidl::Exception in that iteration. `input` is not
      assumed to stay false once the stream has ended. */
  datatype Frames = Frames(input: nat -> bool, check: nat -> bool, fault: nat -> bool)

  /** ReadFrame never yields a frame once frame_idx >= numFrames; before that
      it yields one unless the input stream has ended. */
  predicate ReadFrame(f: Frames, k: nat, numFrames: nat)
  {
    k < numFrames && f.input(k)
  }

  /** What one iteration did to the slot it visited. */
  datatype Event = Event(slot: nat, waited: bool, checked: bool, started: bool)

  /** The observable state of a run: per-slot job state, the status flag, the
      iterations done so far, and whether an exception ended the loop. */
  datatype Outcome = Outcome(states: seq<SlotState>, status: bool, trace: seq<Event>, aborted: bool)

  function Initial(p: nat): Outcome
  {
    Outcome(seq(p, _ => Idle), true, [], false)
  }

  /** One iteration of the loop, frame_idx being the number of iterations done.
      An exception ends the run without touching a slot; otherwise the
      iteration records one event and may change only the slot it visits. */
  function Step(r: Outcome, numFrames: nat, f: Frames, v: Validation): (r': Outcome)
    requires |r.states| > 0
    ensures |r'.states| == |r.states|
    ensures r.aborted ==> r' == r
    ensures !r.aborted && f.fault(|r.trace|) ==>
      r'.aborted && !r'.status && r'.trace == r.trace && r'.states == r.states
    ensures !r.aborted && !f.fault(|r.trace|) ==>
      !r'.aborted && |r'.trace| == |r.trace| + 1 && r'.trace[..|r.trace|] == r.trace
    ensures forall s :: 0 <= s < |r.states| && s != |r.trace| % |r.states| ==> r'.states[s] == r.states[s]
  {
    var p := |r.states|;
    var k := |r.trace|;
    if r.aborted then r
    else if f.fault(k) then r.(status := false, aborted := true)
    else
      var s := k % p;
      var waited := r.states[s] == Issued;
      var checked := waited && InWindow(v, k, p);
      var started := ReadFrame(f, k, numFrames);
      Outcome(r.states[s := if started then Issued else Idle],
              r.status && !(checked && !f.check(k)),
              r.trace + [Event(s, waited, checked, started)],
              false)
  }

  /** The state after the first n iterations over a pool of p slots. */
  function Iterate(p: nat, numFrames: nat, f: Frames, v: Validation, n: nat): (r: Outcome)
    requires p > 0
    ensures |r.states| == p
    ensures !r.aborted ==> |r.trace| == n
    ensures r.aborted ==> |r.trace| < n && f.fault(|r.trace|)
  {
    if n == 0 then Initial(p) else Step(Iterate(p, numFrames, f, v, n - 1), numFrames, f, v)
  }

  /** The whole run: numFrames iterations that start frames plus P epilogue iterations. */
  function Pipelined(p: nat, numFrames: nat, f: Frames, v: Validation): (r: Outcome)
    requires p > 0
    ensures |r.states| == p
    ensures !r.aborted ==> |r.trace| == numFrames + p
    ensures r.aborted ==> |r.trace| < numFrames + p && f.fault(|r.trace|)
  {
    Iterate(p, numFrames, f, v, numFrames + p)
  }

  /** The last min(n, p) iterations visited distinct slots, and each slot
      such an iteration visited is Issued exactly when that iteration started
      a frame; slots no iteration has visited yet are Idle. */
  ghost predicate Window(states: seq<SlotState>, t: seq<Event>)
  {
    && (forall j :: 0 <= j < |t| && |t| <= j + |states| ==>
          t[j].slot < |states| && states[t[j].slot] == (if t[j].started then Issued else Idle))
    && (forall s :: |t| <= s < |states| ==> states[s] == Idle)
  }

  /** Iteration k visited slot k % p. */
  ghost predicate Visits(t: seq<Event>, p: nat)
    requires p > 0
  {
    forall k :: 0 <= k < |t| ==> t[k].slot == k % p
  }

  /** Iteration k started a job exactly when ReadFrame yielded frame k. */
  ghost predicate Starts(t: seq<Event>, numFrames: nat, f: Frames)
  {
    forall k :: 0 <= k < |t| ==> t[k].started == ReadFrame(f, k, numFrames)
  }

  /** The wait of iteration k succeeded exactly when iteration k - p started a job. */
  ghost predicate Waits(t: seq<Event>, p: nat)
  {
    forall k {:trigger t[k]} :: 0 <= k < |t| ==> (t[k].waited <==> p <= k && t[k - p].started)
  }

  /** Iteration k ran CheckFrame exactly when its wait succeeded inside the window. */
  ghost predicate Checks(t: seq<Event>, p: nat, v: Validation)
  {
    forall k :: 0 <= k < |t| ==> t[k].checked == (t[k].waited && InWindow(v, k, p))
  }

  /** No iteration done so far raised an exception. */
  ghost predicate NoFaultBefore(n: nat, f: Frames)
  {
    forall k :: 0 <= k < n ==> !f.fault(k)
  }

  /** The status flag: no exception, and every check that ran passed. */
  ghost predicate StatusReports(r: Outcome, f: Frames)
  {
    r.status <==> !r.aborted && forall k :: 0 <= k < |r.trace| && r.trace[k].checked ==> f.check(k)
  }

  /** Everything the run so far is known to satisfy. */
  ghost predicate Consistent(r: Outcome, p: nat, numFrames: nat, f: Frames, v: Validation)
  {
    && |r.states| == p > 0
    && Visits(r.trace, p)
    && Starts(r.trace, numFrames, f)
    && Waits(r.trace, p)
    && Checks(r.trace, p, v)
    && NoFaultBefore(|r.trace|, f)
    && (r.aborted ==> f.fault(|r.trace|))
    && StatusReports(r, f)
    && Window(r.states, r.trace)
  }

  // ---------------------------------------------------------------------------
  // Arithmetic on the round-robin index

  /** A positive multiple of p is at least p. */
  lemma {:induction false} MulAtLeast(d: nat, p: nat)
    requires d > 0
    ensures d * p >= p
  {
    if d > 1 {
      MulAtLeast(d - 1, p);
      assert d * p == (d - 1) * p + p;
    }
  }

  /** A non-zero multiple of p is at least p away from zero. */
  lemma MulBounds(d: int, p: int)
    requires p > 0
    ensures d > 0 ==> d * p >= p
    ensures d < 0 ==> d * p <= -p
  {
    if d > 0 {
      MulAtLeast(d, p);
    } else if d < 0 {
      MulAtLeast(-d, p);
      assert d * p == -((-d) * p);
    }
  }

  lemma ModOfMultiplePlus(q: nat, p: nat, s: nat)
    requires s < p
    ensures (q * p + s) % p == s
  {
    var x := q * p + s;
    var d := x / p - q;
    assert x == (x / p) * p + x % p;
    assert d * p == s - x % p;
    MulBounds(d, p);
  }

  lemma ModSmall(s: nat, p: nat)
    requires s < p
    ensures s % p == s
  {
    ModOfMultiplePlus(0, p, s);
  }

  lemma ModShift(j: nat, p: nat)
    requires p > 0
    ensures (j + p) % p == j % p
  {
    ModOfMultiplePlus(j / p + 1, p, j % p);
    assert (j / p + 1) * p + j % p == j + p;
  }

  /** Two frame indices less than p apart never share a slot. */
  lemma ModDistinct(j: nat, k: nat, p: nat)
    requires j < k < j + p
    ensures j % p != k % p
  {
    var d := k / p - j / p;
    assert j == (j / p) * p + j % p;
    assert k == (k / p) * p + k % p;
    assert k - j == d * p + (k % p - j % p);
    MulBounds(d, p);
  }

  /** Two indices share a slot exactly when they differ by a multiple of p. */
  lemma ModEqIff(i: nat, j: nat, p: nat)
    requires p > 0
    ensures i % p == j % p <==> (i - j) % p == 0
  {
    var qi, ri := i / p, i % p;
    var qj, rj := j / p, j % p;
    var x := i - j;
    assert i == qi * p + ri && j == qj * p + rj;
    assert x == (qi - qj) * p + (ri - rj);
    assert x == (x / p) * p + x % p;
    var d := x / p - (qi - qj);
    assert d * p == (ri - rj) - x % p;
    MulBounds(d, p);
  }

  /** Any p consecutive frame indices from numFrames on visit every slot. */
  lemma SlotCovered(numFrames: nat, p: nat, s: nat) returns (j: nat)
    requires s < p
    ensures numFrames <= j < numFrames + p && j % p == s
  {
    var q, r := numFrames / p, numFrames % p;
    assert numFrames == q * p + r;
    if r <= s {
      j := q * p + s;
      ModOfMultiplePlus(q, p, s);
    } else {
      j := (q + 1) * p + s;
      ModOfMultiplePlus(q + 1, p, s);
    }
  }

  // ---------------------------------------------------------------------------
  // The loop's invariant


  /** The state of the slot visited by iteration k before that iteration:
      Issued exactly when the previous visit, p iterations earlier, started a job. */
  lemma VisitedState(states: seq<SlotState>, t: seq<Event>, p: nat)
    requires |states| == p > 0 && Visits(t, p) && Window(states, t)
    ensures var k := |t|;
      states[k % p] == Issued <==> p <= k && t[k - p].started
  {
    var k := |t|;
    if p <= k {
      ModShift(k - p, p);
      assert t[k - p].slot == k % p;
    } else {
      ModSmall(k, p);
    }
  }

  /** The slots of the last p - 1 iterations differ from the slot iteration k visits. */
  lemma RecentSlotsDistinct(t: seq<Event>, p: nat)
    requires p > 0 && Visits(t, p)
    ensures forall j :: 0 <= j < |t| && |t| < j + p ==> t[j].slot != |t| % p
  {
    forall j | 0 <= j < |t| && |t| < j + p
      ensures t[j].slot != |t| % p
    {
      ModDistinct(j, |t|, p);
    }
  }

  /** Setting the slot of a new iteration, distinct from the slots of the
      previous p - 1 iterations, keeps the window of the last p visits. */
  lemma StepWindow(states: seq<SlotState>, t: seq<Event>, e: Event)
    requires Window(states, t) && e.slot < |states|
    requires forall j :: 0 <= j < |t| && |t| < j + |states| ==> t[j].slot != e.slot
    requires |t| < |states| ==> e.slot == |t|
    ensures Window(states[e.slot := if e.started then Issued else Idle], t + [e])
  {
    var t' := t + [e];
    forall j | 0 <= j < |t'| && |t'| <= j + |states|
      ensures t'[j].slot < |states|
      ensures states[e.slot := if e.started then Issued else Idle][t'[j].slot]
              == (if t'[j].started then Issued else Idle)
    {
      if j < |t| {
        assert t'[j] == t[j];
      }
    }
  }

  lemma AppendVisits(t: seq<Event>, e: Event, p: nat)
    requires p > 0 && Visits(t, p) && e.slot == |t| % p
    ensures Visits(t + [e], p)
  {
    assert forall j :: 0 <= j < |t| ==> (t + [e])[j] == t[j];
  }

  lemma AppendStarts(t: seq<Event>, e: Event, numFrames: nat, f: Frames)
    requires Starts(t, numFrames, f) && e.started == ReadFrame(f, |t|, numFrames)
    ensures Starts(t + [e], numFrames, f)
  {
    assert forall j :: 0 <= j < |t| ==> (t + [e])[j] == t[j];
  }

  lemma AppendWaits(t: seq<Event>, e: Event, p: nat)
    requires p > 0 && Waits(t, p) && (e.waited <==> p <= |t| && t[|t| - p].started)
    ensures Waits(t + [e], p)
  {
    var t' := t + [e];
    forall j | 0 <= j < |t'|
      ensures t'[j].waited <==> p <= j && t'[j - p].started
    {
      if p <= j {
        assert t'[j - p] == t[j - p];
      }
      if j < |t| {
        assert t'[j] == t[j];
      }
    }
  }

  lemma AppendChecks(t: seq<Event>, e: Event, p: nat, v: Validation)
    requires Checks(t, p, v) && e.checked == (e.waited && InWindow(v, |t|, p))
    ensures Checks(t + [e], p, v)
  {
    assert forall j :: 0 <= j < |t| ==> (t + [e])[j] == t[j];
  }

  lemma AppendStatus(r: Outcome, e: Event, f: Frames)
    requires StatusReports(r, f) && !r.aborted
    ensures StatusReports(Outcome(r.states, r.status && !(e.checked && !f.check(|r.trace|)), r.trace + [e], false), f)
  {
    assert forall j :: 0 <= j < |r.trace| ==> (r.trace + [e])[j] == r.trace[j];
  }

  /** The new event of an iteration without an exception extends the trace
      predicates. */
  lemma AppendTrace(t: seq<Event>, e: Event, p: nat, numFrames: nat, f: Frames, v: Validation)
    requires p > 0 && Visits(t, p) && Starts(t, numFrames, f) && Waits(t, p) && Checks(t, p, v)
    requires e.slot == |t| % p && (e.waited <==> p <= |t| && t[|t| - p].started)
    requires e.checked == (e.waited && InWindow(v, |t|, p))
    requires e.started == ReadFrame(f, |t|, numFrames)
    ensures Visits(t + [e], p) && Starts(t + [e], numFrames, f) && Waits(t + [e], p) && Checks(t + [e], p, v)
  {
    AppendVisits(t, e, p);
    AppendStarts(t, e, numFrames, f);
    AppendWaits(t, e, p);
    AppendChecks(t, e, p, v);
  }

  /** The slot iteration k visits holds the state its previous visit left,
      and setting it keeps the window of the last p visits. */
  lemma AppendWindow(states: seq<SlotState>, t: seq<Event>, e: Event, p: nat)
    requires |states| == p > 0 && Visits(t, p) && Window(states, t) && e.slot == |t| % p
    ensures states[e.slot] == Issued <==> p <= |t| && t[|t| - p].started
    ensures Window(states[e.slot := if e.started then Issued else Idle], t + [e])
  {
    VisitedState(states, t, p);
    RecentSlotsDistinct(t, p);
    if |t| < p {
      ModSmall(|t|, p);
    }
    StepWindow(states, t, e);
  }

  /** Appending the event of an iteration without an exception keeps the invariant. */
  lemma AppendConsistent(r: Outcome, e: Event, p: nat, numFrames: nat, f: Frames, v: Validation)
    requires Consistent(r, p, numFrames, f, v) && !r.aborted && !f.fault(|r.trace|)
    requires e.slot == |r.trace| % p && e.waited == (r.states[e.slot] == Issued)
    requires e.checked == (e.waited && InWindow(v, |r.trace|, p))
    requires e.started == ReadFrame(f, |r.trace|, numFrames)
    ensures Consistent(Outcome(r.states[e.slot := if e.started then Issued else Idle],
                               r.status && !(e.checked && !f.check(|r.trace|)), r.trace + [e], false),
                       p, numFrames, f, v)
  {
    AppendWindow(r.states, r.trace, e, p);
    AppendTrace(r.trace, e, p, numFrames, f, v);
    AppendStatus(r, e, f);
  }

  /** One iteration keeps the invariant. */
  lemma StepConsistent(r: Outcome, p: nat, numFrames: nat, f: Frames, v: Validation)
    requires Consistent(r, p, numFrames, f, v)
    ensures Consistent(Step(r, numFrames, f, v), p, numFrames, f, v)
  {
    var k := |r.trace|;
    if !r.aborted && !f.fault(k) {
      var s := k % p;
      var waited := r.states[s] == Issued;
      var e := Event(s, waited, waited && InWindow(v, k, p), ReadFrame(f, k, numFrames));
      AppendConsistent(r, e, p, numFrames, f, v);
    }
  }

  lemma {:induction false} IterateConsistent(p: nat, numFrames: nat, f: Frames, v: Validation, n: nat)
    requires p > 0
    ensures Consistent(Iterate(p, numFrames, f, v, n), p, numFrames, f, v)
  {
    if n > 0 {
      IterateConsistent(p, numFrames, f, v, n - 1);
      var r := Iterate(p, numFrames, f, v, n - 1);
      StepConsistent(r, p, numFrames, f, v);
      assert Iterate(p, numFrames, f, v, n) == Step(r, numFrames, f, v);
    }
  }

  /** The whole run keeps the invariant. */
  lemma PipelinedConsistent(p: nat, numFrames: nat, f: Frames, v: Validation)
    requires p > 0
    ensures Consistent(Pipelined(p, numFrames, f, v), p, numFrames, f, v)
  {
    IterateConsistent(p, numFrames, f, v, numFrames + p);
  }

  /** Once an exception has ended the loop, further iterations change nothing. */
  lemma {:induction false} AbortIsFinal(p: nat, numFrames: nat, f: Frames, v: Validation, m: nat, n: nat)
    requires p > 0 && m <= n
    requires Iterate(p, numFrames, f, v, m).aborted
    ensures Iterate(p, numFrames, f, v, n) == Iterate(p, numFrames, f, v, m)
  {
    if m < n {
      AbortIsFinal(p, numFrames, f, v, m, n - 1);
    }
  }

  // ---------------------------------------------------------------------------
  // Consequences of the invariant for any run of n iterations

  lemma SameSlotIff(t: seq<Event>, p: nat, i: nat, j: nat)
    requires p > 0 && Visits(t, p) && i < |t| && j < |t|
    ensures t[i].slot == t[j].slot <==> (i - j) % p == 0
  {
    ModEqIff(i, j, p);
  }

  lemma WaitsFollowStarts(t: seq<Event>, p: nat, numFrames: nat, f: Frames)
    requires Waits(t, p) && Starts(t, numFrames, f)
    ensures forall k :: 0 <= k < |t| ==> (t[k].waited <==> p <= k && ReadFrame(f, k - p, numFrames))
  {
    forall k | 0 <= k < |t|
      ensures t[k].waited <==> p <= k && ReadFrame(f, k - p, numFrames)
    {
      if p <= k {
        assert t[k - p].started == ReadFrame(f, k - p, numFrames);
      }
    }
  }

  lemma SlotSerialised(t: seq<Event>, p: nat)
    requires p > 0 && Visits(t, p) && Waits(t, p)
    ensures forall i, j :: 0 <= i < j < |t| && t[i].started && t[j].slot == t[i].slot ==>
      i + p <= j && t[i + p].waited
  {
    forall i, j | 0 <= i < j < |t| && t[i].started && t[j].slot == t[i].slot
      ensures i + p <= j && t[i + p].waited
    {
      if j < i + p {
        ModDistinct(i, j, p);
      }
    }
  }

  lemma Drained(states: seq<SlotState>, t: seq<Event>, p: nat, numFrames: nat, f: Frames)
    requires |states| == p > 0 && Visits(t, p) && Starts(t, numFrames, f) && Window(states, t)
    requires |t| == numFrames + p
    ensures forall s :: 0 <= s < p ==> states[s] == Idle
  {
    forall s | 0 <= s < p
      ensures states[s] == Idle
    {
      var j := SlotCovered(numFrames, p, s);
      assert t[j].slot == s && !t[j].started;
    }
  }

  lemma NeverChecked(t: seq<Event>, p: nat)
    requires Waits(t, p) && Checks(t, p, FirstVisit)
    ensures forall k :: 0 <= k < |t| ==> !t[k].checked
  {
    forall k | 0 <= k < |t|
      ensures !t[k].checked
    {
      assert t[k].checked == (t[k].waited && k < p);
    }
  }

  lemma CheckedOncePerSlot(t: seq<Event>, p: nat, numFrames: nat, f: Frames)
    requires p > 0 && Visits(t, p) && Waits(t, p) && Starts(t, numFrames, f) && Checks(t, p, FirstCompletion)
    ensures forall k :: 0 <= k < |t| ==>
      (t[k].checked <==> p <= k < 2 * p && ReadFrame(f, k - p, numFrames))
    ensures forall i, j :: 0 <= i < j < |t| && t[i].checked && t[j].checked ==> t[i].slot != t[j].slot
  {
    WaitsFollowStarts(t, p, numFrames, f);
    forall i, j | 0 <= i < j < |t| && t[i].checked && t[j].checked
      ensures t[i].slot != t[j].slot
    {
      ModDistinct(i, j, p);
    }
  }

  lemma CheckedFirstFrames(r: Outcome, p: nat, numFrames: nat, f: Frames)
    requires StatusReports(r, f) && !r.aborted && |r.trace| == numFrames + p
    requires forall k :: 0 <= k < |r.trace| ==>
      (r.trace[k].checked <==> p <= k < 2 * p && ReadFrame(f, k - p, numFrames))
    ensures r.status <==> forall s :: 0 <= s < p && ReadFrame(f, s, numFrames) ==> f.check(p + s)
  {
    if r.status {
      forall s | 0 <= s < p && ReadFrame(f, s, numFrames)
        ensures f.check(p + s)
      {
        assert r.trace[p + s].checked;
      }
    } else {
      var k :| 0 <= k < |r.trace| && r.trace[k].checked && !f.check(k);
      assert ReadFrame(f, k - p, numFrames) && !f.check(p + (k - p));
    }
  }

  // ---------------------------------------------------------------------------
  // What the loop guarantees, stated about the whole run

  /** Without an exception the loop performs exactly numFrames + P iterations,
      and iteration k visits pool[k % P]; an exception in iteration k stops
      the loop after k iterations. */
  lemma IterationCount(p: nat, numFrames: nat, f: Frames, v: Validation)
    requires p > 0
    ensures var r := Pipelined(p, numFrames, f, v);
      && (forall k :: 0 <= k < |r.trace| ==> r.trace[k].slot == k % p)
      && (!r.aborted <==> forall k :: 0 <= k < numFrames + p ==> !f.fault(k))
      && (!r.aborted ==> |r.trace| == numFrames + p)
      && (r.aborted ==> |r.trace| < numFrames + p && f.fault(|r.trace|))
      && (forall k :: 0 <= k < |r.trace| ==> !f.fault(k))
  {
    PipelinedConsistent(p, numFrames, f, v);
  }

  /** Two iterations use the same slot exactly when their indices differ by a
      multiple of P. */
  lemma RoundRobin(p: nat, numFrames: nat, f: Frames, v: Validation, i: nat, j: nat)
    requires p > 0
    requires i < |Pipelined(p, numFrames, f, v).trace| && j < |Pipelined(p, numFrames, f, v).trace|
    ensures Pipelined(p, numFrames, f, v).trace[i].slot == Pipelined(p, numFrames, f, v).trace[j].slot
            <==> (i - j) % p == 0
  {
    PipelinedConsistent(p, numFrames, f, v);
    SameSlotIff(Pipelined(p, numFrames, f, v).trace, p, i, j);
  }

  /** The wait in iteration k succeeds exactly when the same slot's visit P
      iterations earlier started a frame: jobs on one slot are serialised and
      each is waited on at that slot's next visit. */
  lemma WaitCompletesEarlierStart(p: nat, numFrames: nat, f: Frames, v: Validation)
    requires p > 0
    ensures var t := Pipelined(p, numFrames, f, v).trace;
      forall k :: 0 <= k < |t| ==> (t[k].waited <==> p <= k && ReadFrame(f, k - p, numFrames))
  {
    PipelinedConsistent(p, numFrames, f, v);
    WaitsFollowStarts(Pipelined(p, numFrames, f, v).trace, p, numFrames, f);
  }

  /** No slot is given a second job while one is outstanding: a job started
      in iteration i is waited on in iteration i + P, before any later
      iteration that uses the same slot starts another. */
  lemma NoDoubleIssue(p: nat, numFrames: nat, f: Frames, v: Validation)
    requires p > 0
    ensures var t := Pipelined(p, numFrames, f, v).trace;
      forall i, j :: 0 <= i < j < |t| && t[i].started && t[j].slot == t[i].slot ==>
        i + p <= j && t[i + p].waited
  {
    PipelinedConsistent(p, numFrames, f, v);
    SlotSerialised(Pipelined(p, numFrames, f, v).trace, p);
  }

  /** Unless an exception ends the loop early, every slot is Idle at exit: the
      P epilogue iterations start nothing and wait once on every slot. This
      holds whether the input ends at numFrames or earlier. */
  lemma DrainedAtExit(p: nat, numFrames: nat, f: Frames, v: Validation)
    requires p > 0
    ensures var r := Pipelined(p, numFrames, f, v);
      !r.aborted ==> forall s :: 0 <= s < p ==> r.states[s] == Idle
  {
    var r := Pipelined(p, numFrames, f, v);
    PipelinedConsistent(p, numFrames, f, v);
    if !r.aborted {
      Drained(r.states, r.trace, p, numFrames, f);
    }
  }

  /** The run's status is true exactly when no exception was raised and every
      comparison that ran accepted the output; a failed comparison does not
      shorten the loop. */
  lemma StatusMeaning(p: nat, numFrames: nat, f: Frames, v: Validation)
    requires p > 0
    ensures var r := Pipelined(p, numFrames, f, v);
      r.status <==> !r.aborted && forall k :: 0 <= k < |r.trace| && r.trace[k].checked ==> f.check(k)
    ensures var r := Pipelined(p, numFrames, f, v);
      (forall k :: 0 <= k < numFrames + p ==> !f.fault(k)) ==> |r.trace| == numFrames + p
  {
    PipelinedConsistent(p, numFrames, f, v);
  }

  /** With the guard as written (frame_idx < P) the reference comparison never
      runs: the first P iterations are each slot's first visit, when nothing
      is outstanding, so the wait fails. The status then only reports
      exceptions. */
  lemma FirstVisitNeverValidates(p: nat, numFrames: nat, f: Frames)
    requires p > 0
    ensures var r := Pipelined(p, numFrames, f, FirstVisit);
      && (forall k :: 0 <= k < |r.trace| ==> !r.trace[k].checked)
      && (r.status <==> !r.aborted)
  {
    PipelinedConsistent(p, numFrames, f, FirstVisit);
    NeverChecked(Pipelined(p, numFrames, f, FirstVisit).trace, p);
  }

  /** With the guard as written, a run passes exactly when no iteration of
      the numFrames + P raises an exception, whatever CheckFrame would say. */
  lemma FirstVisitStatus(p: nat, numFrames: nat, f: Frames)
    requires p > 0
    ensures Pipelined(p, numFrames, f, FirstVisit).status <==> NoFaultBefore(numFrames + p, f)
  {
    FirstVisitNeverValidates(p, numFrames, f);
    IterationCount(p, numFrames, f, FirstVisit);
  }

  /** With the window P <= frame_idx < 2P the reference comparison runs on
      exactly the waits that complete frame s, the frame sent to slot s in
      iteration s, when that frame was read; so at most once per slot. A job
      a slot is first sent later (frame s unread) is never checked. */
  lemma FirstCompletionValidatesOncePerSlot(p: nat, numFrames: nat, f: Frames)
    requires p > 0
    ensures var t := Pipelined(p, numFrames, f, FirstCompletion).trace;
      forall k :: 0 <= k < |t| ==>
        (t[k].checked <==> p <= k < 2 * p && ReadFrame(f, k - p, numFrames))
    ensures var t := Pipelined(p, numFrames, f, FirstCompletion).trace;
      forall i, j :: 0 <= i < j < |t| && t[i].checked && t[j].checked ==> t[i].slot != t[j].slot
  {
    PipelinedConsistent(p, numFrames, f, FirstCompletion);
    CheckedOncePerSlot(Pipelined(p, numFrames, f, FirstCompletion).trace, p, numFrames, f);
  }

  /** With the window P <= frame_idx < 2P and no exception, the run passes
      exactly when CheckFrame accepts, for every s < P such that frame s was
      read, the output that frame s produced on slot s. */
  lemma FirstCompletionStatus(p: nat, numFrames: nat, f: Frames)
    requires p > 0
    ensures NoFaultBefore(numFrames + p, f) ==>
      (Pipelined(p, numFrames, f, FirstCompletion).status <==>
         forall s :: 0 <= s < p && ReadFrame(f, s, numFrames) ==> f.check(p + s))
  {
    var r := Pipelined(p, numFrames, f, FirstCompletion);
    PipelinedConsistent(p, numFrames, f, FirstCompletion);
    if NoFaultBefore(numFrames + p, f) {
      CheckedOncePerSlot(r.trace, p, numFrames, f);
      CheckedFirstFrames(r, p, numFrames, f);
    }
  }

  // ---------------------------------------------------------------------------
  // The loop itself

  /** The slot pool's job states and the run's status flag. */
  class Scheduler {
    const slots: array<SlotState>
    var status: bool
    ghost var trace: seq<Event>
    ghost var aborted: bool

    ghost function Snapshot(): Outcome
      reads this, slots
    {
      Outcome(slots[..], status, trace, aborted)
    }

    constructor (p: nat)
      ensures slots.Length == p && fresh(slots)
      ensures Snapshot() == Initial(p)
    {
      slots := new SlotState[p](_ => Idle);
      status := true;
      trace := [];
      aborted := false;
    }

    /** Waits on the slot's outstanding job, if any: reports whether there was
        one, and leaves the slot Idle. */
    method ProcessFrameWait(s: nat) returns (done: bool)
      requires s < slots.Length
      modifies slots
      ensures done <==> old(slots[s]) == Issued
      ensures slots[..] == old(slots[..])[s := Idle]
    {
      done := slots[s] == Issued;
      slots[s] := Idle;
    }

    /** Starts a job on an Idle slot. */
    method ProcessFrameStartAsync(s: nat)
      requires s < slots.Length && slots[s] == Idle
      modifies slots
      ensures slots[..] == old(slots[..])[s := Issued]
    {
      slots[s] := Issued;
    }

    /** One iteration without an exception: wait on pool[frame_idx % P], compare
        its output with the reference inside the window, then read the next
        frame and start it on the same slot. */
    method Visit(frameIdx: nat, numFrames: nat, f: Frames, v: Validation)
      requires slots.Length > 0 && !f.fault(frameIdx)
      requires Snapshot() == Iterate(slots.Length, numFrames, f, v, frameIdx)
      requires !aborted && |trace| == frameIdx
      modifies this, slots
      ensures Snapshot() == Iterate(slots.Length, numFrames, f, v, frameIdx + 1)
      ensures !aborted && |trace| == frameIdx + 1
    {
      var s := frameIdx % slots.Length;
      var done := ProcessFrameWait(s);
      ghost var checked := false;
      if done {
        if InWindow(v, frameIdx, slots.Length) {
          checked := true;
          if !f.check(frameIdx) {
            status := false;
          }
        }
      }
      var started := ReadFrame(f, frameIdx, numFrames);
      if started {
        ProcessFrameStartAsync(s);
      }
      trace := trace + [Event(s, done, checked, started)];
    }

    /** An iteration that raises tidl::Exception: it is caught outside the
        loop, which it ends with status false; the run's outcome is final. */
    method Abort(frameIdx: nat, numFrames: nat, f: Frames, v: Validation)
      requires slots.Length > 0 && f.fault(frameIdx) && frameIdx < numFrames + slots.Length
      requires Snapshot() == Iterate(slots.Length, numFrames, f, v, frameIdx)
      requires !aborted && |trace| == frameIdx
      modifies this
      ensures Snapshot() == Pipelined(slots.Length, numFrames, f, v)
      ensures aborted && !status
    {
      status := false;
      aborted := true;
      AbortIsFinal(slots.Length, numFrames, f, v, frameIdx + 1, numFrames + slots.Length);
    }

    /** The loop of approach_1.cpp:128-150 and approach_2.cpp:145-168. */
    method Run(numFrames: nat, f: Frames, v: Validation)
      requires slots.Length > 0
      requires Snapshot() == Initial(slots.Length)
      modifies this, slots
      ensures Snapshot() == Pipelined(slots.Length, numFrames, f, v)
    {
      var numSlots := slots.Length;
      var frameIdx := 0;
      while frameIdx < numFrames + numSlots
        invariant frameIdx <= numFrames + numSlots
        invariant Snapshot() == Iterate(numSlots, numFrames, f, v, frameIdx)
        invariant !aborted && |trace| == frameIdx
      {
        if f.fault(frameIdx) {
          Abort(frameIdx, numFrames, f, v);
          return;
        }
        Visit(frameIdx, numFrames, f, v);
        frameIdx := frameIdx + 1;
      }
    }
  }
}

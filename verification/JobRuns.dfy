/** Every planned job can be run to its end: the steps of Dispatch allow a run that finalizes
    the job with every chunk ended as it should and every chunk counted. */
module JobRuns {
  import opened ChunkPacker
  import opened Dependencies
  import opened Dispatch
  import Sorting
  import opened WavePlanner

  /** Each chunk is to end as a success, a partial failure or a failure. */
  ghost predicate Outcomes(job: Job, results: map<int, Status>) {
    forall c :: c in job.waveOf ==>
      c in results && (results[c] == Success || results[c] == Partial || results[c] == Failed)
  }

  ghost predicate EveryWaveHasChunks(job: Job) {
    forall w :: 0 <= w < job.totalWaves ==> HasChunks(job, w)
  }

  ghost predicate HasChunks(job: Job, w: int) {
    exists c :: c in job.waveOf && job.waveOf[c] == w
  }

  /** The waves 0 to n - 1. */
  ghost function FirstWaves(n: nat): set<int> {
    if n == 0 then {} else FirstWaves(n - 1) + {n - 1}
  }

  lemma {:induction false} InFirstWaves(n: nat, w: int)
    ensures w in FirstWaves(n) <==> 0 <= w < n
  {
    if n > 0 {
      InFirstWaves(n - 1, w);
    }
  }

  /** The chunks `done` have been run and counted, and waves up to `w` are released. */
  ghost function After(job: Job, results: map<int, Status>, done: set<int>, w: nat): State
    requires Outcomes(job, results)
  {
    State(map c | c in job.waveOf :: if c in done then results[c] else Queued,
          false, false, FirstWaves(w + 1), FirstWaves(w),
          done, done, done, done, {}, |done|, done, {}, false)
  }

  ghost predicate Reached(job: Job, states: seq<State>, actions: seq<Action>, s: State) {
    IsRun(job, states, actions) && states[|states| - 1] == s
  }

  lemma Extend(job: Job, states: seq<State>, actions: seq<Action>, s: State, a: Action, t: State)
    requires Reached(job, states, actions, s) && Next(job, s, a, t)
    ensures Reached(job, states + [t], actions + [a], t)
  {
    var states', actions' := states + [t], actions + [a];
    forall i | 0 <= i < |actions'| ensures Next(job, states'[i], actions'[i], states'[i + 1]) {
      if i < |actions| {
        assert Next(job, states[i], actions[i], states[i + 1]);
      }
    }
  }

  /** One chunk, from the publish to the increment. */
  lemma RunChunk(job: Job, results: map<int, Status>, states: seq<State>, actions: seq<Action>,
                 done: set<int>, w: nat, c: int)
    returns (states': seq<State>, actions': seq<Action>)
    requires Outcomes(job, results) && Reached(job, states, actions, After(job, results, done, w))
    requires c in job.waveOf && 0 <= job.waveOf[c] <= w && c !in done
    ensures Reached(job, states', actions', After(job, results, done + {c}, w))
  {
    var s := After(job, results, done, w);
    InFirstWaves(w + 1, job.waveOf[c]);
    var s1 := s.(sent := s.sent + {c});
    Extend(job, states, actions, s, Publish(c), s1);
    var s2 := s1.(status := s1.status[c := Dispatched]);
    Extend(job, states + [s1], actions + [Publish(c)], s1, MarkDispatched(c), s2);
    states', actions' := states + [s1] + [s2], actions + [Publish(c)] + [MarkDispatched(c)];
    states', actions' := WorkChunk(job, results[c], states', actions', s2, c);
    states', actions' := CountChunk(job, states', actions', Worked(s2, results[c], c), c);
    ChunkDone(job, results, done, w, c, Worked(s2, results[c], c));
  }

  /** The state after a worker has processed and reported the chunk. */
  ghost function Worked(s: State, result: Status, c: int): State {
    s.(status := s.status[c := Processing][c := result], started := s.started + {c},
       ended := s.ended + {c}, events := s.events + {c})
  }

  lemma WorkChunk(job: Job, result: Status, states: seq<State>, actions: seq<Action>, s: State, c: int)
    returns (states': seq<State>, actions': seq<Action>)
    requires Reached(job, states, actions, s) && c in s.sent
    requires result == Success || result == Partial || result == Failed
    ensures Reached(job, states', actions', Worked(s, result, c))
  {
    var s1 := s.(status := s.status[c := Processing], started := s.started + {c});
    Extend(job, states, actions, s, Start(c), s1);
    states', actions' := states + [s1], actions + [Start(c)];
    var s2 := s1.(status := s1.status[c := result], ended := s1.ended + {c});
    Extend(job, states', actions', s1, Finish(c, result), s2);
    states', actions' := states' + [s2], actions' + [Finish(c, result)];
    var s3 := s2.(events := s2.events + {c});
    Extend(job, states', actions', s2, Report(c), s3);
    states', actions' := states' + [s3], actions' + [Report(c)];
  }

  /** The claim is won and the increment executed. */
  lemma CountChunk(job: Job, states: seq<State>, actions: seq<Action>, s: State, c: int)
    returns (states': seq<State>, actions': seq<Action>)
    requires Reached(job, states, actions, s) && c in s.events && c !in s.counted && s.claims == {}
    ensures Reached(job, states', actions', s.(counted := s.counted + {c}, processed := s.processed + 1))
  {
    var s1 := s.(counted := s.counted + {c}, claims := s.claims + {c});
    Extend(job, states, actions, s, Claim(c), s1);
    states', actions' := states + [s1], actions + [Claim(c)];
    var s2 := s1.(claims := s1.claims - {c}, processed := s1.processed + 1);
    Extend(job, states', actions', s1, Increment(c), s2);
    states', actions' := states' + [s2], actions' + [Increment(c)];
    assert s2.claims == {};
  }

  lemma ChunkDone(job: Job, results: map<int, Status>, done: set<int>, w: nat, c: int, s: State)
    requires Outcomes(job, results) && c in job.waveOf && c !in done
    requires var s0 := After(job, results, done, w);
      s == Worked(s0.(sent := s0.sent + {c}, status := s0.status[c := Dispatched]), results[c], c)
    ensures s.(counted := s.counted + {c}, processed := s.processed + 1) == After(job, results, done + {c}, w)
  {
    assert s.status == After(job, results, done + {c}, w).status;
  }

  /** The chunks of one wave, one after the other. */
  lemma {:induction false} RunChunks(job: Job, results: map<int, Status>, states: seq<State>, actions: seq<Action>,
                                     done: set<int>, w: nat, rest: set<int>)
    returns (states': seq<State>, actions': seq<Action>)
    requires Outcomes(job, results) && Reached(job, states, actions, After(job, results, done, w))
    requires rest !! done && forall c :: c in rest ==> c in job.waveOf && 0 <= job.waveOf[c] <= w
    ensures Reached(job, states', actions', After(job, results, done + rest, w))
    decreases |rest|
  {
    if rest == {} {
      assert done + rest == done;
      states', actions' := states, actions;
    } else {
      var c := Sorting.Inhabited(rest);
      states', actions' := RunChunk(job, results, states, actions, done, w, c);
      MoveOne(done, rest, c);
      states', actions' := RunChunks(job, results, states', actions', done + {c}, w, rest - {c});
    }
  }

  lemma MoveOne(done: set<int>, rest: set<int>, c: int)
    requires rest !! done && c in rest
    ensures c !in done && rest - {c} !! done + {c} && done + {c} + (rest - {c}) == done + rest
  {
  }

  ghost function ChunksBelow(job: Job, w: int): set<int> {
    set c | c in job.waveOf && job.waveOf[c] < w
  }

  lemma ChunksOf(job: Job, w: nat) returns (rest: set<int>)
    ensures rest !! ChunksBelow(job, w) && ChunksBelow(job, w) + rest == ChunksBelow(job, w + 1)
    ensures forall c :: c in rest ==> c in job.waveOf && job.waveOf[c] == w
  {
    rest := set c | c in job.waveOf && job.waveOf[c] == w;
  }

  lemma BelowEnds(job: Job)
    requires WellFormed(job)
    ensures ChunksBelow(job, 0) == {} && ChunksBelow(job, job.totalWaves) == job.waveOf.Keys
  {
    forall c ensures c !in ChunksBelow(job, 0) && (c in ChunksBelow(job, job.totalWaves) <==> c in job.waveOf.Keys) {}
  }

  /** The last wave is over and the job finalized. */
  ghost predicate Complete(job: Job, results: map<int, Status>, s: State) {
    && s.finalized && !s.cancelled
    && s.status.Keys == job.waveOf.Keys
    && (forall c :: c in job.waveOf ==> c in results && s.status[c] == results[c])
    && s.started == s.counted == job.waveOf.Keys
    && s.processed == |job.waveOf|
  }

  /** The waves from `w` on. */
  lemma {:induction false} RunWaves(job: Job, results: map<int, Status>, states: seq<State>, actions: seq<Action>,
                                    w: nat)
    returns (states': seq<State>, actions': seq<Action>)
    requires WellFormed(job) && Outcomes(job, results) && EveryWaveHasChunks(job) && w < job.totalWaves
    requires Reached(job, states, actions, After(job, results, ChunksBelow(job, w), w))
    ensures IsRun(job, states', actions') && Complete(job, results, states'[|states'| - 1])
    decreases job.totalWaves - w
  {
    var rest := ChunksOf(job, w);
    states', actions' := RunChunks(job, results, states, actions, ChunksBelow(job, w), w, rest);
    states', actions' := CloseWave(job, results, states', actions', w);
    if w + 1 < job.totalWaves {
      states', actions' := RunWaves(job, results, states', actions', w + 1);
    }
  }

  /** The wave is seen complete; the next one is released, or the job finalized. */
  lemma CloseWave(job: Job, results: map<int, Status>, states: seq<State>, actions: seq<Action>, w: nat)
    returns (states': seq<State>, actions': seq<Action>)
    requires WellFormed(job) && Outcomes(job, results) && EveryWaveHasChunks(job) && w < job.totalWaves
    requires Reached(job, states, actions, After(job, results, ChunksBelow(job, w + 1), w))
    ensures IsRun(job, states', actions')
    ensures w + 1 < job.totalWaves ==>
      Reached(job, states', actions', After(job, results, ChunksBelow(job, w + 1), w + 1))
    ensures w + 1 == job.totalWaves ==> Complete(job, results, states'[|states'| - 1])
  {
    var s := After(job, results, ChunksBelow(job, w + 1), w);
    assert HasChunks(job, w);
    var c :| c in job.waveOf && job.waveOf[c] == w;
    assert WaveDone(job, s, w);
    var s1 := s.(cleared := s.cleared + {w});
    Extend(job, states, actions, s, SeeWaveDone(c), s1);
    states', actions' := states + [s1], actions + [SeeWaveDone(c)];
    if w + 1 < job.totalWaves {
      var s2 := s1.(released := s1.released + {w + 1});
      Extend(job, states', actions', s1, ReleaseNext(w), s2);
      states', actions' := states' + [s2], actions' + [ReleaseNext(w)];
      assert s2 == After(job, results, ChunksBelow(job, w + 1), w + 1);
    } else {
      var s2 := s1.(finalized := true);
      Extend(job, states', actions', s1, Finalize(w), s2);
      states', actions' := states' + [s2], actions' + [Finalize(w)];
      BelowEnds(job);
    }
  }

  /** A job whose waves all have chunks can be run to its end, with any outcome of the chunks;
      then each is shown with its outcome and all are counted. */
  lemma JobCanFinish(job: Job, results: map<int, Status>) returns (states: seq<State>, actions: seq<Action>)
    requires WellFormed(job) && Outcomes(job, results) && EveryWaveHasChunks(job) && job.totalWaves > 0
    ensures IsRun(job, states, actions) && Complete(job, results, states[|states| - 1])
  {
    var s := After(job, results, {}, 0);
    BelowEnds(job);
    assert s.released == FirstWaves(0) + {0} == {0};
    assert Init(job, s);
    states, actions := RunWaves(job, results, [s], [], 0);
  }

  /** In particular the job of a packed plan that has a wave. */
  lemma PlannedJobCanFinish(g: Deps, plan: WavePlan, size: int, packed: seq<PackedWave>, results: map<int, Status>)
    returns (states: seq<State>, actions: seq<Action>)
    requires IsPlan(g, plan) && IsPacking(plan.waves, size, packed) && plan.waves != []
    requires Outcomes(JobOf(packed), results)
    ensures IsRun(JobOf(packed), states, actions) && Complete(JobOf(packed), results, states[|states| - 1])
  {
    var job := JobOf(packed);
    JobOfMeaning(g, plan, size, packed);
    forall w | 0 <= w < job.totalWaves ensures HasChunks(job, w) {
      var c := ChunkOfWave(g, plan, size, packed, w);
      assert c.number in job.waveOf;
    }
    states, actions := JobCanFinish(job, results);
  }

  lemma ChunkOfWave(g: Deps, plan: WavePlan, size: int, packed: seq<PackedWave>, w: nat) returns (c: Chunk)
    requires IsPlan(g, plan) && IsPacking(plan.waves, size, packed) && w < |packed|
    ensures c in AllChunks(packed) && c.waveNo == w
  {
    assert PacksWave(plan.waves[w], size, packed[w]);
    assert packed[w].chunks != [];
    c := packed[w].chunks[0];
    NumberAt(packed, w, 0);
  }

  // ---- What else can happen ----

  /** Messages repeat: a chunk that was handed out can be started, ended with any outcome,
      reported and marked again at any time. */
  lemma MessagesRepeat(job: Job, s: State, c: int, result: Status)
    requires c in s.sent && c in s.started && (result == Success || result == Partial || result == Failed)
    ensures exists t :: Next(job, s, MarkDispatched(c), t) && t.status == s.status[c := Dispatched]
    ensures exists t :: Next(job, s, Start(c), t) && t.status == s.status[c := Processing]
    ensures exists t :: Next(job, s, Finish(c, result), t) && t.status == s.status[c := result]
    ensures exists t :: Next(job, s, Report(c), t) && t.status == s.status && c in t.events
  {
    var s1 := s.(status := s.status[c := Dispatched]);
    assert Next(job, s, MarkDispatched(c), s1);
    var s2 := s.(status := s.status[c := Processing], started := s.started + {c});
    assert Next(job, s, Start(c), s2);
    var s3 := s.(status := s.status[c := result], ended := s.ended + {c});
    assert Next(job, s, Finish(c, result), s3);
    var s4 := s.(events := s.events + {c});
    assert Next(job, s, Report(c), s4);
  }

  /** A chunk's row is no record of its end: the coordinator marks it after the publish, when a
      fast worker may already have ended it. */
  lemma MarkAfterEnd(job: Job, c: int) returns (states: seq<State>, actions: seq<Action>)
    requires c in job.waveOf && job.waveOf[c] == 0
    ensures IsRun(job, states, actions)
    ensures var s := states[|states| - 1]; c in s.ended && c in s.status && s.status[c] == Dispatched
  {
    var s := State(map d | d in job.waveOf :: Queued, false, false, {0}, {}, {}, {}, {}, {}, {}, 0, {}, {}, false);
    var s1 := s.(sent := s.sent + {c});
    Extend(job, [s], [], s, Publish(c), s1);
    states, actions := WorkChunk(job, Success, [s] + [s1], [] + [Publish(c)], s1, c);
    var s2 := Worked(s1, Success, c);
    var s3 := s2.(status := s2.status[c := Dispatched]);
    Extend(job, states, actions, s2, MarkDispatched(c), s3);
    states, actions := states + [s3], actions + [MarkDispatched(c)];
  }
}

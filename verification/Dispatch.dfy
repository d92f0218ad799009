/** The run of one planned job: the coordinator releases waves, workers and the sweeper end
    chunks, and completion events arrive any number of times, in any order
    (services/finance-cost-orchestrator/internal/orchestrator/coordinator.go, repos.go and
    services/finance-cost-worker/internal/worker/processor.go). Each step below is one
    database statement or one publish, so a handler may be interrupted between any two. */
module Dispatch {
  import opened ChunkPacker
  import opened Dependencies
  import opened PlanTheorems
  import Sorting
  import opened WavePlanner

  datatype Status = Queued | Dispatched | Processing | Success | Partial | Failed | Skipped

  /** The statuses CountByJobWave counts as completed. */
  predicate Terminal(s: Status) {
    s == Success || s == Partial || s == Failed
  }

  /** The wave of each chunk row, by chunk number, and the number of waves. */
  datatype Job = Job(waveOf: map<int, int>, totalWaves: int)

  /** The rows and the job, and what has happened so far. */
  datatype State = State(
    status: map<int, Status>,   // cjc_status of every chunk row
    cancelled: bool,            // cj_status is CANCELLED
    finalized: bool,            // finalizeJob has run
    released: set<int>,         // waves some handler has decided to dispatch
    cleared: set<int>,          // waves some handler has seen complete
    sent: set<int>,             // chunks published to the worker queue
    started: set<int>,          // chunks handed to the finance service
    events: set<int>,           // chunks with a published completion event
    counted: set<int>,          // cjc_progress_counted
    claims: set<int>,           // claimed, increment not yet executed
    processed: int,             // cj_processed_chunks
    ended: set<int>,            // chunks some statement has made terminal
    dropped: set<int>,          // those among them that were failed for cancellation
    everCancelled: bool)

  ghost predicate Init(job: Job, s: State) {
    && s.status.Keys == job.waveOf.Keys
    && (forall c :: c in s.status ==> s.status[c] == Queued)
    && s.released == {0}
    && s == State(s.status, false, false, {0}, {}, {}, {}, {}, {}, {}, 0, {}, {}, false)
  }

  datatype Action =
    | Publish(c: int)
    | MarkDispatched(c: int)
    | Start(c: int)
    | Finish(c: int, result: Status)
    | SweepFail(c: int)
    | Report(c: int)
    | Claim(c: int)
    | Increment(c: int)
    | LoseIncrement(c: int)
    | SeeWaveDone(c: int)
    | ReleaseNext(w: int)
    | Finalize(w: int)
    | DropRest(w: int)
    | Cancel
    | OverwriteCancel
    | SkipQueued

  /** When a step can happen, and the state it leaves. */
  ghost predicate Next(job: Job, s: State, a: Action, t: State) {
    match a
    // dispatchWave: publish, then mark the row.
    case Publish(c) =>
      c in job.waveOf && job.waveOf[c] in s.released && t == s.(sent := s.sent + {c})
    case MarkDispatched(c) =>
      c in s.sent && t == s.(status := s.status[c := Dispatched])
    // A worker holds the message; the status check may fail and is then passed over.
    case Start(c) =>
      c in s.sent && t == s.(status := s.status[c := Processing], started := s.started + {c})
    case Finish(c, result) =>
      c in s.started && Terminal(result)
      && t == s.(status := s.status[c := result], ended := s.ended + {c})
    // The sweeper's guarded update.
    case SweepFail(c) =>
      c in s.status && (s.status[c] == Dispatched || s.status[c] == Processing)
      && t == s.(status := s.status[c := Failed], ended := s.ended + {c})
    // Worker or sweeper announces the chunk; the status write before it may have failed.
    case Report(c) =>
      c in s.sent && t == s.(events := s.events + {c})
    // advanceAfterChunk, statement by statement; an event is never used up.
    case Claim(c) =>
      c in s.events && c !in s.counted && t == s.(counted := s.counted + {c}, claims := s.claims + {c})
    case Increment(c) =>
      c in s.claims && t == s.(claims := s.claims - {c}, processed := s.processed + 1)
    case LoseIncrement(c) =>
      c in s.claims && t == s.(claims := s.claims - {c})
    case SeeWaveDone(c) =>
      c in s.events && c in job.waveOf && WaveDone(job, s, job.waveOf[c])
      && t == s.(cleared := s.cleared + {job.waveOf[c]})
    case ReleaseNext(w) =>
      w in s.cleared && !s.cancelled && w + 1 < job.totalWaves && t == s.(released := s.released + {w + 1})
    case Finalize(w) =>
      w in s.cleared && !s.cancelled && w + 1 >= job.totalWaves && t == s.(finalized := true)
    case DropRest(w) =>
      && w in s.cleared && s.everCancelled
      && var late := Late(job, s, w);
      && t == s.(status := Overwrite(s.status, late, Failed), ended := s.ended + late, dropped := s.dropped + late)
    // The finance service cancels; a later unconditional status write may undo it, also
    // between a handler's look at the status and the update that follows from it.
    case Cancel => t == s.(cancelled := true, everCancelled := true)
    case OverwriteCancel => t == s.(cancelled := false)
    case SkipQueued =>
      s.everCancelled && t == s.(status := Overwrite(s.status, QueuedChunks(s), Skipped))
  }

  ghost function QueuedChunks(s: State): set<int> {
    set c | c in s.status && s.status[c] == Queued
  }

  /** The queued chunks of the waves after `w`. */
  ghost function Late(job: Job, s: State, w: int): set<int> {
    set c | c in QueuedChunks(s) && c in job.waveOf && job.waveOf[c] >= w + 1
  }

  ghost function Overwrite(status: map<int, Status>, chunks: set<int>, to: Status): map<int, Status> {
    map c | c in status :: if c in chunks then to else status[c]
  }

  ghost predicate WaveDone(job: Job, s: State, w: int) {
    forall c :: c in job.waveOf && job.waveOf[c] == w ==> c in s.status && Terminal(s.status[c])
  }

  /** Every chunk of an earlier wave than `w` has been ended. */
  ghost predicate EarlierEnded(job: Job, ended: set<int>, w: int) {
    forall c :: c in job.waveOf && job.waveOf[c] < w ==> c in ended
  }

  /** Only chunks of released waves are ever sent, and only sent chunks are in flight. */
  ghost predicate Traffic(job: Job, s: State) {
    && s.status.Keys == job.waveOf.Keys
    && (forall c :: c in s.sent ==> c in job.waveOf && job.waveOf[c] in s.released)
    && (forall c :: c in s.started || c in s.events ==> c in s.sent)
    && (forall c :: c in s.status && (s.status[c] == Dispatched || s.status[c] == Processing) ==> c in s.sent)
  }

  /** A wave is released, and the job finalized, only over ended waves. */
  ghost predicate Ordered(job: Job, s: State) {
    && (forall c :: c in s.status && Terminal(s.status[c]) ==> c in s.ended)
    && (forall w :: w in s.released ==> EarlierEnded(job, s.ended, w))
    && (forall w :: w in s.cleared ==> EarlierEnded(job, s.ended, w + 1))
    && (s.finalized ==> EarlierEnded(job, s.ended, job.totalWaves))
  }

  /** A chunk that ended was sent, unless the job was cancelled at some time. */
  ghost predicate Accounted(s: State) {
    && (forall c :: c in s.ended ==> c in s.sent || c in s.dropped)
    && (s.cancelled ==> s.everCancelled)
    && (forall c :: c in s.dropped ==> s.everCancelled)
  }

  /** Each chunk's counts are folded into the job at most once. */
  ghost predicate CountedOnce(s: State) {
    s.counted <= s.events && s.claims <= s.counted && s.processed + |s.claims| <= |s.counted|
  }

  ghost predicate Inv(job: Job, s: State) {
    Traffic(job, s) && Ordered(job, s) && Accounted(s) && CountedOnce(s)
  }

  // ---- Every step keeps the invariant ----

  lemma InitInv(job: Job, s: State)
    requires Init(job, s) && WellFormed(job)
    ensures Inv(job, s)
  {
  }

  ghost predicate WellFormed(job: Job) {
    forall c :: c in job.waveOf ==> 0 <= job.waveOf[c] < job.totalWaves
  }

  /** Status writes keep the traffic in order when they put in flight only what was sent. */
  lemma StatusTraffic(job: Job, s: State, chunks: set<int>, to: Status)
    requires Traffic(job, s)
    requires to == Dispatched || to == Processing ==> forall c :: c in chunks ==> c in s.sent
    ensures Traffic(job, s.(status := Overwrite(s.status, chunks, to)))
  {
  }

  /** Writing one existing row. */
  lemma OneRow(status: map<int, Status>, c: int, to: Status)
    requires c in status
    ensures status[c := to] == Overwrite(status, {c}, to)
  {
  }

  lemma NextTraffic(job: Job, s: State, a: Action, t: State)
    requires Traffic(job, s) && Next(job, s, a, t)
    ensures Traffic(job, t)
  {
    if WritesStatus(a) {
      WriteTraffic(job, s, a, t);
    }
  }

  /** The steps that change chunk rows. */
  predicate WritesStatus(a: Action) {
    a.MarkDispatched? || a.Start? || a.Finish? || a.SweepFail? || a.DropRest? || a.SkipQueued?
  }

  lemma WriteTraffic(job: Job, s: State, a: Action, t: State)
    requires Traffic(job, s) && Next(job, s, a, t) && WritesStatus(a)
    ensures Traffic(job, t)
  {
    match a
    case MarkDispatched(c) => SentTraffic(job, s, c, Dispatched);
    case Start(c) => SentTraffic(job, s, c, Processing);
    case Finish(c, result) => SentTraffic(job, s, c, result);
    case SweepFail(c) => SentTraffic(job, s, c, Failed);
    case DropRest(w) => StatusTraffic(job, s, Late(job, s, w), Failed);
    case SkipQueued => StatusTraffic(job, s, QueuedChunks(s), Skipped);
  }

  lemma SentTraffic(job: Job, s: State, c: int, to: Status)
    requires Traffic(job, s) && c in s.sent
    ensures c in s.status && Traffic(job, s.(status := s.status[c := to]))
  {
    OneRow(s.status, c, to);
    StatusTraffic(job, s, {c}, to);
  }

  /** Chunks may be made terminal when they are entered as ended, and ended ones stay so. */
  lemma StatusOrdered(job: Job, s: State, chunks: set<int>, to: Status, more: set<int>)
    requires Ordered(job, s)
    requires Terminal(to) ==> forall c :: c in chunks ==> c in more
    ensures Ordered(job, s.(status := Overwrite(s.status, chunks, to), ended := s.ended + more))
  {
    EndedGrows(job, s, more);
  }

  lemma EndedGrows(job: Job, s: State, more: set<int>)
    ensures forall w :: EarlierEnded(job, s.ended, w) ==> EarlierEnded(job, s.ended + more, w)
  {
  }

  lemma RowOrdered(job: Job, s: State, c: int, to: Status, more: set<int>)
    requires Ordered(job, s) && c in s.status && (Terminal(to) ==> c in more)
    ensures Ordered(job, s.(status := s.status[c := to], ended := s.ended + more))
  {
    OneRow(s.status, c, to);
    StatusOrdered(job, s, {c}, to, more);
  }

  lemma NextOrdered(job: Job, s: State, a: Action, t: State)
    requires Traffic(job, s) && Ordered(job, s) && Next(job, s, a, t)
    ensures Ordered(job, t)
  {
    if WritesStatus(a) {
      WriteOrdered(job, s, a, t);
    } else if a.SeeWaveDone? {
      ClearedOrdered(job, s, a.c);
    }
  }

  lemma WriteOrdered(job: Job, s: State, a: Action, t: State)
    requires Traffic(job, s) && Ordered(job, s) && Next(job, s, a, t) && WritesStatus(a)
    ensures Ordered(job, t)
  {
    assert s.ended + {} == s.ended;
    match a
    case MarkDispatched(c) => RowOrdered(job, s, c, Dispatched, {});
    case Start(c) => RowOrdered(job, s, c, Processing, {});
    case Finish(c, result) => RowOrdered(job, s, c, result, {c});
    case SweepFail(c) => RowOrdered(job, s, c, Failed, {c});
    case DropRest(w) => StatusOrdered(job, s, Late(job, s, w), Failed, Late(job, s, w));
    case SkipQueued => StatusOrdered(job, s, QueuedChunks(s), Skipped, {});
  }

  /** A wave seen complete had been released, so all before it had ended already. */
  lemma ClearedOrdered(job: Job, s: State, c: int)
    requires Traffic(job, s) && Ordered(job, s) && c in s.events && c in job.waveOf
    requires WaveDone(job, s, job.waveOf[c])
    ensures EarlierEnded(job, s.ended, job.waveOf[c] + 1)
  {
    assert c in s.sent;
    assert EarlierEnded(job, s.ended, job.waveOf[c]);
  }

  lemma NextAccounted(job: Job, s: State, a: Action, t: State)
    requires Traffic(job, s) && Accounted(s) && Next(job, s, a, t)
    ensures Accounted(t)
  {
  }

  lemma NextCountedOnce(job: Job, s: State, a: Action, t: State)
    requires CountedOnce(s) && Next(job, s, a, t)
    ensures CountedOnce(t)
  {
  }

  lemma NextInv(job: Job, s: State, a: Action, t: State)
    requires Inv(job, s) && Next(job, s, a, t)
    ensures Inv(job, t)
  {
    NextTraffic(job, s, a, t);
    NextOrdered(job, s, a, t);
    NextAccounted(job, s, a, t);
    NextCountedOnce(job, s, a, t);
  }

  // ---- Whole runs ----

  ghost predicate Steps(job: Job, states: seq<State>, actions: seq<Action>) {
    && |states| == |actions| + 1
    && forall i :: 0 <= i < |actions| ==> Next(job, states[i], actions[i], states[i + 1])
  }

  ghost predicate IsRun(job: Job, states: seq<State>, actions: seq<Action>) {
    Steps(job, states, actions) && Init(job, states[0])
  }

  lemma {:induction false} RunInv(job: Job, states: seq<State>, actions: seq<Action>, i: nat)
    requires IsRun(job, states, actions) && WellFormed(job) && i < |states|
    ensures Inv(job, states[i])
  {
    if i == 0 {
      InitInv(job, states[0]);
    } else {
      RunInv(job, states, actions, i - 1);
      NextInv(job, states[i - 1], actions[i - 1], states[i]);
    }
  }

  /** The rows planAndDispatch stores for a packed plan. */
  ghost function JobOf(packed: seq<PackedWave>): Job {
    Job(map n | 1 <= n <= |AllChunks(packed)| :: RowWave(AllChunks(packed), n), |packed|)
  }

  ghost function RowWave(chunks: seq<Chunk>, n: int): int {
    if 1 <= n <= |chunks| then chunks[n - 1].waveNo else 0
  }

  lemma JobOfMeaning(g: Deps, plan: WavePlan, size: int, packed: seq<PackedWave>)
    requires IsPlan(g, plan) && IsPacking(plan.waves, size, packed)
    ensures WellFormed(JobOf(packed))
    ensures forall c :: c in AllChunks(packed) ==>
      c.number in JobOf(packed).waveOf && JobOf(packed).waveOf[c.number] == c.waveNo
  {
    var all := AllChunks(packed);
    forall c | c in all
      ensures 1 <= c.number <= |all| && all[c.number - 1] == c && 0 <= c.waveNo < |packed|
    {
      var i :| 0 <= i < |all| && all[i] == c;
      var k, j := ChunkHasWave(packed, c);
      assert PacksWave(plan.waves[k], size, packed[k]);
    }
    forall n | 1 <= n <= |all| ensures 0 <= RowWave(all, n) < |packed| {
      assert all[n - 1] in all;
    }
  }

  /** Safety over whole runs: a chunk is handed to the finance service only after the chunk of
      every upstream product of its products has ended. Unless the job was cancelled at some
      time, that chunk had itself been sent to the workers. */
  lemma UpstreamEndsFirst(g: Deps, plan: WavePlan, size: int, packed: seq<PackedWave>,
                          states: seq<State>, actions: seq<Action>, i: nat, c: Chunk, d: int, u: int)
    returns (b: Chunk)
    requires Closed(g) && IsPlan(g, plan) && IsPacking(plan.waves, size, packed)
    requires IsRun(JobOf(packed), states, actions) && i < |states|
    requires c in AllChunks(packed) && c.number in states[i].started
    requires d in c.products && DependsOn(g, d, u)
    ensures b in AllChunks(packed) && u in b.products && b.number in states[i].ended
    ensures !states[i].everCancelled ==> b.number in states[i].sent
  {
    var job, s := JobOf(packed), states[i];
    JobOfMeaning(g, plan, size, packed);
    RunInv(job, states, actions, i);
    b := UpstreamChunkIsEarlier(g, plan, size, packed, c, d, u);
    assert c.number in s.sent;
    assert EarlierEnded(job, s.ended, job.waveOf[c.number]);
  }

  /** However often completions are delivered, no job ever shows more processed chunks than it has. */
  lemma ProcessedNeverExceedsTotal(job: Job, states: seq<State>, actions: seq<Action>, i: nat)
    requires IsRun(job, states, actions) && WellFormed(job) && i < |states|
    ensures states[i].processed <= |job.waveOf|
  {
    var s := states[i];
    RunInv(job, states, actions, i);
    forall c | c in s.counted ensures c in job.waveOf.Keys {
      assert c in s.events && c in s.sent;
    }
    SubsetSize(s.counted, job.waveOf.Keys);
  }

  /** The increments lost before step `i`. */
  ghost function Lost(actions: seq<Action>, i: nat): set<int>
    requires i <= |actions|
  {
    set j | 0 <= j < i && actions[j].LoseIncrement?
  }

  /** Exact accounting: every chunk counted is in the processed number, or its claim is still
      open, or its increment was lost. */
  lemma {:induction false} CountedIsProcessed(job: Job, states: seq<State>, actions: seq<Action>, i: nat)
    requires IsRun(job, states, actions) && WellFormed(job) && i < |states|
    ensures states[i].processed + |states[i].claims| + |Lost(actions, i)| == |states[i].counted|
  {
    if i == 0 {
      assert Lost(actions, 0) == {};
    } else {
      CountedIsProcessed(job, states, actions, i - 1);
      RunInv(job, states, actions, i - 1);
      NextExact(job, states[i - 1], actions[i - 1], states[i]);
      var before := Lost(actions, i - 1);
      assert Lost(actions, i) == if actions[i - 1].LoseIncrement? then before + {i - 1} else before;
    }
  }

  lemma NextExact(job: Job, s: State, a: Action, t: State)
    requires CountedOnce(s) && Next(job, s, a, t)
    ensures t.processed + |t.claims| - |t.counted|
         == s.processed + |s.claims| - |s.counted| - if a.LoseIncrement? then 1 else 0
  {
  }

  /** When no increment was lost and no claim is open, processed is the number of counted chunks. */
  lemma NothingLost(job: Job, states: seq<State>, actions: seq<Action>, i: nat)
    requires IsRun(job, states, actions) && WellFormed(job) && i < |states|
    requires forall j :: 0 <= j < i ==> !actions[j].LoseIncrement?
    ensures states[i].processed + |states[i].claims| == |states[i].counted|
    ensures states[i].claims == {} ==> states[i].processed == |states[i].counted|
  {
    CountedIsProcessed(job, states, actions, i);
    assert Lost(actions, i) == {};
  }

  lemma {:induction false} SubsetSize(a: set<int>, b: set<int>)
    requires forall c :: c in a ==> c in b
    ensures |a| <= |b|
    decreases |a|
  {
    if a != {} {
      var c := Sorting.Inhabited(a);
      SubsetSize(a - {c}, b - {c});
    }
  }

  /** A job is finalized only when every chunk has ended. */
  lemma FinalizedMeansAllEnded(job: Job, states: seq<State>, actions: seq<Action>, i: nat, c: int)
    requires IsRun(job, states, actions) && WellFormed(job) && i < |states|
    requires states[i].finalized && c in job.waveOf
    ensures c in states[i].ended
  {
    RunInv(job, states, actions, i);
  }

  // ---- Cancellation ----

  /** As long as the job stays cancelled no wave is released and the job is not finalized. */
  lemma {:induction false} CancelledReleasesNothing(job: Job, states: seq<State>, actions: seq<Action>, i: nat, j: nat)
    requires Steps(job, states, actions) && i <= j < |states| && states[i].cancelled
    requires forall k :: i <= k < j ==> actions[k] != OverwriteCancel
    ensures states[j].cancelled && states[j].released == states[i].released
    ensures states[j].finalized == states[i].finalized
    decreases j
  {
    if i < j {
      CancelledReleasesNothing(job, states, actions, i, j - 1);
      assert Next(job, states[j - 1], actions[j - 1], states[j]);
    }
  }

  /** What cancelling does to the rows: only queued ones change. The coordinator fails those of
      the waves after `w`, the finance service skips all of them. */
  lemma CancellationTouchesQueuedOnly(job: Job, s: State, a: Action, t: State, c: int)
    requires Traffic(job, s) && Next(job, s, a, t) && c in s.status
    requires a.DropRest? || a.SkipQueued?
    ensures c in t.status
    ensures s.status[c] != Queued ==> t.status[c] == s.status[c]
    ensures s.status[c] == Queued && a.SkipQueued? ==> t.status[c] == Skipped
    ensures s.status[c] == Queued && a.DropRest? ==>
      t.status[c] == (if job.waveOf[c] > a.w then Failed else Queued) && (job.waveOf[c] > a.w ==> c in t.ended)
  {
  }

  /** A wave seen complete has no chunk that waits, is in flight or was skipped. */
  lemma SeenWaveIsOver(job: Job, s: State, c: int, t: State, d: int)
    requires Traffic(job, s) && Next(job, s, SeeWaveDone(c), t)
    requires d in job.waveOf && c in job.waveOf && job.waveOf[d] == job.waveOf[c]
    ensures s.status[d] == Success || s.status[d] == Partial || s.status[d] == Failed
  {
  }
}

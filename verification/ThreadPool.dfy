/**
 The worker pool of src/shared/thread_pool.c as an interleaved step system: any number of
 workers, submitters and pause switches, and one shutdown that waits for the workers. One
 step is one lock, semaphore, event or flag operation, or one critical section's update.
 */
module ThreadPool {
  import opened CStrings
  import opened Counting

  /** A task is known by the order in which its record was allocated. */
  type Task = nat

  /** `saturates`: the semaphore has the maximum `qs`, as on Windows. */
  datatype Config = Config(tc: nat, qs: nat, saturates: bool)

  /** Where a worker is in its loop. `Missed` is the gap after a failed wait. */
  datatype Worker =
    | Waiting
    | Missed
    | Token
    | Resignal
    | Asleep
    | AtLock
    | Locked
    | Unlocking(got: Option<Task>)
    | Running(task: Task)
    | Exited

  datatype SubmitResult = Success | Unknown | OutOfMemory | Exhausted

  /** Where a call of submit is. */
  datatype Submitter =
    | Idle
    | Allocating
    | AtSubmitLock(task: Task)
    | Checking(task: Task)
    | Linking(task: Task)
    | Rejecting(task: Task)
    | Linked
    | Signalling
    | Returned(result: SubmitResult)

  /** Where the shutdown is; the stop event is set in all but the first state. */
  datatype Closer = Open | Releasing(left: nat) | Joining | Closed

  datatype Owner = Nobody | ByWorker(i: nat) | BySubmitter(j: nat)

  /** The pool, its threads, and the tasks ever accepted, dispatched and finished, in order. */
  datatype State = State(
    workers: seq<Worker>, submitters: seq<Submitter>, closer: Closer,
    queue: seq<Task>, queueSize: nat, sem: nat, paused: bool, owner: Owner,
    born: nat, accepted: seq<Task>, dispatched: seq<Task>, ran: seq<Task>)

  datatype WorkerMove =
    | WaitSucceeds | WaitFails | SeesStop | SeesNoStop | SeesPause | SeesNoPause | Resignals | Wakes
    | Locks | Dequeues | Unlocks | Finishes

  datatype SubmitMove = Begins | Allocates(ok: bool) | SubmitLocks | Checks | Links | SubmitUnlocks | Signals | Returns

  datatype Action =
    | WorkerActs(i: nat, work: WorkerMove)
    | SubmitterActs(j: nat, submit: SubmitMove)
    | SetsPause(paused: bool)
    | SetsStop
    | ReleasesOne
    | Joins

  /** What a release makes of the semaphore's count. */
  function Released(c: Config, sem: nat): nat {
    if c.saturates && sem >= c.qs then sem else sem + 1
  }

  predicate WorkerEnabled(s: State, w: Worker, move: WorkerMove) {
    match move
    case WaitSucceeds => w.Waiting? && s.sem > 0
    case WaitFails => w.Waiting? && s.sem == 0
    case SeesStop => w.Missed? && !s.closer.Open?
    case SeesNoStop => w.Missed?
    case SeesPause => w.Token? && s.paused
    case SeesNoPause => w.Token? && !s.paused
    case Resignals => w.Resignal?
    case Wakes => w.Asleep?
    case Locks => w.AtLock? && s.owner.Nobody?
    case Dequeues => w.Locked?
    case Unlocks => w.Unlocking?
    case Finishes => w.Running?
  }

  function WorkerDoes(c: Config, s: State, i: nat, move: WorkerMove): State
    requires i < |s.workers| && WorkerEnabled(s, s.workers[i], move)
  {
    match move
    case WaitSucceeds => s.(workers := s.workers[i := Token], sem := s.sem - 1)
    case WaitFails => s.(workers := s.workers[i := Missed])
    case SeesStop => s.(workers := s.workers[i := Exited])
    case SeesNoStop => s.(workers := s.workers[i := Waiting])
    case SeesPause => s.(workers := s.workers[i := Resignal])
    case SeesNoPause => s.(workers := s.workers[i := AtLock])
    case Resignals => s.(workers := s.workers[i := Asleep], sem := Released(c, s.sem))
    case Wakes => s.(workers := s.workers[i := Waiting])
    case Locks => s.(workers := s.workers[i := Locked], owner := ByWorker(i))
    case Dequeues =>
      if s.queue == [] then s.(workers := s.workers[i := Unlocking(None)])
      else s.(workers := s.workers[i := Unlocking(Some(s.queue[0]))], queue := s.queue[1..],
              queueSize := if s.queueSize == 0 then 0xFFFF_FFFF else s.queueSize - 1,
              dispatched := s.dispatched + [s.queue[0]])
    case Unlocks =>
      (match s.workers[i].got
       case None => s.(workers := s.workers[i := Waiting], owner := Nobody)
       case Some(t) => s.(workers := s.workers[i := Running(t)], owner := Nobody))
    case Finishes => s.(workers := s.workers[i := Waiting], ran := s.ran + [s.workers[i].task])
  }

  predicate SubmitEnabled(s: State, p: Submitter, move: SubmitMove) {
    match move
    case Begins => p.Idle?
    case Allocates(_) => p.Allocating?
    case SubmitLocks => p.AtSubmitLock? && s.owner.Nobody?
    case Checks => p.Checking?
    case Links => p.Linking?
    case SubmitUnlocks => p.Linked? || p.Rejecting?
    case Signals => p.Signalling?
    case Returns => p.Returned?
  }

  function SubmitDoes(c: Config, s: State, j: nat, move: SubmitMove): State
    requires j < |s.submitters| && SubmitEnabled(s, s.submitters[j], move)
  {
    var p := s.submitters[j];
    match move
    case Begins => s.(submitters := s.submitters[j := if s.paused then Returned(Unknown) else Allocating])
    case Allocates(ok) =>
      if ok then s.(submitters := s.submitters[j := AtSubmitLock(s.born)], born := s.born + 1)
      else s.(submitters := s.submitters[j := Returned(OutOfMemory)])
    case SubmitLocks => s.(submitters := s.submitters[j := Checking(p.task)], owner := BySubmitter(j))
    case Checks =>
      s.(submitters := s.submitters[j := if s.queueSize >= c.qs then Rejecting(p.task) else Linking(p.task)])
    case Links =>
      s.(submitters := s.submitters[j := Linked], queue := s.queue + [p.task],
         queueSize := (s.queueSize + 1) % 0x1_0000_0000, accepted := s.accepted + [p.task])
    case SubmitUnlocks =>
      s.(submitters := s.submitters[j := if p.Linked? then Signalling else Returned(Exhausted)], owner := Nobody)
    case Signals => s.(submitters := s.submitters[j := Returned(Success)], sem := Released(c, s.sem))
    case Returns => s.(submitters := s.submitters[j := Idle])
  }

  predicate AllExited(s: State) {
    forall i :: 0 <= i < |s.workers| ==> s.workers[i].Exited?
  }

  predicate Enabled(s: State, a: Action) {
    && !s.closer.Closed?
    && match a
       case WorkerActs(i, move) => i < |s.workers| && WorkerEnabled(s, s.workers[i], move)
       case SubmitterActs(j, move) => j < |s.submitters| && SubmitEnabled(s, s.submitters[j], move)
       case SetsPause(_) => true
       case SetsStop => s.closer.Open?
       case ReleasesOne => s.closer.Releasing?
       case Joins => s.closer.Joining? && AllExited(s)
  }

  function Next(c: Config, s: State, a: Action): State
    requires Enabled(s, a)
  {
    match a
    case WorkerActs(i, move) => WorkerDoes(c, s, i, move)
    case SubmitterActs(j, move) => SubmitDoes(c, s, j, move)
    case SetsPause(paused) => s.(paused := paused)
    case SetsStop => s.(closer := if c.tc == 0 then Joining else Releasing(c.tc))
    case ReleasesOne =>
      s.(sem := Released(c, s.sem), closer := if s.closer.left <= 1 then Joining else Releasing(s.closer.left - 1))
    case Joins => s.(closer := Closed)
  }

  /** A pool just made, with idle submitters around it. */
  predicate Initial(c: Config, s: State) {
    && |s.workers| == c.tc && (forall i :: 0 <= i < |s.workers| ==> s.workers[i].Waiting?)
    && (forall j :: 0 <= j < |s.submitters| ==> s.submitters[j].Idle?)
    && s == State(s.workers, s.submitters, Open, [], 0, 0, false, Nobody, 0, [], [], [])
  }

  predicate Runnable(c: Config, s: State, run: seq<Action>)
    decreases |run|
  {
    run == [] || (Enabled(s, run[0]) && Runnable(c, Next(c, s, run[0]), run[1..]))
  }

  function Run(c: Config, s: State, run: seq<Action>): State
    requires Runnable(c, s, run)
    decreases |run|
  {
    if run == [] then s else Run(c, Next(c, s, run[0]), run[1..])
  }

  // ---------------------------------------------------------------------------
  // The mutex and the queue bound
  // ---------------------------------------------------------------------------

  predicate WorkerInside(w: Worker) {
    w.Locked? || w.Unlocking?
  }

  predicate SubmitterInside(p: Submitter) {
    p.Checking? || p.Linking? || p.Rejecting? || p.Linked?
  }

  /** Exactly the owner of the mutex is inside a critical section. */
  ghost predicate Exclusive(s: State) {
    && (forall i: nat :: i < |s.workers| ==> (WorkerInside(s.workers[i]) <==> s.owner == ByWorker(i)))
    && (forall j: nat :: j < |s.submitters| ==> (SubmitterInside(s.submitters[j]) <==> s.owner == BySubmitter(j)))
    && (s.owner.ByWorker? ==> s.owner.i < |s.workers|)
    && (s.owner.BySubmitter? ==> s.owner.j < |s.submitters|)
  }

  /** A thread's step moves that thread alone and takes or gives back the mutex only for itself. */
  lemma WorkerStep(c: Config, s: State, i: nat, move: WorkerMove)
    requires i < |s.workers| && WorkerEnabled(s, s.workers[i], move) && Exclusive(s)
    ensures var s' := WorkerDoes(c, s, i, move);
      && |s'.workers| == |s.workers| && s'.submitters == s.submitters && s'.closer == s.closer
      && s'.workers == s.workers[i := s'.workers[i]]
      && (WorkerInside(s'.workers[i]) <==> s'.owner == ByWorker(i))
      && (s'.owner == s.owner || (s.owner.Nobody? && s'.owner == ByWorker(i))
          || (s.owner == ByWorker(i) && s'.owner.Nobody?))
  {
  }

  lemma SubmitStep(c: Config, s: State, j: nat, move: SubmitMove)
    requires j < |s.submitters| && SubmitEnabled(s, s.submitters[j], move) && Exclusive(s)
    ensures var s' := SubmitDoes(c, s, j, move);
      && |s'.submitters| == |s.submitters| && s'.workers == s.workers && s'.closer == s.closer
      && s'.submitters == s.submitters[j := s'.submitters[j]]
      && (SubmitterInside(s'.submitters[j]) <==> s'.owner == BySubmitter(j))
      && (s'.owner == s.owner || (s.owner.Nobody? && s'.owner == BySubmitter(j))
          || (s.owner == BySubmitter(j) && s'.owner.Nobody?))
  {
  }

  lemma ExclusiveByWorker(c: Config, s: State, i: nat, move: WorkerMove)
    requires i < |s.workers| && WorkerEnabled(s, s.workers[i], move) && Exclusive(s)
    ensures Exclusive(WorkerDoes(c, s, i, move))
  {
    hide WorkerDoes, WorkerEnabled, WorkerInside, SubmitterInside;
    WorkerStep(c, s, i, move);
  }

  lemma ExclusiveBySubmitter(c: Config, s: State, j: nat, move: SubmitMove)
    requires j < |s.submitters| && SubmitEnabled(s, s.submitters[j], move) && Exclusive(s)
    ensures Exclusive(SubmitDoes(c, s, j, move))
  {
    hide SubmitDoes, SubmitEnabled, WorkerInside, SubmitterInside;
    SubmitStep(c, s, j, move);
  }

  /** The counter is the length of the list, which never exceeds `qs`. */
  ghost predicate Bounded(c: Config, s: State) {
    && s.queueSize == |s.queue| <= c.qs < 0x1_0000_0000
    && forall j :: 0 <= j < |s.submitters| ==>
        ((s.submitters[j].Linking? ==> |s.queue| < c.qs) && (s.submitters[j].Rejecting? ==> |s.queue| == c.qs))
  }

  lemma BoundedByWorker(c: Config, s: State, i: nat, move: WorkerMove)
    requires i < |s.workers| && WorkerEnabled(s, s.workers[i], move) && Exclusive(s) && Bounded(c, s)
    ensures Bounded(c, WorkerDoes(c, s, i, move))
  {
    hide Released;
  }

  lemma BoundedBySubmitter(c: Config, s: State, j: nat, move: SubmitMove)
    requires j < |s.submitters| && SubmitEnabled(s, s.submitters[j], move) && Exclusive(s) && Bounded(c, s)
    ensures Bounded(c, SubmitDoes(c, s, j, move))
  {
    hide Released;
  }

  // ---------------------------------------------------------------------------
  // The tokens
  // ---------------------------------------------------------------------------

  /** Got a token from the semaphore and has not yet taken a task for it. */
  predicate HoldsToken(w: Worker) {
    w.Token? || w.Resignal? || w.AtLock? || w.Locked?
  }

  /** Has queued a task and not yet signalled. */
  predicate OwesSignal(p: Submitter) {
    p.Linked? || p.Signalling?
  }

  ghost function Tokens(s: State): nat {
    s.sem + Count(s.workers, HoldsToken) + Count(s.submitters, OwesSignal)
  }

  /**
   Until the stop event every queued task has exactly one token; after it, when the extra
   signals are released and some may be lost at the maximum, at least one.
   */
  ghost predicate Accounted(c: Config, s: State) {
    && |s.queue| <= Tokens(s)
    && (s.closer.Open? ==> |s.queue| == Tokens(s))
  }

  lemma AccountedByWorker(c: Config, s: State, i: nat, move: WorkerMove)
    requires i < |s.workers| && WorkerEnabled(s, s.workers[i], move) && Bounded(c, s) && Accounted(c, s)
    ensures Accounted(c, WorkerDoes(c, s, i, move))
  {
    var s' := WorkerDoes(c, s, i, move);
    CountSet(s.workers, HoldsToken, i, s'.workers[i]);
    if HoldsToken(s.workers[i]) {
      CountOne(s.workers, HoldsToken, i);
    }
  }

  lemma AccountedBySubmitter(c: Config, s: State, j: nat, move: SubmitMove)
    requires j < |s.submitters| && SubmitEnabled(s, s.submitters[j], move) && Bounded(c, s) && Accounted(c, s)
    ensures Accounted(c, SubmitDoes(c, s, j, move))
  {
    var s' := SubmitDoes(c, s, j, move);
    CountSet(s.submitters, OwesSignal, j, s'.submitters[j]);
    if OwesSignal(s.submitters[j]) {
      CountOne(s.submitters, OwesSignal, j);
    }
  }

  // ---------------------------------------------------------------------------
  // The tasks
  // ---------------------------------------------------------------------------

  predicate NoRepeats(s: seq<Task>) {
    forall k, l :: 0 <= k < l < |s| ==> s[k] != s[l]
  }

  /** What a submitter has allocated and not queued. */
  function Pending(p: Submitter): Option<Task> {
    match p
    case AtSubmitLock(t) => Some(t)
    case Checking(t) => Some(t)
    case Linking(t) => Some(t)
    case Rejecting(t) => Some(t)
    case _ => None
  }

  /** A pending task is new. */
  ghost predicate PendingNew(s: State, p: Submitter) {
    Pending(p).Some? ==> Pending(p).value < s.born && Pending(p).value !in s.accepted
  }

  /** No task is queued twice. */
  ghost predicate Unrepeated(s: State) {
    && NoRepeats(s.accepted) && (forall k :: 0 <= k < |s.accepted| ==> s.accepted[k] < s.born)
    && (forall j :: 0 <= j < |s.submitters| ==> PendingNew(s, s.submitters[j]))
    && (forall j, k :: 0 <= j < k < |s.submitters| && Pending(s.submitters[j]).Some? ==>
          Pending(s.submitters[j]) != Pending(s.submitters[k]))
  }

  lemma UnrepeatedBySubmitter(c: Config, s: State, j: nat, move: SubmitMove)
    requires j < |s.submitters| && SubmitEnabled(s, s.submitters[j], move) && Unrepeated(s)
    ensures Unrepeated(SubmitDoes(c, s, j, move))
  {
    hide Released;
    var s' := SubmitDoes(c, s, j, move);
    assert PendingNew(s, s.submitters[j]);
    forall k | 0 <= k < |s.submitters| ensures PendingNew(s', s'.submitters[k]) {
      assert PendingNew(s, s.submitters[k]);
    }
  }

  lemma UnrepeatedByWorker(c: Config, s: State, i: nat, move: WorkerMove)
    requires i < |s.workers| && WorkerEnabled(s, s.workers[i], move) && Unrepeated(s)
    ensures Unrepeated(WorkerDoes(c, s, i, move))
  {
    hide Released, NoRepeats;
    var s' := WorkerDoes(c, s, i, move);
    forall k | 0 <= k < |s.submitters| ensures PendingNew(s', s'.submitters[k]) {
      assert PendingNew(s, s.submitters[k]);
    }
  }

  /** What a worker has taken and not finished. */
  function InHand(w: Worker): multiset<Task> {
    match w
    case Unlocking(Some(t)) => multiset{t}
    case Running(t) => multiset{t}
    case _ => multiset{}
  }

  /** Tasks leave in the order in which they came, and each is then in hand or finished. */
  ghost predicate Fifo(s: State) {
    && s.accepted == s.dispatched + s.queue
    && multiset(s.dispatched) == multiset(s.ran) + Gather(s.workers, InHand)
  }

  lemma TakenIn(dispatched: seq<Task>, ran: seq<Task>, before: multiset<Task>, after: multiset<Task>, t: Task)
    requires multiset(dispatched) == multiset(ran) + before && after + multiset{} == before + multiset{t}
    ensures multiset(dispatched + [t]) == multiset(ran) + after
  {
    assert after == before + multiset{t};
    assert multiset(dispatched + [t]) == multiset(dispatched) + multiset{t};
  }

  lemma PutOut(dispatched: seq<Task>, ran: seq<Task>, before: multiset<Task>, after: multiset<Task>, t: Task)
    requires multiset(dispatched) == multiset(ran) + before && after + multiset{t} == before + multiset{}
    ensures multiset(dispatched) == multiset(ran + [t]) + after
  {
    assert before == after + multiset{t};
    assert multiset(ran + [t]) == multiset(ran) + multiset{t};
  }

  lemma FifoByDequeue(c: Config, s: State, i: nat)
    requires i < |s.workers| && s.workers[i].Locked? && Fifo(s)
    ensures Fifo(WorkerDoes(c, s, i, Dequeues))
  {
    hide Released, Gather;
    var s' := WorkerDoes(c, s, i, Dequeues);
    GatherSet(s.workers, InHand, i, s'.workers[i]);
    if s.queue != [] {
      assert s.queue == [s.queue[0]] + s.queue[1..];
      TakenIn(s.dispatched, s.ran, Gather(s.workers, InHand), Gather(s'.workers, InHand), s.queue[0]);
    } else {
      SameAdded(Gather(s'.workers, InHand), Gather(s.workers, InHand), multiset{});
    }
  }

  lemma FifoByFinish(c: Config, s: State, i: nat)
    requires i < |s.workers| && s.workers[i].Running? && Fifo(s)
    ensures Fifo(WorkerDoes(c, s, i, Finishes))
  {
    hide Released, Gather;
    var s' := WorkerDoes(c, s, i, Finishes);
    GatherSet(s.workers, InHand, i, s'.workers[i]);
    PutOut(s.dispatched, s.ran, Gather(s.workers, InHand), Gather(s'.workers, InHand), s.workers[i].task);
  }

  lemma FifoByOther(c: Config, s: State, i: nat, move: WorkerMove)
    requires i < |s.workers| && WorkerEnabled(s, s.workers[i], move) && Fifo(s) && !move.Dequeues? && !move.Finishes?
    ensures Fifo(WorkerDoes(c, s, i, move))
  {
    hide Released, Gather;
    var s' := WorkerDoes(c, s, i, move);
    GatherSet(s.workers, InHand, i, s'.workers[i]);
    SameAdded(Gather(s'.workers, InHand), Gather(s.workers, InHand), InHand(s.workers[i]));
  }

  lemma SameAdded(a: multiset<Task>, b: multiset<Task>, x: multiset<Task>)
    requires a + x == b + x
    ensures a == b
  {
    forall t ensures a[t] == b[t] {
      assert (a + x)[t] == (b + x)[t];
    }
  }

  lemma FifoByWorker(c: Config, s: State, i: nat, move: WorkerMove)
    requires i < |s.workers| && WorkerEnabled(s, s.workers[i], move) && Fifo(s)
    ensures Fifo(WorkerDoes(c, s, i, move))
  {
    hide Fifo, WorkerDoes;
    match move
    case Dequeues => FifoByDequeue(c, s, i);
    case Finishes => FifoByFinish(c, s, i);
    case _ => FifoByOther(c, s, i, move);
  }

  lemma FifoBySubmitter(c: Config, s: State, j: nat, move: SubmitMove)
    requires j < |s.submitters| && SubmitEnabled(s, s.submitters[j], move) && Fifo(s)
    ensures Fifo(SubmitDoes(c, s, j, move))
  {
    hide Released;
  }

  // ---------------------------------------------------------------------------
  // Every reachable state
  // ---------------------------------------------------------------------------

  ghost predicate Inv(c: Config, s: State) {
    && |s.workers| == c.tc
    && Exclusive(s) && Bounded(c, s) && Accounted(c, s) && Unrepeated(s) && Fifo(s) && Alive(s)
  }

  /** No worker leaves before the stop event. */
  ghost predicate Alive(s: State) {
    s.closer.Open? ==> forall i :: 0 <= i < |s.workers| ==> !s.workers[i].Exited?
  }

  lemma InitialInv(c: Config, s: State)
    requires Initial(c, s) && c.qs < 0x1_0000_0000
    ensures Inv(c, s)
  {
    hide Count, Gather;
    CountNone(s.workers, HoldsToken);
    CountNone(s.submitters, OwesSignal);
    GatherNone(s.workers, InHand);
    assert Unrepeated(s) && Exclusive(s);
  }

  lemma WorkerKeeps(c: Config, s: State, i: nat, move: WorkerMove)
    requires Inv(c, s) && i < |s.workers| && WorkerEnabled(s, s.workers[i], move)
    ensures Inv(c, WorkerDoes(c, s, i, move))
  {
    hide Exclusive, Bounded, Accounted, Fifo, Released, NoRepeats, PendingNew;
    ExclusiveByWorker(c, s, i, move);
    BoundedByWorker(c, s, i, move);
    AccountedByWorker(c, s, i, move);
    FifoByWorker(c, s, i, move);
    UnrepeatedByWorker(c, s, i, move);
  }

  lemma SubmitterKeeps(c: Config, s: State, j: nat, move: SubmitMove)
    requires Inv(c, s) && j < |s.submitters| && SubmitEnabled(s, s.submitters[j], move)
    ensures Inv(c, SubmitDoes(c, s, j, move))
  {
    hide Exclusive, Bounded, Accounted, Fifo, Unrepeated, Released;
    ExclusiveBySubmitter(c, s, j, move);
    BoundedBySubmitter(c, s, j, move);
    AccountedBySubmitter(c, s, j, move);
    FifoBySubmitter(c, s, j, move);
    UnrepeatedBySubmitter(c, s, j, move);
  }

  /** Pausing and shutting down. */
  lemma ControlKeeps(c: Config, s: State, a: Action)
    requires Inv(c, s) && Enabled(s, a) && !a.WorkerActs? && !a.SubmitterActs?
    ensures Inv(c, Next(c, s, a))
  {
    hide NoRepeats, Gather, Count;
  }

  /** Every step keeps the invariant. */
  lemma StepKeeps(c: Config, s: State, a: Action)
    requires Inv(c, s) && Enabled(s, a)
    ensures Inv(c, Next(c, s, a))
  {
    hide Inv, WorkerDoes, SubmitDoes, WorkerEnabled, SubmitEnabled;
    match a
    case WorkerActs(i, move) => WorkerKeeps(c, s, i, move);
    case SubmitterActs(j, move) => SubmitterKeeps(c, s, j, move);
    case _ => ControlKeeps(c, s, a);
  }

  lemma {:induction false} RunKeeps(c: Config, s: State, run: seq<Action>)
    requires Inv(c, s) && Runnable(c, s, run)
    ensures Inv(c, Run(c, s, run))
    decreases |run|
  {
    hide Inv, Next, Enabled;
    if run != [] {
      StepKeeps(c, s, run[0]);
      RunKeeps(c, Next(c, s, run[0]), run[1..]);
    }
  }

  /**
   Token accounting in every reachable state: before the stop event the tokens, wherever
   they are, are as many as the queued tasks, so a worker that holds one finds a task and
   no release is lost at the maximum; after it there are still at least as many.
   */
  lemma TokensMatchTasks(c: Config, start: State, run: seq<Action>)
    requires c.qs < 0x1_0000_0000 && Initial(c, start) && Runnable(c, start, run)
    ensures var s := Run(c, start, run);
      && |s.queue| <= Tokens(s)
      && (s.closer.Open? ==> |s.queue| == Tokens(s))
      && (forall i :: 0 <= i < |s.workers| && s.closer.Open? && HoldsToken(s.workers[i]) ==> s.queue != [])
      && (forall i :: 0 <= i < |s.workers| && s.closer.Open? && s.workers[i].Resignal? ==> s.sem < c.qs)
      && (forall j :: 0 <= j < |s.submitters| && s.closer.Open? && OwesSignal(s.submitters[j]) ==> s.sem < c.qs)
  {
    hide Initial, Runnable, Run, Unrepeated, Fifo, Exclusive;
    InitialInv(c, start);
    RunKeeps(c, start, run);
    var s := Run(c, start, run);
    forall i | 0 <= i < |s.workers| && HoldsToken(s.workers[i]) ensures Tokens(s) > s.sem {
      CountOne(s.workers, HoldsToken, i);
    }
    forall j | 0 <= j < |s.submitters| && OwesSignal(s.submitters[j]) ensures Tokens(s) > s.sem {
      CountOne(s.submitters, OwesSignal, j);
    }
  }

  /**
   Order and conservation in every reachable state: the accepted tasks are the dispatched
   ones, in the same order, followed by the queue; none is dispatched twice; the counter
   is the queue's length and within `qs`; a submit is turned away only when it is full.
   */
  lemma FirstInFirstOut(c: Config, start: State, run: seq<Action>)
    requires c.qs < 0x1_0000_0000 && Initial(c, start) && Runnable(c, start, run)
    ensures var s := Run(c, start, run);
      && s.accepted == s.dispatched + s.queue
      && NoRepeats(s.accepted) && NoRepeats(s.dispatched)
      && multiset(s.dispatched) == multiset(s.ran) + Gather(s.workers, InHand)
      && s.queueSize == |s.queue| <= c.qs
      && (forall j :: 0 <= j < |s.submitters| && s.submitters[j].Rejecting? ==> |s.queue| == c.qs)
  {
    hide Initial, Runnable, Run, Accounted, Exclusive;
    InitialInv(c, start);
    RunKeeps(c, start, run);
    var s := Run(c, start, run);
    assert forall k :: 0 <= k < |s.dispatched| ==> s.dispatched[k] == s.accepted[k];
  }

  // ---------------------------------------------------------------------------
  // Shutting down
  // ---------------------------------------------------------------------------

  /** No submit is in progress. */
  ghost predicate Quiet(s: State) {
    forall j :: 0 <= j < |s.submitters| ==> s.submitters[j].Idle? || s.submitters[j].Returned?
  }

  /** No submit begins during the run. */
  ghost predicate NoneBegins(run: seq<Action>) {
    forall k :: 0 <= k < |run| ==> !(run[k].SubmitterActs? && run[k].submit.Begins?)
  }

  /** In its loop, and not in the gap between a failed wait and the check for the event. */
  predicate Active(w: Worker) {
    !w.Missed? && !w.Exited?
  }

  /** Nothing is queued, or someone will come back for it. */
  ghost predicate Served(s: State) {
    s.queue == [] || exists i :: 0 <= i < |s.workers| && Active(s.workers[i])
  }

  /** Without submitters, a worker that gives up leaves no task without a worker. */
  lemma ServedByWorker(c: Config, s: State, i: nat, move: WorkerMove)
    requires Inv(c, s) && Quiet(s) && Served(s) && i < |s.workers| && WorkerEnabled(s, s.workers[i], move)
    ensures Served(WorkerDoes(c, s, i, move))
  {
    hide Exclusive, Bounded, Unrepeated, Fifo, Released, Gather, Count;
    var s' := WorkerDoes(c, s, i, move);
    if move.WaitFails? && s.queue != [] {
      CountNone(s.submitters, OwesSignal);
      var k := SomeSuch(s.workers, HoldsToken);
      assert Active(s'.workers[k]);
    } else if s.queue != [] {
      var k :| 0 <= k < |s.workers| && Active(s.workers[k]);
      assert s'.queue == [] || Active(s'.workers[k]);
    }
  }

  lemma SomeSuch(ws: seq<Worker>, f: Worker -> bool) returns (k: nat)
    requires Count(ws, f) > 0
    ensures k < |ws| && f(ws[k])
  {
    if forall i :: 0 <= i < |ws| ==> !f(ws[i]) {
      CountNone(ws, f);
      assert false;
    }
    k :| 0 <= k < |ws| && f(ws[k]);
  }

  lemma ServedByStep(c: Config, s: State, a: Action)
    requires Inv(c, s) && Quiet(s) && Served(s) && Enabled(s, a) && NoneBegins([a])
    ensures Quiet(Next(c, s, a)) && Served(Next(c, s, a))
    ensures !s.closer.Open? ==> !Next(c, s, a).closer.Open?
  {
    hide Inv, WorkerDoes;
    assert [a][0] == a;
    match a
    case WorkerActs(i, move) => {
      ServedByWorker(c, s, i, move);
      WorkerChangesOne(c, s, i, move);
    }
    case _ =>
  }

  lemma WorkerChangesOne(c: Config, s: State, i: nat, move: WorkerMove)
    requires i < |s.workers| && WorkerEnabled(s, s.workers[i], move)
    ensures WorkerDoes(c, s, i, move).submitters == s.submitters && WorkerDoes(c, s, i, move).closer == s.closer
  {
  }

  lemma {:induction false} ServedByRun(c: Config, s: State, run: seq<Action>)
    requires Inv(c, s) && Quiet(s) && Served(s) && Runnable(c, s, run) && NoneBegins(run)
    ensures Inv(c, Run(c, s, run)) && Served(Run(c, s, run))
    decreases |run|
  {
    hide Inv, Next, Enabled, Quiet, Served;
    if run != [] {
      StepKeeps(c, s, run[0]);
      ServedByStep(c, s, run[0]);
      ServedByRun(c, Next(c, s, run[0]), run[1..]);
    }
  }

  /** A shutdown of a quiet pool: the stop event first, and no submit after it. */
  ghost predicate ShutsDown(c: Config, s: State, run: seq<Action>) {
    && Runnable(c, s, run) && NoneBegins(run)
    && run != [] && run[0] == SetsStop
  }

  /** All workers have left, every accepted task ran exactly once, and nothing is queued. */
  ghost predicate Drained(s: State) {
    s.queue == [] && NoRepeats(s.accepted) && multiset(s.ran) == multiset(s.accepted)
  }

  lemma ExitedWithoutQueue(c: Config, s: State)
    requires Inv(c, s) && AllExited(s)
    ensures Drained(s) <==> s.queue == []
  {
    hide Exclusive, Bounded, Accounted, Gather;
    GatherNone(s.workers, InHand);
    if s.queue == [] {
      assert s.accepted == s.dispatched;
    }
  }

  /** The drain guarantee, one direction: if the stop event finds the queue empty or a worker outside the gap. */
  lemma Drains(c: Config, s: State, run: seq<Action>)
    requires Inv(c, s) && Quiet(s) && Served(s) && ShutsDown(c, s, run)
    ensures AllExited(Run(c, s, run)) ==> Drained(Run(c, s, run))
  {
    hide Inv, Runnable, Run, NoneBegins, Drained, Quiet;
    ServedByRun(c, s, run);
    if AllExited(Run(c, s, run)) {
      ExitedWithoutQueue(c, Run(c, s, run));
    }
  }

  /** A worker that needs no token to leave: in the gap, gone, or waiting without one. */
  predicate MayLeave(s: State, w: Worker) {
    w.Missed? || w.Exited? || (w.Waiting? && s.sem == 0)
  }

  /** Such workers may all see the stop event and go. */
  lemma {:induction false} AllLeave(c: Config, s: State, i: nat) returns (run: seq<Action>)
    requires i <= |s.workers| && !s.closer.Open? && !s.closer.Closed?
    requires forall k :: 0 <= k < i ==> s.workers[k].Exited?
    requires forall k :: i <= k < |s.workers| ==> MayLeave(s, s.workers[k])
    ensures Runnable(c, s, run) && forall k :: 0 <= k < |run| ==> run[k].WorkerActs?
    ensures AllExited(Run(c, s, run)) && Run(c, s, run).queue == s.queue
    decreases |s.workers| - i, if i < |s.workers| && s.workers[i].Waiting? then 1 else 0
  {
    if i == |s.workers| {
      run := [];
    } else if s.workers[i].Exited? {
      run := AllLeave(c, s, i + 1);
    } else if s.workers[i].Waiting? {
      var rest := AllLeave(c, Next(c, s, WorkerActs(i, WaitFails)), i);
      run := [WorkerActs(i, WaitFails)] + rest;
      assert run[1..] == rest;
    } else {
      var rest := AllLeave(c, Next(c, s, WorkerActs(i, SeesStop)), i + 1);
      run := [WorkerActs(i, SeesStop)] + rest;
      assert run[1..] == rest;
    }
  }

  /** The other direction: if all workers are in the gap, they may all leave the queue behind. */
  lemma MayStrand(c: Config, s: State) returns (run: seq<Action>)
    requires Inv(c, s) && s.closer.Open? && !Served(s)
    ensures ShutsDown(c, s, run) && AllExited(Run(c, s, run)) && !Drained(Run(c, s, run))
  {
    hide Exclusive, Bounded, Accounted, Unrepeated, Fifo;
    var s1 := Next(c, s, SetsStop);
    assert forall k :: 0 <= k < |s.workers| ==> !Active(s.workers[k]);
    var rest := AllLeave(c, s1, 0);
    run := [SetsStop] + rest;
    assert run[1..] == rest;
  }

  /**
   The drain guarantee, exactly. In a reachable state in which no submit is in progress and
   the stop event is not yet set: every shutdown without further submits that ends with
   all workers gone has run every accepted task exactly once, if and only if the queue is
   empty or some worker is outside the gap between a failed wait and its event check.
   */
  lemma DrainsUnlessAllInGap(c: Config, start: State, before: seq<Action>)
    requires c.qs < 0x1_0000_0000 && Initial(c, start) && Runnable(c, start, before)
    ensures var s := Run(c, start, before);
      s.closer.Open? && Quiet(s) ==>
        (Served(s) <==>
           forall run :: ShutsDown(c, s, run) && AllExited(Run(c, s, run)) ==> Drained(Run(c, s, run)))
  {
    hide Initial, Runnable, Run, Inv, Quiet, Served, Drained, AllExited;
    InitialInv(c, start);
    RunKeeps(c, start, before);
    var s := Run(c, start, before);
    if s.closer.Open? && Quiet(s) {
      if Served(s) {
        forall run | ShutsDown(c, s, run) && AllExited(Run(c, s, run)) ensures Drained(Run(c, s, run)) {
          Drains(c, s, run);
        }
      } else {
        var run := MayStrand(c, s);
      }
    }
  }

  // ---------------------------------------------------------------------------
  // Shutting down a paused pool
  // ---------------------------------------------------------------------------

  /** Past the pause check with a token. */
  predicate PastPause(w: Worker) {
    w.AtLock? || w.Locked?
  }

  /** No release can be lost: the semaphore has no maximum, or room for all there will be. */
  ghost predicate Roomy(c: Config, s: State) {
    !c.saturates || (Quiet(s) && |s.queue| + c.tc <= c.qs)
  }

  /** Of the extra signals of the shutdown, how many are released. */
  function Extra(c: Config, s: State): int {
    match s.closer
    case Open => 0
    case Releasing(left) => c.tc - left
    case _ => c.tc
  }

  /**
   While paused, every queued task keeps its token, the extra ones come on top, and each
   worker past the pause check and each submitter owing a signal has a task of its own.
   */
  ghost predicate Hoarded(c: Config, s: State) {
    && s.paused && Roomy(c, s) && 0 <= Extra(c, s) <= c.tc
    && Tokens(s) == |s.queue| + Extra(c, s)
    && Count(s.workers, PastPause) + Count(s.submitters, OwesSignal) <= |s.queue|
  }

  lemma PastPauseHolds(ws: seq<Worker>)
    ensures Count(ws, PastPause) <= Count(ws, HoldsToken)
  {
    if ws != [] {
      PastPauseHolds(ws[..|ws| - 1]);
    }
  }

  /** The accounting at the stop event gives each holder its task. */
  lemma HoardedAtStop(c: Config, s: State)
    requires Accounted(c, s) && s.closer.Open? && s.paused && Roomy(c, s)
    ensures Hoarded(c, s)
  {
    hide Count;
    PastPauseHolds(s.workers);
  }

  lemma HoardedByWorker(c: Config, s: State, i: nat, move: WorkerMove)
    requires Hoarded(c, s) && i < |s.workers| && WorkerEnabled(s, s.workers[i], move)
    ensures Hoarded(c, WorkerDoes(c, s, i, move))
  {
    hide Count;
    var s' := WorkerDoes(c, s, i, move);
    CountSet(s.workers, HoldsToken, i, s'.workers[i]);
    CountSet(s.workers, PastPause, i, s'.workers[i]);
    if HoldsToken(s.workers[i]) {
      CountOne(s.workers, HoldsToken, i);
    }
    if PastPause(s.workers[i]) {
      CountOne(s.workers, PastPause, i);
    }
  }

  lemma HoardedBySubmitter(c: Config, s: State, j: nat, move: SubmitMove)
    requires Hoarded(c, s) && j < |s.submitters| && SubmitEnabled(s, s.submitters[j], move)
    ensures Hoarded(c, SubmitDoes(c, s, j, move))
  {
    hide Count;
    var s' := SubmitDoes(c, s, j, move);
    CountSet(s.submitters, OwesSignal, j, s'.submitters[j]);
    if OwesSignal(s.submitters[j]) {
      CountOne(s.submitters, OwesSignal, j);
    }
  }

  lemma HoardedByControl(c: Config, s: State, a: Action)
    requires Hoarded(c, s) && Enabled(s, a) && !a.WorkerActs? && !a.SubmitterActs? && a != SetsPause(false)
    requires s.closer.Releasing? ==> 0 < s.closer.left
    ensures Hoarded(c, Next(c, s, a))
    ensures var s' := Next(c, s, a); s'.closer.Releasing? ==> 0 < s'.closer.left
  {
    hide Count;
  }

  /** Nobody resumes the pool. */
  ghost predicate NoneResumes(run: seq<Action>) {
    forall k :: 0 <= k < |run| ==> run[k] != SetsPause(false)
  }

  /** A count of signals still to be released is not zero. */
  predicate LeftSome(s: State) {
    s.closer.Releasing? ==> 0 < s.closer.left
  }

  lemma HoardedByStep(c: Config, s: State, a: Action)
    requires Hoarded(c, s) && LeftSome(s) && Enabled(s, a) && a != SetsPause(false)
    ensures Hoarded(c, Next(c, s, a)) && LeftSome(Next(c, s, a))
  {
    hide Hoarded, WorkerDoes, SubmitDoes, WorkerEnabled, SubmitEnabled;
    match a
    case WorkerActs(i, move) => {
      HoardedByWorker(c, s, i, move);
      WorkerChangesOne(c, s, i, move);
    }
    case SubmitterActs(j, move) => {
      HoardedBySubmitter(c, s, j, move);
      SubmitterChangesOne(c, s, j, move);
    }
    case _ => HoardedByControl(c, s, a);
  }

  lemma SubmitterChangesOne(c: Config, s: State, j: nat, move: SubmitMove)
    requires j < |s.submitters| && SubmitEnabled(s, s.submitters[j], move)
    ensures SubmitDoes(c, s, j, move).workers == s.workers && SubmitDoes(c, s, j, move).closer == s.closer
  {
  }

  lemma {:induction false} HoardedByRun(c: Config, s: State, run: seq<Action>)
    requires Hoarded(c, s) && LeftSome(s) && Runnable(c, s, run) && NoneResumes(run)
    ensures Hoarded(c, Run(c, s, run))
    decreases |run|
  {
    hide Hoarded, LeftSome, Next, Enabled;
    if run != [] {
      HoardedByStep(c, s, run[0]);
      HoardedByRun(c, Next(c, s, run[0]), run[1..]);
    }
  }

  /** With all signals released there are more tokens than other workers could hold. */
  lemma WaitSucceedsNow(c: Config, s: State, i: nat)
    requires Hoarded(c, s) && s.closer.Joining? && |s.workers| == c.tc && i < |s.workers| && s.workers[i].Waiting?
    ensures s.sem > 0
  {
    hide Count;
    var others := s.workers[i := Token];
    CountSet(s.workers, HoldsToken, i, Token);
    CountAtMost(others, HoldsToken);
  }

  /**
   Once all signals of a shutdown are released, and as long as nobody resumes, no wait fails
   any more: if no release is lost there is a token for every worker.
   */
  lemma PausedWaitsSucceed(c: Config, start: State, before: seq<Action>, run: seq<Action>)
    requires c.qs < 0x1_0000_0000 && Initial(c, start) && Runnable(c, start, before)
    requires var s := Run(c, start, before);
      s.closer.Open? && s.paused && Roomy(c, s) && Runnable(c, s, run) && NoneResumes(run)
    ensures var s := Run(c, Run(c, start, before), run);
      s.closer.Joining? ==> forall i :: 0 <= i < |s.workers| && s.workers[i].Waiting? ==> s.sem > 0
  {
    hide Initial, Runnable, Run, Hoarded, Roomy, Accounted, Exclusive, Bounded, Unrepeated, Fifo;
    InitialInv(c, start);
    RunKeeps(c, start, before);
    var s0 := Run(c, start, before);
    RunKeeps(c, s0, run);
    HoardedAtStop(c, s0);
    HoardedByRun(c, s0, run);
    var s := Run(c, s0, run);
    if s.closer.Joining? {
      forall i | 0 <= i < |s.workers| && s.workers[i].Waiting? ensures s.sem > 0 {
        WaitSucceedsNow(c, s, i);
      }
    }
  }

  // Also where releases are lost, one token keeps circulating.

  /** On the way from the semaphore through the pause check back to it. */
  predicate Circling(w: Worker) {
    w.Token? || w.Resignal?
  }

  /** A semaphore that was made with the maximum 0 never has a count. */
  predicate Dry(c: Config) {
    c.saturates && c.qs == 0
  }

  ghost predicate Circulating(c: Config, s: State) {
    && s.paused
    && (s.closer.Joining? && c.tc > 0 && !Dry(c) ==> s.sem + Count(s.workers, Circling) > 0)
  }

  lemma CirculatingByWorker(c: Config, s: State, i: nat, move: WorkerMove)
    requires Circulating(c, s) && i < |s.workers| && WorkerEnabled(s, s.workers[i], move)
    ensures Circulating(c, WorkerDoes(c, s, i, move))
  {
    hide Count;
    CountSet(s.workers, Circling, i, WorkerDoes(c, s, i, move).workers[i]);
    if Circling(s.workers[i]) {
      CountOne(s.workers, Circling, i);
    }
  }

  lemma CirculatingByStep(c: Config, s: State, a: Action)
    requires Circulating(c, s) && Enabled(s, a) && a != SetsPause(false)
    ensures Circulating(c, Next(c, s, a))
  {
    hide Count, WorkerDoes;
    match a
    case WorkerActs(i, move) => CirculatingByWorker(c, s, i, move);
    case _ =>
  }

  lemma {:induction false} CirculatingByRun(c: Config, s: State, run: seq<Action>)
    requires Circulating(c, s) && Runnable(c, s, run) && NoneResumes(run)
    ensures Circulating(c, Run(c, s, run))
    decreases |run|
  {
    hide Circulating, Next, Enabled;
    if run != [] {
      CirculatingByStep(c, s, run[0]);
      CirculatingByRun(c, Next(c, s, run[0]), run[1..]);
    }
  }

  ghost predicate SomeActive(s: State) {
    exists i :: 0 <= i < |s.workers| && Active(s.workers[i])
  }

  /** While a token circles, a worker that gives up leaves another one outside the gap. */
  lemma SomeActiveStays(c: Config, s: State, a: Action)
    requires Circulating(c, s) && s.closer.Joining? && c.tc > 0 && !Dry(c) && SomeActive(s) && Enabled(s, a)
    ensures SomeActive(Next(c, s, a)) && Next(c, s, a).closer.Joining?
  {
    hide Count, Released;
    var s' := Next(c, s, a);
    var i :| 0 <= i < |s.workers| && Active(s.workers[i]);
    if a == WorkerActs(i, WaitFails) {
      var k := SomeSuch(s.workers, Circling);
      assert Active(s'.workers[k]);
    } else {
      assert Active(s'.workers[i]);
    }
  }

  lemma {:induction false} SomeActiveStaysInRun(c: Config, s: State, run: seq<Action>)
    requires Circulating(c, s) && s.closer.Joining? && c.tc > 0 && !Dry(c) && SomeActive(s)
    requires Runnable(c, s, run) && NoneResumes(run)
    ensures !AllExited(Run(c, s, run))
    decreases |run|
  {
    hide Circulating, Next, Enabled;
    if run != [] {
      CirculatingByStep(c, s, run[0]);
      SomeActiveStays(c, s, run[0]);
      SomeActiveStaysInRun(c, Next(c, s, run[0]), run[1..]);
    }
  }

  /** Without tokens every worker waits, is in the gap, or is gone. */
  ghost predicate Parched(s: State) {
    s.sem == 0 && forall i :: 0 <= i < |s.workers| ==> MayLeave(s, s.workers[i])
  }

  lemma {:induction false} ParchedByRun(c: Config, s: State, run: seq<Action>)
    requires Dry(c) && Parched(s) && Runnable(c, s, run)
    ensures Parched(Run(c, s, run))
    decreases |run|
  {
    hide Parched, Next, Enabled;
    if run != [] {
      ParchedByStep(c, s, run[0]);
      ParchedByRun(c, Next(c, s, run[0]), run[1..]);
    }
  }

  lemma ParchedByStep(c: Config, s: State, a: Action)
    requires Dry(c) && Parched(s) && Enabled(s, a)
    ensures Parched(Next(c, s, a))
  {
  }

  /** The shutdown has signals still to release. */
  predicate BeforeLastSignal(s: State) {
    s.closer.Open? || s.closer.Releasing?
  }

  /**
   A waiting shutdown of a pool that was paused before its last signal and that nobody
   resumes. Once all signals are released, lost or not, it can still return if and only if
   every worker is already gone or in the gap between a failed wait and its event check, or
   the semaphore was made with the maximum 0.
   */
  lemma PausedShutdownReturns(c: Config, start: State, before: seq<Action>, run: seq<Action>)
    requires c.qs < 0x1_0000_0000 && Initial(c, start) && Runnable(c, start, before)
    requires var s := Run(c, start, before);
      BeforeLastSignal(s) && s.paused && Runnable(c, s, run) && NoneResumes(run)
    ensures var s := Run(c, Run(c, start, before), run);
      s.closer.Joining? ==>
        ((exists rest :: Runnable(c, s, rest) && NoneResumes(rest) && AllExited(Run(c, s, rest)))
         <==> !SomeActive(s) || Dry(c))
  {
    hide Initial, Runnable, Run, Circulating, Accounted, Exclusive, Bounded, Unrepeated, Fifo, AllExited, SomeActive,
      Parched;
    InitialInv(c, start);
    RunKeeps(c, start, before);
    var s0 := Run(c, start, before);
    RunKeeps(c, s0, run);
    CirculatingAtFirst(c, s0);
    CirculatingByRun(c, s0, run);
    var s := Run(c, s0, run);
    if s.closer.Joining? {
      if SomeActive(s) && !Dry(c) {
        HasWorkers(s);
        forall rest | Runnable(c, s, rest) && NoneResumes(rest) ensures !AllExited(Run(c, s, rest)) {
          SomeActiveStaysInRun(c, s, rest);
        }
      } else {
        if Dry(c) {
          ParchedAtFirst(c, start);
          ParchedByRun(c, start, before);
          ParchedByRun(c, s0, run);
        }
        NoneNeedsToken(s);
        var rest := AllLeave(c, s, 0);
      }
    }
  }

  lemma CirculatingAtFirst(c: Config, s: State)
    requires BeforeLastSignal(s) && s.paused
    ensures Circulating(c, s)
  {
  }

  lemma ParchedAtFirst(c: Config, s: State)
    requires Initial(c, s)
    ensures Parched(s)
  {
  }

  lemma HasWorkers(s: State)
    requires SomeActive(s)
    ensures |s.workers| > 0
  {
  }

  lemma NoneNeedsToken(s: State)
    requires !SomeActive(s) || Parched(s)
    ensures forall k :: 0 <= k < |s.workers| ==> MayLeave(s, s.workers[k])
  {
    forall k | 0 <= k < |s.workers| && !SomeActive(s) ensures MayLeave(s, s.workers[k]) {
      assert !Active(s.workers[k]);
    }
  }

  /**
   It happens: with one worker that waits, pausing, setting the stop event and releasing the
   one signal leads to where the shutdown never returns unless somebody resumes.
   */
  lemma PausedShutdownHangs(c: Config, start: State) returns (run: seq<Action>)
    requires c.tc == 1 && 0 < c.qs < 0x1_0000_0000 && Initial(c, start)
    ensures Runnable(c, start, run) && Run(c, start, run).closer.Joining?
    ensures var s := Run(c, start, run);
      forall rest :: Runnable(c, s, rest) && NoneResumes(rest) ==> !AllExited(Run(c, s, rest))
  {
    hide Run, Runnable, AllExited;
    var s1 := Next(c, start, SetsPause(true));
    var s2 := Next(c, s1, SetsStop);
    var s3 := Next(c, s2, ReleasesOne);
    EmptyRun(c, s3);
    RunFrom(c, s2, ReleasesOne, []);
    RunFrom(c, s1, SetsStop, [ReleasesOne] + []);
    RunFrom(c, start, SetsPause(true), [SetsStop] + ([ReleasesOne] + []));
    run := [SetsPause(true)] + ([SetsStop] + ([ReleasesOne] + []));
    assert Active(s3.workers[0]);
    assert SomeActive(s3) && Circulating(c, s3);
    forall rest | Runnable(c, s3, rest) && NoneResumes(rest) ensures !AllExited(Run(c, s3, rest)) {
      SomeActiveStaysInRun(c, s3, rest);
    }
  }

  // ---------------------------------------------------------------------------
  // A shutdown can return
  // ---------------------------------------------------------------------------

  /** How many steps a worker is at most from being gone, with six for each token it may take. */
  function Steps(w: Worker): nat {
    match w
    case Exited => 0
    case Missed => 1
    case Waiting => 2
    case Asleep => 3
    case Running(_) => 3
    case Unlocking(_) => 4
    case Locked => 5
    case AtLock => 6
    case Token => 7
    case Resignal => 10
  }

  /** What a worker may do next while not paused, after the stop event, with the mutex free or its own. */
  function Onward(s: State, w: Worker): WorkerMove
    requires !w.Exited?
  {
    match w
    case Missed => SeesStop
    case Waiting => if s.sem > 0 then WaitSucceeds else WaitFails
    case Asleep => Wakes
    case Running(_) => Finishes
    case Unlocking(_) => Unlocks
    case Locked => Dequeues
    case AtLock => Locks
    case Token => SeesNoPause
    case Resignal => Resignals
  }

  ghost predicate Finishing(c: Config, s: State) {
    Exclusive(s) && Quiet(s) && !s.paused && !s.closer.Open? && !s.closer.Closed?
  }

  ghost function Remaining(s: State): nat {
    6 * s.sem + Total(s.workers, Steps)
  }

  lemma OnwardGoesOn(c: Config, s: State, i: nat)
    requires Finishing(c, s) && i < |s.workers| && !s.workers[i].Exited? && (s.workers[i].AtLock? ==> s.owner.Nobody?)
    ensures var a := WorkerActs(i, Onward(s, s.workers[i]));
      Enabled(s, a) && Finishing(c, Next(c, s, a)) && Remaining(Next(c, s, a)) < Remaining(s)
      && Next(c, s, a).closer == s.closer && |Next(c, s, a).workers| == |s.workers|
  {
    hide Total, Exclusive, Quiet;
    var move := Onward(s, s.workers[i]);
    ExclusiveByWorker(c, s, i, move);
    WorkerChangesOne(c, s, i, move);
    QuietAlone(s, WorkerDoes(c, s, i, move));
    TotalSet(s.workers, Steps, i, WorkerDoes(c, s, i, move).workers[i]);
  }

  lemma QuietAlone(s: State, s': State)
    requires Quiet(s) && s'.submitters == s.submitters
    ensures Quiet(s')
  {
  }

  /** Someone can go on: whoever has the mutex, or else anyone. */
  lemma SomeoneGoesOn(c: Config, s: State) returns (i: nat)
    requires Finishing(c, s) && !AllExited(s)
    ensures i < |s.workers| && !s.workers[i].Exited? && (s.workers[i].AtLock? ==> s.owner.Nobody?)
  {
    if s.owner.ByWorker? {
      i := s.owner.i;
    } else {
      i :| 0 <= i < |s.workers| && !s.workers[i].Exited?;
    }
  }

  function SignalsLeft(s: State): nat {
    if s.closer.Releasing? then s.closer.left else 0
  }

  lemma ReleaseGoesOn(c: Config, s: State)
    requires Finishing(c, s) && LeftSome(s) && s.closer.Releasing?
    ensures var s' := Next(c, s, ReleasesOne);
      Finishing(c, s') && LeftSome(s') && SignalsLeft(s') < SignalsLeft(s)
  {
  }

  /** From a pool that is not paused, with the event set and no submit in progress, the shutdown can return. */
  lemma {:induction false} CanReturn(c: Config, s: State) returns (run: seq<Action>)
    requires Finishing(c, s) && LeftSome(s)
    ensures Runnable(c, s, run) && NoneBegins(run)
    ensures AllExited(Run(c, s, run)) && Run(c, s, run).closer.Closed?
    decreases SignalsLeft(s), Remaining(s)
  {
    hide Finishing, Remaining, WorkerDoes, WorkerEnabled, Exclusive;
    var a;
    if s.closer.Releasing? {
      ReleaseGoesOn(c, s);
      a := ReleasesOne;
      run := CanReturn(c, Next(c, s, a));
    } else if AllExited(s) {
      FinishingJoins(c, s);
      a := Joins;
      run := [];
    } else {
      var i := SomeoneGoesOn(c, s);
      OnwardGoesOn(c, s, i);
      a := WorkerActs(i, Onward(s, s.workers[i]));
      run := CanReturn(c, Next(c, s, a));
    }
    RunFrom(c, s, a, run);
    run := [a] + run;
  }

  lemma FinishingJoins(c: Config, s: State)
    requires Finishing(c, s) && AllExited(s) && !s.closer.Releasing?
    ensures Enabled(s, Joins)
  {
  }

  /**
   The drain guarantee is not empty: from every reachable state that is quiet, not paused
   and not shutting down, some shutdown returns with all workers gone, and it has drained
   the pool whenever the queue was empty or some worker outside the gap.
   */
  lemma ShutdownCanReturn(c: Config, start: State, before: seq<Action>) returns (run: seq<Action>)
    requires c.qs < 0x1_0000_0000 && Initial(c, start) && Runnable(c, start, before)
    requires var s := Run(c, start, before); s.closer.Open? && Quiet(s) && !s.paused
    ensures var s := Run(c, start, before);
      && ShutsDown(c, s, run) && AllExited(Run(c, s, run)) && Run(c, s, run).closer.Closed?
      && (Served(s) ==> Drained(Run(c, s, run)))
  {
    hide Initial, Runnable, Run, Exclusive, Bounded, Accounted, Unrepeated, Fifo, Quiet, Served, Drained, AllExited;
    InitialInv(c, start);
    RunKeeps(c, start, before);
    var s := Run(c, start, before);
    var s1 := Next(c, s, SetsStop);
    ExclusiveAlone(s, s1);
    QuietAlone(s, s1);
    var rest := CanReturn(c, s1);
    RunFrom(c, s, SetsStop, rest);
    run := [SetsStop] + rest;
    if Served(s) {
      Drains(c, s, run);
    }
  }

  lemma ExclusiveAlone(s: State, s': State)
    requires Exclusive(s) && s'.workers == s.workers && s'.submitters == s.submitters && s'.owner == s.owner
    ensures Exclusive(s')
  {
  }

  // The bad case happens: one worker misses, a task is accepted, the event is set.

  lemma RunFrom(c: Config, s: State, a: Action, rest: seq<Action>)
    requires Enabled(s, a) && Runnable(c, Next(c, s, a), rest)
    ensures Runnable(c, s, [a] + rest)
    ensures Run(c, s, [a] + rest) == Run(c, Next(c, s, a), rest)
  {
    assert ([a] + rest)[1..] == rest;
  }

  /** A run from the start in which a submit succeeds, all workers leave, and its work never runs. */
  lemma TaskCanBeLost(c: Config, start: State) returns (run: seq<Action>)
    requires c == Config(1, 1, c.saturates) && Initial(c, start) && |start.submitters| == 1
    ensures Runnable(c, start, run)
    ensures var s := Run(c, start, run);
      AllExited(s) && s.submitters == [Returned(Success)] && s.accepted == [0] && s.ran == []
  {
    hide Run, Runnable;
    var s0 := start;
    assert s0.workers == [Waiting] && s0.submitters == [Idle];
    var s1 := Next(c, s0, WorkerActs(0, WaitFails));
    assert s1.workers == [Missed];
    var s2 := Next(c, s1, SubmitterActs(0, Begins));
    assert s2.submitters == [Allocating];
    var s3 := Next(c, s2, SubmitterActs(0, Allocates(true)));
    assert s3.submitters == [AtSubmitLock(0)];
    var s4 := Next(c, s3, SubmitterActs(0, SubmitLocks));
    assert s4.submitters == [Checking(0)];
    var s5 := Next(c, s4, SubmitterActs(0, Checks));
    assert s5.submitters == [Linking(0)];
    var s6 := Next(c, s5, SubmitterActs(0, Links));
    assert s6.submitters == [Linked];
    var s7 := Next(c, s6, SubmitterActs(0, SubmitUnlocks));
    assert s7.submitters == [Signalling];
    var s8 := Next(c, s7, SubmitterActs(0, Signals));
    assert s8.submitters == [Returned(Success)];
    var s9 := Next(c, s8, SetsStop);
    var s10 := Next(c, s9, WorkerActs(0, SeesStop));
    assert s10.workers == [Exited];
    run := [];
    EmptyRun(c, s10);
    RunFrom(c, s9, WorkerActs(0, SeesStop), run);
    run := [WorkerActs(0, SeesStop)] + run;
    RunFrom(c, s8, SetsStop, run);
    run := [SetsStop] + run;
    RunFrom(c, s7, SubmitterActs(0, Signals), run);
    run := [SubmitterActs(0, Signals)] + run;
    RunFrom(c, s6, SubmitterActs(0, SubmitUnlocks), run);
    run := [SubmitterActs(0, SubmitUnlocks)] + run;
    RunFrom(c, s5, SubmitterActs(0, Links), run);
    run := [SubmitterActs(0, Links)] + run;
    RunFrom(c, s4, SubmitterActs(0, Checks), run);
    run := [SubmitterActs(0, Checks)] + run;
    RunFrom(c, s3, SubmitterActs(0, SubmitLocks), run);
    run := [SubmitterActs(0, SubmitLocks)] + run;
    RunFrom(c, s2, SubmitterActs(0, Allocates(true)), run);
    run := [SubmitterActs(0, Allocates(true))] + run;
    RunFrom(c, s1, SubmitterActs(0, Begins), run);
    run := [SubmitterActs(0, Begins)] + run;
    RunFrom(c, s0, WorkerActs(0, WaitFails), run);
    run := [WorkerActs(0, WaitFails)] + run;
  }

  lemma EmptyRun(c: Config, s: State)
    ensures Runnable(c, s, []) && Run(c, s, []) == s
  {
  }
}

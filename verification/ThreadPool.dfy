/** The thread pool as a state machine: workers and clients interleave at the queue's mutex and
    condition variable. A signal wakes one or more waiting threads, and threads may also wake up
    without a signal. */
module ThreadPool {

  /** Work items are numbered in the order in which they are added; Stop is the null entry that
      ends a worker. */
  datatype Job = Work(id: nat) | Stop

  datatype Worker =
    | Idle                     // about to lock the mutex for a dequeue
    | Checking(woken: bool)    // holds the mutex, about to test the size
    | Asleep                   // waits on the condition variable
    | Awake                    // woken, about to lock the mutex again
    | Busy(id: nat)            // runs a work function
    | Exited

  datatype Mutex = Free | WorkerHolds(i: nat) | ClientHolds(job: Job)

  /** Work is added; then finish adds the null entries; then it joins the workers in turn. */
  datatype Phase = Adding | Finishing(stops: nat) | Joining(joined: nat)

  datatype State = State(queue: seq<Job>, mutex: Mutex, workers: seq<Worker>, phase: Phase,
                         added: nat, started: seq<nat>, finished: set<nat>)

  datatype Event =
    | LockQueue(i: nat)
    | CheckQueue(i: nat)
    | WakeUp(i: nat)
    | Complete(i: nat)
    | LockToAdd
    | LockToStop
    | EnqueueAndSignal(woken: set<nat>)
    | BeginFinish
    | BeginJoin
    | Join

  function Init(n: nat): State
  {
    State([], Free, seq(n, _ => Idle), Adding, 0, [], {})
  }

  predicate SomeAsleep(ws: seq<Worker>)
  {
    exists i :: 0 <= i < |ws| && ws[i] == Asleep
  }

  predicate Enabled(s: State, e: Event)
  {
    match e
    case LockQueue(i) => i < |s.workers| && s.mutex == Free && (s.workers[i] == Idle || s.workers[i] == Awake)
    case CheckQueue(i) => i < |s.workers| && s.workers[i].Checking?
    case WakeUp(i) => i < |s.workers| && s.workers[i] == Asleep
    case Complete(i) => i < |s.workers| && s.workers[i].Busy?
    case LockToAdd => s.mutex == Free && s.phase == Adding
    case LockToStop => s.mutex == Free && s.phase.Finishing? && s.phase.stops < |s.workers|
    case EnqueueAndSignal(woken) =>
      && s.mutex.ClientHolds?
      && (forall i :: i in woken ==> i < |s.workers| && s.workers[i] == Asleep)
      && (SomeAsleep(s.workers) ==> woken != {})
    case BeginFinish => s.phase == Adding && !s.mutex.ClientHolds?
    case BeginJoin => s.phase == Finishing(|s.workers|) && !s.mutex.ClientHolds?
    case Join => s.phase.Joining? && s.phase.joined < |s.workers| && s.workers[s.phase.joined] == Exited
  }

  function Wake(ws: seq<Worker>, woken: set<nat>): seq<Worker>
  {
    seq(|ws|, i requires 0 <= i < |ws| => if i in woken then Awake else ws[i])
  }

  function Apply(s: State, e: Event): State
    requires Enabled(s, e)
  {
    match e
    case LockQueue(i) => s.(mutex := WorkerHolds(i), workers := s.workers[i := Checking(s.workers[i] == Awake)])
    case CheckQueue(i) =>
      if s.queue == [] then s.(mutex := Free, workers := s.workers[i := Asleep])
      else
        var t := s.(mutex := Free, queue := s.queue[1..]);
        (match s.queue[0]
         case Work(id) => t.(workers := s.workers[i := Busy(id)], started := s.started + [id])
         case Stop => t.(workers := s.workers[i := Exited]))
    case WakeUp(i) => s.(workers := s.workers[i := Awake])
    case Complete(i) => s.(workers := s.workers[i := Idle], finished := s.finished + {s.workers[i].id})
    case LockToAdd => s.(mutex := ClientHolds(Work(s.added)), added := s.added + 1)
    case LockToStop => s.(mutex := ClientHolds(Stop), phase := Finishing(s.phase.stops + 1))
    case EnqueueAndSignal(woken) =>
      s.(mutex := Free, queue := s.queue + [s.mutex.job], workers := Wake(s.workers, woken))
    case BeginFinish => s.(phase := Finishing(0))
    case BeginJoin => s.(phase := Joining(0))
    case Join => s.(phase := Joining(s.phase.joined + 1))
  }

  predicate IsRun(s: State, es: seq<Event>)
    decreases |es|
  {
    es == [] || (Enabled(s, es[0]) && IsRun(Apply(s, es[0]), es[1..]))
  }

  function After(s: State, es: seq<Event>): State
    requires IsRun(s, es)
    decreases |es|
  {
    if es == [] then s else After(Apply(s, es[0]), es[1..])
  }

  // ----- Counting workers -----

  function Count(ws: seq<Worker>, f: Worker -> bool): nat
  {
    if ws == [] then 0 else (if f(ws[0]) then 1 else 0) + Count(ws[1..], f)
  }

  /** Woken and on the way to test the queue again. */
  function Rechecks(): Worker -> bool
  {
    w => w == Awake || w == Checking(true)
  }

  function HasExited(): Worker -> bool
  {
    w => w == Exited
  }

  lemma {:induction false} CountUpdate(ws: seq<Worker>, i: nat, w: Worker, f: Worker -> bool)
    requires i < |ws|
    ensures Count(ws[i := w], f) == Count(ws, f) - (if f(ws[i]) then 1 else 0) + (if f(w) then 1 else 0)
  {
    if i == 0 {
      assert ws[i := w][1..] == ws[1..];
    } else {
      CountUpdate(ws[1..], i - 1, w, f);
      assert ws[i := w][1..] == ws[1..][i - 1 := w];
    }
  }

  lemma {:induction false} CountAtMost(ws: seq<Worker>, f: Worker -> bool)
    ensures Count(ws, f) <= |ws|
    ensures Count(ws, f) == |ws| <==> forall i :: 0 <= i < |ws| ==> f(ws[i])
    ensures Count(ws, f) == 0 <==> forall i :: 0 <= i < |ws| ==> !f(ws[i])
  {
    if ws != [] {
      CountAtMost(ws[1..], f);
      assert forall i :: 0 <= i < |ws| - 1 ==> ws[1..][i] == ws[i + 1];
      assert forall i :: 0 < i < |ws| ==> ws[i] == ws[1..][i - 1];
    }
  }

  /** Waking threads changes the count of no kind but the woken ones. */
  lemma {:induction false} CountWake(ws: seq<Worker>, ws': seq<Worker>, f: Worker -> bool)
    requires |ws'| == |ws| && forall i :: 0 <= i < |ws| ==> f(ws[i]) ==> f(ws'[i])
    ensures Count(ws', f) >= Count(ws, f)
    ensures (forall i :: 0 <= i < |ws| ==> f(ws[i]) == f(ws'[i])) ==> Count(ws', f) == Count(ws, f)
    ensures (exists i :: 0 <= i < |ws| && !f(ws[i]) && f(ws'[i])) ==> Count(ws', f) > Count(ws, f)
  {
    if ws != [] {
      CountWake(ws[1..], ws'[1..], f);
      if exists i :: 0 <= i < |ws| && !f(ws[i]) && f(ws'[i]) {
        var i :| 0 <= i < |ws| && !f(ws[i]) && f(ws'[i]);
        if i > 0 {
          assert ws[1..][i - 1] == ws[i] && ws'[1..][i - 1] == ws'[i];
        }
      }
    }
  }

  // ----- The invariant -----

  function Works(from: nat, to: nat): seq<Job>
    requires from <= to
  {
    seq(to - from, i requires 0 <= i < to - from => Work(from + i))
  }

  function Stops(k: nat): seq<Job>
  {
    seq(k, _ => Stop)
  }

  /** The null entries that were put in the queue so far. */
  function StopsAdded(s: State): int
  {
    match s.phase
    case Adding => 0
    case Finishing(k) => k - if s.mutex == ClientHolds(Stop) then 1 else 0
    case Joining(_) => |s.workers|
  }

  /** The work items that were put in the queue so far. */
  function WorksAdded(s: State): int
  {
    s.added - if s.mutex.ClientHolds? && s.mutex.job.Work? then 1 else 0
  }

  /** The queue holds the items that have not started, in order, and then the null entries that no
      worker has taken; the items have started in the order in which they were added. */
  predicate QueueShape(s: State)
  {
    var taken, exited := |s.started|, Count(s.workers, HasExited());
    && taken <= WorksAdded(s) && exited <= StopsAdded(s)
    && s.queue == Works(taken, WorksAdded(s)) + Stops(StopsAdded(s) - exited)
    && (forall i :: 0 <= i < taken ==> s.started[i] == i)
    && (exited > 0 ==> taken == WorksAdded(s))
  }

  predicate MutexShape(s: State)
  {
    && (forall i :: 0 <= i < |s.workers| ==> (s.workers[i].Checking? <==> s.mutex == WorkerHolds(i)))
    && (s.mutex.WorkerHolds? ==> s.mutex.i < |s.workers|)
    && (s.mutex.ClientHolds? ==> if s.mutex.job.Work? then s.phase == Adding && s.added > 0 && s.mutex.job.id == s.added - 1
                                 else s.phase.Finishing? && s.phase.stops > 0)
    && (s.phase.Finishing? ==> s.phase.stops <= |s.workers|)
    && (s.phase.Joining? ==> s.phase.joined <= |s.workers| && forall i :: 0 <= i < s.phase.joined ==> s.workers[i] == Exited)
  }

  /** Every item that was started is running in one worker or has finished. */
  ghost predicate ItemShape(s: State)
  {
    && (s.started != [] ==> s.workers != [])
    && (forall id :: id in s.finished ==> id < |s.started|)
    && (forall i :: 0 <= i < |s.workers| && s.workers[i].Busy? ==>
          s.workers[i].id < |s.started| && s.workers[i].id !in s.finished)
    && (forall i, j :: 0 <= i < j < |s.workers| && s.workers[i].Busy? ==> s.workers[i] != s.workers[j])
    && (forall id :: 0 <= id < |s.started| && id !in s.finished ==> Busy(id) in s.workers)
  }

  /** No wake-up is lost: while a thread sleeps, the entries in the queue are at most as many as
      the threads that were woken and have yet to test the queue. */
  predicate WakeShape(s: State)
  {
    SomeAsleep(s.workers) ==> |s.queue| <= Count(s.workers, Rechecks())
  }

  ghost predicate Invariant(s: State)
  {
    QueueShape(s) && MutexShape(s) && ItemShape(s) && WakeShape(s)
  }

  lemma InitInvariant(n: nat)
    ensures Invariant(Init(n))
  {
    var s := Init(n);
    CountAtMost(s.workers, HasExited());
    CountAtMost(s.workers, Rechecks());
  }

  lemma StepWake(s: State, e: Event)
    requires Invariant(s) && Enabled(s, e)
    ensures WakeShape(Apply(s, e))
  {
    var s' := Apply(s, e);
    match e
    case EnqueueAndSignal(woken) =>
      CountWake(s.workers, s'.workers, Rechecks());
      if woken != {} {
        var i :| i in woken;
        assert !Rechecks()(s.workers[i]) && Rechecks()(s'.workers[i]);
      }
    case LockQueue(i) => CountUpdate(s.workers, i, s'.workers[i], Rechecks());
    case CheckQueue(i) => CountUpdate(s.workers, i, s'.workers[i], Rechecks());
    case WakeUp(i) => CountUpdate(s.workers, i, s'.workers[i], Rechecks());
    case Complete(i) => CountUpdate(s.workers, i, s'.workers[i], Rechecks());
    case _ =>
  }

  lemma StepMutex(s: State, e: Event)
    requires Invariant(s) && Enabled(s, e)
    ensures MutexShape(Apply(s, e))
  {
    hide Count, QueueShape, ItemShape, WakeShape;
  }

  lemma StepItems(s: State, e: Event)
    requires Invariant(s) && Enabled(s, e)
    ensures ItemShape(Apply(s, e))
  {
    hide Count, MutexShape, WakeShape;
    var s' := Apply(s, e);
    if e.CheckQueue? && s.queue != [] && s.queue[0].Work? {
      TakesNext(s);
    }
    forall id | 0 <= id < |s'.started| && id !in s'.finished ensures Busy(id) in s'.workers {
      if id < |s.started| {
        var j :| 0 <= j < |s.workers| && s.workers[j] == Busy(id);
        assert s'.workers[j] == Busy(id);
      } else {
        assert s'.workers[e.i] == Busy(id);
      }
    }
  }

  /** The head of the queue is the first item that has not started, or there is none. */
  lemma TakesNext(s: State)
    requires QueueShape(s) && s.queue != []
    ensures s.queue[0].Work? ==> s.queue[0].id == |s.started| && |s.started| < WorksAdded(s)
    ensures s.queue[0].Stop? ==> |s.started| == WorksAdded(s) && Count(s.workers, HasExited()) < StopsAdded(s)
  {
    hide Count;
  }

  lemma StepQueue(s: State, e: Event)
    requires Invariant(s) && Enabled(s, e)
    ensures QueueShape(Apply(s, e))
  {
    hide QueueShape, Invariant, Apply;
    if e.CheckQueue? {
      CheckKeepsQueue(s, e.i);
    } else if e.EnqueueAndSignal? {
      EnqueueKeepsQueue(s, e.woken);
    } else if e.LockQueue? || e.WakeUp? || e.Complete? {
      WorkerKeepsQueue(s, e);
    } else {
      ClientKeepsQueue(s, e);
    }
  }

  lemma WorkerKeepsQueue(s: State, e: Event)
    requires Invariant(s) && Enabled(s, e) && (e.LockQueue? || e.WakeUp? || e.Complete?)
    ensures QueueShape(Apply(s, e))
  {
    hide Works, Stops, ItemShape, WakeShape, Count;
    CountUpdate(s.workers, e.i, Apply(s, e).workers[e.i], HasExited());
  }

  lemma ClientKeepsQueue(s: State, e: Event)
    requires Invariant(s) && Enabled(s, e) && (e.LockToAdd? || e.LockToStop? || e.BeginFinish? || e.BeginJoin? || e.Join?)
    ensures QueueShape(Apply(s, e))
  {
    hide Works, Stops, ItemShape, WakeShape, Count;
  }

  lemma CheckKeepsQueue(s: State, i: nat)
    requires Invariant(s) && Enabled(s, CheckQueue(i))
    ensures QueueShape(Apply(s, CheckQueue(i)))
  {
    hide Works, Stops, ItemShape, WakeShape, Count;
    var s' := Apply(s, CheckQueue(i));
    CountUpdate(s.workers, i, s'.workers[i], HasExited());
    if s.queue != [] {
      TakesNext(s);
      TakeShape(s);
    }
  }

  lemma EnqueueKeepsQueue(s: State, woken: set<nat>)
    requires Invariant(s) && Enabled(s, EnqueueAndSignal(woken))
    ensures QueueShape(Apply(s, EnqueueAndSignal(woken)))
  {
    hide Works, Stops, ItemShape, WakeShape, Count;
    CountWake(s.workers, Wake(s.workers, woken), HasExited());
    PutShape(s);
  }

  lemma TakeShape(s: State)
    requires QueueShape(s) && s.queue != []
    ensures var taken, stops := |s.started|, StopsAdded(s) - Count(s.workers, HasExited());
      s.queue[1..] == if s.queue[0].Work? then Works(taken + 1, WorksAdded(s)) + Stops(stops)
                      else Works(taken, WorksAdded(s)) + Stops(stops - 1)
  {
    hide Count;
  }

  lemma PutShape(s: State)
    requires QueueShape(s) && MutexShape(s) && s.mutex.ClientHolds?
    ensures var taken, stops := |s.started|, StopsAdded(s) - Count(s.workers, HasExited());
      s.queue + [s.mutex.job] == if s.mutex.job.Work? then Works(taken, s.added) + Stops(stops)
                                 else Works(taken, s.added) + Stops(stops + 1)
  {
    hide Count;
    CountAtMost(s.workers, HasExited());
  }

  lemma StepInvariant(s: State, e: Event)
    requires Invariant(s) && Enabled(s, e)
    ensures Invariant(Apply(s, e)) && |Apply(s, e).workers| == |s.workers|
  {
    StepWake(s, e);
    StepMutex(s, e);
    StepItems(s, e);
    StepQueue(s, e);
    hide QueueShape, MutexShape, ItemShape, WakeShape;
  }

  /** The invariant holds after every run. */
  lemma {:induction false} RunInvariant(s: State, es: seq<Event>)
    requires Invariant(s) && IsRun(s, es)
    ensures Invariant(After(s, es)) && |After(s, es).workers| == |s.workers|
    decreases |es|
  {
    hide Invariant;
    if es != [] {
      StepInvariant(s, es[0]);
      RunInvariant(Apply(s, es[0]), es[1..]);
    }
  }

  // ----- What the pool promises -----

  /** When all workers are joined, every item has been started exactly once, in order, and has
      finished; the queue is empty, as freeing it assumes, unless there were no workers. */
  ghost predicate AllDone(s: State)
  {
    && (forall w :: w in s.workers ==> w == Exited)
    && (s.queue == [] <==> s.workers != [] || s.added == 0)
    && (forall i :: 0 <= i < |s.started| ==> s.started[i] == i)
    && (s.workers != [] ==> |s.started| == s.added && forall id: nat :: id in s.finished <==> id < s.added)
  }

  lemma JoinedIsDone(s: State)
    requires Invariant(s) && s.phase == Joining(|s.workers|)
    ensures AllDone(s)
  {
    hide Count, WakeShape;
    CountAtMost(s.workers, HasExited());
    assert forall i :: 0 <= i < |s.workers| ==> HasExited()(s.workers[i]);
    assert Stops(0) == [];
    forall id ensures Busy(id) !in s.workers {
    }
    if s.workers != [] {
      assert WorksAdded(s) == s.added == |s.started|;
      assert s.queue == Works(s.added, s.added) + Stops(0) == [];
    } else {
      assert |Works(0, s.added)| == s.added;
    }
  }

  /** Every complete run, whatever the interleaving, does all work exactly once. */
  lemma AllWorkDone(n: nat, es: seq<Event>)
    requires IsRun(Init(n), es) && After(Init(n), es).phase == Joining(n)
    ensures AllDone(After(Init(n), es))
  {
    hide IsRun, Invariant, AllDone;
    InitInvariant(n);
    RunInvariant(Init(n), es);
    JoinedIsDone(After(Init(n), es));
  }

  function StopsIn(q: seq<Job>): nat
  {
    if q == [] then 0 else (if q[0].Stop? then 1 else 0) + StopsIn(q[1..])
  }

  lemma {:induction false} StopsInShape(from: nat, to: nat, k: nat)
    requires from <= to
    ensures StopsIn(Works(from, to) + Stops(k)) == k
    decreases (to - from), k
  {
    var q := Works(from, to) + Stops(k);
    if from < to {
      assert q[1..] == Works(from + 1, to) + Stops(k);
      StopsInShape(from + 1, to, k);
    } else if k > 0 {
      assert q[1..] == Works(from, to) + Stops(k - 1);
      StopsInShape(from, to, k - 1);
    }
  }

  /** Each worker takes exactly one null entry: as many were taken as workers have exited, and a
      worker that has exited takes no further step. */
  lemma OneStopEach(s: State, e: Event)
    requires Invariant(s) && Enabled(s, e)
    ensures StopsIn(s.queue) + Count(s.workers, HasExited()) == StopsAdded(s)
    ensures forall i :: 0 <= i < |s.workers| && s.workers[i] == Exited ==>
      Apply(s, e).workers[i] == Exited && e != LockQueue(i) && e != CheckQueue(i)
  {
    hide Count, ItemShape, MutexShape, WakeShape;
    StopsInShape(|s.started|, WorksAdded(s), StopsAdded(s) - Count(s.workers, HasExited()));
  }

  /** No wake-up is lost: while entries are in the queue and a worker sleeps, another one was woken
      and is on its way to test the queue. So unless the client holds the mutex or every worker is
      busy or gone, a worker can take the next step towards the queue. */
  lemma ConsumerAwake(s: State)
    requires Invariant(s) && s.queue != []
    ensures SomeAsleep(s.workers) ==> exists i :: 0 <= i < |s.workers| && Rechecks()(s.workers[i])
    ensures
      || s.mutex.ClientHolds?
      || (forall i :: 0 <= i < |s.workers| ==> s.workers[i].Busy? || s.workers[i] == Exited)
      || (exists i :: 0 <= i < |s.workers| && (Enabled(s, LockQueue(i)) || Enabled(s, CheckQueue(i))))
  {
    hide Count, QueueShape, ItemShape;
    CountAtMost(s.workers, Rechecks());
    match s.mutex
    case ClientHolds(_) =>
    case WorkerHolds(i) => assert Enabled(s, CheckQueue(i));
    case Free =>
      if j :| 0 <= j < |s.workers| && !s.workers[j].Busy? && s.workers[j] != Exited {
        var i := j;
        if s.workers[j] == Asleep {
          i :| 0 <= i < |s.workers| && Rechecks()(s.workers[i]);
        }
        assert Enabled(s, LockQueue(i));
      }
  }

  /** After finish has begun, and until all workers are joined, some thread can take a step that
      is not a wake-up without a signal. */
  lemma NoDeadlock(s: State) returns (e: Event)
    requires Invariant(s) && s.phase != Adding && s.phase != Joining(|s.workers|)
    ensures Enabled(s, e) && !e.WakeUp?
  {
    hide Count, ItemShape;
    match s.mutex
    case ClientHolds(_) =>
      e := EnqueueAndSignal({});
      if SomeAsleep(s.workers) {
        var i :| 0 <= i < |s.workers| && s.workers[i] == Asleep;
        e := EnqueueAndSignal({i});
      }
    case WorkerHolds(i) => e := CheckQueue(i);
    case Free =>
      match s.phase {
        case Finishing(k) => e := if k < |s.workers| then LockToStop else BeginJoin;
        case Joining(j) =>
          match s.workers[j] {
            case Exited => e := Join;
            case Busy(_) => e := Complete(j);
            case Idle => e := LockQueue(j);
            case Awake => e := LockQueue(j);
            case Asleep =>
              CountAtMost(s.workers, HasExited());
              assert !HasExited()(s.workers[j]);
              CountAtMost(s.workers, Rechecks());
              var i :| 0 <= i < |s.workers| && Rechecks()(s.workers[i]);
              e := LockQueue(i);
          }
      }
  }

  // ----- Progress -----

  function Rank(w: Worker): nat
  {
    match w
    case Exited => 0
    case Asleep => 1
    case Checking(_) => 2
    case Awake => 3
    case Idle => 3
    case Busy(_) => 4
  }

  function Ranks(ws: seq<Worker>): nat
  {
    if ws == [] then 0 else Rank(ws[0]) + Ranks(ws[1..])
  }

  lemma {:induction false} RanksUpdate(ws: seq<Worker>, i: nat, w: Worker)
    requires i < |ws|
    ensures Ranks(ws[i := w]) == Ranks(ws) - Rank(ws[i]) + Rank(w)
  {
    if i == 0 {
      assert ws[i := w][1..] == ws[1..];
    } else {
      RanksUpdate(ws[1..], i - 1, w);
      assert ws[i := w][1..] == ws[1..][i - 1 := w];
    }
  }

  lemma {:induction false} RanksWake(ws: seq<Worker>, ws': seq<Worker>)
    requires |ws'| == |ws| && forall i :: 0 <= i < |ws| ==> Rank(ws'[i]) <= Rank(ws[i]) + 2
    ensures Ranks(ws') <= Ranks(ws) + 2 * |ws|
  {
    if ws != [] {
      RanksWake(ws[1..], ws'[1..]);
    }
  }

  /** How much finish has yet to do: null entries to add and workers to join. */
  function FinishLeft(s: State): int
  {
    var n := |s.workers|;
    match s.phase
    case Adding => 0
    case Finishing(k) => (n - k) * (2 * n + 6) + (if s.mutex.ClientHolds? then 2 * n + 5 else 0) + n + 1
    case Joining(j) => n - j
  }

  function Measure(s: State): int
  {
    Ranks(s.workers) + 3 * |s.queue| + FinishLeft(s)
  }

  lemma MeasureBound(s: State)
    requires Invariant(s)
    ensures Measure(s) >= 0
  {
    hide QueueShape, ItemShape, WakeShape;
    if s.phase.Finishing? {
      Product(|s.workers| - s.phase.stops, 2 * |s.workers| + 6);
    }
  }

  lemma Product(a: nat, b: nat)
    ensures a * b >= 0 && a * b == (if a > 0 then (a - 1) * b + b else 0)
  {
  }

  /** After finish has begun every step comes nearer to the end, except a wake-up without a
      signal, which can only undo one thread's going to sleep. */
  lemma Progress(s: State, e: Event)
    requires Invariant(s) && s.phase != Adding && Enabled(s, e)
    ensures if e.WakeUp? then Measure(Apply(s, e)) == Measure(s) + 2 else Measure(Apply(s, e)) < Measure(s)
  {
    hide QueueShape, ItemShape, WakeShape, Ranks;
    var s' := Apply(s, e);
    match e
    case EnqueueAndSignal(woken) => RanksWake(s.workers, s'.workers);
    case LockQueue(i) => RanksUpdate(s.workers, i, s'.workers[i]);
    case CheckQueue(i) => RanksUpdate(s.workers, i, s'.workers[i]);
    case WakeUp(i) => RanksUpdate(s.workers, i, s'.workers[i]);
    case Complete(i) => RanksUpdate(s.workers, i, s'.workers[i]);
    case LockToStop => Product(|s.workers| - s.phase.stops, 2 * |s.workers| + 6);
    case BeginJoin => Product(0, 2 * |s.workers| + 6);
    case Join =>
  }

  function WakeUps(es: seq<Event>): nat
  {
    if es == [] then 0 else (if es[0].WakeUp? then 1 else 0) + WakeUps(es[1..])
  }

  /** So every run from there is bounded by its wake-ups without a signal. */
  lemma {:induction false} RunsEnd(s: State, es: seq<Event>)
    requires Invariant(s) && s.phase != Adding && IsRun(s, es)
    ensures |es| <= Measure(s) + 3 * WakeUps(es)
    decreases |es|
  {
    hide Invariant, Measure, Apply, Enabled;
    if es == [] {
      MeasureBound(s);
    } else {
      Progress(s, es[0]);
      StepInvariant(s, es[0]);
      NeverAddingAgain(s, es[0]);
      RunsEnd(Apply(s, es[0]), es[1..]);
    }
  }

  lemma NeverAddingAgain(s: State, e: Event)
    requires s.phase != Adding && Enabled(s, e)
    ensures Apply(s, e).phase != Adding
  {
  }
}

/** The thread pool as interleaved steps: producers in kr_threadpool_add_task and workers in
    thread_func share a queue, a mutex and a condition variable. */
module ThreadPool {
  import opened Options

  // ----- threads ---------------------------------------------------------------------------

  /** Where a worker is. The number is the index of its task among all tasks taken. */
  datatype Worker =
    | Locking             // about to lock the mutex in kr_threadpool_get_task
    | Checking            // holds the mutex, about to test the queue length
    | Waiting             // in pthread_cond_wait, not signalled
    | Woken               // in pthread_cond_wait, about to lock the mutex again
    | Leaving(task: nat)  // holds the mutex and a task
    | Running(task: nat)  // runs the task

  /** Where a producer is. The number is the index of its task among all tasks accepted. */
  datatype Producer<T> =
    | Idle
    | Polling(task: T)                // reads the queue length without the mutex
    | Entering(task: T)               // about to lock the mutex
    | Holding(task: T)                // holds the mutex, about to push
    | Pushed(task: T, index: nat)     // holds the mutex, about to signal
    | Signalled(task: T, index: nat)  // holds the mutex, about to return 0
    | Refused(task: T)                // holds the mutex, about to return -1

  datatype Thread = W(worker: nat) | P(producer: nat)

  datatype State<T> = State(
    hwm: nat,
    queue: seq<T>,
    holder: Option<Thread>,
    workers: seq<Worker>,
    producers: seq<Producer<T>>,
    accepted: seq<T>,         // every task pushed so far
    taken: seq<(nat, T)>,     // every task popped so far, with its worker
    finished: set<nat>)       // which of the tasks taken have been run

  datatype Step<T> =
    | Lock(t: Thread)
    | Wait(w: nat)
    | Pop(w: nat)
    | Unlock(t: Thread)
    | Finish(w: nat)
    | Wake(w: nat)            // a spurious wakeup
    | Call(p: nat, task: T)   // a producer calls kr_threadpool_add_task
    | Poll(p: nat)
    | Push(p: nat)
    | Signal(p: nat, woken: set<nat>)

  ghost predicate Init<T>(s: State<T>) {
    && s.hwm > 0 && |s.workers| > 0
    && s.queue == s.accepted == [] && s.taken == [] && s.finished == {} && s.holder == None
    && (forall i :: 0 <= i < |s.workers| ==> s.workers[i] == Locking)
    && (forall i :: 0 <= i < |s.producers| ==> s.producers[i] == Idle)
  }

  predicate Asleep<T>(s: State<T>, w: nat) {
    w < |s.workers| && s.workers[w] == Waiting
  }

  /** Whether the thread the step belongs to can take it. */
  ghost predicate Enabled<T(!new)>(s: State<T>, step: Step<T>) {
    match step
    case Lock(W(w)) => s.holder == None && w < |s.workers| && (s.workers[w] == Locking || s.workers[w] == Woken)
    case Lock(P(p)) => s.holder == None && p < |s.producers| && s.producers[p].Entering?
    case Wait(w) => w < |s.workers| && s.workers[w] == Checking && s.queue == []
    case Pop(w) => w < |s.workers| && s.workers[w] == Checking && s.queue != []
    case Unlock(W(w)) => w < |s.workers| && s.workers[w].Leaving?
    case Unlock(P(p)) => p < |s.producers| && (s.producers[p].Signalled? || s.producers[p].Refused?)
    case Finish(w) => w < |s.workers| && s.workers[w].Running?
    case Wake(w) => Asleep(s, w)
    case Call(p, task) => p < |s.producers| && s.producers[p] == Idle
    case Poll(p) => p < |s.producers| && s.producers[p].Polling? && |s.queue| < s.hwm
    case Push(p) => p < |s.producers| && s.producers[p].Holding?
    case Signal(p, woken) => p < |s.producers| && s.producers[p].Pushed? && Wakes(s, woken)
  }

  /** pthread_cond_signal wakes at least one of the threads waiting, if there are any. */
  ghost predicate Wakes<T(!new)>(s: State<T>, woken: set<nat>) {
    (forall w :: w in woken ==> Asleep(s, w)) && ((exists w :: Asleep(s, w)) ==> woken != {})
  }

  function WakeUp(workers: seq<Worker>, woken: set<nat>): (r: seq<Worker>)
    ensures |r| == |workers|
  {
    seq(|workers|, i requires 0 <= i < |workers| => if i in woken then Woken else workers[i])
  }

  ghost function Do<T(!new)>(s: State<T>, step: Step<T>): State<T>
    requires Enabled(s, step)
  {
    match step
    case Lock(W(w)) => s.(holder := Some(W(w)), workers := s.workers[w := Checking])
    case Lock(P(p)) => s.(holder := Some(P(p)), producers := s.producers[p := Holding(s.producers[p].task)])
    case Wait(w) => s.(holder := None, workers := s.workers[w := Waiting])
    case Pop(w) => s.(queue := s.queue[1..], taken := s.taken + [(w, s.queue[0])],
      workers := s.workers[w := Leaving(|s.taken|)])
    case Unlock(W(w)) => s.(holder := None, workers := s.workers[w := Running(s.workers[w].task)])
    case Unlock(P(p)) => s.(holder := None, producers := s.producers[p := Idle])
    case Finish(w) => s.(workers := s.workers[w := Locking], finished := s.finished + {s.workers[w].task})
    case Wake(w) => s.(workers := s.workers[w := Woken])
    case Call(p, task) => s.(producers := s.producers[p := Polling(task)])
    case Poll(p) => s.(producers := s.producers[p := Entering(s.producers[p].task)])
    case Push(p) =>
      var task := s.producers[p].task;
      if |s.queue| >= s.hwm then s.(producers := s.producers[p := Refused(task)])
      else s.(queue := s.queue + [task], accepted := s.accepted + [task],
        producers := s.producers[p := Pushed(task, |s.accepted|)])
    case Signal(p, woken) =>
      s.(producers := s.producers[p := Signalled(s.producers[p].task, s.producers[p].index)],
        workers := WakeUp(s.workers, woken))
  }

  /** One interleaving: the states after each of the steps. */
  ghost predicate Run<T(!new)>(states: seq<State<T>>, steps: seq<Step<T>>) {
    && |states| == |steps| + 1 && Init(states[0])
    && forall i :: 0 <= i < |steps| ==> Enabled(states[i], steps[i]) && states[i + 1] == Do(states[i], steps[i])
  }

  // ----- the invariant ---------------------------------------------------------------------

  predicate WorkerHolds(w: Worker) {
    w == Checking || w.Leaving?
  }

  predicate ProducerHolds<T>(p: Producer<T>) {
    p.Holding? || p.Pushed? || p.Signalled? || p.Refused?
  }

  /** Exactly the thread inside its critical section owns the mutex. */
  ghost predicate MutexOk<T>(s: State<T>) {
    && (forall w {:trigger s.workers[w]} :: 0 <= w < |s.workers| ==>
      (WorkerHolds(s.workers[w]) <==> s.holder == Some(W(w))))
    && (forall p {:trigger s.producers[p]} :: 0 <= p < |s.producers| ==>
      (ProducerHolds(s.producers[p]) <==> s.holder == Some(P(p))))
    && (s.holder.Some? ==> match s.holder.value case W(w) => w < |s.workers| case P(p) => p < |s.producers|)
  }

  function Tasks<T>(taken: seq<(nat, T)>): (r: seq<T>)
    ensures |r| == |taken|
  {
    seq(|taken|, i requires 0 <= i < |taken| => taken[i].1)
  }

  /** Every accepted task has been taken or is still queued, in order. */
  ghost predicate Conserved<T>(s: State<T>) {
    s.accepted == Tasks(s.taken) + s.queue && |s.queue| <= s.hwm
  }

  predicate Has(w: Worker, task: nat) {
    w == Leaving(task) || w == Running(task)
  }

  /** Every task taken is either finished or with the worker that took it, and only there. */
  ghost predicate InCustody<T>(workers: seq<Worker>, taken: seq<(nat, T)>, finished: set<nat>) {
    && (forall k :: k in finished ==> k < |taken|)
    && (forall w, k: nat {:trigger Has(workers[w], k)} :: 0 <= w < |workers| && Has(workers[w], k) ==>
      k < |taken| && taken[k].0 == w && k !in finished)
    && (forall k {:trigger taken[k]} :: 0 <= k < |taken| && k !in finished ==>
      taken[k].0 < |workers| && Has(workers[taken[k].0], k))
  }

  ghost predicate Custody<T>(s: State<T>) {
    InCustody(s.workers, s.taken, s.finished)
  }

  /** A call that is about to return 0 has had its task accepted. */
  ghost predicate Acknowledged<T>(s: State<T>) {
    forall p {:trigger s.producers[p]} ::
      0 <= p < |s.producers| && (s.producers[p].Pushed? || s.producers[p].Signalled?) ==>
        s.producers[p].index < |s.accepted| && s.accepted[s.producers[p].index] == s.producers[p].task
  }

  function Sum(ws: seq<Worker>, f: Worker -> nat): nat {
    if ws == [] then 0 else Sum(ws[..|ws| - 1], f) + f(ws[|ws| - 1])
  }

  function IsWoken(w: Worker): nat {
    if w == Woken then 1 else 0
  }

  function WokenCount<T>(s: State<T>): nat {
    Sum(s.workers, IsWoken)
  }

  /** Wakeups the holder of the mutex still owes: a worker will pop, a producer will signal. */
  predicate Owed<T>(s: State<T>) {
    s.holder.Some? && match s.holder.value
                      case W(w) => w < |s.workers| && s.workers[w] == Checking
                      case P(p) => p < |s.producers| && s.producers[p].Pushed?
  }

  /** No wakeup is lost: while a worker sleeps, every queued task has a worker on its way. */
  ghost predicate NoLostWakeup<T>(s: State<T>) {
    (exists w :: Asleep(s, w)) ==> |s.queue| <= WokenCount(s) + (if Owed(s) then 1 else 0)
  }

  ghost predicate Inv<T>(s: State<T>) {
    s.hwm > 0 && |s.workers| > 0 && MutexOk(s) && Conserved(s) && Custody(s) && Acknowledged(s) && NoLostWakeup(s)
  }

  // ----- counting --------------------------------------------------------------------------

  lemma {:induction false} SumUpdate(ws: seq<Worker>, i: nat, w: Worker, f: Worker -> nat)
    requires i < |ws|
    ensures Sum(ws[i := w], f) == Sum(ws, f) - f(ws[i]) + f(w)
  {
    var n := |ws| - 1;
    if i == n {
      assert ws[i := w][..n] == ws[..n];
    } else {
      assert ws[i := w][..n] == ws[..n][i := w];
      SumUpdate(ws[..n], i, w, f);
    }
  }

  /** Signalling leaves at least one more worker woken, if there was one to wake. */
  lemma {:induction false} SumWake(ws: seq<Worker>, woken: set<nat>)
    requires forall w :: w in woken && w < |ws| ==> ws[w] == Waiting
    ensures Sum(WakeUp(ws, woken), IsWoken) >= Sum(ws, IsWoken)
    ensures (exists w :: w in woken && w < |ws|) ==> Sum(WakeUp(ws, woken), IsWoken) >= Sum(ws, IsWoken) + 1
  {
    if ws != [] {
      var n := |ws| - 1;
      SumWake(ws[..n], woken);
      assert WakeUp(ws, woken)[..n] == WakeUp(ws[..n], woken);
    }
  }

  // ----- every step keeps the invariant ----------------------------------------------------

  lemma MutexKept<T(!new)>(s: State<T>, step: Step<T>)
    requires MutexOk(s) && Enabled(s, step)
    ensures MutexOk(Do(s, step))
  {}

  lemma ConservedKept<T(!new)>(s: State<T>, step: Step<T>)
    requires Conserved(s) && Enabled(s, step)
    ensures Conserved(Do(s, step))
  {
    var s' := Do(s, step);
    if step.Pop? {
      assert s.queue == [s.queue[0]] + s.queue[1..];
      assert Tasks(s'.taken) == Tasks(s.taken) + [s.queue[0]];
    }
  }

  lemma TakingKeepsCustody<T>(workers: seq<Worker>, taken: seq<(nat, T)>, finished: set<nat>, w: nat, task: T)
    requires InCustody(workers, taken, finished) && w < |workers| && forall k :: !Has(workers[w], k)
    ensures InCustody(workers[w := Leaving(|taken|)], taken + [(w, task)], finished)
  {
    var workers', taken' := workers[w := Leaving(|taken|)], taken + [(w, task)];
    forall v, k: nat | 0 <= v < |workers'| && Has(workers'[v], k)
      ensures k < |taken'| && taken'[k].0 == v && k !in finished
    {
      if v != w { assert Has(workers[v], k); }
    }
    forall k | 0 <= k < |taken'| && k !in finished
      ensures taken'[k].0 < |workers'| && Has(workers'[taken'[k].0], k)
    {
      if k < |taken| { assert Has(workers[taken[k].0], k); }
    }
  }

  lemma FinishingKeepsCustody<T>(workers: seq<Worker>, taken: seq<(nat, T)>, finished: set<nat>, w: nat)
    requires InCustody(workers, taken, finished) && w < |workers| && workers[w].Running?
    ensures InCustody(workers[w := Locking], taken, finished + {workers[w].task})
  {
    assert Has(workers[w], workers[w].task);
    var workers' := workers[w := Locking];
    forall v, k: nat | 0 <= v < |workers'| && Has(workers'[v], k)
      ensures k < |taken| && taken[k].0 == v && k !in finished + {workers[w].task}
    {
      assert v != w && Has(workers[v], k);
    }
    forall k | 0 <= k < |taken| && k !in finished + {workers[w].task}
      ensures taken[k].0 < |workers'| && Has(workers'[taken[k].0], k)
    {
      assert Has(workers[taken[k].0], k);
    }
  }

  lemma SameCustody<T>(workers: seq<Worker>, workers': seq<Worker>, taken: seq<(nat, T)>, finished: set<nat>)
    requires InCustody(workers, taken, finished) && |workers'| == |workers|
    requires forall w, k: nat {:trigger Has(workers'[w], k)} {:trigger Has(workers[w], k)} :: 0 <= w < |workers| ==>
      (Has(workers'[w], k) <==> Has(workers[w], k))
    ensures InCustody(workers', taken, finished)
  {
    forall k | 0 <= k < |taken| && k !in finished ensures taken[k].0 < |workers'| && Has(workers'[taken[k].0], k) {
      assert Has(workers[taken[k].0], k);
    }
  }

  lemma CustodyKept<T(!new)>(s: State<T>, step: Step<T>)
    requires Custody(s) && Enabled(s, step)
    ensures Custody(Do(s, step))
  {
    hide InCustody;
    match step {
      case Pop(w) => TakingKeepsCustody(s.workers, s.taken, s.finished, w, s.queue[0]);
      case Finish(w) => FinishingKeepsCustody(s.workers, s.taken, s.finished, w);
      case _ => SameCustody(s.workers, Do(s, step).workers, s.taken, s.finished);
    }
  }

  lemma AcknowledgedKept<T(!new)>(s: State<T>, step: Step<T>)
    requires Acknowledged(s) && Enabled(s, step)
    ensures Acknowledged(Do(s, step))
  {}

  lemma WorkerKeepsWakeups<T(!new)>(s: State<T>, step: Step<T>, w: nat)
    requires MutexOk(s) && NoLostWakeup(s) && Enabled(s, step)
    requires step == Lock(W(w)) || step == Wait(w) || step == Pop(w) || step == Unlock(W(w)) || step == Finish(w)
      || step == Wake(w)
    ensures NoLostWakeup(Do(s, step))
  {
    var s' := Do(s, step);
    SumUpdate(s.workers, w, s'.workers[w], IsWoken);
    hide Sum;
    if w' :| Asleep(s', w') {
      if step != Wait(w) { assert Asleep(s, w'); }
    }
  }

  lemma SignalKeepsWakeups<T(!new)>(s: State<T>, p: nat, woken: set<nat>)
    requires MutexOk(s) && NoLostWakeup(s) && Enabled(s, Signal(p, woken))
    ensures NoLostWakeup(Do(s, Signal(p, woken)))
  {
    var s' := Do(s, Signal(p, woken));
    SumWake(s.workers, woken);
    hide Sum;
    if w' :| Asleep(s', w') {
      assert Asleep(s, w');
      var w :| w in woken;
      assert Asleep(s, w);
    }
  }

  lemma NoLostWakeupKept<T(!new)>(s: State<T>, step: Step<T>)
    requires MutexOk(s) && NoLostWakeup(s) && Enabled(s, step)
    ensures NoLostWakeup(Do(s, step))
  {
    match step {
      case Lock(W(w)) => WorkerKeepsWakeups(s, step, w);
      case Wait(w) => WorkerKeepsWakeups(s, step, w);
      case Pop(w) => WorkerKeepsWakeups(s, step, w);
      case Unlock(W(w)) => WorkerKeepsWakeups(s, step, w);
      case Finish(w) => WorkerKeepsWakeups(s, step, w);
      case Wake(w) => WorkerKeepsWakeups(s, step, w);
      case Signal(p, woken) => SignalKeepsWakeups(s, p, woken);
      case _ =>
        hide Sum;
        if w' :| Asleep(Do(s, step), w') { assert Asleep(s, w'); }
    }
  }

  lemma InitInv<T(!new)>(s: State<T>)
    requires Init(s)
    ensures Inv(s)
  {}

  lemma InvKept<T(!new)>(s: State<T>, step: Step<T>)
    requires Inv(s) && Enabled(s, step)
    ensures Inv(Do(s, step))
  {
    MutexKept(s, step);
    ConservedKept(s, step);
    CustodyKept(s, step);
    AcknowledgedKept(s, step);
    NoLostWakeupKept(s, step);
  }

  /** The invariant holds in every state of every interleaving. */
  lemma {:induction false} RunKeepsInv<T(!new)>(states: seq<State<T>>, steps: seq<Step<T>>, i: nat)
    requires Run(states, steps) && i < |states|
    ensures Inv(states[i])
  {
    if i == 0 {
      InitInv(states[0]);
    } else {
      RunKeepsInv(states, steps, i - 1);
      InvKept(states[i - 1], steps[i - 1]);
    }
  }

  // ----- what follows for every interleaving -----------------------------------------------

  /** The histories only ever grow at the end: nothing accepted or taken is reordered or withdrawn. */
  lemma {:induction false} HistoriesGrow<T(!new)>(states: seq<State<T>>, steps: seq<Step<T>>, i: nat, j: nat)
    requires Run(states, steps) && i <= j < |states|
    ensures states[i].accepted <= states[j].accepted && states[i].taken <= states[j].taken
      && states[i].finished <= states[j].finished
    decreases j
  {
    if i < j {
      HistoriesGrow(states, steps, i, j - 1);
      assert Enabled(states[j - 1], steps[j - 1]) && states[j - 1 + 1] == Do(states[j - 1], steps[j - 1]);
    }
  }

  /** First in, first out, and exactly once: the k-th accepted task is the k-th one taken, or
      still at its place in the queue; once taken it is with one worker only or finished. */
  lemma TasksConserved<T(!new)>(states: seq<State<T>>, steps: seq<Step<T>>, i: nat, k: nat)
    requires Run(states, steps) && i < |states| && k < |states[i].accepted|
    ensures var s := states[i];
      && |s.accepted| == |s.taken| + |s.queue| && |s.queue| <= s.hwm
      && (k < |s.taken| ==> s.taken[k].1 == s.accepted[k])
      && (k >= |s.taken| ==> s.queue[k - |s.taken|] == s.accepted[k])
      && (forall w :: 0 <= w < |s.workers| ==>
        (Has(s.workers[w], k) <==> k < |s.taken| && k !in s.finished && w == s.taken[k].0))
      && (k < |s.taken| && k !in s.finished ==> s.taken[k].0 < |s.workers|)
  {
    RunKeepsInv(states, steps, i);
    var s := states[i];
    if k < |s.taken| {
      assert Tasks(s.taken)[k] == s.taken[k].1;
    }
  }

  /** A non-empty queue never finds all workers asleep: between critical sections, either no
      worker sleeps or there are at least as many woken workers as queued tasks. */
  lemma SomeoneIsComing<T(!new)>(states: seq<State<T>>, steps: seq<Step<T>>, i: nat)
    requires Run(states, steps) && i < |states| && states[i].holder == None && states[i].queue != []
    ensures (exists w :: Asleep(states[i], w)) ==> WokenCount(states[i]) >= |states[i].queue|
    ensures exists w :: 0 <= w < |states[i].workers| && !Asleep(states[i], w)
  {
    RunKeepsInv(states, steps, i);
    var s := states[i];
    assert 0 < |s.workers|;
    if Asleep(s, 0) {
      var w := SumWitness(s.workers);
      assert !Asleep(s, w);
    }
  }

  lemma {:induction false} SumWitness(ws: seq<Worker>) returns (w: nat)
    requires Sum(ws, IsWoken) > 0
    ensures w < |ws| && ws[w] == Woken
  {
    var n := |ws| - 1;
    if ws[n] == Woken { return n; }
    w := SumWitness(ws[..n]);
  }

  // ----- progress --------------------------------------------------------------------------

  /** Steps the pool takes by itself: neither a new call nor a spurious wakeup. */
  predicate Internal<T>(step: Step<T>) {
    !step.Call? && !step.Wake?
  }

  /** Nothing left to do: all callers returned, all workers asleep. */
  ghost predicate Quiet<T>(s: State<T>) {
    && (forall p :: 0 <= p < |s.producers| ==> s.producers[p] == Idle)
    && (forall w :: 0 <= w < |s.workers| ==> s.workers[w] == Waiting)
  }

  /** Unless it is quiet, some thread of the pool can take a step: there is no deadlock. */
  lemma Progress<T(!new)>(s: State<T>) returns (step: Step<T>)
    requires Inv(s) && !Quiet(s)
    ensures Enabled(s, step) && Internal(step)
  {
    match s.holder {
      case Some(W(w)) =>
        step := if s.workers[w].Leaving? then Unlock(W(w)) else if s.queue == [] then Wait(w) else Pop(w);
      case Some(P(p)) =>
        if s.producers[p].Holding? {
          step := Push(p);
        } else if s.producers[p].Pushed? {
          var sleepers := set w: nat | w < |s.workers| && Asleep(s, w);
          assert forall w :: Asleep(s, w) ==> w in sleepers;
          step := Signal(p, sleepers);
        } else {
          step := Unlock(P(p));
        }
      case None =>
        if w: nat :| w < |s.workers| && s.workers[w] != Waiting {
          step := if s.workers[w].Running? then Finish(w) else Lock(W(w));
        } else {
          assert Asleep(s, 0);
          if s.queue != [] {
            var w := SumWitness(s.workers);
          }
          var p: nat :| p < |s.producers| && s.producers[p] != Idle;
          step := if s.producers[p].Polling? then Poll(p) else Lock(P(p));
        }
    }
  }

  /** When the pool is quiet every accepted task has been run. */
  lemma QuietIsDone<T(!new)>(s: State<T>)
    requires Inv(s) && Quiet(s)
    ensures s.queue == [] && |s.taken| == |s.accepted| && AllDone(s)
  {
    assert Asleep(s, 0);
    hide Acknowledged;
    if s.queue != [] {
      var w := SumWitness(s.workers);
    }
    forall k | 0 <= k < |s.accepted| ensures k in s.finished {
      assert k < |s.taken| && s.taken[k].1 == s.accepted[k];
    }
  }

  ghost predicate AllDone<T>(s: State<T>) {
    forall k :: 0 <= k < |s.accepted| ==> k in s.finished
  }

  function WorkerCost(w: Worker): nat {
    match w
    case Waiting => 0
    case Checking => 1
    case Locking => 2
    case Woken => 2
    case Running(_) => 3
    case Leaving(_) => 4
  }

  function ProducerCost<T>(p: Producer<T>, workers: nat): nat {
    match p
    case Idle => 0
    case Signalled(_, _) => 1
    case Refused(_) => 1
    case Pushed(_, _) => 2 * workers + 2
    case Holding(_) => 2 * workers + 7
    case Entering(_) => 2 * workers + 8
    case Polling(_) => 2 * workers + 9
  }

  function ProducerSum<T>(ps: seq<Producer<T>>, workers: nat): nat {
    if ps == [] then 0 else ProducerSum(ps[..|ps| - 1], workers) + ProducerCost(ps[|ps| - 1], workers)
  }

  lemma {:induction false} ProducerSumUpdate<T>(ps: seq<Producer<T>>, i: nat, p: Producer<T>, workers: nat)
    requires i < |ps|
    ensures ProducerSum(ps[i := p], workers) == ProducerSum(ps, workers) - ProducerCost(ps[i], workers) +
      ProducerCost(p, workers)
  {
    var n := |ps| - 1;
    if i == n {
      assert ps[i := p][..n] == ps[..n];
    } else {
      assert ps[i := p][..n] == ps[..n][i := p];
      ProducerSumUpdate(ps[..n], i, p, workers);
    }
  }

  /** An upper bound on the steps the pool can still take by itself. */
  function Remaining<T>(s: State<T>): nat {
    Sum(s.workers, WorkerCost) + ProducerSum(s.producers, |s.workers|) + 4 * |s.queue|
  }

  lemma WorkerStepCost<T(!new)>(s: State<T>, step: Step<T>, w: nat)
    requires Enabled(s, step)
      && (step == Lock(W(w)) || step == Wait(w) || step == Pop(w) || step == Unlock(W(w)) || step == Finish(w))
    ensures Remaining(Do(s, step)) < Remaining(s)
  {
    var s' := Do(s, step);
    SumUpdate(s.workers, w, s'.workers[w], WorkerCost);
  }

  lemma ProducerStepCost<T(!new)>(s: State<T>, step: Step<T>, p: nat)
    requires Enabled(s, step) && (step == Lock(P(p)) || step == Unlock(P(p)) || step == Poll(p) || step == Push(p))
    ensures Remaining(Do(s, step)) < Remaining(s)
  {
    var s' := Do(s, step);
    ProducerSumUpdate(s.producers, p, s'.producers[p], |s.workers|);
  }

  lemma {:induction false} WakeCost(ws: seq<Worker>, woken: set<nat>)
    ensures Sum(WakeUp(ws, woken), WorkerCost) <= Sum(ws, WorkerCost) + 2 * |ws|
  {
    if ws != [] {
      var n := |ws| - 1;
      WakeCost(ws[..n], woken);
      assert WakeUp(ws, woken)[..n] == WakeUp(ws[..n], woken);
    }
  }

  lemma SignalCost<T(!new)>(s: State<T>, p: nat, woken: set<nat>)
    requires Enabled(s, Signal(p, woken))
    ensures Remaining(Do(s, Signal(p, woken))) < Remaining(s)
  {
    var s' := Do(s, Signal(p, woken));
    ProducerSumUpdate(s.producers, p, s'.producers[p], |s.workers|);
    WakeCost(s.workers, woken);
  }

  /** Every step of its own takes the pool closer to rest. */
  lemma StepsRunOut<T(!new)>(s: State<T>, step: Step<T>)
    requires Enabled(s, step) && Internal(step)
    ensures Remaining(Do(s, step)) < Remaining(s)
  {
    hide Remaining, Do, Enabled;
    match step {
      case Lock(W(w)) => WorkerStepCost(s, step, w);
      case Wait(w) => WorkerStepCost(s, step, w);
      case Pop(w) => WorkerStepCost(s, step, w);
      case Unlock(W(w)) => WorkerStepCost(s, step, w);
      case Finish(w) => WorkerStepCost(s, step, w);
      case Lock(P(p)) => ProducerStepCost(s, step, p);
      case Unlock(P(p)) => ProducerStepCost(s, step, p);
      case Poll(p) => ProducerStepCost(s, step, p);
      case Push(p) => ProducerStepCost(s, step, p);
      case Signal(p, woken) => SignalCost(s, p, woken);
    }
  }

  /** Left alone from step i on, the pool takes at most Remaining(states[i]) steps; if then no
      thread can move, every task it ever accepted has been run. */
  lemma {:induction false} Drains<T(!new)>(states: seq<State<T>>, steps: seq<Step<T>>, i: nat)
    requires Run(states, steps) && i < |states|
    requires forall k :: i <= k < |steps| ==> Internal(steps[k])
    ensures |steps| - i + Remaining(states[|steps|]) <= Remaining(states[i])
    ensures (forall step :: Internal(step) ==> !Enabled(states[|steps|], step)) ==>
      AllDone(states[|steps|])
    decreases |states| - i
  {
    if i < |steps| {
      StepsRunOut(states[i], steps[i]);
      Drains(states, steps, i + 1);
    } else {
      RunKeepsInv(states, steps, i);
      if !Quiet(states[i]) {
        var step := Progress(states[i]);
      } else {
        QuietIsDone(states[i]);
      }
    }
  }

  // ----- the busy wait ---------------------------------------------------------------------

  /** There is room for the task of a lone producer that has seen room. */
  ghost predicate Room<T>(s: State<T>) {
    |s.producers| == 1 && !s.producers[0].Refused?
      && (s.producers[0].Entering? || s.producers[0].Holding? ==> |s.queue| < s.hwm)
  }

  /** Reading the queue length without the mutex is enough for a single producer: its calls
      never return -1. */
  lemma {:induction false} LoneProducerNeverRefused<T(!new)>(states: seq<State<T>>, steps: seq<Step<T>>, i: nat)
    requires Run(states, steps) && i < |states| && |states[0].producers| == 1
    ensures Room(states[i])
  {
    if i > 0 {
      LoneProducerNeverRefused(states, steps, i - 1);
      assert Enabled(states[i - 1], steps[i - 1]) && states[i - 1 + 1] == Do(states[i - 1], steps[i - 1]);
    }
  }

  ghost predicate Reaches<T(!new)>(s0: State<T>, s: State<T>) {
    exists states, steps :: Run(states, steps) && states[0] == s0 && states[|steps|] == s
  }

  lemma ReachStep<T(!new)>(s0: State<T>, s: State<T>, step: Step<T>)
    requires Reaches(s0, s) && Enabled(s, step)
    ensures Reaches(s0, Do(s, step))
  {
    var states, steps :| Run(states, steps) && states[0] == s0 && states[|steps|] == s;
    assert Run(states + [Do(s, step)], steps + [step]);
  }

  /** Nobody inside the mutex, no worker asleep, no call under way. */
  ghost predicate Calm<T>(s: State<T>) {
    && s.holder == None
    && (forall w :: 0 <= w < |s.workers| ==> s.workers[w] == Locking)
    && (forall p :: 0 <= p < |s.producers| ==> s.producers[p] == Idle)
  }

  lemma AddOne<T(!new)>(s0: State<T>, s: State<T>, task: T) returns (s': State<T>)
    requires Reaches(s0, s) && Calm(s) && |s.producers| > 0 && |s.queue| < s.hwm
    ensures Reaches(s0, s') && Calm(s') && |s'.queue| == |s.queue| + 1 && s'.hwm == s.hwm
      && |s'.producers| == |s.producers|
  {
    s' := s;
    var steps := [Call(0, task), Poll(0), Lock(P(0)), Push(0), Signal(0, {}), Unlock(P(0))];
    for k := 0 to |steps|
      invariant Reaches(s0, s') && s'.hwm == s.hwm && s'.workers == s.workers && |s'.producers| == |s.producers|
      invariant s'.holder == if k < 3 || k == 6 then None else Some(P(0))
      invariant |s'.queue| == |s.queue| + if k < 4 then 0 else 1
      invariant forall p :: 0 < p < |s.producers| ==> s'.producers[p] == Idle
      invariant match k
        case 0 => s'.producers[0] == Idle
        case 1 => s'.producers[0].Polling?
        case 2 => s'.producers[0].Entering?
        case 3 => s'.producers[0].Holding?
        case 4 => s'.producers[0].Pushed?
        case 5 => s'.producers[0].Signalled?
        case _ => s'.producers[0] == Idle
    {
      ReachStep(s0, s', steps[k]);
      s' := Do(s', steps[k]);
    }
  }

  lemma {:induction false} Fill<T(!new)>(s0: State<T>, n: nat, task: T) returns (s: State<T>)
    requires Init(s0) && |s0.producers| > 0 && n <= s0.hwm
    ensures Reaches(s0, s) && Calm(s) && |s.queue| == n && s.hwm == s0.hwm && |s.producers| == |s0.producers|
  {
    if n == 0 {
      var steps: seq<Step<T>> := [];
      assert Run([s0], steps);
      s := s0;
    } else {
      s := Fill(s0, n - 1, task);
      s := AddOne(s0, s, task);
    }
  }

  /** Two producers see the same last free place. */
  lemma SecondIsRefused<T(!new)>(s0: State<T>, s: State<T>, task: T) returns (s': State<T>)
    requires Reaches(s0, s) && Calm(s) && |s.producers| > 1 && |s.queue| == s.hwm - 1
    ensures Reaches(s0, s') && |s'.producers| == |s.producers| && s'.producers[1].Refused?
  {
    s' := s;
    var steps := [Call(0, task), Call(1, task), Poll(0), Poll(1), Lock(P(0)), Push(0), Signal(0, {}), Unlock(P(0)),
      Lock(P(1)), Push(1)];
    for k := 0 to |steps|
      invariant Reaches(s0, s') && s'.hwm == s.hwm && s'.workers == s.workers && |s'.producers| == |s.producers|
      invariant s'.holder == if 5 <= k < 8 then Some(P(0)) else if k > 8 then Some(P(1)) else None
      invariant |s'.queue| == |s.queue| + if k < 6 then 0 else 1
      invariant if k < 2 then s'.producers[1] == Idle else if k < 4 then s'.producers[1].Polling?
        else if k < 9 then s'.producers[1].Entering? else if k == 9 then s'.producers[1].Holding?
          else s'.producers[1].Refused?
      invariant match k
        case 0 => s'.producers[0] == Idle
        case 1 => s'.producers[0].Polling?
        case 2 => s'.producers[0].Polling?
        case 3 => s'.producers[0].Entering?
        case 4 => s'.producers[0].Entering?
        case 5 => s'.producers[0].Holding?
        case 6 => s'.producers[0].Pushed?
        case 7 => s'.producers[0].Signalled?
        case _ => s'.producers[0] == Idle
    {
      ReachStep(s0, s', steps[k]);
      s' := Do(s', steps[k]);
    }
  }

  ghost predicate SomeRefused<T>(s: State<T>) {
    exists p :: 0 <= p < |s.producers| && s.producers[p].Refused?
  }

  /** Busy waiting outside the mutex keeps calls from failing exactly when at most one producer
      adds tasks. */
  lemma BusyWaitSuffices<T(!new)>(s0: State<T>, task: T)
    requires Init(s0)
    ensures (exists s :: Reaches(s0, s) && SomeRefused(s)) <==> |s0.producers| >= 2
  {
    if |s0.producers| >= 2 {
      var s := Fill(s0, s0.hwm - 1, task);
      s := SecondIsRefused(s0, s, task);
      assert SomeRefused(s);
    } else if s :| Reaches(s0, s) && SomeRefused(s) {
      var states, steps :| Run(states, steps) && states[0] == s0 && states[|steps|] == s;
      SizesKept(states, steps, |steps|);
      if |s0.producers| == 1 {
        LoneProducerNeverRefused(states, steps, |steps|);
      }
    }
  }

  lemma {:induction false} SizesKept<T(!new)>(states: seq<State<T>>, steps: seq<Step<T>>, i: nat)
    requires Run(states, steps) && i < |states|
    ensures |states[i].producers| == |states[0].producers| && |states[i].workers| == |states[0].workers|
      && states[i].hwm == states[0].hwm
  {
    if i > 0 {
      SizesKept(states, steps, i - 1);
      assert Enabled(states[i - 1], steps[i - 1]) && states[i - 1 + 1] == Do(states[i - 1], steps[i - 1]);
    }
  }
}

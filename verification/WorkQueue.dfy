/**
 The worker pool `workqueue`: N workers, one mutex, one condition variable, an intrusive list of
 waiting jobs. The threads interleave between any two accesses to shared data; a worker asleep
 on the condition variable may wake at any time. `add_job` and the locked part of `shutdown` touch
 nothing that others touch without the mutex, so each is one step, possible while the mutex is free.
 */
module WorkQueue {

  /** Jobs are addresses; 0 is the null pointer. */
  type Job = nat

  const NULL: Job := 0

  /** Where a worker is in `worker_function`. */
  datatype Worker =
    | Lock                    // pthread_mutex_lock
    | TestList                // while (waiting_jobs == NULL)
    | TestStopInner           // if (worker->terminate) break, list was empty
    | Asleep                  // in pthread_cond_wait, mutex released
    | Relock                  // leaving pthread_cond_wait
    | TestStop(listSeen: bool)  // if (worker->terminate) break; listSeen: the inner loop ended by its test
    | Take                    // job = waiting_jobs; LL_REMOVE
    | Unlock(job: Job)
    | Execute(job: Job)
    | Gone                    // left the loop

  datatype Shutdown = NotCalled | Marking(left: seq<nat>) | Marked | Over

  datatype Owner = Nobody | HeldBy(worker: nat)

  /** `links` are the `prev` and `next` fields of the jobs. */
  datatype Links = Links(prev: Job, next: Job)

  datatype State = State(
    workers: seq<Worker>,
    terminate: seq<bool>,
    owner: Owner,
    waiting: Job,
    links: map<Job, Links>,
    listed: seq<nat>,          // the queue's list of workers, last one first in C
    shutdown: Shutdown,
    added: multiset<Job>,      // add_job calls so far
    taken: multiset<Job>,      // jobs taken off the list by workers
    finished: multiset<Job>)   // jobs whose function has returned

  /** `Wake` is a spurious wake-up; `woken` are the sleepers a signal wakes. */
  datatype Action =
    | Add(job: Job, woken: set<nat>)
    | CallShutdown
    | MarkOne
    | ShutdownLocked
    | Wake(worker: nat)
    | Step(worker: nat)

  function LinksOf(s: State, j: Job): Links {
    if j in s.links then s.links[j] else Links(NULL, NULL)
  }

  /** `LL_ADD(item, list)`. The `prev` field of the old head is not written. */
  function ListAdd(s: State, item: Job): State {
    s.(links := s.links[item := Links(NULL, s.waiting)], waiting := item)
  }

  /** `LL_REMOVE(item, list)`. */
  function ListRemove(s: State, item: Job): State {
    var me := LinksOf(s, item);
    var l1 := if me.prev != NULL then s.links[me.prev := LinksOf(s, me.prev).(next := me.next)] else s.links;
    var s1 := s.(links := l1);
    var l2 := if me.next != NULL then l1[me.next := LinksOf(s1, me.next).(prev := me.prev)] else l1;
    s.(links := l2[item := Links(NULL, NULL)], waiting := if s.waiting == item then me.next else s.waiting)
  }

  /** Sleeping workers in `who` are woken. */
  function WakeAll(workers: seq<Worker>, who: set<nat>): (r: seq<Worker>)
    ensures |r| == |workers|
    ensures forall i :: 0 <= i < |r| ==> r[i] == if i in who && workers[i] == Asleep then Relock else workers[i]
  {
    seq(|workers|, i requires 0 <= i < |workers| => if i in who && workers[i] == Asleep then Relock else workers[i])
  }

  function Broadcast(workers: seq<Worker>): (r: seq<Worker>)
    ensures |r| == |workers|
    ensures forall i :: 0 <= i < |r| ==> r[i] == if workers[i] == Asleep then Relock else workers[i]
  {
    seq(|workers|, i requires 0 <= i < |workers| => if workers[i] == Asleep then Relock else workers[i])
  }

  predicate Enabled(s: State, a: Action) {
    match a
    case Add(job, woken) =>
      s.owner == Nobody && job != NULL &&
      ((exists i :: 0 <= i < |s.workers| && s.workers[i] == Asleep) ==>
        exists i :: 0 <= i < |s.workers| && s.workers[i] == Asleep && i in woken)
    case CallShutdown => s.shutdown == NotCalled || s.shutdown == Over
    case MarkOne => s.shutdown.Marking?
    case ShutdownLocked => s.shutdown == Marked && s.owner == Nobody
    case Wake(i) => i < |s.workers| && s.workers[i] == Asleep
    case Step(i) =>
      i < |s.workers| && i < |s.terminate| &&
      s.workers[i] != Asleep && s.workers[i] != Gone &&
      (s.workers[i] == Lock || s.workers[i] == Relock ==> s.owner == Nobody)
  }

  function Next(s: State, a: Action): State
    requires Enabled(s, a)
  {
    match a
    case Add(job, woken) =>
      ListAdd(s, job).(workers := WakeAll(s.workers, woken), added := s.added + multiset{job})
    case CallShutdown => s.(shutdown := Marking(s.listed))
    case MarkOne =>
      var left := s.shutdown.left;
      if left == [] then s.(shutdown := Marked)
      else s.(shutdown := Marking(left[..|left| - 1]),
              terminate := if left[|left| - 1] < |s.terminate| then s.terminate[left[|left| - 1] := true] else s.terminate)
    case ShutdownLocked =>
      s.(waiting := NULL, listed := [], workers := Broadcast(s.workers), shutdown := Over)
    case Wake(i) => s.(workers := s.workers[i := Relock])
    case Step(i) => WorkerStep(s, i)
  }

  function WorkerStep(s: State, i: nat): State
    requires i < |s.workers| && i < |s.terminate|
  {
    match s.workers[i]
    case Lock => s.(owner := HeldBy(i), workers := s.workers[i := TestList])
    case TestList =>
      s.(workers := s.workers[i := if s.waiting == NULL then TestStopInner else TestStop(true)])
    case TestStopInner =>
      if s.terminate[i] then s.(workers := s.workers[i := TestStop(false)])
      else s.(owner := Nobody, workers := s.workers[i := Asleep])
    case Asleep => s
    case Relock => s.(owner := HeldBy(i), workers := s.workers[i := TestList])
    case TestStop(_) => s.(workers := s.workers[i := if s.terminate[i] then Gone else Take])
    case Take =>
      var job := s.waiting;
      if job != NULL
      then ListRemove(s, job).(workers := s.workers[i := Unlock(job)], taken := s.taken + multiset{job})
      else s.(workers := s.workers[i := Unlock(job)])
    case Unlock(job) =>
      s.(owner := Nobody, workers := s.workers[i := if job == NULL then Lock else Execute(job)])
    case Execute(job) => s.(workers := s.workers[i := Lock], finished := s.finished + multiset{job})
    case Gone => s
  }

  /** State after `workqueue_init` with `n` workers. */
  function Initial(n: nat): State {
    State(seq(n, _ => Lock), seq(n, _ => false), Nobody, NULL, map[], seq(n, i => i), NotCalled, multiset{}, multiset{}, multiset{})
  }

  // ----- the invariant

  /** `stack` are the waiting jobs, newest first; `dropped` those discarded by shutdown. */
  datatype History = History(stack: seq<Job>, dropped: multiset<Job>)

  ghost predicate IsList(s: State, stack: seq<Job>) {
    s.waiting == (if stack == [] then NULL else stack[0]) &&
    (forall k :: 0 <= k < |stack| ==> stack[k] in s.links && stack[k] != NULL && s.links[stack[k]].prev == NULL) &&
    (forall k, m :: 0 <= k && m == k + 1 < |stack| ==> s.links[stack[k]].next == stack[m]) &&
    (stack != [] ==> s.links[stack[|stack| - 1]].next == NULL) &&
    (forall k, m :: 0 <= k < m < |stack| ==> stack[k] != stack[m])
  }

  /** The worker owns the mutex. */
  predicate Holds(w: Worker) {
    w.TestList? || w.TestStopInner? || w.TestStop? || w.Take? || w.Unlock? || w.Gone?
  }

  /** 1 if the worker has taken job `j` and not finished it. */
  function InHand(w: Worker, j: Job): nat {
    if (w.Unlock? || w.Execute?) && w.job == j then 1 else 0
  }

  /** Number of workers that have job `j` in hand. */
  function Hands(workers: seq<Worker>, j: Job): nat
    decreases |workers|
  {
    if workers == [] then 0
    else Hands(workers[..|workers| - 1], j) + InHand(workers[|workers| - 1], j)
  }

  ghost predicate Control(s: State, h: History) {
    |s.terminate| == |s.workers| &&
    (s.owner.HeldBy? ==> s.owner.worker < |s.workers| && Holds(s.workers[s.owner.worker])) &&
    (forall i :: 0 <= i < |s.workers| && Holds(s.workers[i]) ==> s.owner == HeldBy(i)) &&
    (forall i :: 0 <= i < |s.workers| ==> WorkerOk(s, h, i))
  }

  ghost predicate WorkerOk(s: State, h: History, i: nat)
    requires i < |s.workers| == |s.terminate|
  {
    match s.workers[i]
    case TestStop(listSeen) => if listSeen then h.stack != [] else s.terminate[i]
    case Take => h.stack != [] && s.listed != []
    case Unlock(job) => job != NULL
    case Execute(job) => job != NULL
    case Gone => s.terminate[i]
    case _ => true
  }

  /** Every worker not yet marked is still in the list shutdown walks. */
  ghost predicate Stopping(s: State) {
    (s.listed == [] || (|s.listed| == |s.terminate| && forall i :: 0 <= i < |s.listed| ==> s.listed[i] == i)) &&
    (s.listed == [] ==> AllMarkedFrom(s, 0)) &&
    match s.shutdown
    case NotCalled => true
    case Marking(left) => left <= s.listed && AllMarkedFrom(s, |left|)
    case _ => AllMarkedFrom(s, 0)
  }

  ghost predicate AllMarkedFrom(s: State, k: nat) {
    forall i :: k <= i < |s.terminate| ==> s.terminate[i]
  }

  /** Every call of `add_job` is accounted for exactly once. */
  ghost predicate Conserved(s: State, h: History) {
    (forall j: Job :: s.added[j] == multiset(h.stack)[j] + s.taken[j] + h.dropped[j]) &&
    (forall j: Job :: s.taken[j] == Hands(s.workers, j) + s.finished[j])
  }

  ghost predicate Inv(s: State, h: History) {
    IsList(s, h.stack) && Control(s, h) && Stopping(s) && Conserved(s, h)
  }

  /** A job may be added while it is not waiting. */
  ghost predicate Proper(h: History, a: Action) {
    a.Add? ==> a.job !in h.stack
  }

  ghost function NextHistory(s: State, h: History, a: Action): History {
    match a
    case Add(job, _) => h.(stack := [job] + h.stack)
    case ShutdownLocked => History([], h.dropped + multiset(h.stack))
    case Step(i) =>
      if i < |s.workers| && s.workers[i] == Take && h.stack != [] then h.(stack := h.stack[1..]) else h
    case _ => h
  }

  lemma InitialInv(n: nat)
    ensures Inv(Initial(n), History([], multiset{}))
  {
    var s := Initial(n);
    forall j: Job ensures s.taken[j] == Hands(s.workers, j) + s.finished[j] { NoneInHand(s.workers, j); }
  }

  lemma {:induction false} NoneInHand(workers: seq<Worker>, j: Job)
    requires forall i :: 0 <= i < |workers| ==> InHand(workers[i], j) == 0
    ensures Hands(workers, j) == 0
    decreases |workers|
  {
    if workers != [] { NoneInHand(workers[..|workers| - 1], j); }
  }

  /** Changing one worker changes the count by that worker's share. */
  lemma {:induction false} HandsUpdate(workers: seq<Worker>, i: nat, w: Worker, j: Job)
    requires i < |workers|
    ensures Hands(workers[i := w], j) == Hands(workers, j) - InHand(workers[i], j) + InHand(w, j)
    decreases |workers|
  {
    var n := |workers| - 1;
    var r := workers[i := w];
    if i == n {
      assert r[..n] == workers[..n];
    } else {
      assert r[..n] == workers[..n][i := w];
      HandsUpdate(workers[..n], i, w, j);
    }
  }

  lemma {:induction false} HandsSame(a: seq<Worker>, b: seq<Worker>, j: Job)
    requires |a| == |b| && forall i :: 0 <= i < |a| ==> InHand(a[i], j) == InHand(b[i], j)
    ensures Hands(a, j) == Hands(b, j)
    decreases |a|
  {
    if a != [] { HandsSame(a[..|a| - 1], b[..|b| - 1], j); }
  }

  // ----- each step keeps it

  lemma AddList(s: State, stack: seq<Job>, job: Job)
    requires IsList(s, stack) && job != NULL && job !in stack
    ensures IsList(ListAdd(s, job), [job] + stack)
  {
    var t, r := ListAdd(s, job), [job] + stack;
    assert forall k :: 0 < k < |r| ==> r[k] == stack[k - 1];
    assert forall k :: 0 <= k < |stack| ==> stack[k] != job;
  }

  lemma RemoveList(s: State, stack: seq<Job>)
    requires IsList(s, stack) && stack != []
    ensures s.waiting == stack[0] != NULL
    ensures IsList(ListRemove(s, s.waiting), stack[1..])
  {
    var rest := stack[1..];
    assert forall k :: 0 <= k < |rest| ==> rest[k] == stack[k + 1];
  }

  lemma AddInv(s: State, h: History, a: Action)
    requires Inv(s, h) && a.Add? && Enabled(s, a) && Proper(h, a)
    ensures Inv(Next(s, a), NextHistory(s, h, a))
  {
    var t, g := Next(s, a), NextHistory(s, h, a);
    AddList(s, h.stack, a.job);
    assert IsList(t, g.stack);
    NobodyInside(s, h, t, g);
    assert multiset(g.stack) == multiset{a.job} + multiset(h.stack);
    WokenConserved(s, h, t, g);
  }

  /** Waking workers moves no job. */
  lemma WokenConserved(s: State, h: History, t: State, g: History)
    requires Conserved(s, h) && |t.workers| == |s.workers| && t.taken == s.taken && t.finished == s.finished
    requires forall i :: 0 <= i < |t.workers| ==>
      t.workers[i] == s.workers[i] || (s.workers[i] == Asleep && t.workers[i] == Relock)
    requires forall j: Job ::
      t.added[j] + multiset(h.stack)[j] + h.dropped[j] == s.added[j] + multiset(g.stack)[j] + g.dropped[j]
    ensures Conserved(t, g)
  {
    forall j: Job ensures t.taken[j] == Hands(t.workers, j) + t.finished[j] {
      HandsSame(s.workers, t.workers, j);
    }
  }

  /** While the mutex is free, waking workers and changing the list keeps every worker in order. */
  lemma NobodyInside(s: State, h: History, t: State, g: History)
    requires Control(s, h) && s.owner == Nobody && t.owner == Nobody && t.terminate == s.terminate
    requires |t.workers| == |s.workers|
    requires forall i :: 0 <= i < |t.workers| ==>
      t.workers[i] == s.workers[i] || (s.workers[i] == Asleep && t.workers[i] == Relock)
    ensures Control(t, g)
  {
    forall i | 0 <= i < |t.workers| ensures WorkerOk(t, g, i) && !Holds(t.workers[i]) {
      assert WorkerOk(s, h, i);
      assert !Holds(s.workers[i]);
    }
  }

  lemma CallShutdownInv(s: State, h: History)
    requires Inv(s, h) && Enabled(s, CallShutdown)
    ensures Inv(Next(s, CallShutdown), h)
  {
    var t := Next(s, CallShutdown);
    ControlKept(s, h, t);
  }

  /** Setting terminate flags never disturbs a worker. */
  lemma ControlKept(s: State, h: History, t: State)
    requires Control(s, h) && t.workers == s.workers && t.owner == s.owner && t.listed == s.listed
    requires |t.terminate| == |s.terminate|
    requires forall i :: 0 <= i < |s.terminate| && s.terminate[i] ==> t.terminate[i]
    ensures Control(t, h)
  {
    forall i | 0 <= i < |t.workers| ensures WorkerOk(t, h, i) {
      assert WorkerOk(s, h, i);
    }
  }

  lemma MarkOneInv(s: State, h: History)
    requires Inv(s, h) && Enabled(s, MarkOne)
    ensures Inv(Next(s, MarkOne), h)
  {
    var t := Next(s, MarkOne);
    MarkOneStops(s);
    ControlKept(s, h, t);
    ListKept(s, t, h.stack);
  }

  lemma ListKept(s: State, t: State, stack: seq<Job>)
    requires IsList(s, stack) && t.links == s.links && t.waiting == s.waiting
    ensures IsList(t, stack)
  {
  }

  lemma MarkOneStops(s: State)
    requires Stopping(s) && Enabled(s, MarkOne)
    ensures |Next(s, MarkOne).terminate| == |s.terminate| && Stopping(Next(s, MarkOne))
    ensures forall i :: 0 <= i < |s.terminate| && s.terminate[i] ==> Next(s, MarkOne).terminate[i]
  {
    var left := s.shutdown.left;
    if left != [] {
      assert left[|left| - 1] == s.listed[|left| - 1] == |left| - 1;
      assert left[..|left| - 1] <= s.listed;
    }
  }

  lemma StoppingKept(s: State, t: State)
    requires Stopping(s) && t.terminate == s.terminate && t.listed == s.listed && t.shutdown == s.shutdown
    ensures Stopping(t)
  {
  }

  lemma ShutdownLockedInv(s: State, h: History)
    requires Inv(s, h) && Enabled(s, ShutdownLocked)
    ensures Inv(Next(s, ShutdownLocked), NextHistory(s, h, ShutdownLocked))
  {
    var t, g := Next(s, ShutdownLocked), NextHistory(s, h, ShutdownLocked);
    assert Control(t, g) by { NobodyInside(s, h, t, g); }
    assert Conserved(t, g) by {
      assert multiset(g.stack) == multiset{};
      WokenConserved(s, h, t, g);
    }
    assert Stopping(t);
  }

  /** One worker moves on; list, history and flags stay. */
  lemma OneWorkerControl(s: State, h: History, t: State, i: nat, w: Worker)
    requires Control(s, h) && i < |s.workers|
    requires t.workers == s.workers[i := w] && t.terminate == s.terminate && t.listed == s.listed
    requires t.owner == if Holds(w) then HeldBy(i) else if Holds(s.workers[i]) then Nobody else s.owner
    requires Holds(w) && !Holds(s.workers[i]) ==> s.owner == Nobody
    requires |t.workers| == |t.terminate| && WorkerOk(t, h, i)
    ensures Control(t, h)
  {
    forall k | 0 <= k < |t.workers| ensures WorkerOk(t, h, k) && (Holds(t.workers[k]) ==> t.owner == HeldBy(k)) {
      if k != i { assert WorkerOk(s, h, k); }
    }
  }

  lemma OneWorkerConserved(s: State, h: History, t: State, i: nat, w: Worker)
    requires Conserved(s, h) && i < |s.workers|
    requires t.workers == s.workers[i := w] && t.added == s.added && t.taken == s.taken
    requires forall j: Job :: InHand(s.workers[i], j) + s.finished[j] == InHand(w, j) + t.finished[j]
    ensures Conserved(t, h)
  {
    forall j: Job ensures t.taken[j] == Hands(t.workers, j) + t.finished[j] {
      HandsUpdate(s.workers, i, w, j);
    }
  }

  lemma OneWorkerInv(s: State, h: History, t: State, i: nat, w: Worker)
    requires Inv(s, h) && i < |s.workers|
    requires t == s.(workers := s.workers[i := w], owner := t.owner, finished := t.finished)
    requires t.owner == if Holds(w) then HeldBy(i) else if Holds(s.workers[i]) then Nobody else s.owner
    requires Holds(w) && !Holds(s.workers[i]) ==> s.owner == Nobody
    requires |t.workers| == |t.terminate| && WorkerOk(t, h, i)
    requires forall j: Job :: InHand(s.workers[i], j) + s.finished[j] == InHand(w, j) + t.finished[j]
    ensures Inv(t, h)
  {
    OneWorkerControl(s, h, t, i, w);
    ListKept(s, t, h.stack);
    StoppingKept(s, t);
    OneWorkerConserved(s, h, t, i, w);
  }

  lemma TakeControl(s: State, h: History, i: nat)
    requires Inv(s, h) && i < |s.workers| && s.workers[i] == Take
    ensures h.stack != [] && s.waiting == h.stack[0] != NULL
    ensures Control(WorkerStep(s, i), NextHistory(s, h, Step(i)))
  {
    assert WorkerOk(s, h, i);
    RemoveList(s, h.stack);
    var t, g := WorkerStep(s, i), NextHistory(s, h, Step(i));
    assert t.owner == s.owner == HeldBy(i) && t.terminate == s.terminate;
    forall k | 0 <= k < |t.workers| ensures WorkerOk(t, g, k) && (Holds(t.workers[k]) ==> t.owner == HeldBy(k)) {
      if k != i {
        assert t.workers[k] == s.workers[k];
        assert WorkerOk(s, h, k);
        assert !Holds(s.workers[k]);
      }
    }
  }

  /** Taking a job in terms of the list operation. */
  lemma TakeStep(s: State, h: History, i: nat)
    requires Inv(s, h) && i < |s.workers| && s.workers[i] == Take
    ensures h.stack != [] && s.waiting == h.stack[0] != NULL
    ensures var job := s.waiting;
            WorkerStep(s, i) ==
              ListRemove(s, job).(workers := s.workers[i := Unlock(job)], taken := s.taken + multiset{job})
  {
    assert WorkerOk(s, h, i);
  }

  lemma ListRemoveFrame(s: State, job: Job)
    ensures ListRemove(s, job) == s.(links := ListRemove(s, job).links, waiting := ListRemove(s, job).waiting)
  {
  }

  lemma TakeInv(s: State, h: History, i: nat)
    requires Inv(s, h) && i < |s.workers| && s.workers[i] == Take
    ensures h.stack != [] && s.waiting == h.stack[0] != NULL
    ensures Inv(WorkerStep(s, i), NextHistory(s, h, Step(i)))
  {
    TakeStep(s, h, i);
    TakeControl(s, h, i);
    RemoveList(s, h.stack);
    var r, t := ListRemove(s, s.waiting), WorkerStep(s, i);
    ListRemoveFrame(s, s.waiting);
    ListKept(r, t, h.stack[1..]);
    StoppingKept(s, t);
    TakeConserved(s, h, t, i);
  }

  lemma TakeConserved(s: State, h: History, t: State, i: nat)
    requires Conserved(s, h) && i < |s.workers| && s.workers[i] == Take && h.stack != []
    requires t.workers == s.workers[i := Unlock(h.stack[0])] && t.taken == s.taken + multiset{h.stack[0]}
    requires t.added == s.added && t.finished == s.finished
    ensures Conserved(t, h.(stack := h.stack[1..]))
  {
    var job := h.stack[0];
    assert h.stack == [job] + h.stack[1..];
    assert multiset(h.stack) == multiset{job} + multiset(h.stack[1..]);
    forall j: Job ensures t.taken[j] == Hands(t.workers, j) + t.finished[j] {
      HandsUpdate(s.workers, i, Unlock(job), j);
    }
  }

  lemma WorkerInv(s: State, h: History, i: nat)
    requires Inv(s, h) && Enabled(s, Step(i))
    ensures Inv(WorkerStep(s, i), NextHistory(s, h, Step(i)))
  {
    match s.workers[i]
    case Take => TakeInv(s, h, i);
    case Unlock(_) => UnlockInv(s, h, i);
    case Execute(_) => ExecuteInv(s, h, i);
    case TestStop(_) => TestStopInv(s, h, i);
    case TestList => TestListInv(s, h, i);
    case TestStopInner => TestStopInnerInv(s, h, i);
    case _ => AcquireInv(s, h, i);
  }

  lemma AcquireInv(s: State, h: History, i: nat)
    requires Inv(s, h) && Enabled(s, Step(i)) && (s.workers[i] == Lock || s.workers[i] == Relock)
    ensures Inv(WorkerStep(s, i), h)
  {
    OneWorkerInv(s, h, WorkerStep(s, i), i, TestList);
  }

  lemma TestListInv(s: State, h: History, i: nat)
    requires Inv(s, h) && Enabled(s, Step(i)) && s.workers[i] == TestList
    ensures Inv(WorkerStep(s, i), h)
  {
    OneWorkerInv(s, h, WorkerStep(s, i), i, if s.waiting == NULL then TestStopInner else TestStop(true));
  }

  lemma TestStopInnerInv(s: State, h: History, i: nat)
    requires Inv(s, h) && Enabled(s, Step(i)) && s.workers[i] == TestStopInner
    ensures Inv(WorkerStep(s, i), h)
  {
    OneWorkerInv(s, h, WorkerStep(s, i), i, if s.terminate[i] then TestStop(false) else Asleep);
  }

  lemma TestStopInv(s: State, h: History, i: nat)
    requires Inv(s, h) && Enabled(s, Step(i)) && s.workers[i].TestStop?
    ensures Inv(WorkerStep(s, i), h)
  {
    assert WorkerOk(s, h, i);
    OneWorkerInv(s, h, WorkerStep(s, i), i, if s.terminate[i] then Gone else Take);
  }

  lemma UnlockInv(s: State, h: History, i: nat)
    requires Inv(s, h) && Enabled(s, Step(i)) && s.workers[i].Unlock?
    ensures Inv(WorkerStep(s, i), h)
  {
    assert WorkerOk(s, h, i);
    assert s.owner == HeldBy(i);
    OneWorkerInv(s, h, WorkerStep(s, i), i, Execute(s.workers[i].job));
  }

  lemma ExecuteInv(s: State, h: History, i: nat)
    requires Inv(s, h) && Enabled(s, Step(i)) && s.workers[i].Execute?
    ensures Inv(WorkerStep(s, i), h)
  {
    var t, job := WorkerStep(s, i), s.workers[i].job;
    assert s.owner != HeldBy(i);
    OneWorkerControl(s, h, t, i, Lock);
    ListKept(s, t, h.stack);
    StoppingKept(s, t);
    ExecuteConserved(s, h, t, i);
  }

  lemma ExecuteConserved(s: State, h: History, t: State, i: nat)
    requires Conserved(s, h) && i < |s.workers| && s.workers[i].Execute?
    requires t.workers == s.workers[i := Lock] && t.added == s.added && t.taken == s.taken
    requires t.finished == s.finished + multiset{s.workers[i].job}
    ensures Conserved(t, h)
  {
    OneWorkerConserved(s, h, t, i, Lock);
  }

  lemma StepInv(s: State, h: History, a: Action)
    requires Inv(s, h) && Enabled(s, a) && Proper(h, a)
    ensures Inv(Next(s, a), NextHistory(s, h, a))
  {
    match a
    case Add(_, _) => AddInv(s, h, a);
    case CallShutdown => CallShutdownInv(s, h);
    case MarkOne => MarkOneInv(s, h);
    case ShutdownLocked => ShutdownLockedInv(s, h);
    case Wake(i) => OneWorkerInv(s, h, Next(s, a), i, Relock);
    case Step(i) => WorkerInv(s, h, i);
  }

  // ----- every run

  datatype Config = Config(state: State, history: History)

  /** Any interleaving; actions that cannot happen, and adding a job that is waiting, are skipped. */
  ghost function Run(c: Config, actions: seq<Action>): Config
    decreases |actions|
  {
    if actions == [] then c
    else
      var d, a := Run(c, actions[..|actions| - 1]), actions[|actions| - 1];
      if Enabled(d.state, a) && Proper(d.history, a)
      then Config(Next(d.state, a), NextHistory(d.state, d.history, a))
      else d
  }

  ghost function Start(n: nat): Config {
    Config(Initial(n), History([], multiset{}))
  }

  lemma {:induction false} RunInv(c: Config, actions: seq<Action>)
    requires Inv(c.state, c.history)
    ensures Inv(Run(c, actions).state, Run(c, actions).history)
    decreases |actions|
  {
    if actions != [] {
      var d, a := Run(c, actions[..|actions| - 1]), actions[|actions| - 1];
      RunInv(c, actions[..|actions| - 1]);
      if Enabled(d.state, a) && Proper(d.history, a) { StepInv(d.state, d.history, a); }
    }
  }

  /**
   Conservation over all runs of `n` workers: each addition of a job is waiting, in the hands of a
   worker, finished, or dropped by shutdown, and no job waits twice.
   */
  lemma {:induction false} JobsConserved(n: nat, actions: seq<Action>, j: Job)
    ensures var c := Run(Start(n), actions);
      c.state.added[j] ==
        multiset(c.history.stack)[j] + Hands(c.state.workers, j) + c.state.finished[j] + c.history.dropped[j] &&
      multiset(c.history.stack)[j] <= 1
  {
    InitialInv(n);
    RunInv(Start(n), actions);
    DistinctOnce(Run(Start(n), actions).history.stack, j);
  }

  lemma {:induction false} DistinctOnce(stack: seq<Job>, j: Job)
    requires forall k, m :: 0 <= k < m < |stack| ==> stack[k] != stack[m]
    ensures multiset(stack)[j] == if j in stack then 1 else 0
  {
    if stack != [] {
      var rest := stack[1..];
      assert stack == [stack[0]] + rest;
      assert forall k :: 0 <= k < |rest| ==> rest[k] == stack[k + 1];
      DistinctOnce(rest, j);
    }
  }

  /** A job added once runs at most once, and is in one place only. */
  lemma {:induction false} AddedOnceRunsOnce(n: nat, actions: seq<Action>, j: Job)
    requires Run(Start(n), actions).state.added[j] == 1
    ensures var c := Run(Start(n), actions);
      Hands(c.state.workers, j) + c.state.finished[j] <= 1 &&
      (j in c.history.stack ==> Hands(c.state.workers, j) == c.state.finished[j] == c.history.dropped[j] == 0) &&
      (j in c.history.dropped ==> j !in c.history.stack && Hands(c.state.workers, j) == c.state.finished[j] == 0)
  {
    JobsConserved(n, actions, j);
    InitialInv(n);
    RunInv(Start(n), actions);
    DistinctOnce(Run(Start(n), actions).history.stack, j);
  }

  /** Only one worker at a time is between lock and unlock. */
  lemma MutualExclusion(s: State, h: History, i: nat, k: nat)
    requires Inv(s, h) && i < |s.workers| && k < |s.workers| && Holds(s.workers[i]) && Holds(s.workers[k])
    ensures i == k
  {
  }

  /** A worker that takes a job takes the newest waiting one. */
  lemma TakesNewest(s: State, h: History, i: nat)
    requires Inv(s, h) && Enabled(s, Step(i)) && s.workers[i] == Take
    ensures h.stack != [] && Next(s, Step(i)).workers[i] == Unlock(h.stack[0])
    ensures Next(s, Step(i)).taken == s.taken + multiset{h.stack[0]}
    ensures NextHistory(s, h, Step(i)).stack == h.stack[1..]
  {
    TakeStep(s, h, i);
  }

  // ----- after shutdown

  lemma NoTakeStep(s: State, h: History, a: Action)
    requires Inv(s, h) && s.listed == [] && Enabled(s, a)
    ensures Next(s, a).listed == [] && Next(s, a).taken == s.taken
  {
    if a.Step? { assert WorkerOk(s, h, a.worker); }
  }

  /** Once the locked part of shutdown is over, no job is taken in any continuation. */
  lemma {:induction false} NoTakeAfterShutdown(c: Config, actions: seq<Action>)
    requires Inv(c.state, c.history) && c.state.listed == []
    ensures Run(c, actions).state.listed == [] && Run(c, actions).state.taken == c.state.taken
    decreases |actions|
  {
    if actions != [] {
      var before, a := actions[..|actions| - 1], actions[|actions| - 1];
      NoTakeAfterShutdown(c, before);
      RunInv(c, before);
      var d := Run(c, before);
      if Enabled(d.state, a) && Proper(d.history, a) { NoTakeStep(d.state, d.history, a); }
    }
  }

  lemma ShutdownEmptiesList(s: State)
    requires Enabled(s, ShutdownLocked)
    ensures Next(s, ShutdownLocked).listed == [] && Next(s, ShutdownLocked).waiting == NULL
  {
  }

  // ----- a worker that has left its loop

  lemma FrozenStep(s: State, h: History, a: Action, i: nat)
    requires Inv(s, h) && i < |s.workers| && s.workers[i] == Gone && Enabled(s, a)
    ensures var t := Next(s, a);
      i < |t.workers| && t.workers[i] == Gone && t.added == s.added && t.taken == s.taken &&
      t.waiting == s.waiting && t.listed == s.listed && NextHistory(s, h, a) == h
  {
    assert s.owner == HeldBy(i);
    if a.Step? { assert a.worker != i; }
  }

  /**
   A worker leaves its loop with the mutex still locked. From then on no job is ever added, taken or
   dropped, in any continuation: a shutdown that has not yet cleared the queue never does.
   */
  lemma {:induction false} GoneFreezesQueue(c: Config, i: nat, actions: seq<Action>)
    requires Inv(c.state, c.history) && i < |c.state.workers| && c.state.workers[i] == Gone
    ensures var d := Run(c, actions);
      i < |d.state.workers| && d.state.workers[i] == Gone && d.history == c.history &&
      d.state.added == c.state.added && d.state.taken == c.state.taken && d.state.listed == c.state.listed
    decreases |actions|
  {
    if actions != [] {
      var before, a := actions[..|actions| - 1], actions[|actions| - 1];
      GoneFreezesQueue(c, i, before);
      RunInv(c, before);
      var d := Run(c, before);
      if Enabled(d.state, a) && Proper(d.history, a) { FrozenStep(d.state, d.history, a, i); }
    }
  }

  // ----- adding a job that is already waiting

  lemma {:induction false} FollowsRing(s: State, stack: seq<Job>, job: Job, r: seq<Job>, k: nat, at: nat)
    requires IsList(s, stack) && at < |stack| && stack[at] == job && IsList(ListAdd(s, job), r)
    requires k <= at
    ensures |r| > k + 1 && r[k + 1] == stack[k]
    decreases k
  {
    var t := ListAdd(s, job);
    if k == 0 {
      assert r[0] == job && t.links[job].next == stack[0];
    } else {
      FollowsRing(s, stack, job, r, k - 1, at);
      assert stack[k - 1] != job;
      assert t.links[r[k]].next == stack[k];
    }
  }

  /** A job added while it waits closes a ring: following `next` never reaches the end. */
  lemma AddWaitingIsNoList(s: State, stack: seq<Job>, job: Job, r: seq<Job>)
    requires IsList(s, stack) && job in stack
    ensures !IsList(ListAdd(s, job), r)
  {
    var at :| 0 <= at < |stack| && stack[at] == job;
    if IsList(ListAdd(s, job), r) { FollowsRing(s, stack, job, r, at, at); }
  }

  /** `LL_ADD` leaves a list that ends, exactly when the job was not already in it. */
  lemma AddIsListIff(s: State, stack: seq<Job>, job: Job)
    requires IsList(s, stack) && job != NULL
    ensures (exists r :: IsList(ListAdd(s, job), r)) <==> job !in stack
  {
    if job !in stack {
      AddList(s, stack, job);
    } else {
      forall r ensures !IsList(ListAdd(s, job), r) { AddWaitingIsNoList(s, stack, job, r); }
    }
  }
}

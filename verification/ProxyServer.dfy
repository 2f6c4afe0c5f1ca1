/**
 The queue of proxyserver.c shared by listeners and workers under one mutex and one condition
 variable.  A step is one region between pthread_mutex_lock and pthread_mutex_unlock (or the wait
 that releases the mutex); any number of threads take steps in any order, pthread_cond_signal wakes
 at least one waiter if there is one, and a waiter may wake up for no reason.
 */
module ProxyServer {
  import opened JobQueue

  /** `Waiting` is inside pthread_cond_wait; `Woken` has been signalled and waits for the mutex. */
  datatype Worker = Running | Waiting | Woken

  /** `accepted` and `delivered` are all requests ever put into the queue and taken out of it. */
  datatype State = State(queue: multiset<Item>, workers: seq<Worker>, accepted: multiset<Item>,
                         delivered: multiset<Item>)

  datatype Event =
    | Enqueue(job: Item, wake: set<nat>)
    | Full
    | GetJob(job: Item)
    | NoJob
    | Serve(w: nat, job: Item)
    | Wait(w: nat)
    | Spurious(w: nat)

  ghost predicate AnyWaiting(workers: seq<Worker>) {
    exists w :: 0 <= w < |workers| && workers[w].Waiting?
  }

  /** pthread_cond_signal may wake the threads `wake`. */
  ghost predicate MayWake(workers: seq<Worker>, wake: set<nat>) {
    && (forall w :: w in wake ==> w < |workers| && workers[w].Waiting?)
    && (AnyWaiting(workers) ==> wake != {})
  }

  function WakeUp(workers: seq<Worker>, wake: set<nat>): (ws: seq<Worker>)
    ensures |ws| == |workers|
  {
    seq(|workers|, w requires 0 <= w < |workers| => if w in wake then Woken else workers[w])
  }

  ghost predicate IsTop(queue: multiset<Item>, job: Item) {
    job in queue && forall x :: x in queue ==> x.priority <= job.priority
  }

  function Taken(s: State, job: Item): State {
    s.(queue := s.queue - multiset{job}, delivered := s.delivered + multiset{job})
  }

  /** Worker `w` holds the mutex at the test of the queue's size. */
  ghost predicate AtTest(s: State, w: nat) {
    w < |s.workers| && !s.workers[w].Waiting?
  }

  ghost predicate Next(cap: nat, s: State, e: Event, t: State) {
    match e
    case Enqueue(job, wake) =>
      && |s.queue| != cap && MayWake(s.workers, wake)
      && t == s.(queue := s.queue + multiset{job}, accepted := s.accepted + multiset{job},
                 workers := WakeUp(s.workers, wake))
    case Full => |s.queue| == cap && t == s
    case GetJob(job) => IsTop(s.queue, job) && t == Taken(s, job)
    case NoJob => |s.queue| == 0 && t == s
    case Serve(w, job) => AtTest(s, w) && |s.queue| != 0 && IsTop(s.queue, job) &&
         t == Taken(s, job).(workers := s.workers[w := Running])
    case Wait(w) => AtTest(s, w) && |s.queue| == 0 && t == s.(workers := s.workers[w := Waiting])
    case Spurious(w) => w < |s.workers| && s.workers[w].Waiting? && t == s.(workers := s.workers[w := Woken])
  }

  function Start(n: nat): State {
    State(multiset{}, seq(n, _ => Running), multiset{}, multiset{})
  }

  ghost predicate IsRun(cap: nat, n: nat, es: seq<Event>, ss: seq<State>) {
    && |ss| == |es| + 1 && ss[0] == Start(n)
    && forall i :: 0 <= i < |es| ==> Takes(cap, es, ss, i)
  }

  ghost predicate Takes(cap: nat, es: seq<Event>, ss: seq<State>, i: nat)
    requires i < |es| && |ss| == |es| + 1
  {
    Next(cap, ss[i], es[i], ss[i + 1])
  }

  /** Workers that have been signalled and have not looked at the queue yet. */
  function CountWoken(workers: seq<Worker>): nat {
    if workers == [] then 0
    else CountWoken(workers[..|workers| - 1]) + if workers[|workers| - 1].Woken? then 1 else 0
  }

  /**
   The queue is never overfull, every accepted request is queued or delivered but not both, and if
   some worker still waits then every queued job has a signalled worker on its way to it.
   */
  ghost predicate Inv(cap: nat, s: State) {
    && |s.queue| <= cap
    && s.accepted == s.queue + s.delivered
    && (AnyWaiting(s.workers) ==> |s.queue| <= CountWoken(s.workers))
  }

  lemma {:induction false} CountUpdate(workers: seq<Worker>, w: nat, x: Worker)
    requires w < |workers|
    ensures CountWoken(workers[w := x]) ==
            CountWoken(workers) - (if workers[w].Woken? then 1 else 0) + (if x.Woken? then 1 else 0)
  {
    var l := |workers| - 1;
    if w < l {
      CountUpdate(workers[..l], w, x);
      assert workers[w := x][..l] == workers[..l][w := x];
    } else {
      assert workers[w := x][..l] == workers[..l];
    }
  }

  /** A signal makes at least one more worker woken if some are waiting, and never fewer. */
  lemma {:induction false} CountWakeUp(workers: seq<Worker>, wake: set<nat>)
    requires forall w :: w in wake ==> w < |workers| && workers[w].Waiting?
    ensures CountWoken(WakeUp(workers, wake)) == CountWoken(workers) + |wake|
  {
    if wake == {} {
      assert WakeUp(workers, wake) == workers;
    } else {
      var w :| w in wake;
      CountWakeUp(workers, wake - {w});
      CountUpdate(WakeUp(workers, wake - {w}), w, Woken);
      assert WakeUp(workers, wake) == WakeUp(workers, wake - {w})[w := Woken];
    }
  }

  lemma {:induction false} EnqueueKeepsInv(cap: nat, s: State, job: Item, wake: set<nat>, t: State)
    requires Inv(cap, s) && Next(cap, s, Enqueue(job, wake), t)
    ensures Inv(cap, t)
  {
    hide CountWoken;
    CountWakeUp(s.workers, wake);
    if AnyWaiting(t.workers) {
      var w :| 0 <= w < |t.workers| && t.workers[w].Waiting?;
      assert s.workers[w].Waiting?;
      assert |wake| > 0;
    }
  }

  lemma {:induction false} ServeKeepsInv(cap: nat, s: State, w: nat, job: Item, t: State)
    requires Inv(cap, s) && Next(cap, s, Serve(w, job), t)
    ensures Inv(cap, t)
  {
    hide CountWoken;
    CountUpdate(s.workers, w, Running);
    if AnyWaiting(t.workers) {
      var x :| 0 <= x < |t.workers| && t.workers[x].Waiting?;
      assert s.workers[x].Waiting?;
    }
  }

  lemma {:induction false} NextKeepsInv(cap: nat, s: State, e: Event, t: State)
    requires Inv(cap, s) && Next(cap, s, e, t)
    ensures Inv(cap, t)
  {
    hide CountWoken;
    match e
    case Enqueue(job, wake) => EnqueueKeepsInv(cap, s, job, wake, t);
    case Serve(w, job) => ServeKeepsInv(cap, s, w, job, t);
    case Wait(w) =>
    case Spurious(w) => CountUpdate(s.workers, w, Woken);
    case Full =>
    case GetJob(job) =>
    case NoJob =>
  }

  /** In every run, whatever the order of the threads' steps. */
  lemma {:induction false} RunsKeepInv(cap: nat, n: nat, es: seq<Event>, ss: seq<State>, i: nat)
    requires IsRun(cap, n, es, ss) && i < |ss|
    ensures Inv(cap, ss[i])
  {
    if i > 0 {
      RunsKeepInv(cap, n, es, ss, i - 1);
      assert Takes(cap, es, ss, i - 1);
      NextKeepsInv(cap, ss[i - 1], es[i - 1], ss[i]);
    }
  }

  /** A job is never left behind: if all signalled workers have run and one still waits, the queue is empty. */
  lemma {:induction false} NobodyWaitsInVain(cap: nat, n: nat, es: seq<Event>, ss: seq<State>, i: nat)
    requires IsRun(cap, n, es, ss) && i < |ss| && AnyWaiting(ss[i].workers) &&
             forall w :: 0 <= w < |ss[i].workers| ==> !ss[i].workers[w].Woken?
    ensures ss[i].queue == multiset{} && ss[i].accepted == ss[i].delivered
  {
    RunsKeepInv(cap, n, es, ss, i);
    NoneWoken(ss[i].workers);
  }

  lemma {:induction false} NoneWoken(workers: seq<Worker>)
    requires forall w :: 0 <= w < |workers| ==> !workers[w].Woken?
    ensures CountWoken(workers) == 0
  {
    if workers != [] {
      NoneWoken(workers[..|workers| - 1]);
    }
  }

  class Proxy {
    const pq: PriorityQueue
    const maxQueueSize: nat
    var workers: seq<Worker>
    ghost var accepted: multiset<Item>
    ghost var delivered: multiset<Item>

    ghost predicate Valid()
      reads this, pq, pq.items
    {
      pq.Valid() && pq.items.Length == maxQueueSize && pq.size <= maxQueueSize && Inv(maxQueueSize, Abs())
    }

    ghost function Abs(): State
      requires pq.Valid()
      reads this, pq, pq.items
    {
      State(pq.Items(), workers, accepted, delivered)
    }

    constructor (maxQueueSize: nat, n: nat)
      ensures Valid() && Abs() == Start(n) && this.maxQueueSize == maxQueueSize && fresh(pq) && fresh(pq.items)
    {
      pq := new PriorityQueue(maxQueueSize);
      this.maxQueueSize := maxQueueSize;
      workers := seq(n, _ => Running);
      accepted, delivered := multiset{}, multiset{};
    }

    /** The listener's second region: false if the queue is full. `wake` is whom the signal wakes. */
    method Accept(req: Request, priority: int, wake: set<nat>) returns (queued: bool, ghost e: Event)
      requires Valid() && MayWake(workers, wake)
      modifies this, pq, pq.items
      ensures Valid() && Next(maxQueueSize, old(Abs()), e, Abs())
      ensures queued <==> old(pq.size) != maxQueueSize
      ensures e == if queued then Enqueue(Item(req, priority), wake) else Full
      ensures pq.Items() == if queued then old(pq.Items()) + multiset{Item(req, priority)} else old(pq.Items())
    {
      hide Heap, Inv, WakeUp, MayWake, AnyWaiting;
      if pq.size == maxQueueSize {
        e := Full;
        return false, e;
      }
      ghost var s := Abs();
      pq.AddWork(req, priority);
      workers := WakeUp(workers, wake);
      accepted := accepted + multiset{Item(req, priority)};
      e := Enqueue(Item(req, priority), wake);
      NextKeepsInv(maxQueueSize, s, e, Abs());
      queued := true;
    }

    /** The listener's first region, for a /GetJob request. */
    method GetJobRequest() returns (r: int, job: Item, ghost e: Event)
      requires Valid()
      modifies this, pq, pq.items
      ensures Valid() && Next(maxQueueSize, old(Abs()), e, Abs())
      ensures e == if r == -1 then NoJob else GetJob(job)
      ensures r == -1 <==> old(pq.size) == 0
      ensures r != -1 ==> job in old(pq.Items()) && pq.Items() == old(pq.Items()) - multiset{job}
      ensures r != -1 ==> forall x :: x in old(pq.Items()) ==> x.priority <= job.priority
    {
      hide Heap, Inv, WakeUp, MayWake, AnyWaiting;
      ghost var s := Abs();
      r, job := pq.GetWork();
      if r == -1 {
        e := NoJob;
      } else {
        delivered := delivered + multiset{job};
        e := GetJob(job);
        NextKeepsInv(maxQueueSize, s, e, Abs());
      }
    }

    /**
     A worker's turn with the mutex: it waits if the queue is empty, and else get_work finds a
     request, one of the highest priority.
     */
    method WorkerTurn(w: nat) returns (waits: bool, r: int, job: Item, ghost e: Event)
      requires Valid() && w < |workers| && !workers[w].Waiting?
      modifies this, pq, pq.items
      ensures Valid() && Next(maxQueueSize, old(Abs()), e, Abs())
      ensures e == if waits then Wait(w) else Serve(w, job)
      ensures !waits ==> r == 1
      ensures waits <==> old(pq.size) == 0
      ensures !waits ==> job in old(pq.Items()) && pq.Items() == old(pq.Items()) - multiset{job}
      ensures !waits ==> forall x :: x in old(pq.Items()) ==> x.priority <= job.priority
    {
      hide Heap, Inv, WakeUp, MayWake, AnyWaiting;
      ghost var s := Abs();
      if pq.size == 0 {
        workers := workers[w := Waiting];
        e := Wait(w);
        NextKeepsInv(maxQueueSize, s, e, Abs());
        return true, 0, Item(Request(0, 0, "", ""), 0), e;
      }
      r, job := pq.GetWork();
      workers := workers[w := Running];
      delivered := delivered + multiset{job};
      e := Serve(w, job);
      NextKeepsInv(maxQueueSize, s, e, Abs());
      waits := false;
    }
  }
}

/** The prethreaded server whose main thread accepts (server/serv08.c) and hands the
    descriptors to its workers (server/pthread08.c) through a ring and a condition
    variable: a step system over every schedule. */
module PoolSpec {

  const MAXNCLI: nat := 32

  /** A worker thread between two of its atomic steps. */
  datatype Worker =
    | Idle               // about to lock the mutex at the top of its loop
    | Waiting            // inside Pthread_cond_wait, not signalled
    | Woken              // inside Pthread_cond_wait, about to take the mutex back
    | Claimed(fd: int)   // unlocked, thread_count not yet incremented
    | Serving(fd: int)   // inside web_child or Close

  /** `taken` records each dequeue: which worker, which descriptor. */
  datatype Pool = Pool(clifd: seq<int>, iget: nat, iput: nat, workers: seq<Worker>, count: seq<nat>,
                       quit: bool, accepted: seq<int>, taken: seq<(nat, int)>)

  datatype Event =
    | Accept(connfd: int, pick: nat)   // main's critical section; its signal wakes `pick`
    | Spurious(w: nat)                 // cond_wait returns without a signal
    | Lock(w: nat)                     // a worker holds the mutex: waits again or dequeues
    | Count(w: nat)
    | Finish(w: nat)

  predicate Shaped(s: Pool) {
    |s.clifd| == MAXNCLI && s.iget < MAXNCLI && s.iput < MAXNCLI && |s.count| == |s.workers|
  }

  function Next(i: nat): nat {
    if i + 1 == MAXNCLI then 0 else i + 1
  }

  predicate HasWaiter(ws: seq<Worker>) {
    Waiting in ws
  }

  /** Which events the mutex and the condition variable allow. A signal wakes a waiting
      thread if there is one. */
  predicate Enabled(s: Pool, e: Event) {
    !s.quit &&
    match e
    case Accept(_, pick) => HasWaiter(s.workers) ==> pick < |s.workers| && s.workers[pick] == Waiting
    case Spurious(w) => w < |s.workers| && s.workers[w] == Waiting
    case Lock(w) => w < |s.workers| && (s.workers[w] == Idle || s.workers[w] == Woken)
    case Count(w) => w < |s.workers| && s.workers[w].Claimed?
    case Finish(w) => w < |s.workers| && s.workers[w].Serving?
  }

  function AcceptStep(s: Pool, connfd: int, pick: nat): (t: Pool)
    requires Shaped(s) && Enabled(s, Accept(connfd, pick))
    ensures Shaped(t)
  {
    var r := s.(clifd := s.clifd[s.iput := connfd], iput := Next(s.iput));
    if r.iput == r.iget then r.(quit := true)
    else r.(accepted := s.accepted + [connfd],
            workers := if HasWaiter(s.workers) then s.workers[pick := Woken] else s.workers)
  }

  function LockStep(s: Pool, w: nat): (t: Pool)
    requires Shaped(s) && Enabled(s, Lock(w))
    ensures Shaped(t)
  {
    if s.iget == s.iput then s.(workers := s.workers[w := Waiting])
    else
      var fd := s.clifd[s.iget];
      s.(iget := Next(s.iget), workers := s.workers[w := Claimed(fd)], taken := s.taken + [(w, fd)])
  }

  function Step(s: Pool, e: Event): (t: Pool)
    requires Shaped(s) && Enabled(s, e)
    ensures Shaped(t) && |t.workers| == |s.workers|
  {
    match e
    case Accept(connfd, pick) => AcceptStep(s, connfd, pick)
    case Spurious(w) => s.(workers := s.workers[w := Woken])
    case Lock(w) => LockStep(s, w)
    case Count(w) =>
      s.(workers := s.workers[w := Serving(s.workers[w].fd)], count := s.count[w := s.count[w] + 1])
    case Finish(w) => s.(workers := s.workers[w := Idle])
  }

  predicate Initial(s: Pool) {
    && Shaped(s) && s.iget == s.iput == 0 && !s.quit && s.accepted == [] && s.taken == []
    && (forall w :: 0 <= w < |s.workers| ==> s.workers[w] == Idle && s.count[w] == 0)
  }

  /** `t` is reachable from `s` by the events `run`, each enabled when it happens. */
  ghost predicate Reaches(s: Pool, run: seq<Event>, t: Pool)
    requires Shaped(s)
    decreases |run|
  {
    if run == [] then t == s
    else Enabled(s, run[0]) && Reaches(Step(s, run[0]), run[1..], t)
  }

  // ---------------------------------------------------------------------
  // What every schedule keeps
  // ---------------------------------------------------------------------

  function Queued(s: Pool): nat
    requires Shaped(s)
  {
    (s.iput + MAXNCLI - s.iget) % MAXNCLI
  }

  /** The descriptors in the ring, oldest first. */
  function Queue(s: Pool): (q: seq<int>)
    requires Shaped(s)
    ensures |q| == Queued(s)
  {
    seq(Queued(s), k => s.clifd[(s.iget + k) % MAXNCLI])
  }

  function Fds(taken: seq<(nat, int)>): (f: seq<int>)
    ensures |f| == |taken|
  {
    seq(|taken|, k requires 0 <= k < |taken| => taken[k].1)
  }

  /** The descriptors that worker `w` has dequeued. */
  function Mine(taken: seq<(nat, int)>, w: nat): seq<int> {
    if taken == [] then []
    else
      var n := |taken| - 1;
      Mine(taken[..n], w) + if taken[n].0 == w then [taken[n].1] else []
  }

  function WokenCount(ws: seq<Worker>): nat {
    if ws == [] then 0 else WokenCount(ws[1..]) + if ws[0] == Woken then 1 else 0
  }

  lemma {:induction false} WokenCountUpdate(ws: seq<Worker>, k: nat, v: Worker)
    requires k < |ws|
    ensures WokenCount(ws[k := v]) ==
      WokenCount(ws) - (if ws[k] == Woken then 1 else 0) + if v == Woken then 1 else 0
  {
    if k == 0 {
      assert ws[0 := v][1..] == ws[1..];
    } else {
      WokenCountUpdate(ws[1..], k - 1, v);
      assert ws[k := v][1..] == ws[1..][k - 1 := v];
    }
  }

  lemma {:induction false} WokenCountPositive(ws: seq<Worker>)
    requires WokenCount(ws) > 0
    ensures exists w :: 0 <= w < |ws| && ws[w] == Woken
  {
    if ws[0] != Woken {
      WokenCountPositive(ws[1..]);
      var w :| 0 <= w < |ws[1..]| && ws[1..][w] == Woken;
      assert ws[w + 1] == Woken;
    }
  }

  /** Each accepted descriptor is either dequeued, in order, or still in the ring. */
  ghost predicate InOrder(s: Pool)
    requires Shaped(s)
  {
    s.accepted == Fds(s.taken) + Queue(s)
  }

  /** No wakeup is lost: while a thread waits unsignalled, every queued descriptor is
      matched by a signalled thread that has not run yet. */
  ghost predicate NoLostWakeup(s: Pool)
    requires Shaped(s)
  {
    HasWaiter(s.workers) ==> Queued(s) <= WokenCount(s.workers)
  }

  /** The counters and the descriptor in hand agree with the record of dequeues. */
  ghost predicate Accounted(s: Pool)
    requires Shaped(s)
  {
    forall w :: 0 <= w < |s.workers| ==>
      var mine := Mine(s.taken, w);
      && s.count[w] == |mine| - (if s.workers[w].Claimed? then 1 else 0)
      && (s.workers[w].Claimed? || s.workers[w].Serving? ==> mine != [] && mine[|mine| - 1] == s.workers[w].fd)
  }

  ghost predicate Inv(s: Pool) {
    Shaped(s) && (!s.quit ==> InOrder(s) && NoLostWakeup(s) && Accounted(s))
  }

  lemma QueueAccept(s: Pool, connfd: int, pick: nat)
    requires Shaped(s) && Enabled(s, Accept(connfd, pick)) && !AcceptStep(s, connfd, pick).quit
    ensures Queue(AcceptStep(s, connfd, pick)) == Queue(s) + [connfd]
  {
    var t := AcceptStep(s, connfd, pick);
    var n := Queued(s);
    assert n < MAXNCLI - 1 && Queued(t) == n + 1;
    assert (s.iget + n) % MAXNCLI == s.iput;
    forall k | 0 <= k < n + 1 ensures Queue(t)[k] == (Queue(s) + [connfd])[k] {
      assert k < n ==> (s.iget + k) % MAXNCLI != s.iput;
    }
  }

  lemma NextPlace(i: nat, k: nat)
    requires i < MAXNCLI
    ensures (Next(i) + k) % MAXNCLI == (i + (k + 1)) % MAXNCLI
  {
  }

  lemma QueuedLess(s: Pool, t: Pool)
    requires Shaped(s) && Shaped(t) && s.iget != s.iput && t.iget == Next(s.iget) && t.iput == s.iput
    ensures Queued(t) + 1 == Queued(s)
  {
  }

  lemma QueueDequeue(s: Pool, w: nat)
    requires Shaped(s) && Enabled(s, Lock(w)) && s.iget != s.iput
    ensures var t := LockStep(s, w);
      Queued(t) == Queued(s) - 1 && Queue(s) == [s.clifd[s.iget]] + Queue(t)
  {
    hide Queued;
    var t := LockStep(s, w);
    QueuedLess(s, t);
    var a, b := Queue(s), [s.clifd[s.iget]] + Queue(t);
    forall k | 0 <= k < |a| ensures a[k] == b[k] {
      if k > 0 {
        NextPlace(s.iget, k - 1);
      }
    }
  }

  lemma StepKeepsOrder(s: Pool, e: Event)
    requires Shaped(s) && InOrder(s) && Enabled(s, e) && !Step(s, e).quit
    ensures InOrder(Step(s, e))
  {
    hide Queue, Queued;
    var t := Step(s, e);
    match e
    case Accept(connfd, pick) =>
      QueueAccept(s, connfd, pick);
      assert Fds(s.taken) + Queue(s) + [connfd] == Fds(s.taken) + (Queue(s) + [connfd]);
    case Lock(w) =>
      if s.iget == s.iput {
        SameQueue(s, t);
      } else {
        QueueDequeue(s, w);
        var fd := s.clifd[s.iget];
        assert Fds(t.taken) == Fds(s.taken) + [fd];
        assert Fds(s.taken) + ([fd] + Queue(t)) == Fds(s.taken) + [fd] + Queue(t);
      }
    case _ =>
      SameQueue(s, t);
  }

  lemma SameQueue(s: Pool, t: Pool)
    requires Shaped(s) && Shaped(t) && s.clifd == t.clifd && s.iget == t.iget && s.iput == t.iput
    ensures Queue(s) == Queue(t)
  {
  }

  lemma StepKeepsWakeups(s: Pool, e: Event)
    requires Shaped(s) && NoLostWakeup(s) && Enabled(s, e) && !Step(s, e).quit
    ensures NoLostWakeup(Step(s, e))
  {
    hide WokenCount;
    var t := Step(s, e);
    match e
    case Accept(connfd, pick) =>
      QueueAccept(s, connfd, pick);
      if HasWaiter(s.workers) {
        WokenCountUpdate(s.workers, pick, Woken);
      }
    case Spurious(w) => WokenCountUpdate(s.workers, w, Woken);
    case Lock(w) =>
      WokenCountUpdate(s.workers, w, t.workers[w]);
      if s.iget != s.iput {
        QueueDequeue(s, w);
        NoNewWaiter(s.workers, w, t.workers[w]);
      }
    case Count(w) =>
      WokenCountUpdate(s.workers, w, t.workers[w]);
      NoNewWaiter(s.workers, w, t.workers[w]);
    case Finish(w) =>
      WokenCountUpdate(s.workers, w, Idle);
      NoNewWaiter(s.workers, w, Idle);
  }

  lemma NoNewWaiter(ws: seq<Worker>, w: nat, v: Worker)
    requires w < |ws| && v != Waiting
    ensures HasWaiter(ws[w := v]) ==> HasWaiter(ws)
  {
    if HasWaiter(ws[w := v]) {
      var k :| 0 <= k < |ws| && ws[w := v][k] == Waiting;
      assert ws[k] == Waiting;
    }
  }

  lemma MineSnoc(taken: seq<(nat, int)>, x: (nat, int), w: nat)
    ensures Mine(taken + [x], w) == Mine(taken, w) + if x.0 == w then [x.1] else []
  {
    assert (taken + [x])[..|taken|] == taken;
  }

  lemma StepKeepsAccounts(s: Pool, e: Event)
    requires Shaped(s) && Accounted(s) && Enabled(s, e) && !Step(s, e).quit
    ensures Accounted(Step(s, e))
  {
    hide Mine;
    var t := Step(s, e);
    forall w | 0 <= w < |t.workers|
      ensures var mine := Mine(t.taken, w);
        && t.count[w] == |mine| - (if t.workers[w].Claimed? then 1 else 0)
        && (t.workers[w].Claimed? || t.workers[w].Serving? ==> mine != [] && mine[|mine| - 1] == t.workers[w].fd)
    {
      if e.Lock? && s.iget != s.iput {
        MineSnoc(s.taken, (e.w, s.clifd[s.iget]), w);
      }
    }
  }

  lemma StepKeepsInv(s: Pool, e: Event)
    requires Inv(s) && Enabled(s, e)
    ensures Inv(Step(s, e))
  {
    hide InOrder, NoLostWakeup, Accounted;
    if !Step(s, e).quit {
      StepKeepsOrder(s, e);
      StepKeepsWakeups(s, e);
      StepKeepsAccounts(s, e);
    }
  }

  lemma InitialInv(s: Pool)
    requires Initial(s)
    ensures Inv(s)
  {
  }

  lemma {:induction false} RunKeepsInv(s: Pool, run: seq<Event>, t: Pool)
    requires Inv(s) && Reaches(s, run, t)
    ensures Inv(t)
    decreases |run|
  {
    hide InOrder, NoLostWakeup, Accounted;
    if run != [] {
      StepKeepsInv(s, run[0]);
      RunKeepsInv(Step(s, run[0]), run[1..], t);
    }
  }

  /** For any number of workers and any schedule: the k-th dequeue gets the k-th accepted
      descriptor, every accepted one is dequeued once or still queued, each worker's
      counter counts its own dequeues, and no wakeup is lost. */
  lemma ServedInOrder(s: Pool, run: seq<Event>, t: Pool)
    requires Initial(s) && Reaches(s, run, t) && !t.quit
    ensures Shaped(t) && t.accepted == Fds(t.taken) + Queue(t)
    ensures forall k :: 0 <= k < |t.taken| ==> t.taken[k].1 == t.accepted[k]
    ensures NoLostWakeup(t) && Accounted(t)
  {
    InitialInv(s);
    RunKeepsInv(s, run, t);
  }

  /** "iput = iget" ends the server exactly when 31 descriptors were queued already. */
  lemma OverflowExactly(s: Pool, connfd: int, pick: nat)
    requires Shaped(s) && Enabled(s, Accept(connfd, pick))
    ensures AcceptStep(s, connfd, pick).quit <==> Queued(s) == MAXNCLI - 1
  {
  }

  // ---------------------------------------------------------------------
  // No schedule gets stuck with work left
  // ---------------------------------------------------------------------

  /** A worker's step other than a spurious wakeup. */
  predicate IsWork(e: Event) {
    e.Lock? || e.Count? || e.Finish?
  }

  function Effort(w: Worker): nat {
    match w
    case Idle => 1
    case Waiting => 0
    case Woken => 1
    case Claimed(_) => 3
    case Serving(_) => 2
  }

  function Efforts(ws: seq<Worker>): nat {
    if ws == [] then 0 else Effort(ws[0]) + Efforts(ws[1..])
  }

  lemma {:induction false} EffortsUpdate(ws: seq<Worker>, k: nat, v: Worker)
    requires k < |ws|
    ensures Efforts(ws[k := v]) == Efforts(ws) - Effort(ws[k]) + Effort(v)
  {
    if k == 0 {
      assert ws[0 := v][1..] == ws[1..];
    } else {
      EffortsUpdate(ws[1..], k - 1, v);
      assert ws[k := v][1..] == ws[1..][k - 1 := v];
    }
  }

  /** How many steps the workers can still take before all of them wait. */
  function WorkLeft(s: Pool): nat
    requires Shaped(s)
  {
    3 * Queued(s) + Efforts(s.workers)
  }

  lemma WorkGetsDone(s: Pool, e: Event)
    requires Inv(s) && Enabled(s, e) && IsWork(e)
    ensures WorkLeft(Step(s, e)) == WorkLeft(s) - 1
  {
    hide Efforts;
    EffortsUpdate(s.workers, e.w, Step(s, e).workers[e.w]);
    if e.Lock? && s.iget != s.iput {
      QueueDequeue(s, e.w);
    }
  }

  /** While descriptors are queued, some worker can take a step: it is never the case
      that all of them wait unsignalled. */
  lemma WorkerCanRun(s: Pool)
    requires Inv(s) && !s.quit && |s.workers| > 0 && Queued(s) > 0
    ensures exists e :: IsWork(e) && Enabled(s, e)
  {
    hide Queued, WokenCount;
    if HasWaiter(s.workers) {
      WokenCountPositive(s.workers);
      var w :| 0 <= w < |s.workers| && s.workers[w] == Woken;
      assert Enabled(s, Lock(w));
    } else {
      match s.workers[0]
      case Claimed(_) => assert Enabled(s, Count(0));
      case Serving(_) => assert Enabled(s, Finish(0));
      case Waiting => assert false;
      case _ => assert Enabled(s, Lock(0));
    }
  }

  /** Every schedule of workers alone ends within `WorkLeft` steps... */
  lemma {:induction false} WorkIsBounded(s: Pool, run: seq<Event>, t: Pool)
    requires Inv(s) && Reaches(s, run, t) && forall e :: e in run ==> IsWork(e)
    ensures Shaped(t) && |run| + WorkLeft(t) == WorkLeft(s)
    decreases |run|
  {
    if run != [] {
      assert run[0] in run;
      WorkGetsDone(s, run[0]);
      StepKeepsInv(s, run[0]);
      WorkIsBounded(Step(s, run[0]), run[1..], t);
    }
  }

  /** ...and where it can go no further, every accepted descriptor has been dequeued and
      its service is over. */
  lemma StuckMeansDone(s: Pool)
    requires Inv(s) && !s.quit && |s.workers| > 0
    requires forall e :: Enabled(s, e) ==> !IsWork(e)
    ensures Fds(s.taken) == s.accepted
    ensures forall w :: 0 <= w < |s.workers| ==> s.workers[w] == Waiting && s.count[w] == |Mine(s.taken, w)|
  {
    if Queued(s) > 0 {
      WorkerCanRun(s);
    }
    assert Fds(s.taken) + Queue(s) == Fds(s.taken);
    forall w | 0 <= w < |s.workers| ensures s.workers[w] == Waiting {
      assert !Enabled(s, Lock(w)) && !Enabled(s, Count(w)) && !Enabled(s, Finish(w));
    }
  }
}

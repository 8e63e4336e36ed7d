/** The threads of server/serv08.c and server/pthread08.c on their shared variables:
    each method is one critical section or one unlocked statement, proved to take the
    step that `PoolSpec` describes. */
module PoolServer {
  import opened PoolSpec

  class Server {
    const clifd: array<int>
    var iget: nat
    var iput: nat
    const threadCount: array<nat>
    const workers: array<Worker>
    var quit: bool
    ghost var accepted: seq<int>
    ghost var taken: seq<(nat, int)>

    ghost predicate Valid()
      reads this
    {
      && clifd.Length == MAXNCLI && iget < MAXNCLI && iput < MAXNCLI
      && threadCount.Length == workers.Length
      && clifd as object != threadCount && clifd as object != workers && threadCount as object != workers
    }

    ghost function State(): (s: Pool)
      requires Valid()
      reads this, clifd, threadCount, workers
      ensures Shaped(s)
    {
      Pool(clifd[..], iget, iput, workers[..], threadCount[..], quit, accepted, taken)
    }

    constructor (nthreads: nat)
      ensures Valid() && Initial(State()) && workers.Length == nthreads
      ensures fresh(clifd) && fresh(threadCount) && fresh(workers)
    {
      clifd := new int[MAXNCLI](_ => 0);
      threadCount := new nat[nthreads](_ => 0);
      workers := new Worker[nthreads](_ => Idle);
      iget, iput, quit := 0, 0, false;
      accepted, taken := [], [];
    }

    /** Lines 39-46 of serv08.c; `pick` is the thread that the signal releases. */
    method Enqueue(connfd: int, pick: nat)
      requires Valid() && Enabled(State(), Accept(connfd, pick))
      modifies this, clifd, workers
      ensures Valid() && State() == Step(old(State()), Accept(connfd, pick))
    {
      clifd[iput] := connfd;
      iput := iput + 1;
      if iput == MAXNCLI {
        iput := 0;
      }
      if iput == iget {
        quit := true;   // err_quit
        return;
      }
      accepted := accepted + [connfd];
      if pick < workers.Length && workers[pick] == Waiting {
        workers[pick] := Woken;
      }
    }

    /** Lines 21-27 of pthread08.c: worker `w` holds the mutex and tests the ring. */
    method Dequeue(w: nat)
      requires Valid() && Enabled(State(), Lock(w))
      modifies this, workers
      ensures Valid() && State() == Step(old(State()), Lock(w))
    {
      if iget == iput {
        workers[w] := Waiting;
        return;
      }
      var connfd := clifd[iget];
      iget := iget + 1;
      if iget == MAXNCLI {
        iget := 0;
      }
      workers[w] := Claimed(connfd);
      taken := taken + [(w, connfd)];
    }

    /** Line 28: `tptr[i].thread_count++`, outside the mutex. */
    method CountConnection(w: nat)
      requires Valid() && Enabled(State(), Count(w))
      modifies workers, threadCount
      ensures Valid() && State() == Step(old(State()), Count(w))
    {
      threadCount[w] := threadCount[w] + 1;
      workers[w] := Serving(workers[w].fd);
    }

    /** Lines 30-31: `web_child` and `Close` are over. */
    method FinishConnection(w: nat)
      requires Valid() && Enabled(State(), Finish(w))
      modifies workers
      ensures Valid() && State() == Step(old(State()), Finish(w))
    {
      workers[w] := Idle;
    }

    method WakeSpuriously(w: nat)
      requires Valid() && Enabled(State(), Spurious(w))
      modifies workers
      ensures Valid() && State() == Step(old(State()), Spurious(w))
    {
      workers[w] := Woken;
    }

    /** One event, if it is enabled. */
    method Happen(e: Event) returns (enabled: bool)
      requires Valid()
      modifies this, clifd, threadCount, workers
      ensures Valid() && enabled == Enabled(old(State()), e)
      ensures State() == if enabled then Step(old(State()), e) else old(State())
    {
      enabled := !quit && match e
        case Accept(_, pick) => Waiting !in workers[..] || (pick < workers.Length && workers[pick] == Waiting)
        case Spurious(w) => w < workers.Length && workers[w] == Waiting
        case Lock(w) => w < workers.Length && (workers[w] == Idle || workers[w] == Woken)
        case Count(w) => w < workers.Length && workers[w].Claimed?
        case Finish(w) => w < workers.Length && workers[w].Serving?;
      if enabled {
        match e
        case Accept(connfd, pick) => Enqueue(connfd, pick);
        case Spurious(w) => WakeSpuriously(w);
        case Lock(w) => Dequeue(w);
        case Count(w) => CountConnection(w);
        case Finish(w) => FinishConnection(w);
      }
    }
  }

  /** The server under any schedule: what it has handed out is what it accepted, in
      order, and it never sleeps over queued descriptors. */
  method ServeUnder(nthreads: nat, schedule: seq<Event>) returns (server: Server)
    ensures server.Valid()
    ensures !server.quit ==>
      var s := server.State();
      s.accepted == Fds(s.taken) + Queue(s) && NoLostWakeup(s) && Accounted(s)
  {
    server := new Server(nthreads);
    InitialInv(server.State());
    for i := 0 to |schedule|
      invariant server.Valid() && Inv(server.State())
      invariant fresh(server) && fresh(server.clifd) && fresh(server.threadCount) && fresh(server.workers)
    {
      ghost var s := server.State();
      var enabled := server.Happen(schedule[i]);
      if enabled {
        StepKeepsInv(s, schedule[i]);
      }
    }
  }
}

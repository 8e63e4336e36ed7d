/** The parent of server/serv05.c and the children of server/child05.c on their own
    variables: each method is the code between two points where another process can run,
    proved to take the step that `PreforkSpec` describes. */
module PreforkServer {
  import opened Wrappers
  import PoolSpec
  import opened PreforkSpec

  class Parent {
    const cptr: array<Child>
    var navail: int
    var phase: Phase
    var quit: bool
    ghost var accepted: seq<(nat, int)>
    ghost var reported: seq<nat>
    ghost var collected: seq<nat>

    ghost function State(): PreforkSpec.Server
      reads this, cptr
    {
      PreforkSpec.Server(cptr[..], navail, phase, quit, accepted, reported, collected)
    }

    /** Lines 30-39 of serv05.c with `child_make`: all children available. */
    constructor (nchildren: nat)
      ensures Initial(State()) && cptr.Length == nchildren && fresh(cptr)
    {
      cptr := new Child[nchildren](_ => Child(0, 0, [], None, 0, []));
      navail, phase, quit := nchildren, AtSelect, false;
      accepted, reported, collected := [], seq(nchildren, _ => 0), seq(nchildren, _ => 0);
    }

    /** Lines 44-50: select returns; a parent without available children did not ask
        for connections. */
    method SelectReturns(conn: bool, bits: seq<bool>)
      requires Enabled(State(), Select(conn, bits))
      modifies this
      ensures State() == Step(old(State()), Select(conn, bits))
    {
      var nsel := if conn then 1 else 0;
      var k := 0;
      while k < |bits|
        invariant k <= |bits| && nsel + Bits(bits, k) == (if conn then 1 else 0) + Bits(bits, 0)
      {
        if bits[k] {
          nsel := nsel + 1;
        }
        k := k + 1;
      }
      phase := if conn then Chosen(bits, nsel) else Scanning(0, bits, nsel);
      reported := Named(reported, bits);
    }

    /** Lines 51-67: the first available child gets the connection. */
    method AcceptOne(connfd: int)
      requires Enabled(State(), Accept(connfd))
      modifies this, cptr
      ensures State() == Step(old(State()), Accept(connfd))
    {
      var i := 0;
      while i < cptr.Length && cptr[i].status != 0
        invariant i <= cptr.Length && forall k :: 0 <= k < i ==> cptr[k].status != 0
      {
        i := i + 1;
      }
      assert i == FirstFree(cptr[..]);
      if i == cptr.Length {
        quit := true;   // "no available children"
        return;
      }
      cptr[i] := cptr[i].(status := 1, count := cptr[i].count + 1, inbox := cptr[i].inbox + [connfd]);
      navail := navail - 1;
      accepted := accepted + [(i, connfd)];
      var nsel := phase.nsel - 1;
      phase := if nsel == 0 then AtSelect else Scanning(0, phase.rset, nsel);
    }

    /** One round of lines 71-80. */
    method ScanOne()
      requires Enabled(State(), Scan)
      modifies this, cptr
      ensures State() == Step(old(State()), Scan)
    {
      var i, rset, nsel := phase.i, phase.rset, phase.nsel;
      if i >= cptr.Length {
        phase := AtSelect;
        return;
      }
      if rset[i] {
        cptr[i] := cptr[i].(status := 0, ready := cptr[i].ready - 1);
        navail := navail + 1;
        collected := Read(collected, i);
        nsel := nsel - 1;
        if nsel == 0 {
          phase := AtSelect;
          return;
        }
      }
      phase := Scanning(i + 1, rset, nsel);
    }

    /** Lines 41-44 of child05.c: child `c` receives its descriptor. */
    method TakeConnection(c: nat)
      requires Enabled(State(), Take(c))
      modifies cptr
      ensures State() == Step(old(State()), Take(c))
    {
      cptr[c] := cptr[c].(inbox := cptr[c].inbox[1..], serving := Some(cptr[c].inbox[0]));
    }

    /** Lines 46-49 of child05.c: served, closed, and the ready byte written. */
    method FinishConnection(c: nat)
      requires Enabled(State(), Done(c))
      modifies cptr
      ensures State() == Step(old(State()), Done(c))
    {
      var fd := cptr[c].serving.value;
      cptr[c] := cptr[c].(serving := None, ready := cptr[c].ready + 1, served := cptr[c].served + [fd]);
    }

    /** One event, if it can happen now. */
    method Happen(e: Event) returns (enabled: bool)
      modifies this, cptr
      ensures enabled == Enabled(old(State()), e)
      ensures State() == if enabled then Step(old(State()), e) else old(State())
    {
      enabled := Enabled(PreforkSpec.Server(cptr[..], navail, phase, quit, [], [], []), e);
      if !enabled {
        return;
      }
      match e
      case Select(conn, bits) => SelectReturns(conn, bits);
      case Accept(connfd) => AcceptOne(connfd);
      case Scan => ScanOne();
      case Take(c) => TakeConnection(c);
      case Done(c) => FinishConnection(c);
    }
  }

  /** The server under any schedule; what cannot happen when it comes up does not. */
  method ServeUnder(nchildren: nat, schedule: seq<Event>) returns (server: Parent)
    ensures fresh(server) && fresh(server.cptr) && server.cptr.Length == nchildren
    ensures Inv(server.State()) && !server.quit
    ensures server.phase.AtSelect? ==> server.reported == server.collected
  {
    hide Accounted, Sum, AllMarked, Step, Enabled;
    server := new Parent(nchildren);
    InitialInv(server.State());
    for i := 0 to |schedule|
      invariant Inv(server.State()) && fresh(server) && fresh(server.cptr) && server.cptr.Length == nchildren
    {
      ghost var s := server.State();
      var enabled := server.Happen(schedule[i]);
      if enabled {
        StepKeepsInv(s, schedule[i]);
      }
    }
  }
}

/** The program of sigio/dgecho01.c on its own globals: `sig_io` with its receive loop,
    and the statements of `dg_echo`, each proved to take the step that `SigioSpec`
    describes. */
module SigioEcho {
  import opened Wrappers
  import opened SigioSpec

  class DgEcho {
    const dg: array<Datagram>
    const cntread: array<nat>
    const clilen: nat
    var iget: nat
    var iput: nat
    var nqueue: nat
    var pc: Pc
    ghost var received: seq<Datagram>
    ghost var sent: seq<Datagram>

    ghost predicate Valid()
      reads this, dg, cntread
    {
      dg.Length == QSIZE && cntread.Length == QSIZE + 1 && iget < QSIZE && iput < QSIZE
    }

    ghost function Globals(): (q: Queue)
      requires Valid()
      reads this, dg, cntread
      ensures Shaped(q)
    {
      Queue(dg[..], iget, iput, nqueue, cntread[..], clilen)
    }

    ghost function State(): (s: System)
      requires Valid()
      reads this, dg, cntread
      ensures Shaped(s.q)
    {
      System(Globals(), pc, received, sent)
    }

    constructor (blank: Datagram, clilen: nat)
      ensures Valid() && Initial(State()) && fresh(dg) && fresh(cntread)
    {
      dg := new Datagram[QSIZE](_ => blank);
      cntread := new nat[QSIZE + 1](_ => 0);
      this.clilen := clilen;
      iget, iput, nqueue := 0, 0, 0;
      pc, received, sent := Starting, [], [];
    }

    /** The signal handler: `batch` is what the calls of recvfrom return in turn. */
    method SigIo(batch: seq<Datagram>, error: bool) returns (quit: bool)
      requires Valid()
      modifies this`iput, this`nqueue, dg, cntread
      ensures Valid()
      ensures quit == Handler(old(Globals()), batch, error).None?
      ensures !quit ==> Globals() == Handler(old(Globals()), batch, error).value
    {
      ghost var start := Globals();
      ReceiveReturns(start, batch);
      var nread := 0;
      while true
        invariant Valid() && 0 <= nread <= |batch| && cntread[..] == start.cntread
        invariant nqueue == start.nqueue + nread && nread <= QSIZE
        invariant Receive(start, batch) == Receive(Globals(), batch[nread..])
        invariant Globals().clilen == start.clilen
        decreases |batch| - nread
      {
        if nqueue >= QSIZE {
          return true;   // err_quit("receive overflow")
        }
        ghost var before := Globals();
        dg[iput] := dg[iput].(salen := clilen);
        assert Globals() == Touch(before);
        if nread == |batch| {
          if error {
            return true; // err_sys("recvfrom error")
          }
          break;         // EWOULDBLOCK: no more queued to read
        }
        dg[iput] := batch[nread];
        nqueue := nqueue + 1;
        iput := iput + 1;
        if iput >= QSIZE {
          iput := 0;
        }
        assert Globals() == Store(Touch(before), batch[nread]);
        assert batch[nread..][1..] == batch[nread + 1..];
        nread := nread + 1;
      }
      ghost var last := Globals();
      cntread[nread] := cntread[nread] + 1;
      assert Globals() == last.(cntread := last.cntread[nread := last.cntread[nread] + 1]);
      return false;
    }

    /** The program is in state `s`; once the process is gone its globals no longer matter. */
    ghost predicate At(s: System)
      requires Valid()
      reads this, dg, cntread
    {
      pc == s.pc && received == s.received && sent == s.sent && (pc != Quit ==> Globals() == s.q)
    }

    /** Delivery of SIGIO, if the mask lets it through. */
    method Signal(batch: seq<Datagram>, error: bool)
      requires Valid()
      modifies this, dg, cntread
      ensures Valid() && At(SignalStep(old(State()), batch, error))
    {
      if pc == Starting || pc == Unblocked || pc.Sending? || pc == Sent || pc == Advanced
        || (pc == Testing && nqueue == 0)
      {
        var quit := SigIo(batch, error);
        if quit {
          pc := Quit;
        } else {
          received := received + batch;
        }
      }
    }

    /** The next statement of the main loop. */
    method Statement()
      requires Valid() && (pc == Retiring ==> nqueue > 0)
      modifies this
      ensures Valid() && At(MainStep(old(State())))
    {
      match pc
      case Starting =>
        pc := Testing;
      case Testing =>
        if nqueue != 0 {
          pc := Unblocked;
        }
      case Unblocked =>
        pc := Sending(dg[iget]);
      case Sending(_) =>
        sent := sent + [dg[iget]];
        pc := Sent;
      case Sent =>
        iget := iget + 1;
        if iget >= QSIZE {
          iget := 0;
        }
        pc := Advanced;
      case Advanced =>
        pc := Retiring;
      case Retiring =>
        nqueue := nqueue - 1;
        pc := Testing;
      case Quit =>
    }
  }

  /** `dg_echo` under an arbitrary schedule of signals: the program runs as the step
      system does, so its output is in arrival order whatever the schedule. */
  method DgEchoUnder(events: seq<Event>, blank: Datagram, clilen: nat) returns (echo: DgEcho)
    ensures echo.Valid() && echo.sent <= echo.received
    ensures exists s :: Initial(s) && echo.At(Run(s, events))
    ensures echo.pc == Testing && echo.nqueue == 0 ==> echo.sent == echo.received
  {
    echo := new DgEcho(blank, clilen);
    ghost var s := echo.State();
    InitialInv(s);
    assert events[..0] == [];
    for i := 0 to |events|
      invariant echo.Valid() && echo.At(Run(s, events[..i])) && fresh(echo) && fresh(echo.dg) && fresh(echo.cntread)
    {
      RunKeepsInv(s, events[..i]);
      ghost var t := Run(s, events[..i]);
      assert events[..i + 1][..i] == events[..i];
      if echo.pc != Quit {
        assert echo.State() == t;
        match events[i]
        case Main => echo.Statement();
        case Signal(batch, error) => echo.Signal(batch, error);
      }
    }
    assert events[..|events|] == events;
    RunKeepsInv(s, events);
  }
}
